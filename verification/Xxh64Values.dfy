/**
The XXH64 specification computed on published inputs, from the empty one to a text
long enough to go through every kind of round.
 */
module Xxh64Values {
  import opened Basics
  import opened Xxh64

  // "Call me Ishmael. Some years ago--never mind how long precisely-"

  const WORD_0: Bytes := [67, 97, 108, 108, 32, 109, 101, 32]
  const WORD_1: Bytes := [73, 115, 104, 109, 97, 101, 108, 46]
  const WORD_2: Bytes := [32, 83, 111, 109, 101, 32, 121, 101]
  const WORD_3: Bytes := [97, 114, 115, 32, 97, 103, 111, 45]
  const WORD_4: Bytes := [45, 110, 101, 118, 101, 114, 32, 109]
  const WORD_5: Bytes := [105, 110, 100, 32, 104, 111, 119, 32]
  const WORD_6: Bytes := [108, 111, 110, 103, 32, 112, 114, 101]
  const WORD_7: Bytes := [99, 105, 115, 101]
  const LAST: Bytes := [108, 121, 45]

  const STRIPE: Bytes := WORD_0 + WORD_1 + WORD_2 + WORD_3
  const TAIL: Bytes := WORD_4 + (WORD_5 + (WORD_6 + (WORD_7 + LAST)))

  lemma Letters()
    ensures Widen(32) == 0x20 && Widen(45) == 0x2D && Widen(46) == 0x2E && Widen(67) == 0x43 && Widen(73) == 0x49
    ensures Widen(83) == 0x53 && Widen(97) == 0x61 && Widen(98) == 0x62 && Widen(99) == 0x63 && Widen(100) == 0x64
    ensures Widen(101) == 0x65 && Widen(103) == 0x67 && Widen(104) == 0x68 && Widen(105) == 0x69 && Widen(108) == 0x6C
    ensures Widen(109) == 0x6D && Widen(110) == 0x6E && Widen(111) == 0x6F && Widen(112) == 0x70 && Widen(114) == 0x72
    ensures Widen(115) == 0x73 && Widen(118) == 0x76 && Widen(119) == 0x77 && Widen(121) == 0x79
  {
  }

  lemma Word0()
    ensures Load64(WORD_0) == 0x20656D206C6C6143
  {
    hide Widen;
    Letters();
  }

  lemma Word1()
    ensures Load64(WORD_1) == 0x2E6C65616D687349
  {
    hide Widen;
    Letters();
  }

  lemma Word2()
    ensures Load64(WORD_2) == 0x657920656D6F5320
  {
    hide Widen;
    Letters();
  }

  lemma Word3()
    ensures Load64(WORD_3) == 0x2D6F676120737261
  {
    hide Widen;
    Letters();
  }

  lemma Word4()
    ensures Load64(WORD_4) == 0x6D20726576656E2D
  {
    hide Widen;
    Letters();
  }

  lemma Word5()
    ensures Load64(WORD_5) == 0x20776F6820646E69
  {
    hide Widen;
    Letters();
  }

  lemma Word6()
    ensures Load64(WORD_6) == 0x65727020676E6F6C
  {
    hide Widen;
    Letters();
  }

  lemma Word7()
    ensures Load32(WORD_7) == 0x0000000065736963
  {
    hide Widen;
    Letters();
  }

  lemma Rounds()
    ensures Round(0x60EA27EEADC0B5D6, 0x20656D206C6C6143) == 0x670B8618B3AA2200
    ensures Round(0xC2B2AE3D27D4EB4F, 0x2E6C65616D687349) == 0xFC3FF3C0203BC028
    ensures Round(0x0000000000000000, 0x657920656D6F5320) == 0x9677E9E66681D852
    ensures Round(0x61C8864E7A143579, 0x2D6F676120737261) == 0xDA7D9AAFD0C02036
  {
  }

  lemma FourWords(a: Bytes, b: Bytes, c: Bytes, d: Bytes)
    requires |a| == |b| == |c| == |d| == 8
    ensures var block := a + b + c + d;
            block[0..8] == a && block[8..16] == b && block[16..24] == c && block[24..32] == d
  {
  }

  lemma StripeValue()
    ensures Consume(Seeded(), STRIPE) == Accumulators(0x670B8618B3AA2200, 0xFC3FF3C0203BC028, 0x9677E9E66681D852, 0xDA7D9AAFD0C02036)
  {
    assert Seeded() == Accumulators(0x60EA27EEADC0B5D6, 0xC2B2AE3D27D4EB4F, 0x0000000000000000, 0x61C8864E7A143579);
    hide Round, Load64, Seeded;
    FourWords(WORD_0, WORD_1, WORD_2, WORD_3);
    Word0();
    Word1();
    Word2();
    Word3();
    Rounds();
  }

  lemma ConvergeValue()
    ensures Converge(Accumulators(0x670B8618B3AA2200, 0xFC3FF3C0203BC028, 0x9677E9E66681D852, 0xDA7D9AAFD0C02036)) == 0xB89F94801D165F2A
  {
    assert Spread(Accumulators(0x670B8618B3AA2200, 0xFC3FF3C0203BC028, 0x9677E9E66681D852, 0xDA7D9AAFD0C02036)) == 0xD76E95AA2394EBDB;
    assert Merge(0xD76E95AA2394EBDB, 0x670B8618B3AA2200) == 0xD9CECBCFAB49C481;
    assert Merge(0xD9CECBCFAB49C481, 0xFC3FF3C0203BC028) == 0x6EE1A8BEE73B84E1;
    assert Merge(0x6EE1A8BEE73B84E1, 0x9677E9E66681D852) == 0x96B73AAB55D70966;
    assert Merge(0x96B73AAB55D70966, 0xDA7D9AAFD0C02036) == 0xB89F94801D165F2A;
  }

  lemma EightSteps()
    ensures Step8(0xB89F94801D165F69, WORD_4) == 0x0C718C0CF5EC8337
    ensures Step8(0x0C718C0CF5EC8337, WORD_5) == 0xDDA50D5890EEF8D0
    ensures Step8(0xDDA50D5890EEF8D0, WORD_6) == 0xE2E40EBEA20F90FF
    ensures Step4(0xE2E40EBEA20F90FF, WORD_7) == 0x2BCA5F8585968679
  {
    hide Load64, Load32;
    Word4();
    Word5();
    Word6();
    Word7();
  }

  lemma OneSteps()
    ensures Step1(0x2BCA5F8585968679, 108) == 0x165849E44031C250
    ensures Step1(0x165849E44031C250, 121) == 0x9669659C916E30C9
    ensures Step1(0x9669659C916E30C9, 45) == 0x7166E938EA5418D0
  {
    hide Widen;
    Letters();
  }

  lemma LastValue()
    ensures Remainder(0x2BCA5F8585968679, LAST) == 0x7166E938EA5418D0
  {
    hide Step1;
    OneSteps();
    assert LAST[1..] == [121, 45] && LAST[1..][1..] == [45] && LAST[1..][1..][1..] == [];
    assert Remainder(0x9669659C916E30C9, [45]) == 0x7166E938EA5418D0;
  }

  lemma NextEight(acc: bv64, word: Bytes, rest: Bytes)
    requires |word| == 8
    ensures Remainder(acc, word + rest) == Remainder(Step8(acc, word), rest)
  {
    hide Step8;
    assert (word + rest)[..8] == word && (word + rest)[8..] == rest;
  }

  lemma NextFour(acc: bv64, word: Bytes, rest: Bytes)
    requires |word| == 4 && |rest| < 4
    ensures Remainder(acc, word + rest) == Remainder(Step4(acc, word), rest)
  {
    hide Step4;
    assert (word + rest)[..4] == word && (word + rest)[4..] == rest;
  }

  lemma TailValue()
    ensures Remainder(0xB89F94801D165F69, TAIL) == 0x7166E938EA5418D0
  {
    hide Step8, Step4, Step1, Remainder;
    EightSteps();
    NextEight(0xB89F94801D165F69, WORD_4, WORD_5 + (WORD_6 + (WORD_7 + LAST)));
    NextEight(0x0C718C0CF5EC8337, WORD_5, WORD_6 + (WORD_7 + LAST));
    NextEight(0xDDA50D5890EEF8D0, WORD_6, WORD_7 + LAST);
    NextFour(0xE2E40EBEA20F90FF, WORD_7, LAST);
    LastValue();
  }

  lemma AvalancheValues()
    ensures Avalanche(PRIME_5) == 0xEF46DB3751D8E999
    ensures Avalanche(0xB86597E419D4D215) == 0xD24EC4F1A98C6E5B
    ensures Avalanche(0xE87A46F8B9A4C39E) == 0x44BC2CF5AD770999
    ensures Avalanche(0x7166E938EA5418D0) == 0x02A2E85470D6FD96
  {
  }

  lemma ShortSteps()
    ensures Add(PRIME_5, 0) == PRIME_5 && Add(PRIME_5, 1) == 0x27D4EB2F165667C6 && Add(PRIME_5, 3) == 0x27D4EB2F165667C8
    ensures Step1(0x27D4EB2F165667C6, 97) == 0xB86597E419D4D215
    ensures Step1(0x27D4EB2F165667C8, 97) == 0x0E6D11BDC91F0215
    ensures Step1(0x0E6D11BDC91F0215, 98) == 0x791983E9AB307069
    ensures Step1(0x791983E9AB307069, 99) == 0xE87A46F8B9A4C39E
  {
    Letters();
    hide Widen;
  }

  lemma LengthZero(data: Bytes)
    requires |data| == 0
    ensures Length64(data) as bv64 == 0
  {
  }

  lemma LengthOne(data: Bytes)
    requires |data| == 1
    ensures Length64(data) as bv64 == 1
  {
  }

  lemma LengthThree(data: Bytes)
    requires |data| == 3
    ensures Length64(data) as bv64 == 3
  {
  }

  lemma LengthText(data: Bytes)
    requires |data| == 63
    ensures Length64(data) as bv64 == 63
  {
  }

  lemma NextOne(acc: bv64, b: byte, rest: Bytes)
    requires |rest| < 3
    ensures Remainder(acc, [b] + rest) == Remainder(Step1(acc, b), rest)
  {
    hide Step1;
    assert ([b] + rest)[0] == b && ([b] + rest)[1..] == rest;
  }

  /** An input shorter than a stripe goes through its remainder alone. */
  lemma ShortHash(data: Bytes)
    requires |data| < 32
    ensures Hash(data) == Avalanche(Remainder(Add(PRIME_5, Length64(data) as bv64), data))
  {
    hide Avalanche, Remainder, Add, Length64;
    assert data[0..] == data;
  }

  lemma Nothing(acc: bv64)
    ensures Remainder(acc, []) == acc
  {
  }

  lemma EmptyValue()
    ensures Hash([]) == 0xEF46DB3751D8E999
  {
    hide Avalanche, Add, Length64, Remainder, Hash;
    ShortHash([]);
    LengthZero([]);
    ShortSteps();
    Nothing(PRIME_5);
    AvalancheValues();
  }

  lemma LetterValue()
    ensures Hash([97]) == 0xD24EC4F1A98C6E5B
  {
    hide Avalanche, Step1, Add, Length64, Remainder, Hash;
    ShortHash([97]);
    LengthOne([97]);
    ShortSteps();
    NextOne(0x27D4EB2F165667C6, 97, []);
    assert [97] + [] == [97];
    Nothing(0xB86597E419D4D215);
    AvalancheValues();
  }

  lemma LettersValue()
    ensures Hash([97, 98, 99]) == 0x44BC2CF5AD770999
  {
    hide Avalanche, Step1, Add, Length64, Remainder, Hash;
    ShortHash([97, 98, 99]);
    LengthThree([97, 98, 99]);
    ShortSteps();
    NextOne(0x27D4EB2F165667C8, 97, [98, 99]);
    NextOne(0x0E6D11BDC91F0215, 98, [99]);
    NextOne(0x791983E9AB307069, 99, []);
    assert [97] + [98, 99] == [97, 98, 99] && [98] + [99] == [98, 99] && [99] + [] == [99];
    Nothing(0xE87A46F8B9A4C39E);
    AvalancheValues();
  }

  /** The published values of the empty input, "a" and "abc". */
  lemma ShortValues()
    ensures Hash([]) == 0xEF46DB3751D8E999
    ensures Hash([97]) == 0xD24EC4F1A98C6E5B
    ensures Hash([97, 98, 99]) == 0x44BC2CF5AD770999
  {
    hide Hash;
    EmptyValue();
    LetterValue();
    LettersValue();
  }

  /** A stripe and less than another. */
  lemma OneStripe(stripe: Bytes, tail: Bytes)
    requires |stripe| == 32 && |tail| < 32
    ensures Hash(stripe + tail) ==
            Avalanche(Remainder(Add(Converge(Consume(Seeded(), stripe)), Length64(stripe + tail) as bv64), tail))
  {
    hide Avalanche, Remainder, Add, Length64, Converge, Consume, Seeded;
    var data := stripe + tail;
    assert data[..32] == stripe && data[32..] == tail;
    assert Stripes(Consume(Seeded(), stripe), tail) == Consume(Seeded(), stripe);
  }

  /** The published value of a text of one stripe, three eights, a four and three
      single bytes. */
  lemma TextValue()
    ensures Hash(STRIPE + TAIL) == 0x02A2E85470D6FD96
  {
    assert Add(0xB89F94801D165F2A, 63) == 0xB89F94801D165F69;
    assert |STRIPE| == 32 && |TAIL| == 31;
    hide Avalanche, Remainder, Converge, Consume, Seeded, Add, Length64, Hash;
    OneStripe(STRIPE, TAIL);
    LengthText(STRIPE + TAIL);
    StripeValue();
    ConvergeValue();
    TailValue();
    AvalancheValues();
  }
}
