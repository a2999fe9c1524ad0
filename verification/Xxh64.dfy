/**
XXH64 with seed zero (vcs/archive/xxh64.go): the streaming state, fed any split
of an input, computes the whole-buffer hash.
 */
module Xxh64 {
  import opened Basics

  const PRIME_1: bv64 := 11400714785074694791
  const PRIME_2: bv64 := 14029467366897019727
  const PRIME_3: bv64 := 1609587929392839161
  const PRIME_4: bv64 := 9650029242287828579
  const PRIME_5: bv64 := 2870177450012600261

  // ----- 64-bit operations, all wrapping -----

  function Add(a: bv64, b: bv64): bv64 {
    a + b
  }

  function Mul(a: bv64, b: bv64): bv64 {
    a * b
  }

  function Xor(a: bv64, b: bv64): bv64 {
    a ^ b
  }

  function Negate(a: bv64): bv64 {
    !a + 1
  }

  function Widen(b: byte): bv64 {
    b as bv64
  }

  // ----- the whole-buffer definition -----

  datatype Accumulators = Accumulators(v1: bv64, v2: bv64, v3: bv64, v4: bv64)

  function Seeded(): Accumulators {
    Accumulators(Add(PRIME_1, PRIME_2), PRIME_2, 0, Negate(PRIME_1))
  }

  function Load32(b: Bytes): bv64
    requires |b| == 4
  {
    Widen(b[0]) | (Widen(b[1]) << 8) | (Widen(b[2]) << 16) | (Widen(b[3]) << 24)
  }

  function Load64(b: Bytes): bv64
    requires |b| == 8
  {
    Widen(b[0]) | (Widen(b[1]) << 8) | (Widen(b[2]) << 16) | (Widen(b[3]) << 24) |
    (Widen(b[4]) << 32) | (Widen(b[5]) << 40) | (Widen(b[6]) << 48) | (Widen(b[7]) << 56)
  }

  function Round(acc: bv64, input: bv64): bv64 {
    Mul(Add(acc, Mul(input, PRIME_2)).RotateLeft(31), PRIME_1)
  }

  function Merge(acc: bv64, value: bv64): bv64 {
    Add(Mul(Xor(acc, Round(0, value)), PRIME_1), PRIME_4)
  }

  /** One 32-byte stripe, eight bytes to each accumulator. */
  function Consume(a: Accumulators, block: Bytes): Accumulators
    requires |block| == 32
  {
    Accumulators(Round(a.v1, Load64(block[0..8])), Round(a.v2, Load64(block[8..16])),
                 Round(a.v3, Load64(block[16..24])), Round(a.v4, Load64(block[24..32])))
  }

  /** All whole stripes of the input, in order. */
  function Stripes(a: Accumulators, data: Bytes): Accumulators
    decreases |data|
  {
    if |data| < 32 then a else Stripes(Consume(a, data[..32]), data[32..])
  }

  function Spread(a: Accumulators): bv64 {
    Add(Add(Add(a.v1.RotateLeft(1), a.v2.RotateLeft(7)), a.v3.RotateLeft(12)), a.v4.RotateLeft(18))
  }

  function Converge(a: Accumulators): bv64 {
    Merge(Merge(Merge(Merge(Spread(a), a.v1), a.v2), a.v3), a.v4)
  }

  function Step8(acc: bv64, b: Bytes): bv64
    requires |b| == 8
  {
    Add(Mul(Xor(acc, Round(0, Load64(b))).RotateLeft(27), PRIME_1), PRIME_4)
  }

  function Step4(acc: bv64, b: Bytes): bv64
    requires |b| == 4
  {
    Add(Mul(Xor(acc, Mul(Load32(b), PRIME_1)).RotateLeft(23), PRIME_2), PRIME_3)
  }

  function Step1(acc: bv64, b: byte): bv64 {
    Mul(Xor(acc, Mul(Widen(b), PRIME_5)).RotateLeft(11), PRIME_1)
  }

  /** The bytes after the last whole stripe: by eights, then a four, then singly. */
  function Remainder(acc: bv64, tail: Bytes): bv64
    decreases |tail|
  {
    if |tail| >= 8 then Remainder(Step8(acc, tail[..8]), tail[8..])
    else if |tail| >= 4 then Remainder(Step4(acc, tail[..4]), tail[4..])
    else if |tail| >= 1 then Remainder(Step1(acc, tail[0]), tail[1..])
    else acc
  }

  // A value xored with its own high bits.

  function Fold33(a: bv64): bv64 {
    a ^ (a >> 33)
  }

  function Fold29(a: bv64): bv64 {
    a ^ (a >> 29)
  }

  function Fold32(a: bv64): bv64 {
    a ^ (a >> 32)
  }

  function Avalanche(acc: bv64): bv64 {
    Fold32(Mul(Fold29(Mul(Fold33(acc), PRIME_2)), PRIME_3))
  }

  /** Length of the whole-stripe prefix. */
  function Whole(data: Bytes): (n: nat)
    ensures n <= |data| && n % 32 == 0 && |data| - n < 32
  {
    |data| - |data| % 32
  }

  /** The input's length as the hash sees it, in 64 bits. */
  function Length64(data: Bytes): (length: u64)
    ensures length <= |data|
  {
    |data| % TWO_64
  }

  /** The hash of a whole buffer, as the xxHash specification defines it. */
  function Hash(data: Bytes): bv64 {
    var start := if |data| >= 32 then Converge(Stripes(Seeded(), data)) else PRIME_5;
    Avalanche(Remainder(Add(start, Length64(data) as bv64), data[Whole(data)..]))
  }

  /** The 64-bit length still tells whether there was a whole stripe. Only an input
      whose length is less than one stripe past a multiple of 2^64 is taken for a
      short one. */
  predicate Countable(data: Bytes) {
    |data| < 32 || Length64(data) >= 32
  }

  /** The low 32 bits: the checksum a frame carries. */
  function Lo32(data: Bytes): u32 {
    (Hash(data) as int) % TWO_32
  }

  // ----- stripes and splits -----

  lemma {:induction false} StripesConcat(a: Accumulators, head: Bytes, tail: Bytes)
    requires |head| % 32 == 0
    ensures Stripes(a, head + tail) == Stripes(Stripes(a, head), tail)
    decreases |head|
  {
    hide Consume;
    if head == [] {
      assert head + tail == tail;
    } else {
      assert (head + tail)[..32] == head[..32];
      assert (head + tail)[32..] == head[32..] + tail;
      StripesConcat(Consume(a, head[..32]), head[32..], tail);
    }
  }

  lemma StripesSnoc(a: Accumulators, head: Bytes, block: Bytes)
    requires |head| % 32 == 0 && |block| == 32
    ensures Stripes(a, head + block) == Consume(Stripes(a, head), block)
  {
    hide Consume;
    StripesConcat(a, head, block);
    assert block[..32] == block && block[32..] == [];
  }

  /** A remainder shorter than a stripe changes no accumulator. */
  lemma StripesPrefix(a: Accumulators, data: Bytes)
    ensures Stripes(a, data) == Stripes(a, data[..Whole(data)])
  {
    hide Consume;
    var n := Whole(data);
    assert data == data[..n] + data[n..];
    StripesConcat(a, data[..n], data[n..]);
  }

  // ----- the streaming state -----

  lemma WholeOf(done: Bytes, rest: Bytes)
    requires |done| % 32 == 0 && |rest| < 32
    ensures Whole(done + rest) == |done|
    ensures (done + rest)[..Whole(done + rest)] == done && (done + rest)[Whole(done + rest)..] == rest
  {
  }

  class Stream {
    var v1: bv64
    var v2: bv64
    var v3: bv64
    var v4: bv64
    var total: u64
    const buffer: array<byte>
    var buffered: nat
    ghost var data: Bytes  // everything written so far

    ghost function Acc(): Accumulators
      reads this
    {
      Accumulators(v1, v2, v3, v4)
    }

    ghost predicate Valid()
      reads this, buffer
    {
      && buffer.Length == 32
      && total == Length64(data)
      && buffered == |data| % 32
      && Acc() == Stripes(Seeded(), data[..Whole(data)])
      && buffer[..buffered] == data[Whole(data)..]
    }

    constructor ()
      ensures Valid() && data == [] && fresh(buffer)
    {
      v1, v2, v3, v4 := Add(PRIME_1, PRIME_2), PRIME_2, 0, Negate(PRIME_1);
      total, buffered := 0, 0;
      buffer := new byte[32](_ => 0);
      data := [];
    }

    method ConsumeBlock(block: Bytes)
      requires |block| == 32
      modifies `v1, `v2, `v3, `v4
      ensures Acc() == Consume(old(Acc()), block)
    {
      hide Round, Load64;
      v1 := Round(v1, Load64(block[0..8]));
      v2 := Round(v2, Load64(block[8..16]));
      v3 := Round(v3, Load64(block[16..24]));
      v4 := Round(v4, Load64(block[24..32]));
    }

    /** Consumes the whole stripes at the front of p. */
    method ConsumeStripes(p: Bytes, ghost done: Bytes) returns (rest: Bytes, ghost more: Bytes)
      requires |done| % 32 == 0 && Acc() == Stripes(Seeded(), done)
      modifies `v1, `v2, `v3, `v4
      ensures |rest| < 32 && |more| % 32 == 0 && more + rest == done + p
      ensures Acc() == Stripes(Seeded(), more)
    {
      hide Consume, Stripes;
      rest, more := p, done;
      while |rest| >= 32
        invariant |more| % 32 == 0 && more + rest == done + p
        invariant Acc() == Stripes(Seeded(), more)
        decreases |rest|
      {
        StripesSnoc(Seeded(), more, rest[..32]);
        ConsumeBlock(rest[..32]);
        assert (more + rest[..32]) + rest[32..] == more + rest;
        more, rest := more + rest[..32], rest[32..];
      }
    }

    /** Copies as much of p as the buffer still takes. */
    method Fill(p: Bytes) returns (rest: Bytes)
      requires buffer.Length == 32 && buffered < 32
      modifies `buffered, buffer
      ensures buffered <= 32 && (buffered < 32 ==> rest == [])
      ensures buffer[..buffered] + rest == old(buffer[..buffered]) + p
    {
      var n := if |p| < 32 - buffered then |p| else 32 - buffered;
      CopyInto(buffer, buffered, p[..n]);
      assert buffer[..buffered + n] == old(buffer[..buffered]) + p[..n];
      assert old(buffer[..buffered]) + p[..n] + p[n..] == old(buffer[..buffered]) + p;
      buffered := buffered + n;
      return p[n..];
    }

    /** With the buffer empty: consumes whole stripes and keeps what is left. */
    method Absorb(p: Bytes, ghost done: Bytes)
      requires buffer.Length == 32 && buffered == 0 && total == Length64(done + p)
      requires |done| % 32 == 0 && Acc() == Stripes(Seeded(), done)
      modifies this, buffer
      ensures Valid() && data == done + p
    {
      hide Consume, Stripes;
      var rest, more := ConsumeStripes(p, done);
      WholeOf(more, rest);
      if |rest| > 0 {
        CopyInto(buffer, 0, rest);
        buffered := |rest|;
      }
      assert buffer[..buffered] == rest;
      data := done + p;
    }

    /** Tops up a partly filled buffer; once full it is consumed as a stripe. */
    method TopUp(p: Bytes, ghost done: Bytes) returns (rest: Bytes, ghost more: Bytes)
      requires buffer.Length == 32 && buffered < 32
      requires |done| % 32 == 0 && Acc() == Stripes(Seeded(), done)
      modifies `v1, `v2, `v3, `v4, `buffered, buffer
      ensures |more| % 32 == 0 && Acc() == Stripes(Seeded(), more)
      ensures buffered < 32 && (buffered > 0 ==> rest == [])
      ensures more + (buffer[..buffered] + rest) == done + (old(buffer[..buffered]) + p)
    {
      hide Consume, Stripes;
      rest := Fill(p);
      more := done;
      if buffered == 32 {
        assert buffer[..32] == buffer[..];
        StripesSnoc(Seeded(), done, buffer[..]);
        ConsumeBlock(buffer[..]);
        assert done + (buffer[..] + rest) == done + buffer[..] + rest;
        more := done + buffer[..];
        buffered := 0;
        assert buffer[..0] + rest == rest;
      }
    }

    method Write(p: Bytes)
      requires Valid()
      modifies this, buffer
      ensures Valid() && data == old(data) + p
    {
      hide Consume, Stripes;
      ghost var all := data + p;
      ghost var done := data[..Whole(data)];
      assert done + (buffer[..buffered] + p) == all;
      var rest := p;
      total := (total + |p|) % TWO_64;
      LengthsAdd(data, p);
      if buffered > 0 {
        rest, done := TopUp(p, done);
        if buffered > 0 {
          assert buffer[..buffered] + rest == buffer[..buffered];
          WholeOf(done, buffer[..buffered]);
          data := all;
          return;
        }
      }
      assert buffer[..buffered] + rest == rest;
      Absorb(rest, done);
    }

    method Sum64() returns (acc: bv64)
      requires Valid()
      ensures Countable(data) ==> acc == Hash(data)
    {
      hide Length64, Add, Stripes, Converge, Remainder, Avalanche, Seeded;
      acc := Start();
      acc := Add(acc, total as bv64);
      acc := FoldTail(acc, buffer[..buffered]);
      acc := Mix(acc);
    }

    method Start() returns (acc: bv64)
      requires Valid()
      ensures Countable(data) ==> acc == if |data| >= 32 then Converge(Stripes(Seeded(), data)) else PRIME_5
    {
      hide Length64, Add, Stripes, Converge, Seeded;
      StripesPrefix(Seeded(), data);
      if total >= 32 {
        acc := ConvergeNow();
      } else {
        NoStripes(data);
        acc := Add(v3, PRIME_5);
      }
    }

    method ConvergeNow() returns (acc: bv64)
      ensures acc == Converge(Acc())
    {
      hide Merge, Spread;
      acc := Spread(Accumulators(v1, v2, v3, v4));
      acc := Merge(acc, v1);
      acc := Merge(acc, v2);
      acc := Merge(acc, v3);
      acc := Merge(acc, v4);
    }
  }

  /** Short inputs leave the third accumulator at the seed. */
  lemma NoStripes(data: Bytes)
    ensures |data| < 32 ==> Add(Stripes(Seeded(), data[..Whole(data)]).v3, PRIME_5) == PRIME_5
  {
    assert data[..0] == [];
  }

  lemma LengthsAdd(a: Bytes, b: Bytes)
    ensures (Length64(a) + |b|) % TWO_64 == Length64(a + b)
  {
  }

  method FoldTail(start: bv64, bytes: Bytes) returns (acc: bv64)
    ensures acc == Remainder(start, bytes)
  {
    hide Step8, Step4, Step1;
    acc := start;
    var tail := bytes;
    while |tail| >= 8
      invariant Remainder(acc, tail) == Remainder(start, bytes)
      decreases |tail|
    {
      acc := Step8(acc, tail[..8]);
      tail := tail[8..];
    }
    if |tail| >= 4 {
      acc := Step4(acc, tail[..4]);
      tail := tail[4..];
    }
    while |tail| > 0
      invariant |tail| < 4 && Remainder(acc, tail) == Remainder(start, bytes)
      decreases |tail|
    {
      acc := Step1(acc, tail[0]);
      tail := tail[1..];
    }
  }

  method Mix(start: bv64) returns (acc: bv64)
    ensures acc == Avalanche(start)
  {
    hide Mul, Fold33, Fold29, Fold32;
    acc := Fold33(start);
    acc := Mul(acc, PRIME_2);
    acc := Fold29(acc);
    acc := Mul(acc, PRIME_3);
    acc := Fold32(acc);
  }

  // ----- any split -----

  function Joined(parts: seq<Bytes>): Bytes {
    if parts == [] then [] else Joined(parts[..|parts| - 1]) + parts[|parts| - 1]
  }

  /** Hashing in parts, empty ones included, is hashing the whole. */
  method SumOfParts(parts: seq<Bytes>) returns (h: bv64)
    ensures Countable(Joined(parts)) ==> h == Hash(Joined(parts))
  {
    hide Hash;
    var stream := new Stream();
    for i := 0 to |parts|
      invariant stream.Valid() && fresh(stream) && fresh(stream.buffer)
      invariant stream.data == Joined(parts[..i])
    {
      PrefixOfPrefix(parts, i, i + 1);
      stream.Write(parts[i]);
    }
    PrefixWhole(parts);
    h := stream.Sum64();
  }

  method Sum(data: Bytes) returns (h: bv64)
    ensures Countable(data) ==> h == Hash(data)
  {
    hide Hash;
    var stream := new Stream();
    stream.Write(data);
    assert [] + data == data;
    h := stream.Sum64();
  }
}
