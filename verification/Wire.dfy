/**
Printers and parsers for little-endian, length-prefixed records. A printer puts
a value in front of a tail; a parser takes a value off the front and leaves the
tail. The two are inverse field by field, so they are inverse record by record.
 */
module Wire {
  import opened Basics

  type Printer<!T> = (T, Bytes) -> Bytes
  type Parser<!T> = Bytes -> Option<(T, Bytes)>

  // ----- fields -----

  /** A count or length, truncated to four bytes as the conversion to u32 does. */
  function PutLength(n: nat, tail: Bytes): Bytes {
    LittleEndian(n, 4) + tail
  }

  function PutU32(v: u32, tail: Bytes): Bytes {
    Le32(v) + tail
  }

  function PutU64(v: u64, tail: Bytes): Bytes {
    Le64(v) + tail
  }

  function PutByte(v: byte, tail: Bytes): Bytes {
    [v] + tail
  }

  function PutRaw(s: Bytes, tail: Bytes): Bytes {
    s + tail
  }

  function PutString(s: Bytes, tail: Bytes): Bytes {
    PutLength(|s|, PutRaw(s, tail))
  }

  function TakeBytes(n: nat, b: Bytes): (r: Option<(Bytes, Bytes)>)
    ensures r.Some? <==> n <= |b|
    ensures r.Some? ==> |r.value.0| == n && b == PutRaw(r.value.0, r.value.1)
  {
    if n > |b| then None else Some((b[..n], b[n..]))
  }

  lemma TakeBytesOf(s: Bytes, tail: Bytes)
    ensures TakeBytes(|s|, PutRaw(s, tail)) == Some((s, tail))
  {
  }

  function TakeU32(b: Bytes): (r: Option<(u32, Bytes)>)
    ensures r.Some? ==> b == PutU32(r.value.0, r.value.1) == PutLength(r.value.0, r.value.1)
  {
    var (raw, rest) :- TakeBytes(4, b);
    Some((FromLe32(raw), rest))
  }

  lemma TakeU32Of(v: u32, tail: Bytes)
    ensures TakeU32(PutU32(v, tail)) == Some((v, tail))
  {
    TakeBytesOf(Le32(v), tail);
    Le32Inverse(v);
  }

  function TakeU64(b: Bytes): (r: Option<(u64, Bytes)>)
    ensures r.Some? ==> b == PutU64(r.value.0, r.value.1)
  {
    var (raw, rest) :- TakeBytes(8, b);
    Some((FromLe64(raw), rest))
  }

  lemma TakeU64Of(v: u64, tail: Bytes)
    ensures TakeU64(PutU64(v, tail)) == Some((v, tail))
  {
    TakeBytesOf(Le64(v), tail);
    Le64Inverse(v);
  }

  function TakeByte(b: Bytes): (r: Option<(byte, Bytes)>)
    ensures r.Some? ==> b == PutByte(r.value.0, r.value.1)
  {
    if b == [] then None else Some((b[0], b[1..]))
  }

  /** A length-prefixed string within its own bound. */
  function TakeString(bound: nat, b: Bytes): (r: Option<(Bytes, Bytes)>)
    ensures r.Some? ==> |r.value.0| <= bound && b == PutString(r.value.0, r.value.1)
  {
    var (declared, rest) :- TakeU32(b);
    if declared > bound then None else TakeBytes(declared, rest)
  }

  lemma TakeStringOf(bound: nat, s: Bytes, tail: Bytes)
    requires |s| <= bound && |s| < TWO_32
    ensures TakeString(bound, PutString(s, tail)) == Some((s, tail))
  {
    TakeU32Of(|s|, PutRaw(s, tail));
    TakeBytesOf(s, tail);
  }

  /** Every field can be taken off again once it has been put. */
  lemma FieldsInverse()
    ensures forall v: u32, tail: Bytes :: TakeU32(PutU32(v, tail)) == Some((v, tail))
    ensures forall n: nat, tail: Bytes :: n < TWO_32 ==> TakeU32(PutLength(n, tail)) == Some((n, tail))
    ensures forall v: u64, tail: Bytes :: TakeU64(PutU64(v, tail)) == Some((v, tail))
    ensures forall v: byte, tail: Bytes :: TakeByte(PutByte(v, tail)) == Some((v, tail))
    ensures forall s: Bytes, tail: Bytes :: TakeBytes(|s|, PutRaw(s, tail)) == Some((s, tail))
    ensures forall bound: nat, s: Bytes, tail: Bytes :: |s| <= bound < TWO_32 ==>
              TakeString(bound, PutString(s, tail)) == Some((s, tail))
  {
    forall v: u32, tail: Bytes
      ensures TakeU32(PutU32(v, tail)) == Some((v, tail))
    {
      TakeU32Of(v, tail);
    }
    forall n: nat, tail: Bytes | n < TWO_32
      ensures TakeU32(PutLength(n, tail)) == Some((n, tail))
    {
      TakeU32Of(n, tail);
    }
    forall v: u64, tail: Bytes
      ensures TakeU64(PutU64(v, tail)) == Some((v, tail))
    {
      TakeU64Of(v, tail);
    }
    forall s: Bytes, tail: Bytes
      ensures TakeBytes(|s|, PutRaw(s, tail)) == Some((s, tail))
    {
      TakeBytesOf(s, tail);
    }
    forall bound: nat, s: Bytes, tail: Bytes | |s| <= bound < TWO_32
      ensures TakeString(bound, PutString(s, tail)) == Some((s, tail))
    {
      TakeStringOf(bound, s, tail);
    }
  }

  /** The records a count promises must fit in the bytes that are left. */
  predicate Budget(count: nat, recordBytes: nat, hardLimit: nat, b: Bytes)
    requires recordBytes > 0
  {
    count <= hardLimit && count <= |b| / recordBytes
  }

  lemma BudgetByBytes(count: nat, recordBytes: nat, b: Bytes)
    requires recordBytes > 0
    ensures count <= |b| / recordBytes <==> count * recordBytes <= |b|
  {
    var q, r := |b| / recordBytes, |b| % recordBytes;
    assert |b| == q * recordBytes + r;
    if count <= q {
      MulMonotone(count, q, recordBytes);
    } else {
      MulMonotone(q + 1, count, recordBytes);
    }
  }

  // ----- repeated records -----

  function PutAll<T>(put: Printer<T>, items: seq<T>, tail: Bytes): Bytes {
    if items == [] then tail else put(items[0], PutAll(put, items[1..], tail))
  }

  function TakeAll<T>(take: Parser<T>, n: nat, b: Bytes): (r: Option<(seq<T>, Bytes)>)
    ensures r.Some? ==> |r.value.0| == n
  {
    if n == 0 then Some(([], b))
    else
      var (first, more) :- take(b);
      var (others, rest) :- TakeAll(take, n - 1, more);
      Some(([first] + others, rest))
  }

  /** What is taken off the front is what had been put there. */
  ghost predicate Sound<T(!new)>(put: Printer<T>, take: Parser<T>, ok: T -> bool) {
    forall b :: take(b).Some? ==> ok(take(b).value.0) && b == put(take(b).value.0, take(b).value.1)
  }

  /** What was put on the front can be taken off again. */
  ghost predicate Complete<T(!new)>(put: Printer<T>, take: Parser<T>, ok: T -> bool) {
    forall t, tail :: ok(t) ==> take(put(t, tail)) == Some((t, tail))
  }

  /** A printed value occupies at least k bytes. */
  ghost predicate AtLeast<T(!new)>(put: Printer<T>, k: nat) {
    forall t, tail :: |put(t, tail)| >= |tail| + k
  }

  lemma {:induction false} TakeAllSound<T(!new)>(put: Printer<T>, take: Parser<T>, ok: T -> bool, n: nat, b: Bytes)
    requires Sound(put, take, ok) && TakeAll(take, n, b).Some?
    ensures var (items, rest) := TakeAll(take, n, b).value;
            b == PutAll(put, items, rest) && forall t :: t in items ==> ok(t)
    decreases n
  {
    if n > 0 {
      TakeAllSound(put, take, ok, n - 1, take(b).value.1);
      var (items, rest) := TakeAll(take, n, b).value;
      assert items[1..] == TakeAll(take, n - 1, take(b).value.1).value.0;
    }
  }

  lemma {:induction false} TakeAllComplete<T(!new)>(put: Printer<T>, take: Parser<T>, ok: T -> bool, items: seq<T>, tail: Bytes)
    requires Complete(put, take, ok)
    requires forall t :: t in items ==> ok(t)
    ensures TakeAll(take, |items|, PutAll(put, items, tail)) == Some((items, tail))
    decreases |items|
  {
    if items != [] {
      TakeAllComplete(put, take, ok, items[1..], tail);
      assert [items[0]] + items[1..] == items;
    }
  }

  lemma {:induction false} PutAllLength<T(!new)>(put: Printer<T>, k: nat, items: seq<T>, tail: Bytes)
    requires AtLeast(put, k)
    ensures |PutAll(put, items, tail)| >= |tail| + |items| * k
    decreases |items|
  {
    if items != [] {
      PutAllLength(put, k, items[1..], tail);
      assert |items| * k == (|items| - 1) * k + k;
    }
  }
}
