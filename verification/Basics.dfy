/**
Machine integers, bytes, checked arithmetic (vcs/archive/arith.go) and the
little-endian integer forms that every serialization in the archive uses.
 */
module Basics {

  const TWO_32: int := 0x1_0000_0000
  const TWO_64: int := 0x1_0000_0000_0000_0000

  type byte = x: int | 0 <= x < 0x100
  type u32 = x: int | 0 <= x < 0x1_0000_0000
  type u64 = x: int | 0 <= x < 0x1_0000_0000_0000_0000
  type i32 = x: int | -0x8000_0000 <= x < 0x8000_0000
  type i64 = x: int | -0x8000_0000_0000_0000 <= x < 0x8000_0000_0000_0000

  type Bytes = seq<byte>

  datatype Option<+T> = None | Some(value: T) {
    predicate IsFailure() {
      None?
    }

    function PropagateFailure<U>(): Option<U>
      requires None?
    {
      None
    }

    function Extract(): T
      requires Some?
    {
      value
    }
  }

  /** The error classes callers match on; message text is not modelled. */
  datatype Error = Invalid | FrameCorrupt | Io

  datatype Result<+T> = Ok(value: T) | Err(error: Error) {
    predicate IsFailure() {
      Err?
    }

    function PropagateFailure<U>(): Result<U>
      requires Err?
    {
      Err(error)
    }

    function Extract(): T
      requires Ok?
    {
      value
    }
  }

  /** The 32 bytes of a SHA-256 digest. */
  type Digest = d: Bytes | |d| == 32 witness seq(32, _ => 0)

  /** The 16 bytes of a volume or attempt identifier. */
  type Id16 = d: Bytes | |d| == 16 witness seq(16, _ => 0)

  /** SHA-256: one fixed function about which nothing is assumed. */
  const Sha256: Bytes -> Digest

  const ZERO_ID: Id16 := [0, 0, 0, 0, 0, 0, 0, 0, 0, 0, 0, 0, 0, 0, 0, 0]
  const ZERO_DIGEST: Digest := [0, 0, 0, 0, 0, 0, 0, 0, 0, 0, 0, 0, 0, 0, 0, 0] + [0, 0, 0, 0, 0, 0, 0, 0, 0, 0, 0, 0, 0, 0, 0, 0]

  // ----- sequences -----

  lemma PrefixSnoc<T>(s: seq<T>, i: nat)
    requires i < |s|
    ensures s[..i + 1] == s[..i] + [s[i]]
  {
  }

  lemma PrefixWhole<T>(s: seq<T>)
    ensures s[..|s|] == s
  {
  }

  lemma PrefixOfPrefix<T>(s: seq<T>, i: nat, j: nat)
    requires i <= j <= |s|
    ensures s[..j][..i] == s[..i]
  {
  }

  lemma SliceOfSlice<T>(s: seq<T>, lo: nat, hi: nat, i: nat, j: nat)
    requires lo <= hi <= |s| && i <= j <= hi - lo
    ensures s[lo..hi][i..j] == s[lo + i..lo + j]
  {
    var a, b := s[lo..hi][i..j], s[lo + i..lo + j];
    assert forall k :: 0 <= k < |a| ==> a[k] == b[k];
  }

  /** The three parts of a concatenation. */
  lemma ThreeParts<T>(a: seq<T>, b: seq<T>, c: seq<T>)
    ensures (a + b + c)[..|a|] == a
    ensures (a + b + c)[|a|..|a| + |b|] == b
    ensures (a + b + c)[|a| + |b|..] == c
  {
  }

  lemma JoinSlices<T>(s: seq<T>, lo: nat, mid: nat, hi: nat)
    requires lo < mid <= hi <= |s|
    ensures s[lo..hi] == [s[lo]] + s[lo + 1..mid] + s[mid..hi]
  {
  }

  lemma SplitEqual<T>(a: seq<T>, b: seq<T>, c: seq<T>, d: seq<T>)
    requires a + b == c + d && |a| == |c|
    ensures a == c && b == d
  {
    assert a == (a + b)[..|a|] && c == (c + d)[..|c|];
    assert b == (a + b)[|a|..] && d == (c + d)[|c|..];
  }

  // ----- buffers -----

  /** A buffer with data written over it at an offset. */
  function Overwrite(buffer: Bytes, offset: nat, data: Bytes): (r: Bytes)
    requires offset + |data| <= |buffer|
    ensures |r| == |buffer|
  {
    buffer[..offset] + data + buffer[offset + |data|..]
  }

  lemma OverwriteAt(buffer: Bytes, offset: nat, data: Bytes, x: nat)
    requires offset + |data| <= |buffer| && x < |buffer|
    ensures Overwrite(buffer, offset, data)[x] ==
            if offset <= x < offset + |data| then data[x - offset] else buffer[x]
  {
  }

  lemma OverwriteSlice(buffer: Bytes, offset: nat, data: Bytes)
    requires offset + |data| <= |buffer|
    ensures Overwrite(buffer, offset, data)[offset..offset + |data|] == data
  {
  }

  method CopyInto(out: array<byte>, offset: nat, data: Bytes)
    requires offset + |data| <= out.Length
    modifies out
    ensures out[..] == Overwrite(old(out[..]), offset, data)
  {
    forall j | 0 <= j < |data| {
      out[offset + j] := data[j];
    }
  }

  // ----- totals -----

  /** The sum of f over a sequence. */
  function Total<T>(f: T -> nat, s: seq<T>): nat {
    if s == [] then 0 else Total(f, s[..|s| - 1]) + f(s[|s| - 1])
  }

  lemma {:induction false} TotalPrefix<T>(f: T -> nat, s: seq<T>, k: nat)
    requires k <= |s|
    ensures Total(f, s[..k]) <= Total(f, s)
    decreases |s|
  {
    if k < |s| {
      PrefixOfPrefix(s, k, |s| - 1);
      TotalPrefix(f, s[..|s| - 1], k);
    } else {
      PrefixWhole(s);
    }
  }

  lemma TotalStep<T>(f: T -> nat, s: seq<T>, k: nat)
    requires k < |s|
    ensures Total(f, s[..k + 1]) == Total(f, s[..k]) + f(s[k]) <= Total(f, s)
  {
    PrefixOfPrefix(s, k, k + 1);
    TotalPrefix(f, s, k + 1);
  }

  lemma TotalSnoc<T>(f: T -> nat, s: seq<T>, x: T)
    ensures Total(f, s + [x]) == Total(f, s) + f(x)
  {
    assert (s + [x])[..|s|] == s;
  }

  lemma {:induction false} TotalFront<T>(f: T -> nat, s: seq<T>)
    requires s != []
    ensures Total(f, s) == f(s[0]) + Total(f, s[1..])
    decreases |s|
  {
    if |s| > 1 {
      var front := s[..|s| - 1];
      TotalFront(f, front);
      assert front[1..] == s[1..][..|s| - 2];
    }
  }

  // ----- checked 64-bit arithmetic -----

  /** Addition that treats wrapping as a rejection. */
  function CheckedAdd(a: u64, b: u64): (r: Option<u64>)
    ensures r == if a + b < TWO_64 then Some(a + b) else None
  {
    var sum: u64 := (a + b) % TWO_64;
    if sum < a then None else Some(sum)
  }

  /** Multiplication that detects wrapping by dividing back. */
  function CheckedMul(a: u64, b: u64): (r: Option<u64>)
    ensures r == if a * b < TWO_64 then Some(a * b) else None
  {
    if a == 0 || b == 0 then Some(0)
    else
      MulNonNegative(a, b);
      var product: u64 := (a * b) % TWO_64;
      DivideBack(a, b, product);
      if product / a != b then None else Some(product)
  }

  lemma MulNonNegative(a: nat, b: nat)
    ensures 0 <= a * b
  {
  }

  lemma MulMonotone(a: nat, b: nat, c: nat)
    ensures a <= b ==> a * c <= b * c
  {
  }

  lemma DivideBack(a: int, b: int, product: int)
    requires a > 0 && b > 0 && 0 <= product
    requires product == (a * b) % TWO_64
    ensures product / a == b <==> a * b < TWO_64
  {
    var whole := a * b;
    assert whole > 0;
    if whole < TWO_64 {
      assert product == whole;
      ExactQuotient(a, b, 0, product);
    } else {
      var q, r := product / a, product % a;
      assert product == a * q + r && 0 <= r;
    }
  }

  lemma ExactQuotient(a: int, b: int, r: int, n: int)
    requires a > 0 && 0 <= r < a && n == a * b + r
    ensures n / a == b
  {
    var q := n / a;
    assert n == a * q + n % a;
    assert q < b ==> a * q <= a * (b - 1);
    assert q > b ==> a * q >= a * (b + 1);
  }

  /** The exclusive end of [offset, offset+length), if it lies within limit. */
  function CheckedRange(offset: u64, length: u64, limit: u64): (r: Option<u64>)
    ensures r == if offset + length <= limit then Some(offset + length) else None
  {
    var end :- CheckedAdd(offset, length);
    if end > limit then None else Some(end)
  }

  // ----- little-endian integers -----

  function Pow256(w: nat): (r: nat)
    ensures r > 0
  {
    if w == 0 then 1 else 256 * Pow256(w - 1)
  }

  lemma Pow256Values()
    ensures Pow256(1) == 0x100
    ensures Pow256(2) == 0x1_0000
    ensures Pow256(3) == 0x100_0000
    ensures Pow256(4) == TWO_32
    ensures Pow256(8) == TWO_64
  {
    assert Pow256(6) == 0x1_0000_0000_0000;
  }

  /** The w low-order bytes of n, least significant first. */
  function LittleEndian(n: nat, w: nat): (b: Bytes)
    ensures |b| == w
    decreases w
  {
    if w == 0 then [] else [n % 256] + LittleEndian(n / 256, w - 1)
  }

  function FromLittleEndian(b: Bytes): (n: nat)
    ensures n < Pow256(|b|)
  {
    if b == [] then 0 else b[0] + 256 * FromLittleEndian(b[1..])
  }

  lemma {:induction false} LittleEndianInverse(n: nat, w: nat)
    requires n < Pow256(w)
    ensures FromLittleEndian(LittleEndian(n, w)) == n
    decreases w
  {
    if w > 0 {
      LittleEndianInverse(n / 256, w - 1);
      assert LittleEndian(n, w)[1..] == LittleEndian(n / 256, w - 1);
    }
  }

  lemma {:induction false} FromLittleEndianInverse(b: Bytes)
    ensures LittleEndian(FromLittleEndian(b), |b|) == b
    decreases |b|
  {
    if b != [] {
      FromLittleEndianInverse(b[1..]);
      var n := FromLittleEndian(b);
      assert n % 256 == b[0] && n / 256 == FromLittleEndian(b[1..]);
      assert b == [b[0]] + b[1..];
    }
  }

  function Le32(v: u32): (b: Bytes)
    ensures |b| == 4
  {
    LittleEndian(v, 4)
  }

  function Le64(v: u64): (b: Bytes)
    ensures |b| == 8
  {
    LittleEndian(v, 8)
  }

  function FromLe32(b: Bytes): (v: u32)
    requires |b| == 4
    ensures Le32(v) == b
  {
    Pow256Values();
    FromLittleEndianInverse(b);
    FromLittleEndian(b)
  }

  function FromLe64(b: Bytes): (v: u64)
    requires |b| == 8
    ensures Le64(v) == b
  {
    Pow256Values();
    FromLittleEndianInverse(b);
    FromLittleEndian(b)
  }

  lemma Le32Inverse(v: u32)
    ensures FromLe32(Le32(v)) == v
  {
    Pow256Values();
    LittleEndianInverse(v, 4);
  }

  lemma Le64Inverse(v: u64)
    ensures FromLe64(Le64(v)) == v
  {
    Pow256Values();
    LittleEndianInverse(v, 8);
  }

  // ----- two's complement -----

  function I32ToU32(x: i32): u32 {
    if x < 0 then x + TWO_32 else x
  }

  function U32ToI32(x: u32): i32 {
    if x >= 0x8000_0000 then x - TWO_32 else x
  }

  function I64ToU64(x: i64): u64 {
    if x < 0 then x + TWO_64 else x
  }

  function U64ToI64(x: u64): i64 {
    if x >= 0x8000_0000_0000_0000 then x - TWO_64 else x
  }
}
