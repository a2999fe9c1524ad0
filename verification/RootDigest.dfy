/**
The whole-tree identity (vcs/archive/rootdigest.go): the stream that is hashed
determines every restored field of every entry.
 */
module RootDigest {
  import opened Basics
  import opened Extents
  import opened Manifest
  import opened Valid
  import opened Wire
  import opened Records
  import Codec
  import Encode

  /** What a restore must reproduce of one entry. */
  datatype Semantics = Semantics(
    parentIndex: u32,
    name: Bytes,
    kind: byte,
    size: u64,
    mode: u32,
    mtimeNanos: i64,
    linkName: Bytes,
    hardlinkGroup: u32,
    contentDigest: Digest,
    xattrs: seq<Xattr>,
    extents: seq<seq<Extent>>)

  function ExtentMaps(chunks: seq<ChunkRef>): (maps: seq<seq<Extent>>)
    ensures |maps| == |chunks| && forall i :: 0 <= i < |chunks| ==> maps[i] == chunks[i].extents
  {
    seq<seq<Extent>>(|chunks|, i requires 0 <= i < |chunks| => chunks[i].extents)
  }

  /** The restored fields of an entry; where its bytes are stored is not among them. */
  function SemanticsOf(e: Entry): Semantics {
    Semantics(e.parentIndex, e.name, e.kind, e.size, e.mode, e.mtimeNanos, e.linkName, e.hardlinkGroup,
              e.contentDigest, e.xattrs, ExtentMaps(e.chunks))
  }

  function SemanticsOfAll(entries: seq<Entry>): (s: seq<Semantics>)
    ensures |s| == |entries| && forall i :: 0 <= i < |entries| ==> s[i] == SemanticsOf(entries[i])
  {
    seq<Semantics>(|entries|, i requires 0 <= i < |entries| => SemanticsOf(entries[i]))
  }

  // ----- the stream -----

  function PutExtentMap(extents: seq<Extent>, tail: Bytes): Bytes {
    PutLength(|extents|, PutAll(PutExtent, extents, tail))
  }

  function PutSemanticHead(s: Semantics, tail: Bytes): Bytes {
    PutU32(s.parentIndex, PutString(s.name, PutByte(s.kind, PutU64(s.size, PutU32(s.mode,
    PutU64(I64ToU64(s.mtimeNanos), PutString(s.linkName, PutU32(s.hardlinkGroup, PutRaw(s.contentDigest, tail)))))))))
  }

  function PutSemantics(s: Semantics, tail: Bytes): Bytes {
    PutSemanticHead(s,
      PutLength(|s.xattrs|, PutAll(PutXattr, s.xattrs,
      PutLength(|s.extents|, PutAll(PutExtentMap, s.extents, tail)))))
  }

  /** The hashed stream: every entry's fields in table order, nothing between. */
  function Preimage(entries: seq<Entry>): Bytes {
    PutAll(PutSemantics, SemanticsOfAll(entries), [])
  }

  // ----- a reader for the stream -----

  function TakeExtentMap(b: Bytes): Option<(seq<Extent>, Bytes)> {
    var (n, b1) :- TakeU32(b);
    TakeAll(TakeExtent, n, b1)
  }

  datatype SemanticHead = SemanticHead(
    parentIndex: u32, name: Bytes, kind: byte, size: u64, mode: u32, mtime: u64, linkName: Bytes,
    hardlinkGroup: u32, contentDigest: Digest)

  const MAX_STRING: nat := 0xFFFF_FFFF

  function TakeSemanticHead(b: Bytes): Option<(SemanticHead, Bytes)> {
    var (parentIndex, b1) :- TakeU32(b);
    var (name, b2) :- TakeString(MAX_STRING, b1);
    var (kind, b3) :- TakeByte(b2);
    var (size, b4) :- TakeU64(b3);
    var (mode, b5) :- TakeU32(b4);
    var (mtime, b6) :- TakeU64(b5);
    var (linkName, b7) :- TakeString(MAX_STRING, b6);
    var (hardlinkGroup, b8) :- TakeU32(b7);
    var (contentDigest, b9) :- TakeBytes(32, b8);
    Some((SemanticHead(parentIndex, name, kind, size, mode, mtime, linkName, hardlinkGroup, contentDigest), b9))
  }

  function TakeAnyXattr(b: Bytes): Option<(Xattr, Bytes)> {
    var (name, b1) :- TakeString(MAX_STRING, b);
    var (value, b2) :- TakeString(MAX_STRING, b1);
    Some((Xattr(name, value), b2))
  }

  function TakeSemantics(b: Bytes): Option<(Semantics, Bytes)> {
    var (h, b1) :- TakeSemanticHead(b);
    var (xattrCount, b2) :- TakeU32(b1);
    var (xattrs, b3) :- TakeAll(TakeAnyXattr, xattrCount, b2);
    var (chunkCount, b4) :- TakeU32(b3);
    var (extents, b5) :- TakeAll(TakeExtentMap, chunkCount, b4);
    Some((Semantics(h.parentIndex, h.name, h.kind, h.size, h.mode, U64ToI64(h.mtime), h.linkName,
                    h.hardlinkGroup, h.contentDigest, xattrs, extents), b5))
  }

  /** Every length in the stream fits its four bytes. */
  predicate LengthsFit(s: Semantics) {
    && |s.name| < TWO_32 && |s.linkName| < TWO_32 && |s.xattrs| < TWO_32 && |s.extents| < TWO_32
    && (forall x :: x in s.xattrs ==> XattrLengthsFit(x))
    && (forall m :: m in s.extents ==> ExtentMapFits(m))
  }

  predicate XattrLengthsFit(x: Xattr) {
    |x.name| < TWO_32 && |x.value| < TWO_32
  }

  predicate ExtentMapFits(m: seq<Extent>) {
    |m| < TWO_32
  }

  lemma XattrReader()
    ensures Complete(PutXattr, TakeAnyXattr, XattrLengthsFit)
  {
    hide PutString, TakeString;
    FieldsInverse();
  }

  lemma ExtentMapReader()
    ensures Complete(PutExtentMap, TakeExtentMap, ExtentMapFits)
  {
    FieldsInverse();
    ExtentCodec();
    forall m, tail | ExtentMapFits(m)
      ensures TakeExtentMap(PutExtentMap(m, tail)) == Some((m, tail))
    {
      hide PutLength, TakeU32, PutExtent, TakeExtent;
      TakeAllComplete(PutExtent, TakeExtent, (e: Extent) => true, m, tail);
    }
  }

  lemma SemanticHeadReader(s: Semantics, tail: Bytes)
    requires |s.name| < TWO_32 && |s.linkName| < TWO_32
    ensures TakeSemanticHead(PutSemanticHead(s, tail)) ==
            Some((SemanticHead(s.parentIndex, s.name, s.kind, s.size, s.mode, I64ToU64(s.mtimeNanos), s.linkName,
                               s.hardlinkGroup, s.contentDigest), tail))
  {
    hide PutU32, PutU64, PutByte, PutRaw, PutString, TakeU32, TakeU64, TakeByte, TakeBytes, TakeString;
    FieldsInverse();
  }

  lemma TakeLengthOf(n: nat, tail: Bytes)
    requires n < TWO_32
    ensures TakeU32(PutLength(n, tail)) == Some((n, tail))
  {
    hide TakeU32, PutLength;
    FieldsInverse();
  }

  lemma ListLengths(s: Semantics)
    requires LengthsFit(s)
    ensures |s.name| < TWO_32 && |s.linkName| < TWO_32 && |s.xattrs| < TWO_32 && |s.extents| < TWO_32
    ensures forall x :: x in s.xattrs ==> XattrLengthsFit(x)
    ensures forall m :: m in s.extents ==> ExtentMapFits(m)
  {
  }

  lemma SemanticsReader(s: Semantics, tail: Bytes)
    requires LengthsFit(s)
    ensures TakeSemantics(PutSemantics(s, tail)) == Some((s, tail))
  {
    hide PutSemanticHead, TakeSemanticHead, PutLength, TakeU32, PutXattr, TakeAnyXattr, PutExtentMap, TakeExtentMap;
    hide PutAll, TakeAll, LengthsFit;
    ListLengths(s);
    TakeLengthOf(|s.xattrs|, PutAll(PutXattr, s.xattrs, PutLength(|s.extents|, PutAll(PutExtentMap, s.extents, tail))));
    TakeLengthOf(|s.extents|, PutAll(PutExtentMap, s.extents, tail));
    var maps := PutLength(|s.extents|, PutAll(PutExtentMap, s.extents, tail));
    SemanticHeadReader(s, PutLength(|s.xattrs|, PutAll(PutXattr, s.xattrs, maps)));
    XattrReader();
    TakeAllComplete(PutXattr, TakeAnyXattr, XattrLengthsFit, s.xattrs, maps);
    ExtentMapReader();
    TakeAllComplete(PutExtentMap, TakeExtentMap, ExtentMapFits, s.extents, tail);
  }

  lemma PutSemanticsNonEmpty(s: Semantics, tail: Bytes)
    ensures |PutSemantics(s, tail)| > 0
  {
    hide PutString, PutLength, PutAll;
  }

  /** The stream determines how many entries were written and each restored
      field, although nothing separates one entry from the next. */
  lemma {:induction false} StreamUnique(a: seq<Semantics>, b: seq<Semantics>)
    requires forall s :: s in a ==> LengthsFit(s)
    requires forall s :: s in b ==> LengthsFit(s)
    requires PutAll(PutSemantics, a, []) == PutAll(PutSemantics, b, [])
    ensures a == b
    decreases |a|
  {
    hide PutSemantics, TakeSemantics, LengthsFit;
    if a == [] {
      if b != [] {
        PutSemanticsNonEmpty(b[0], PutAll(PutSemantics, b[1..], []));
      }
    } else if b == [] {
      PutSemanticsNonEmpty(a[0], PutAll(PutSemantics, a[1..], []));
    } else {
      SemanticsReader(a[0], PutAll(PutSemantics, a[1..], []));
      SemanticsReader(b[0], PutAll(PutSemantics, b[1..], []));
      StreamUnique(a[1..], b[1..]);
      assert a == [a[0]] + a[1..] && b == [b[0]] + b[1..];
    }
  }

  predicate EntriesFit(entries: seq<Entry>) {
    forall i :: 0 <= i < |entries| ==> LengthsFit(SemanticsOf(entries[i]))
  }

  /** Two entry tables hash the same stream exactly when they agree on every
      restored field of every entry. */
  lemma PreimageInjective(a: seq<Entry>, b: seq<Entry>)
    requires EntriesFit(a) && EntriesFit(b)
    ensures Preimage(a) == Preimage(b) <==> SemanticsOfAll(a) == SemanticsOfAll(b)
  {
    hide PutSemantics, LengthsFit, SemanticsOf;
    if Preimage(a) == Preimage(b) {
      StreamUnique(SemanticsOfAll(a), SemanticsOfAll(b));
    }
  }

  lemma ValidEntriesFit(m: Manifest)
    requires ValidManifest(m)
    ensures EntriesFit(m.entries)
  {
    Codec.ValidFits(m);
    forall i | 0 <= i < |m.entries|
      ensures LengthsFit(SemanticsOf(m.entries[i]))
    {
      hide ValidManifest;
      var e := m.entries[i];
      assert Codec.ChunksFit(e) && RowFits(Codec.RowOf(e));
      forall x | x in e.xattrs
        ensures XattrLengthsFit(x)
      {
        assert XattrFits(x);
      }
      forall extents | extents in ExtentMaps(e.chunks)
        ensures ExtentMapFits(extents)
      {
        var k :| 0 <= k < |e.chunks| && ExtentMaps(e.chunks)[k] == extents;
        assert ChunkFits(e.chunks[k]);
      }
    }
  }

  /** The stream of a valid manifest is the identity of what it restores. */
  lemma ValidPreimageInjective(m: Manifest, n: Manifest)
    requires ValidManifest(m) && ValidManifest(n)
    ensures Preimage(m.entries) == Preimage(n.entries) <==> SemanticsOfAll(m.entries) == SemanticsOfAll(n.entries)
  {
    hide ValidManifest, Preimage, EntriesFit;
    ValidEntriesFit(m);
    ValidEntriesFit(n);
    PreimageInjective(m.entries, n.entries);
  }

  // ----- hashing -----

  method WriteHead(stream: Bytes, e: Entry, ghost rest: Bytes) returns (r: Bytes)
    ensures r + rest == stream + PutSemanticHead(SemanticsOf(e), rest)
  {
    hide PutU32, PutU64, PutByte, PutRaw, PutString;
    ghost var r8 := PutRaw(e.contentDigest, rest);
    ghost var r7 := PutU32(e.hardlinkGroup, r8);
    ghost var r6 := PutString(e.linkName, r7);
    ghost var r5 := PutU64(I64ToU64(e.mtimeNanos), r6);
    ghost var r4 := PutU32(e.mode, r5);
    ghost var r3 := PutU64(e.size, r4);
    ghost var r2 := PutByte(e.kind, r3);
    ghost var r1 := PutString(e.name, r2);
    r := Encode.AppendU32(stream, e.parentIndex, r1);
    r := Encode.AppendString(r, e.name, r2);
    r := Encode.AppendByte(r, e.kind, r3);
    r := Encode.AppendU64(r, e.size, r4);
    r := Encode.AppendU32(r, e.mode, r5);
    r := Encode.AppendU64(r, I64ToU64(e.mtimeNanos), r6);
    r := Encode.AppendString(r, e.linkName, r7);
    r := Encode.AppendU32(r, e.hardlinkGroup, r8);
    r := Encode.Append(r, e.contentDigest, rest);
  }

  method WriteExtentMaps(stream: Bytes, chunks: seq<ChunkRef>, ghost rest: Bytes) returns (r: Bytes)
    ensures r + rest == stream + PutAll(PutExtentMap, ExtentMaps(chunks), rest)
  {
    hide PutLength;
    ghost var maps := ExtentMaps(chunks);
    r := stream;
    for i := 0 to |chunks|
      invariant r + PutAll(PutExtentMap, maps[i..], rest) == stream + PutAll(PutExtentMap, maps, rest)
    {
      ghost var more := PutAll(PutExtentMap, maps[i + 1..], rest);
      assert maps[i..][1..] == maps[i + 1..];
      r := Encode.AppendLength(r, |chunks[i].extents|, PutAll(PutExtent, chunks[i].extents, more));
      r := Encode.AppendExtents(r, chunks[i].extents, more);
    }
  }

  /** Writes one entry's restored fields into the running stream. */
  method AppendSemanticEntry(stream: Bytes, e: Entry, ghost rest: Bytes) returns (r: Bytes)
    ensures r + rest == stream + PutSemantics(SemanticsOf(e), rest)
  {
    hide PutSemanticHead, PutLength, PutXattr, PutExtentMap, PutAll;
    ghost var r4 := PutAll(PutExtentMap, ExtentMaps(e.chunks), rest);
    ghost var r3 := PutLength(|e.chunks|, r4);
    ghost var r2 := PutAll(PutXattr, e.xattrs, r3);
    ghost var r1 := PutLength(|e.xattrs|, r2);
    r := WriteHead(stream, e, r1);
    r := Encode.AppendLength(r, |e.xattrs|, r2);
    r := Encode.AppendXattrs(r, e.xattrs, r3);
    r := Encode.AppendLength(r, |e.chunks|, r4);
    r := WriteExtentMaps(r, e.chunks, rest);
  }

  /** The digest of everything a restore must reproduce. */
  method RootDigest(m: Manifest) returns (digest: Digest)
    ensures digest == Sha256(Preimage(m.entries))
  {
    hide PutSemantics, SemanticsOf;
    ghost var all := SemanticsOfAll(m.entries);
    var stream: Bytes := [];
    for i := 0 to |m.entries|
      invariant stream + PutAll(PutSemantics, all[i..], []) == Preimage(m.entries)
    {
      assert all[i..][1..] == all[i + 1..];
      stream := AppendSemanticEntry(stream, m.entries[i], PutAll(PutSemantics, all[i + 1..], []));
    }
    assert stream + [] == stream;
    digest := Sha256(stream);
  }
}
