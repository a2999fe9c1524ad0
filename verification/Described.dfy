/**
What a built manifest records, field by field, against the walk, the deployment
and the pack objects themselves.
 */
module Described {
  import opened Basics
  import opened Manifest
  import opened Source
  import opened Packing
  import opened Table
  import opened Landmark
  import opened Config
  import opened Sealing
  import opened PackReader
  import opened EndToEnd
  import Order
  import Xxh64

  /** The header's pack table gives every pack object's size and both its digests. */
  ghost predicate PacksDescribed(m: Manifest, packs: seq<Bytes>) {
    && |m.header.packs| == |packs|
    && forall p :: 0 <= p < |packs| ==>
                     && m.header.packs[p].sha256 == Sha256(packs[p])
                     && m.header.packs[p].crc64 == Crc64(packs[p])
                     && m.header.packs[p].sizeBytes == |packs[p]|
  }

  lemma BuiltPacks(config: Config, sources: seq<SourceEntry>, m: Manifest, packs: seq<Bytes>, o: Outcome)
    requires Built(config, sources, m, packs, o)
    ensures |m.header.packs| == |packs|
    ensures forall p :: 0 <= p < |packs| ==>
              && m.header.packs[p].sha256 == Sha256(packs[p])
              && m.header.packs[p].crc64 == Crc64(packs[p])
              && m.header.packs[p].sizeBytes == |packs[p]|
  {
    hide ConfigValid, Collectable, LinksClosed, TableOk, Visits, Marked, Classed, Order.SmallOrder, Order.LargeOrder;
    hide Framed, Filled, Tiled, Indexed, Assembled, Deduplicated, FinalPriority, TotalsFit;
  }

  /** Two builds with one pack table have the same pack objects, or two different
      ones with the same SHA-256 digest. */
  lemma OnePackTable(c: Config, a: seq<SourceEntry>, m: Manifest, mPacks: seq<Bytes>, mo: Outcome,
                     d: Config, b: seq<SourceEntry>, n: Manifest, nPacks: seq<Bytes>, no: Outcome)
    requires Built(c, a, m, mPacks, mo) && Built(d, b, n, nPacks, no) && m.header.packs == n.header.packs
    ensures || mPacks == nPacks
            || exists p :: 0 <= p < |mPacks| == |nPacks| && mPacks[p] != nPacks[p] && Sha256(mPacks[p]) == Sha256(nPacks[p])
  {
    hide Built;
    BuiltPacks(c, a, m, mPacks, mo);
    BuiltPacks(d, b, n, nPacks, no);
  }

  /** The header carries the deployment's identity and parameters. */
  lemma BuiltHeader(config: Config, sources: seq<SourceEntry>, m: Manifest, packs: seq<Bytes>, o: Outcome)
    requires Built(config, sources, m, packs, o)
    ensures m.header.formatVersion == 1 && m.header.chunkSizeBytes == config.chunkSizeBytes
    ensures m.header.compressionLevel == config.compressionLevel && m.header.windowLog == config.windowLog
    ensures m.header.volumeId == config.volumeId && m.header.attempt == config.attempt
    ensures m.header.sealedEpoch == config.sealedEpoch && m.header.sealedInodes == |sources|
  {
    hide ConfigValid, Inv, Visits, Marked, Classed, Order.SmallOrder, Order.LargeOrder, FinalPriority, LinksClosed;
    FinishedTable(config, sources, o);
  }

  /** Every field of entry i is the walk's: attributes sorted, a missing link count
      one, the mode's permission bits only. */
  lemma BuiltFields(config: Config, sources: seq<SourceEntry>, m: Manifest, packs: seq<Bytes>, o: Outcome, i: nat)
    requires Built(config, sources, m, packs, o) && i < |sources|
    ensures |m.entries| == |sources|
    ensures var e, s := m.entries[i], sources[i];
            && e.parentIndex == s.parentIndex && e.name == s.name && e.kind == s.kind && e.size == s.size
            && e.mode == s.mode % 0x1000 && e.mtimeNanos == s.mtimeNanos && e.ctimeNanos == s.ctimeNanos
            && e.linkName == s.linkName && e.nlink == (if s.nlink == 0 then 1 else s.nlink)
            && multiset(e.xattrs) == multiset(s.xattrs)
  {
    hide Built, Sealed, Owner, GroupNumber;
    BuiltEntry(config, sources, m, packs, o, i);
    XattrsSorted(sources[i].xattrs);
  }

  /** Frame f's bytes in its pack are exactly what encoding its content gives under
      the deployment's parameters, raw blocks where it says so. */
  lemma BuiltFrame(config: Config, sources: seq<SourceEntry>, m: Manifest, packs: seq<Bytes>, o: Outcome, f: nat)
    requires Built(config, sources, m, packs, o) && f < |m.frames|
    ensures |o.v.contents| == |m.frames| && m.frames[f].packIndex < |packs|
    ensures m.frames[f].End() <= |packs[m.frames[f].packIndex]|
    ensures m.frames[f].uncompressedLength == |o.v.contents[f]| && m.frames[f].xxh64Lo32 == Xxh64.Lo32(o.v.contents[f])
    ensures EncodedAs(config.compressionLevel, config.windowLog, m.frames[f].rawBlocks,
                      packs[m.frames[f].packIndex][m.frames[f].packOffset..m.frames[f].End()], o.v.contents[f])
  {
    hide ConfigValid, Collectable, LinksClosed, TableOk, Visits, Marked, Classed, Order.SmallOrder, Order.LargeOrder;
    hide Recorded, Filled, Tiled, Indexed, Assembled, Deduplicated, FinalPriority, TotalsFit, EncodedAs, Xxh64.Lo32;
    assert o.v.Packs() == packs;
    assert Holds(m.frames[f], o.v.contents[f], o.v.Packs(), RunOf(config, sources));
  }
}
