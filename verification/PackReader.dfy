/**
Reading content back (vcs/archive/pack.go, and the two frame paths of
vcs/archive/zstdframe.go): nothing leaves the reader unverified.
 */
module PackReader {
  import opened Basics
  import opened Content
  import opened Manifest
  import opened Valid
  import Validate
  import Xxh64
  import ZstdFrame

  // ----- the zstd library -----

  /** The library's encoder, which may refuse its parameters, and its decoder: two
      fixed functions about which nothing is assumed by default. */
  const Compress: (i32, u32, Bytes) -> Option<Bytes>
  const Decompress: Bytes -> Option<Bytes>

  /** For parameters the encoder supports, its frames are not empty, the decoder
      reads back what the encoder wrote, and it reads a raw-block frame as section
      3.1.1 of RFC 8878 does. */
  ghost predicate ZstdRoundTrips() {
    forall level: i32, windowLog: u32, content: Bytes ::
      Compress(level, windowLog, content).Some? && 0 < |content| <= MAX_CHUNK_SIZE ==>
        DecoderReads(Compress(level, windowLog, content).value, windowLog, content)
  }

  ghost predicate DecoderReads(compressed: Bytes, windowLog: u32, content: Bytes)
    requires |content| < TWO_64
  {
    && compressed != []
    && Decompress(compressed) == Some(content)
    && (MIN_WINDOW_LOG <= windowLog <= MAX_WINDOW_LOG ==>
          var raw := ZstdFrame.PutRawFrame(windowLog, content, []);
          ZstdFrame.ParseFrame(raw) == Some((content, [])) ==> Decompress(raw) == Some(content))
  }

  /** One frame's bytes, and whether they were built from raw blocks. */
  datatype Encoded = Encoded(bytes: Bytes, rawBlocks: bool)

  /** Parameters the format allows. */
  predicate Encodable(level: i32, windowLog: u32) {
    MIN_COMPRESSION_LEVEL <= level <= MAX_COMPRESSION_LEVEL && MIN_WINDOW_LOG <= windowLog <= MAX_WINDOW_LOG
  }

  /** These are the bytes the encoder stores for content: the library's frame when it
      is smaller than the content, raw blocks when it is not. */
  ghost predicate EncodedAs(level: i32, windowLog: u32, rawBlocks: bool, bytes: Bytes, content: Bytes) {
    && Encodable(level, windowLog) && |content| < TWO_64 && Compress(level, windowLog, content).Some?
    && var compressed := Compress(level, windowLog, content).value;
       if rawBlocks then |content| <= |compressed| && bytes == ZstdFrame.PutRawFrame(windowLog, content, [])
       else |compressed| < |content| && bytes == compressed
  }

  /** Compressed when that is smaller than the content, else raw blocks. It fails
      exactly when the parameters or empty content are refused, or the library is. */
  method EncodeFrame(level: i32, windowLog: u32, content: Bytes) returns (r: Result<Encoded>)
    requires |content| < TWO_64
    ensures r.Ok? ==> EncodedAs(level, windowLog, r.value.rawBlocks, r.value.bytes, content)
    ensures r.Ok? && r.value.rawBlocks ==> |r.value.bytes| == ZstdFrame.RawFrameSize(|content|, windowLog)
    ensures r.Ok? && ZstdRoundTrips() && 0 < |content| <= MAX_CHUNK_SIZE ==>
              r.value.bytes != [] && Decompress(r.value.bytes) == Some(content)
    ensures r.Ok? <==> Encodable(level, windowLog) && Compress(level, windowLog, content).Some? && content != []
    ensures r.Err? ==> r.error == if Encodable(level, windowLog) && Compress(level, windowLog, content).None? then Io else Invalid
  {
    if level < MIN_COMPRESSION_LEVEL || level > MAX_COMPRESSION_LEVEL {
      return Err(Invalid);
    }
    if windowLog < MIN_WINDOW_LOG || windowLog > MAX_WINDOW_LOG {
      return Err(Invalid);
    }
    hide ZstdFrame.PutRawFrame, ZstdFrame.RawFrameSize, ZstdRoundTrips;
    var compressed := Compress(level, windowLog, content);
    if compressed.None? {
      return Err(Io);
    }
    CompressedReads(level, windowLog, content);
    if |compressed.value| < |content| {
      return Ok(Encoded(compressed.value, false));
    }
    var raw := ZstdFrame.EncodeRawFrame(windowLog, content);
    if raw.Err? {
      return Err(raw.error);
    }
    RawReads(level, windowLog, content);
    return Ok(Encoded(raw.value, true));
  }

  lemma CompressedReads(level: i32, windowLog: u32, content: Bytes)
    requires Encodable(level, windowLog) && |content| < TWO_64 && Compress(level, windowLog, content).Some?
    ensures ZstdRoundTrips() && 0 < |content| <= MAX_CHUNK_SIZE ==>
              && Compress(level, windowLog, content).value != []
              && Decompress(Compress(level, windowLog, content).value) == Some(content)
  {
    hide ZstdFrame.ParseFrame;
    if ZstdRoundTrips() && 0 < |content| <= MAX_CHUNK_SIZE {
      assert DecoderReads(Compress(level, windowLog, content).value, windowLog, content);
    }
  }

  lemma RawReads(level: i32, windowLog: u32, content: Bytes)
    requires Encodable(level, windowLog) && 0 < |content| < TWO_64 && Compress(level, windowLog, content).Some?
    ensures ZstdRoundTrips() && 0 < |content| <= MAX_CHUNK_SIZE ==>
              && ZstdFrame.PutRawFrame(windowLog, content, []) != []
              && Decompress(ZstdFrame.PutRawFrame(windowLog, content, [])) == Some(content)
  {
    hide ZstdFrame.PutRawFrame, ZstdFrame.ParseFrame, ZstdFrame.RawFrameSize;
    ZstdFrame.RawFrameRecovered(windowLog, content, []);
    ZstdFrame.RawFrameLength(windowLog, content);
    RawSizePositive(|content|, windowLog);
    if ZstdRoundTrips() && 0 < |content| <= MAX_CHUNK_SIZE {
      assert DecoderReads(Compress(level, windowLog, content).value, windowLog, content);
    }
  }

  /** A frame is never empty, and never longer than a small multiple of its content. */
  lemma RawSizePositive(length: nat, windowLog: nat)
    ensures length < ZstdFrame.RawFrameSize(length, windowLog) <= 18 + 4 * length
  {
    CeilingBounded(length, ZstdFrame.RawBlockSize(windowLog));
  }

  lemma CeilingBounded(n: nat, limit: nat)
    requires limit > 0
    ensures ZstdFrame.BlockCount(n, limit) <= n
  {
    var q := ZstdFrame.BlockCount(n, limit);
    assert q * limit <= n + limit - 1;
    assert (n + 1) * limit == n * limit + limit;
    MulMonotone(1, limit, n);
    MulMonotone(n + 1, q, limit);
  }

  // ----- verified reads -----

  /** Serves compressed ranges; the first argument is when the read happens, so a
      source may answer the same range differently at different times. */
  type PackSource = (nat, nat, nat, nat) -> Option<Bytes>

  /** Decompresses a frame and holds it to its recorded lengths and checksum. */
  function DecodeFrame(frame: Frame, compressed: Bytes): (r: Result<Bytes>)
    ensures r.Ok? ==> |compressed| == frame.compressedLength && Decompress(compressed) == Some(r.value)
    ensures r.Ok? ==> |r.value| == frame.uncompressedLength && Xxh64.Lo32(r.value) == frame.xxh64Lo32
  {
    if |compressed| != frame.compressedLength then Err(FrameCorrupt)
    else if frame.uncompressedLength > MAX_CHUNK_SIZE then Err(Invalid)
    else
      match Decompress(compressed)
      case None => Err(FrameCorrupt)
      case Some(content) =>
        if |content| != frame.uncompressedLength then Err(FrameCorrupt)
        else if Xxh64.Lo32(content) != frame.xxh64Lo32 then Err(FrameCorrupt)
        else Ok(content)
  }

  function ReadFrame(source: PackSource, when: nat, frames: seq<Frame>, index: nat): (r: Result<Bytes>)
    ensures r.Ok? ==> index < |frames| && |r.value| == frames[index].uncompressedLength
  {
    if index >= |frames| then Err(Invalid)
    else
      var frame := frames[index];
      match source(when, frame.packIndex, frame.packOffset, frame.compressedLength)
      case None => Err(Io)
      case Some(compressed) => DecodeFrame(frame, compressed)
  }

  /** One chunk's stored bytes out of a decompressed frame, digest verified. */
  function SliceFrame(content: Bytes, chunk: ChunkRef): (r: Result<Bytes>)
    ensures r.Ok? ==> |r.value| == chunk.length && Sha256(r.value) == chunk.sliceDigest
  {
    var end := (chunk.innerOffset + chunk.length) % TWO_64;
    if end < chunk.innerOffset || end > |content| then Err(FrameCorrupt)
    else
      var slice := content[chunk.innerOffset..end];
      if Sha256(slice) != chunk.sliceDigest then Err(FrameCorrupt) else Ok(slice)
  }

  /** Exactly the bytes a chunk stores; a chunk stored nowhere reads no pack. */
  function ReadChunk(source: PackSource, when: nat, frames: seq<Frame>, chunk: ChunkRef): Result<Bytes> {
    if !chunk.Stored() then Ok([])
    else
      var content :- ReadFrame(source, when, frames, chunk.frameIndex);
      SliceFrame(content, chunk)
  }

  /** A verified chunk has the recorded length and digest, whatever was served. */
  lemma ReadChunkVerified(source: PackSource, when: nat, frames: seq<Frame>, chunk: ChunkRef, span: nat)
    requires ChunkValid(chunk, span, frames) && |frames| < NO_FRAME
    requires ReadChunk(source, when, frames, chunk).Ok?
    ensures |ReadChunk(source, when, frames, chunk).value| == TotalLength(chunk.extents)
    ensures Sha256(ReadChunk(source, when, frames, chunk).value) == chunk.sliceDigest
  {
  }

  /** Chunk k of a file: where its logical span starts. */
  function SpanStart(m: Manifest, k: nat): nat {
    k * m.header.chunkSizeBytes
  }

  function SpanOf(m: Manifest, i: nat, k: nat): (span: u64)
    requires m.header.chunkSizeBytes > 0 && i < |m.entries|
    requires k < ChunksNeeded(m.entries[i].size, m.header.chunkSizeBytes)
  {
    ChunkBounds(m.entries[i].size, m.header.chunkSizeBytes, k);
    ChunkSpan(m.entries[i].size, m.header.chunkSizeBytes, k)
  }

  const MAX_IN_MEMORY: nat := 0x10_0000_0000  // 64 chunks of the largest chunk size

  class Reader {
    const manifest: Manifest
    const source: PackSource

    ghost predicate Valid() {
      ValidManifest(manifest)
    }

    /** Binds an already validated manifest to a source. */
    constructor (m: Manifest, packs: PackSource)
      requires ValidManifest(m)
      ensures Valid() && manifest == m && source == packs
    {
      manifest, source := m, packs;
    }

    /** One chunk's logical span with its holes as zeros. */
    method ReadChunkLogical(i: nat, k: nat) returns (r: Result<Bytes>)
      requires Valid()
      ensures r.Ok? <==> i < |manifest.entries| && k < |manifest.entries[i].chunks| &&
                         ReadChunk(source, k, manifest.frames, manifest.entries[i].chunks[k]).Ok?
      ensures r.Ok? ==> ChunkRead(manifest, source, i, k, r.value)
    {
      if i >= |manifest.entries| || k >= |manifest.entries[i].chunks| {
        return Err(Invalid);
      }
      hide ReadChunk, Expanded, ValidManifest;
      ValidChunk(manifest, i, k);
      var chunk := manifest.entries[i].chunks[k];
      var span := SpanOf(manifest, i, k);
      var stored := ReadChunk(source, k, manifest.frames, chunk);
      if stored.Err? {
        return Err(stored.error);
      }
      ReadChunkVerified(source, k, manifest.frames, chunk, span);
      r := ExpandExtents(stored.value, chunk.extents, span);
    }

    /** One regular file's whole logical content, holes as zeros. */
    method ReadFile(i: nat) returns (r: Result<Bytes>)
      requires Valid()
      ensures r.Ok? <==> Readable(manifest, i) && AllChunksRead(manifest, source, i)
      ensures r.Ok? ==> FileRead(manifest, source, i, r.value)
    {
      hide ValidManifest, AllChunksRead, FileRead, ChunksNeeded;
      if !Readable(manifest, i) {
        return Err(Invalid);
      }
      ValidChunkCount(manifest, i);
      r := ReadSpans(i);
    }

    /** The chunks of a file, read in order and joined. */
    method ReadSpans(i: nat) returns (r: Result<Bytes>)
      requires Valid() && manifest.header.chunkSizeBytes > 0 && i < |manifest.entries|
      requires |manifest.entries[i].chunks| == ChunksNeeded(manifest.entries[i].size, manifest.header.chunkSizeBytes)
      ensures r.Ok? <==> AllChunksRead(manifest, source, i)
      ensures r.Ok? ==> FileRead(manifest, source, i, r.value)
    {
      hide ReadChunk, ValidManifest, ChunkRead, ReadUpTo, SpanRead, ChunksNeeded;
      AllRead(manifest, i);
      var out: Bytes := [];
      var count := |manifest.entries[i].chunks|;
      for k := 0 to count
        invariant SpansRead(manifest, source, i, k, out)
      {
        var span := ReadChunkLogical(i, k);
        if span.Err? {
          return Err(span.error);
        }
        SpanAppended(manifest, source, i, k, out, span.value);
        out := out + span.value;
      }
      return Ok(out);
    }
  }

  /** A reader exists only over a manifest that validates. */
  method NewReader(m: Manifest, packs: PackSource) returns (r: Result<Reader>)
    ensures r.Ok? <==> ValidManifest(m)
    ensures r.Ok? ==> r.value.Valid() && r.value.manifest == m && r.value.source == packs
  {
    hide ValidManifest;
    var ok := Validate.Validate(m);
    if !ok {
      return Err(Invalid);
    }
    var reader := new Reader(m, packs);
    return Ok(reader);
  }

  lemma ValidChunk(m: Manifest, i: nat, k: nat)
    requires ValidManifest(m) && i < |m.entries| && k < |m.entries[i].chunks|
    ensures m.header.chunkSizeBytes > 0 && |m.frames| < NO_FRAME
    ensures k < |m.entries[i].chunks| == ChunksNeeded(m.entries[i].size, m.header.chunkSizeBytes)
    ensures ChunkValid(m.entries[i].chunks[k], SpanOf(m, i, k), m.frames)
  {
    hide HardlinksValid, TotalsValid;
    assert EntryValid(m.entries, i, m.frames, m.header.chunkSizeBytes);
    assert ChunkAtValid(m.entries[i], k, m.frames, m.header.chunkSizeBytes);
  }

  lemma ValidChunkCount(m: Manifest, i: nat)
    requires ValidManifest(m) && i < |m.entries| && m.entries[i].kind == TYPE_REGULAR
    ensures m.header.chunkSizeBytes > 0
    ensures |m.entries[i].chunks| == ChunksNeeded(m.entries[i].size, m.header.chunkSizeBytes)
  {
    hide HardlinksValid, TotalsValid;
    assert EntryValid(m.entries, i, m.frames, m.header.chunkSizeBytes);
  }

  // ----- what a read returns -----

  /** out is chunk k's logical span: its verified stored bytes at their offsets,
      zeros elsewhere. */
  ghost predicate ChunkRead(m: Manifest, source: PackSource, i: nat, k: nat, out: Bytes) {
    && m.header.chunkSizeBytes > 0 && i < |m.entries|
    && k < |m.entries[i].chunks| == ChunksNeeded(m.entries[i].size, m.header.chunkSizeBytes)
    && ReadChunk(source, k, m.frames, m.entries[i].chunks[k]).Ok?
    && Expanded(ReadChunk(source, k, m.frames, m.entries[i].chunks[k]).value, m.entries[i].chunks[k].extents,
                SpanOf(m, i, k), out)
  }

  /** The stretch of a file that chunk k covers was read as that chunk. */
  ghost predicate SpanRead(m: Manifest, source: PackSource, i: nat, k: nat, file: Bytes)
    requires m.header.chunkSizeBytes > 0 && i < |m.entries|
    requires k < ChunksNeeded(m.entries[i].size, m.header.chunkSizeBytes)
  {
    && SpanStart(m, k) + SpanOf(m, i, k) <= |file|
    && ChunkRead(m, source, i, k, file[SpanStart(m, k)..SpanStart(m, k) + SpanOf(m, i, k)])
  }

  predicate Readable(m: Manifest, i: nat) {
    i < |m.entries| && m.entries[i].kind == TYPE_REGULAR && m.entries[i].size <= MAX_IN_MEMORY
  }

  predicate AllChunksRead(m: Manifest, source: PackSource, i: nat)
    requires i < |m.entries|
  {
    forall k :: 0 <= k < |m.entries[i].chunks| ==> ReadChunk(source, k, m.frames, m.entries[i].chunks[k]).Ok?
  }

  /** Every span of the file was read as its chunk, and nothing else was returned. */
  ghost predicate FileRead(m: Manifest, source: PackSource, i: nat, file: Bytes) {
    && m.header.chunkSizeBytes > 0 && i < |m.entries|
    && |file| == m.entries[i].size
    && |m.entries[i].chunks| == ChunksNeeded(m.entries[i].size, m.header.chunkSizeBytes)
    && forall k :: 0 <= k < |m.entries[i].chunks| ==> SpanRead(m, source, i, k, file)
  }

  /** How much of the file the first k chunks cover. */
  function ReadUpTo(m: Manifest, i: nat, k: nat): nat
    requires i < |m.entries|
  {
    if SpanStart(m, k) < m.entries[i].size then SpanStart(m, k) else m.entries[i].size
  }

  /** A span already read stays read when more is appended. */
  lemma SpanKept(m: Manifest, source: PackSource, i: nat, j: nat, out: Bytes, more: Bytes)
    requires m.header.chunkSizeBytes > 0 && i < |m.entries|
    requires j < ChunksNeeded(m.entries[i].size, m.header.chunkSizeBytes)
    requires SpanRead(m, source, i, j, out)
    ensures SpanRead(m, source, i, j, out + more)
  {
    hide ChunkRead, SpanOf, SpanStart;
    var lo, hi := SpanStart(m, j), SpanStart(m, j) + SpanOf(m, i, j);
    assert (out + more)[lo..hi] == out[lo..hi];
  }

  /** out is the first k spans of file i. */
  ghost predicate SpansRead(m: Manifest, source: PackSource, i: nat, k: nat, out: Bytes)
    requires m.header.chunkSizeBytes > 0 && i < |m.entries|
    requires k <= |m.entries[i].chunks| == ChunksNeeded(m.entries[i].size, m.header.chunkSizeBytes)
  {
    && |out| == ReadUpTo(m, i, k)
    && (forall j :: 0 <= j < k ==> ReadChunk(source, j, m.frames, m.entries[i].chunks[j]).Ok?)
    && (forall j :: 0 <= j < k ==> SpanRead(m, source, i, j, out))
  }

  lemma SpanAppended(m: Manifest, source: PackSource, i: nat, k: nat, out: Bytes, span: Bytes)
    requires m.header.chunkSizeBytes > 0 && i < |m.entries|
    requires k < |m.entries[i].chunks| == ChunksNeeded(m.entries[i].size, m.header.chunkSizeBytes)
    requires SpansRead(m, source, i, k, out)
    requires ChunkRead(m, source, i, k, span)
    ensures SpansRead(m, source, i, k + 1, out + span)
  {
    hide ReadChunk, ReadUpTo, SpanRead, ChunksNeeded, Expanded;
    LastSpan(m, source, i, k, out, span);
    forall j | 0 <= j < k
      ensures SpanRead(m, source, i, j, out + span)
    {
      SpanKept(m, source, i, j, out, span);
    }
  }

  lemma SpanEnds(m: Manifest, i: nat, k: nat)
    requires m.header.chunkSizeBytes > 0 && i < |m.entries|
    requires k < ChunksNeeded(m.entries[i].size, m.header.chunkSizeBytes)
    ensures ReadUpTo(m, i, k) == SpanStart(m, k)
    ensures ReadUpTo(m, i, k + 1) == SpanStart(m, k) + SpanOf(m, i, k)
  {
    ChunkBounds(m.entries[i].size, m.header.chunkSizeBytes, k);
    if k + 1 < ChunksNeeded(m.entries[i].size, m.header.chunkSizeBytes) {
      ChunkBounds(m.entries[i].size, m.header.chunkSizeBytes, k + 1);
    }
  }

  lemma ReadLength(m: Manifest, source: PackSource, i: nat, k: nat, span: Bytes)
    requires m.header.chunkSizeBytes > 0 && i < |m.entries|
    requires k < |m.entries[i].chunks| == ChunksNeeded(m.entries[i].size, m.header.chunkSizeBytes)
    requires ChunkRead(m, source, i, k, span)
    ensures |span| == SpanOf(m, i, k)
  {
    hide ReadChunk, SpanOf, ChunksNeeded;
  }

  lemma LastSpan(m: Manifest, source: PackSource, i: nat, k: nat, out: Bytes, span: Bytes)
    requires m.header.chunkSizeBytes > 0 && i < |m.entries|
    requires k < |m.entries[i].chunks| == ChunksNeeded(m.entries[i].size, m.header.chunkSizeBytes)
    requires |out| == ReadUpTo(m, i, k)
    requires ChunkRead(m, source, i, k, span)
    ensures |out + span| == ReadUpTo(m, i, k + 1)
    ensures SpanRead(m, source, i, k, out + span)
  {
    hide ChunkRead, ReadChunk, Expanded, ChunksNeeded, SpanStart, SpanOf, ReadUpTo;
    ReadLength(m, source, i, k, span);
    SpanEnds(m, i, k);
    assert (out + span)[|out|..|out| + |span|] == span;
  }

  lemma AllRead(m: Manifest, i: nat)
    requires m.header.chunkSizeBytes > 0 && i < |m.entries|
    ensures ReadUpTo(m, i, 0) == 0
    ensures ReadUpTo(m, i, ChunksNeeded(m.entries[i].size, m.header.chunkSizeBytes)) == m.entries[i].size
  {
    var count := ChunksNeeded(m.entries[i].size, m.header.chunkSizeBytes);
    if count > 0 {
      ChunkBounds(m.entries[i].size, m.header.chunkSizeBytes, count - 1);
    }
  }
}
