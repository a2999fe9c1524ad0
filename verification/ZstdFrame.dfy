/**
Raw-block zstd frames (vcs/archive/zstdframe.go), checked against a parser
written from section 3.1.1 of RFC 8878.
 */
module ZstdFrame {
  import opened Basics
  import opened Manifest
  import opened Wire
  import Xxh64

  const ZSTD_MAGIC: u32 := 0xFD2F_B528
  const RAW_BLOCK_MAX: nat := 0x2_0000  // 128 KiB

  /** Eight-byte content size, not single-segment, checksum, no dictionary. */
  const FRAME_HEADER_DESCRIPTOR: byte := 0xC4

  function Pow2(k: nat): (r: nat)
    ensures r > 0
  {
    if k == 0 then 1 else 2 * Pow2(k - 1)
  }

  // ----- the reference parser -----

  /** Window_Descriptor: section 3.1.1.1.2. */
  function WindowSize(descriptor: byte): nat {
    var base := Pow2(10 + descriptor / 8);
    base + base / 8 * (descriptor % 8)
  }

  /** Width of the Dictionary_ID field: section 3.1.1.1.3. */
  function DictionaryIdBytes(flag: nat): nat {
    if flag == 0 then 0 else if flag == 1 then 1 else if flag == 2 then 2 else 4
  }

  /** Width of the Frame_Content_Size field: section 3.1.1.1.4. */
  function ContentSizeBytes(flag: nat, singleSegment: bool): nat {
    if flag == 0 then (if singleSegment then 1 else 0) else if flag == 1 then 2 else if flag == 2 then 4 else 8
  }

  datatype FrameHeader = FrameHeader(window: nat, contentSize: Option<nat>, checksum: bool)

  /** Frame_Header: section 3.1.1.1. */
  function ParseHeader(b: Bytes): Option<(FrameHeader, Bytes)> {
    var (descriptor, b1) :- TakeByte(b);
    var sizeFlag, single := descriptor / 64, descriptor / 32 % 2 == 1;
    if descriptor / 8 % 2 != 0 then None
    else
      var (window, b2) :- if single then Some((0, b1)) else TakeByte(b1);
      var (dictionaryId, b3) :- TakeBytes(DictionaryIdBytes(descriptor % 4), b2);
      var (rawSize, b4) :- TakeBytes(ContentSizeBytes(sizeFlag, single), b3);
      var size := FromLittleEndian(rawSize) + if sizeFlag == 1 then 256 else 0;
      Some((FrameHeader(if single then size else WindowSize(window),
                        if rawSize == [] then None else Some(size),
                        descriptor / 4 % 2 == 1), b4))
  }

  /** Block_Maximum_Size: section 3.1.1.2.4. */
  function BlockMaximum(window: nat): nat {
    if window < RAW_BLOCK_MAX then window else RAW_BLOCK_MAX
  }

  datatype Block = Block(last: bool, content: Bytes)

  /** One Raw_Block or RLE_Block: section 3.1.1.2. Other types are not needed to
      read what the raw writer emits and are refused. */
  function ParseBlock(limit: nat, b: Bytes): (r: Option<(Block, Bytes)>)
    ensures r.Some? ==> |r.value.0.content| <= limit && |r.value.1| < |b|
  {
    var (raw, b1) :- TakeBytes(3, b);
    var header := FromLittleEndian(raw);
    var last, kind, size := header % 2 == 1, header / 2 % 4, header / 8;
    if size > limit then None
    else if kind == 0 then
      var (content, b2) :- TakeBytes(size, b1);
      Some((Block(last, content), b2))
    else if kind == 1 then
      var (value, b2) :- TakeByte(b1);
      Some((Block(last, seq(size, _ => value)), b2))
    else None
  }

  /** Blocks up to and including the first one marked last. */
  function ParseBlocks(limit: nat, b: Bytes): Option<(Bytes, Bytes)>
    decreases |b|
  {
    var (block, b1) :- ParseBlock(limit, b);
    if block.last then Some((block.content, b1))
    else
      var (more, b2) :- ParseBlocks(limit, b1);
      Some((block.content + more, b2))
  }

  /** One Zstandard frame: section 3.1.1. */
  function ParseFrame(b: Bytes): Option<(Bytes, Bytes)> {
    var (magic, b1) :- TakeU32(b);
    if magic != ZSTD_MAGIC then None
    else
      var (header, b2) :- ParseHeader(b1);
      var (content, b3) :- ParseBlocks(BlockMaximum(header.window), b2);
      if header.contentSize.Some? && header.contentSize.value != |content| then None
      else if !header.checksum then Some((content, b3))
      else
        var (checksum, b4) :- TakeU32(b3);
        if |content| >= TWO_64 || checksum != Xxh64.Lo32(content) then None else Some((content, b4))
  }

  /** n frames back to back. */
  function ParseFrames(n: nat, b: Bytes): Option<(Bytes, Bytes)> {
    if n == 0 then Some(([], b))
    else
      var (content, b1) :- ParseFrame(b);
      var (more, b2) :- ParseFrames(n - 1, b1);
      Some((content + more, b2))
  }

  // ----- the writer's output -----

  /** The largest block a frame with this window may carry. */
  function RawBlockSize(windowLog: nat): (n: nat)
    ensures n > 0
  {
    if Pow2(windowLog) < RAW_BLOCK_MAX then Pow2(windowLog) else RAW_BLOCK_MAX
  }

  function PutBlock(last: bool, content: Bytes, tail: Bytes): Bytes {
    PutRaw(LittleEndian(8 * |content| + if last then 1 else 0, 3), PutRaw(content, tail))
  }

  /** Content in maximum-size raw blocks, the final one marked last. */
  function PutBlocks(limit: nat, content: Bytes, tail: Bytes): Bytes
    requires limit > 0
    decreases |content|
  {
    if |content| <= limit then PutBlock(true, content, tail)
    else PutBlock(false, content[..limit], PutBlocks(limit, content[limit..], tail))
  }

  function PutRawFrame(windowLog: u32, content: Bytes, tail: Bytes): Bytes
    requires MIN_WINDOW_LOG <= windowLog <= MAX_WINDOW_LOG && |content| < TWO_64
  {
    PutU32(ZSTD_MAGIC, PutByte(FRAME_HEADER_DESCRIPTOR, PutByte((windowLog - 10) * 8, PutU64(|content|,
    PutBlocks(RawBlockSize(windowLog), content, PutU32(Xxh64.Lo32(content), tail))))))
  }

  // ----- the parser recovers the content -----

  lemma WindowRecovered(windowLog: u32)
    requires MIN_WINDOW_LOG <= windowLog <= MAX_WINDOW_LOG
    ensures BlockMaximum(WindowSize((windowLog - 10) * 8)) == RawBlockSize(windowLog)
  {
    var descriptor: byte := (windowLog - 10) * 8;
    assert descriptor / 8 == windowLog - 10 && descriptor % 8 == 0;
    assert WindowSize(descriptor) == Pow2(windowLog);
  }

  lemma HeaderRecovered(windowLog: u32, size: u64, tail: Bytes)
    requires MIN_WINDOW_LOG <= windowLog <= MAX_WINDOW_LOG
    ensures ParseHeader(PutByte(FRAME_HEADER_DESCRIPTOR, PutByte((windowLog - 10) * 8, PutU64(size, tail)))) ==
            Some((FrameHeader(WindowSize((windowLog - 10) * 8), Some(size), true), tail))
  {
    hide WindowSize, LittleEndian, FromLittleEndian;
    var w: byte := (windowLog - 10) * 8;
    var b2 := PutU64(size, tail);
    var b1 := PutByte(w, b2);
    assert TakeByte(PutByte(FRAME_HEADER_DESCRIPTOR, b1)) == Some((FRAME_HEADER_DESCRIPTOR, b1));
    assert TakeByte(b1) == Some((w, b2));
    assert TakeBytes(0, b2) == Some(([], b2));
    TakeBytesOf(Le64(size), tail);
    Pow256Values();
    LittleEndianInverse(size, 8);
  }

  lemma BlockRecovered(limit: nat, last: bool, content: Bytes, tail: Bytes)
    requires |content| <= limit && |content| < 0x20_0000
    ensures ParseBlock(limit, PutBlock(last, content, tail)) == Some((Block(last, content), tail))
  {
    hide LittleEndian, FromLittleEndian;
    var header := 8 * |content| + if last then 1 else 0;
    TakeBytesOf(LittleEndian(header, 3), PutRaw(content, tail));
    Pow256Values();
    LittleEndianInverse(header, 3);
    TakeBytesOf(content, tail);
  }

  lemma {:induction false} BlocksRecovered(limit: nat, content: Bytes, tail: Bytes)
    requires 0 < limit <= RAW_BLOCK_MAX
    ensures ParseBlocks(limit, PutBlocks(limit, content, tail)) == Some((content, tail))
    decreases |content|
  {
    hide ParseBlock, PutBlock;
    if |content| <= limit {
      BlockRecovered(limit, true, content, tail);
    } else {
      var more := PutBlocks(limit, content[limit..], tail);
      BlockRecovered(limit, false, content[..limit], more);
      BlocksRecovered(limit, content[limit..], tail);
      assert content[..limit] + content[limit..] == content;
    }
  }

  /** A raw frame parses back to its content and leaves what follows it. */
  lemma RawFrameRecovered(windowLog: u32, content: Bytes, tail: Bytes)
    requires MIN_WINDOW_LOG <= windowLog <= MAX_WINDOW_LOG && |content| < TWO_64
    ensures ParseFrame(PutRawFrame(windowLog, content, tail)) == Some((content, tail))
  {
    hide ParseHeader, ParseBlocks, PutBlocks, Xxh64.Lo32, WindowSize, PutByte, PutU64, PutU32, TakeU32;
    var limit := RawBlockSize(windowLog);
    var b3 := PutU32(Xxh64.Lo32(content), tail);
    var b2 := PutBlocks(limit, content, b3);
    var b1 := PutByte(FRAME_HEADER_DESCRIPTOR, PutByte((windowLog - 10) * 8, PutU64(|content|, b2)));
    TakeU32Of(ZSTD_MAGIC, b1);
    HeaderRecovered(windowLog, |content|, b2);
    WindowRecovered(windowLog);
    BlocksRecovered(limit, content, b3);
    TakeU32Of(Xxh64.Lo32(content), tail);
  }

  datatype RawFrame = RawFrame(windowLog: u32, content: Bytes) {
    predicate Writable() {
      MIN_WINDOW_LOG <= windowLog <= MAX_WINDOW_LOG && |content| < TWO_64
    }
  }

  /** A pack: raw frames one after the other, each with a window of its own. */
  function PutRawFrames(raws: seq<RawFrame>, tail: Bytes): Bytes
    requires forall i :: 0 <= i < |raws| ==> raws[i].Writable()
  {
    if raws == [] then tail
    else
      var f := raws[0];
      assert f.Writable();
      PutRawFrame(f.windowLog, f.content, PutRawFrames(raws[1..], tail))
  }

  function Flatten(raws: seq<RawFrame>): Bytes {
    if raws == [] then [] else raws[0].content + Flatten(raws[1..])
  }

  /** Concatenated raw frames decode to the concatenated contents. */
  lemma {:induction false} RawFramesRecovered(raws: seq<RawFrame>, tail: Bytes)
    requires forall i :: 0 <= i < |raws| ==> raws[i].Writable()
    ensures ParseFrames(|raws|, PutRawFrames(raws, tail)) == Some((Flatten(raws), tail))
    decreases |raws|
  {
    hide PutRawFrame, ParseFrame;
    if raws != [] {
      RawFrameRecovered(raws[0].windowLog, raws[0].content, PutRawFrames(raws[1..], tail));
      RawFramesRecovered(raws[1..], tail);
    }
  }

  // ----- size -----

  function BlockCount(length: nat, limit: nat): nat
    requires limit > 0
  {
    (length + limit - 1) / limit
  }

  /** The exact size the raw writer produces. */
  function RawFrameSize(length: nat, windowLog: nat): nat {
    4 + 1 + 1 + 8 + 3 * BlockCount(length, RawBlockSize(windowLog)) + length + 4
  }

  lemma BlockCountStep(length: nat, limit: nat)
    requires 0 < limit
    ensures 0 < length <= limit ==> BlockCount(length, limit) == 1
    ensures length > limit ==> BlockCount(length, limit) == BlockCount(length - limit, limit) + 1
  {
    if 0 < length <= limit {
      ExactQuotient(limit, 1, length - 1, length + limit - 1);
    } else if length > limit {
      var n := length - 1;
      ExactQuotient(limit, n / limit + 1, n % limit, n + limit);
    }
  }

  lemma {:induction false} PutBlocksLength(limit: nat, content: Bytes, tail: Bytes)
    requires 0 < limit && content != []
    ensures |PutBlocks(limit, content, tail)| == 3 * BlockCount(|content|, limit) + |content| + |tail|
    decreases |content|
  {
    hide BlockCount;
    BlockCountStep(|content|, limit);
    if |content| > limit {
      PutBlocksLength(limit, content[limit..], tail);
    }
  }

  lemma RawFrameLength(windowLog: u32, content: Bytes)
    requires MIN_WINDOW_LOG <= windowLog <= MAX_WINDOW_LOG && 0 < |content| < TWO_64
    ensures |PutRawFrame(windowLog, content, [])| == RawFrameSize(|content|, windowLog)
  {
    hide PutBlocks, BlockCount, RawBlockSize, Xxh64.Lo32;
    PutBlocksLength(RawBlockSize(windowLog), content, PutU32(Xxh64.Lo32(content), []));
  }

  // ----- the writer -----

  /** Appends a frame of raw blocks, block by block. */
  method EncodeRawFrame(windowLog: u32, content: Bytes) returns (r: Result<Bytes>)
    requires |content| < TWO_64
    ensures r.Ok? <==> content != [] && MIN_WINDOW_LOG <= windowLog <= MAX_WINDOW_LOG
    ensures r.Ok? ==> r.value == PutRawFrame(windowLog, content, [])
    ensures r.Ok? ==> |r.value| == RawFrameSize(|content|, windowLog)
    ensures r.Err? ==> r.error == Invalid
  {
    if |content| == 0 || windowLog < MIN_WINDOW_LOG || windowLog > MAX_WINDOW_LOG {
      return Err(Invalid);
    }
    hide Xxh64.Lo32, RawFrameSize, RawBlockSize, PutBlocks, Le32, Le64, PutU32, PutU64, PutByte;
    RawFrameLength(windowLog, content);
    var blockMax := RawBlockSize(windowLog);
    var checksum := Xxh64.Lo32(content);
    ghost var tail := PutU32(checksum, []);
    var out := FrameStart(windowLog, |content|, PutBlocks(blockMax, content, tail));
    out := AppendBlocks(out, blockMax, content, tail);
    ChecksumLast(checksum);
    return Ok(out + Le32(checksum));
  }

  lemma ChecksumLast(checksum: u32)
    ensures PutU32(checksum, []) == Le32(checksum)
  {
  }

  method FrameStart(windowLog: u32, size: u64, ghost rest: Bytes) returns (out: Bytes)
    requires MIN_WINDOW_LOG <= windowLog <= MAX_WINDOW_LOG
    ensures out + rest ==
            PutU32(ZSTD_MAGIC, PutByte(FRAME_HEADER_DESCRIPTOR, PutByte((windowLog - 10) * 8, PutU64(size, rest))))
  {
    hide Le32, Le64;
    HeaderAppended(windowLog, size, rest);
    out := Le32(ZSTD_MAGIC);
    out := out + [FRAME_HEADER_DESCRIPTOR];
    out := out + [(windowLog - 10) * 8];
    out := out + Le64(size);
  }

  lemma HeaderAppended(windowLog: u32, size: u64, tail: Bytes)
    requires MIN_WINDOW_LOG <= windowLog <= MAX_WINDOW_LOG
    ensures Le32(ZSTD_MAGIC) + [FRAME_HEADER_DESCRIPTOR] + [(windowLog - 10) * 8] + Le64(size) + tail ==
            PutU32(ZSTD_MAGIC, PutByte(FRAME_HEADER_DESCRIPTOR, PutByte((windowLog - 10) * 8, PutU64(size, tail))))
  {
    hide Le32, Le64;
  }

  method AppendBlocks(start: Bytes, blockMax: nat, content: Bytes, ghost tail: Bytes) returns (out: Bytes)
    requires blockMax > 0 && content != []
    ensures out + tail == start + PutBlocks(blockMax, content, tail)
  {
    hide LittleEndian, PutBlocks;
    out := start;
    var offset := 0;
    assert content[0..] == content;
    while offset < |content|
      invariant 0 <= offset
      invariant offset < |content| ==>
                  out + PutBlocks(blockMax, content[offset..], tail) == start + PutBlocks(blockMax, content, tail)
      invariant offset >= |content| ==> out + tail == start + PutBlocks(blockMax, content, tail)
    {
      var end := offset + blockMax;
      var last := 0;
      if end >= |content| {
        end := |content|;
        last := 1;
      }
      var header := (end - offset) * 8 + last;
      ghost var rest := if last == 1 then tail else PutBlocks(blockMax, content[end..], tail);
      BlockAppended(out, header, content[offset..end], rest);
      NextBlock(blockMax, content, offset, tail);
      out := out + LittleEndian(header, 3);
      out := out + content[offset..end];
      offset := offset + blockMax;
    }
  }

  /** What is left to write starts with one block. */
  lemma NextBlock(blockMax: nat, content: Bytes, offset: nat, tail: Bytes)
    requires blockMax > 0 && offset < |content|
    ensures PutBlocks(blockMax, content[offset..], tail) ==
            if offset + blockMax >= |content| then
              PutRaw(LittleEndian((|content| - offset) * 8 + 1, 3), PutRaw(content[offset..], tail))
            else
              PutRaw(LittleEndian(blockMax * 8, 3), PutRaw(content[offset..offset + blockMax],
                     PutBlocks(blockMax, content[offset + blockMax..], tail)))
    ensures offset + blockMax >= |content| ==> content[offset..|content|] == content[offset..]
  {
    hide LittleEndian;
    if offset + blockMax < |content| {
      assert content[offset..][..blockMax] == content[offset..offset + blockMax];
      assert content[offset..][blockMax..] == content[offset + blockMax..];
    }
  }

  lemma BlockAppended(out: Bytes, header: nat, block: Bytes, rest: Bytes)
    ensures out + LittleEndian(header, 3) + block + rest == out + PutRaw(LittleEndian(header, 3), PutRaw(block, rest))
  {
  }
}
