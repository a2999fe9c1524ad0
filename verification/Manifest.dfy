/**
The manifest data model and its bounds (vcs/archive/manifest.go).
 */
module Manifest {
  import opened Basics
  import opened Extents

  const FORMAT_VERSION: u32 := 1
  const MIN_CHUNK_SIZE: u32 := 0x1000
  const MAX_CHUNK_SIZE: u32 := 0x4000_0000
  const MIN_COMPRESSION_LEVEL: i32 := 1
  const MAX_COMPRESSION_LEVEL: i32 := 22
  const MIN_WINDOW_LOG: u32 := 10
  const MAX_WINDOW_LOG: u32 := 31

  const MAX_MANIFEST_BYTES: nat := 0x8000_0000
  const MAX_ENTRIES: nat := 0x100_0000
  const MAX_FRAMES: nat := 0x100_0000
  const MAX_CHUNKS: nat := 0x1000_0000
  const MAX_PACKS: nat := 1024
  const MAX_NAME_BYTES: nat := 255
  const MAX_LINK_NAME_BYTES: nat := 4096
  const MAX_EXTENTS_PER_CHUNK: nat := 4096
  const MAX_XATTRS_PER_ENTRY: nat := 64
  const MAX_XATTR_NAME_BYTES: nat := 255
  const MAX_XATTR_VALUE_SIZE: nat := 0x1_0000
  const MODE_LIMIT: u32 := 0x1000  // every mode bit the format carries is below this
  const ALLOCATION_BLOCK: u64 := 4096
  const METADATA_PER_ENTRY: u64 := 4096

  /** Marks a chunk that is stored nowhere. */
  const NO_FRAME: u32 := 0xFFFF_FFFF

  function EmptySliceDigest(): Digest {
    Sha256([])
  }

  const TYPE_REGULAR: byte := 1
  const TYPE_DIRECTORY: byte := 2
  const TYPE_SYMLINK: byte := 3

  datatype Xattr = Xattr(name: Bytes, value: Bytes)

  /** Where the bytes one file stores for one of its chunks live. */
  datatype ChunkRef = ChunkRef(
    frameIndex: u32,
    innerOffset: u64,
    length: u64,
    sliceDigest: Digest,
    extents: seq<Extent>)
  {
    predicate Stored() {
      frameIndex != NO_FRAME
    }
  }

  /** One node of the namespace. */
  datatype Entry = Entry(
    parentIndex: u32,
    name: Bytes,
    kind: byte,
    size: u64,
    mode: u32,
    mtimeNanos: i64,
    ctimeNanos: i64,
    linkName: Bytes,
    nlink: u32,
    hardlinkGroup: u32,
    contentDigest: Digest,
    xattrs: seq<Xattr>,
    chunks: seq<ChunkRef>)

  /** One zstd frame inside one pack object. */
  datatype Frame = Frame(
    packIndex: u32,
    packOffset: u64,
    compressedLength: u64,
    uncompressedLength: u64,
    rawBlocks: bool,
    xxh64Lo32: u32)
  {
    function End(): (end: int)
      ensures 0 <= packOffset <= end
    {
      packOffset + compressedLength
    }
  }

  datatype PackRef = PackRef(crc64: u64, sha256: Digest, sizeBytes: u64)

  /** A position in the ordered pack sequence. */
  datatype PriorityBoundary = PriorityBoundary(packIndex: u32, packOffset: u64)

  datatype Header = Header(
    formatVersion: u32,
    chunkSizeBytes: u32,
    compressionLevel: i32,
    windowLog: u32,
    volumeId: Id16,
    sealedEpoch: u64,
    attempt: Id16,
    logicalBytes: u64,
    logicalInodes: u64,
    sealedAllocatedBytes: u64,
    sealedInodes: u64,
    priority: PriorityBoundary,
    packs: seq<PackRef>)

  datatype Manifest = Manifest(header: Header, entries: seq<Entry>, frames: seq<Frame>)

  function ChunksOf(e: Entry): nat {
    |e.chunks|
  }

  /** Total number of chunk references across the entries. */
  function ChunkCount(entries: seq<Entry>): nat {
    Total(ChunksOf, entries)
  }
}
