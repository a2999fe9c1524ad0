/**
The deployment choices of a build (BuilderConfig of vcs/archive/build.go).
 */
module Config {
  import opened Basics
  import opened Manifest
  import opened Valid
  import Validate
  import opened Packing

  datatype Config = Config(
    chunkSizeBytes: u32,
    compressionLevel: i32,
    windowLog: u32,
    volumeId: Id16,
    sealedEpoch: u64,
    attempt: Id16,
    packTargetBytes: u64,
    partSizeBytes: u64,
    priorityLogicalBytes: u64)

  const MIN_PART_SIZE: u64 := 0x80_0000
  const MAX_PART_SIZE: u64 := 0x1_4000_0000
  const MAX_PARTS: u64 := 10000

  /** The header a build starts from, before the tree is known. */
  function BlankHeader(c: Config): Header {
    Header(FORMAT_VERSION, c.chunkSizeBytes, c.compressionLevel, c.windowLog, c.volumeId, c.sealedEpoch, c.attempt,
           0, 0, 0, 0, PriorityBoundary(0, 0), [])
  }

  /** The header fields are in bounds, and a pack of the target size can be
      uploaded within the part limit. */
  ghost predicate ConfigValid(c: Config) {
    && HeaderValid(BlankHeader(c))
    && MIN_PART_SIZE <= c.partSizeBytes <= MAX_PART_SIZE
    && c.chunkSizeBytes <= c.packTargetBytes <= MAX_PACK_TARGET
    && c.packTargetBytes <= c.partSizeBytes * MAX_PARTS
  }

  method ValidateConfig(c: Config) returns (ok: bool)
    ensures ok <==> ConfigValid(c)
  {
    hide HeaderValid;
    ok := Validate.ValidateHeader(BlankHeader(c));
    if !ok || c.partSizeBytes < MIN_PART_SIZE || c.partSizeBytes > MAX_PART_SIZE {
      return false;
    }
    if c.packTargetBytes < c.chunkSizeBytes || c.packTargetBytes > MAX_PACK_TARGET {
      return false;
    }
    var capacity := CheckedMul(c.partSizeBytes, MAX_PARTS);
    return capacity.Some? && c.packTargetBytes <= capacity.value;
  }
}
