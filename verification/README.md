# Sealed archives and the read-only client, verified

This project models two parts of PortableFS in Dafny and proves what they promise.

**The sealed-archive format** (`vcs/archive`). `Build` turns a walk of a volume into pack objects, which are
concatenations of zstd frames, and a manifest: an entry table, a frame table and a header. The model has

- the builder as one object, step by step: collection, hardlink groups, the write order, the shared frame under
  assembly, the dedup index that may point into it, pack sharding, the prefetch boundary and the final assembly
  (`Source`, `Collect`, `Order`, `Locality`, `Schedule`, `Reading`, `Packing`, `Table`, `Landmark`, `Sealing`, `Refusal`,
  `Config`, `Builder`);
- validation, stated declaratively in `Valid` and decided by the scans of `Validate`, `Frames` and `Tree`;
- the manifest codec as a specification (`Wire`, `Records`, `Codec`) and as the two byte-level passes that implement it
  (`Encode`, `Decode`), with the place of every byte stated apart from both (`ByteLayout`, `ByteExact`,
  `StreamLayout`);
- what a built manifest records (`Described`), reading content back (`Content`, `PackReader`, `EndToEnd`), planning fetches (`Ranges`), restoring the namespace
  (`Restore`, `Namespace`), and the whole-tree digest (`RootDigest`, `Layout`, `ChunkSize`);
- the two hand-written algorithms inside it: streaming XXH64 (`Xxh64`, `Xxh64Values`) and the raw-block zstd frame writer with a
  reference parser after section 3.1.1 of RFC 8878 (`ZstdFrame`).

**The read-only authority client** (`vcs/readonlyfs/client.go`): which item capabilities and handles a session holds
after every outcome a call can have, which node a path leads to, and how directories are paged (`Authority`,
`Client`).

## What is assumed

Foreign functions are constants without a definition: `Sha256`, `Crc64`, and the zstd library's `Compress` and
`Decompress`. Nothing is assumed about them except where a theorem names the assumption:

- `PackReader.ZstdRoundTrips`: for parameters its encoder supports, the zstd library's frames are not empty, its decoder
  reads back what its encoder wrote, and it reads a raw-block frame as the reference parser does.
- `Packing.CollisionFree`: no two chunks of one walk store different bytes under one SHA-256 digest. It is needed only
  for the statements that the read bytes are the source's and that no bytes are stored twice; the fail-closed theorem
  exhibits a collision instead.

Input and output failures are arbitrary: opening, listing, reading, writing and closing may fail at any call. A
source of pack ranges may answer every read with any bytes, and the same read differently at different times. Machine integers are
explicit: 64-bit additions wrap or are checked where the source wraps or checks.

## Results that are not a plain "yes"

- `appendSplit` advances its offset in wrapping 64-bit steps. It can revisit bytes or never stop, and a manifest that
  passes validation can make it: `Counterexamples.SweepWraps` gives one, with a single pack of 2^64 - 1 bytes swept under
  a cap of 2^63. `Ranges.SplitExact` is the exact condition under which the loop ends with a tiling. Packs of at most
  2^63 bytes always meet it (`Ranges.SmallPacksFit`), and so does every build's output (`Layout.SweepAlwaysSplits`).
- `propagateToLinks` does not look at the type of the entries it copies content to, so a directory or symlink that
  reports the inode key of a hardlinked file with bytes makes the final validation fail, although collection and the
  hardlink checks accept the walk: `Counterexamples.SymlinkClaimsInode`. `Sealing.ManifestValid` states exactly which
  walks pass: the well-formed ones, where that does not happen.
- The comment on `RootDigest` says the digest does not depend on the chunk size. The code digests one extent map per
  chunk, so it does. `ChunkSize.ChunkSizeShows` is the exact condition: two builds of one walk agree if and only if they
  use one chunk size or every file fits in one chunk of the smaller size. `Counterexamples.ChunkSizeChangesIdentity`
  gives a tree of one file of 8192 bytes whose identity differs between chunks of 4096 and 8192 bytes.
- The streaming XXH64 keeps its length in 64 bits and tells short inputs from long ones by it. `Xxh64.Stream.Sum64` is
  the specified hash unless the wrapped length of a longer input falls below one stripe.

## Model

| member | source | states |
|---|---|---|
| `Basics.CheckedAdd` | vcs/archive/arith.go:11-17 | The wrapped-sum test finds exactly the sums that do not fit 64 bits |
| `Basics.CheckedMul` | vcs/archive/arith.go:19-28 | Dividing the wrapped product back finds exactly the products that do not fit 64 bits |
| `Basics.CheckedRange` | vcs/archive/arith.go:32-38 | An end is returned exactly when the range lies within the limit |
| `Extents.NormalizeExtents` | vcs/archive/extents.go:47-74 | Accepts exactly the scannable extent lists; the result covers the same bytes and is canonical |
| `Extents.CanonicalUnique` | vcs/archive/extents.go:47-74 | Two canonical lists that cover the same bytes are the same list |
| `Content.ClipCovers` | vcs/archive/build.go:752-776 | Clipping a map to a span keeps exactly the covered bytes of the span |
| `Content.ClipCanonical` | vcs/archive/build.go:752-776 | Clipping a canonical map stays canonical within the span |
| `Content.ChunkBounds` | vcs/archive/pack.go:153-159 | Chunk spans start where the last one ended, are full but for the last, and end at the file size |
| `Content.ExpandGathered` | vcs/archive/pack.go:163-178 | Expanding the bytes stored for a span gives back the file's logical span, holes as zeros |
| `Content.ExpandExtents` | vcs/archive/pack.go:163-178 | For any extent list, succeeds exactly when every extent fits the span and the lengths add up to the stored bytes; on a canonical list stored bytes land at their offsets and every hole is zero |
| `Frames.TilingIsChain` | vcs/archive/validate.go:125-174 | A table tiles the packs exactly when each frame starts where the one before it stopped and the last pack is used up |
| `Frames.ValidateFrames` | vcs/archive/validate.go:125-174 | The one-pass scan accepts exactly the tilings: every pack byte in one frame, frames in order, no pack skipped or partly covered |
| `Tree.PopTo` | vcs/archive/validate.go:212-218 | Popping the ancestor stack finds the parent exactly when it is an open ancestor |
| `Tree.ScanIsPreorder` | vcs/archive/validate.go:181-229 | The stack condition holds for every entry exactly when every subtree is a contiguous interval |
| `Tree.ScanAcceptsTrees` | vcs/archive/validate.go:181-229 | The scan accepts a parent column exactly when it is the preorder listing of one rooted tree |
| `Tree.TreeUnique` | vcs/archive/validate.go:181-229 | A listing determines its tree |
| `Valid.ValidMeansOneTree` | vcs/archive/validate.go:28-54 | A valid manifest means exactly one tree |
| `Valid.SiblingsDistinct` | vcs/archive/validate.go:223-227 | No two entries under one parent share a name |
| `Validate.ValidateHeader` | vcs/archive/validate.go:56-94 | Accepts exactly the headers in bounds: power-of-two chunk size, identity present, pack sizes positive with a 64-bit total, priority in range |
| `Validate.ValidatePriority` | vcs/archive/validate.go:101-118 | Accepts exactly the positions inside a pack and the canonical end |
| `Validate.ValidateXattrs` | vcs/archive/validate.go:254-282 | Accepts exactly bounded user attributes in strictly increasing name order |
| `Valid.LessMeaning` | vcs/archive/validate.go:276 | One name is before another exactly when, at the first position where they differ, it has ended or has the smaller byte |
| `Validate.ValidateExtents` | vcs/archive/validate.go:336-399 | Accepts exactly canonical maps of the span and returns the bytes they cover |
| `Validate.ValidateChunk` | vcs/archive/validate.go:336-399 | Accepts exactly references whose extents, length, frame slice and emptiness agree |
| `Validate.ValidateChunks` | vcs/archive/validate.go:336-399 | Accepts exactly chunk arrays that cover the logical size chunk by chunk |
| `Validate.ValidateEntryShape` | vcs/archive/validate.go:284-327 | Accepts exactly the field combinations each entry type may have |
| `Validate.ValidatePlacement` | vcs/archive/validate.go:192-229 | With the ancestor stack and the names so far, accepts exactly a uniquely named child of an open directory, and keeps both |
| `Validate.ValidateEntries` | vcs/archive/validate.go:181-248 | The whole scan accepts exactly the valid entry tables within the chunk bound |
| `Validate.ValidateHardlinkGroups` | vcs/archive/validate.go:407-443 | Accepts exactly dense group numbers in order of first appearance, agreeing members and full membership |
| `Valid.GroupsDense` | vcs/archive/validate.go:407-443 | In an accepted table the group numbers in use are exactly 1 to the largest |
| `Validate.LogicalTotals` | vcs/archive/build.go:851-872 | Counts each inode once and sums regular sizes, or reports that 64 bits do not hold the sum |
| `Validate.SealedAllocation` | vcs/archive/manifest.go:302-325 | Sums every extent in whole blocks plus metadata per entry, or reports overflow; block rounding wraps as the source's does |
| `Validate.ValidateTotals` | vcs/archive/validate.go:451-494 | Accepts exactly headers whose four totals are those of the tree |
| `Validate.Validate` | vcs/archive/validate.go:28-54 | Accepts exactly the valid manifests |
| `Wire.BudgetByBytes` | vcs/archive/decode.go:389-398 | The budget's division accepts a count exactly when that many records fit the remaining bytes, so it never rejects records that are really there |
| `Records.ChunkCodec` | vcs/archive/encode.go:191-202 | Chunk records print and parse as inverses, both ways |
| `Records.RowCodec` | vcs/archive/encode.go:154-176 | Entry records print and parse as inverses, both ways |
| `Records.FrameCodec` | vcs/archive/encode.go:178-189 | Frame records print and parse as inverses, both ways |
| `Codec.HeaderComplete` | vcs/archive/decode.go:101-182 | Every header that fits decodes from its own bytes |
| `Codec.HeaderSound` | vcs/archive/decode.go:101-182 | Every header that decodes is the one whose bytes were read |
| `Codec.ManifestComplete` | vcs/archive/decode.go:23-99 | Every manifest whose tables fit decodes from its own bytes; no budget or length check stops it |
| `Codec.ManifestSound` | vcs/archive/decode.go:23-99 | Every body that decodes is exactly the encoding of the result, with nothing left over |
| `Codec.CodecBijection` | vcs/archive/encode.go:65-93 | A byte string decodes to a manifest exactly when that manifest encodes to that byte string: one encoding per manifest, one manifest per encoding |
| `Encode.SizeExact` | vcs/archive/encode.go:95-125 | The predicted size is the exact length of the encoding |
| `Encode.EncodedSize` | vcs/archive/encode.go:95-125 | Returns the exact encoded length, or reports that it exceeds the format bound |
| `Encode.AppendHeader` | vcs/archive/encode.go:127-152 | Appends exactly the header's specified bytes |
| `Encode.AppendEntry` | vcs/archive/encode.go:154-176 | Appends exactly the entry record's specified bytes |
| `Encode.AppendFrame` | vcs/archive/encode.go:178-189 | Appends exactly the frame record's specified bytes |
| `Encode.AppendChunk` | vcs/archive/encode.go:191-202 | Appends exactly the chunk record's specified bytes |
| `Encode.Encode` | vcs/archive/encode.go:65-93 | Succeeds exactly on valid manifests that fit; the object has every field of every record at its own offset, least significant byte first, then the digest of all that and the magic; the size-mismatch branch cannot happen |
| `Decode.Reader.Take` | vcs/archive/decode.go:315-322 | Consumes exactly the bytes asked for, or nothing |
| `Decode.Reader.LengthPrefixed` | vcs/archive/decode.go:365-382 | Reads a bounded length-prefixed string exactly when one is there |
| `Decode.Reader.WithinBudget` | vcs/archive/decode.go:389-398 | Accepts a count exactly when it is under the limit and count times record size is at most the bytes that are left |
| `Decode.DecodeHeader` | vcs/archive/decode.go:101-182 | Agrees with the header parser and leaves the cursor after it |
| `Decode.DecodeEntry` | vcs/archive/decode.go:184-243 | Agrees with the entry parser and leaves the cursor after it |
| `Decode.DecodeFrame` | vcs/archive/decode.go:245-268 | Agrees with the frame parser and leaves the cursor after it |
| `Decode.DecodeChunk` | vcs/archive/decode.go:270-303 | Agrees with the chunk parser and leaves the cursor after it |
| `Decode.Decode` | vcs/archive/decode.go:23-99 | Returns the valid manifest laid out in the object, and refuses an object within the size bound only when no valid manifest is laid out in it |
| `ByteLayout.ByteWeight` | vcs/archive/encode.go:127-202 | Byte i of an integer's stored form is the integer divided by 256 to the i, modulo 256 |
| `ByteLayout.EncodedLayout` | vcs/archive/encode.go:14-53 | Every manifest that encodes has each field of header, pack, entry, frame and chunk records at its offset, and starts with 1, 0, 0, 0 |
| `ByteExact.LayoutExact` | vcs/archive/encode.go:14-93 | For every valid manifest the objects laid out so, within the size bound, are exactly its encoding |
| `Ranges.GreedyPlan` | vcs/archive/ranges.go:44-94 | The merged ranges serve every wanted frame, each from one range, under the gap and size policy |
| `Ranges.GreedyOptimal` | vcs/archive/ranges.go:44-94 | No plan that obeys the policy has fewer ranges |
| `Ranges.CoalesceFrames` | vcs/archive/ranges.go:44-94 | Rejects exactly frames that do not exist; else returns ordered, disjoint ranges, every wanted frame in exactly one, over the cap only for a single frame, each running from the start of one wanted frame to the end of another, and no permitted plan is shorter |
| `Ranges.AppendSplit` | vcs/archive/ranges.go:127-139 | For every length and cap on which the loop stops, appends exactly what its iterations emit, under the cap; they tile the stretch when the last step stays within 64 bits |
| `Ranges.SplitExact` | vcs/archive/ranges.go:127-139 | The wrapping loop stops with an exact tiling if and only if its last step stays within 64 bits |
| `Ranges.NeverStops` | vcs/archive/ranges.go:131 | With a cap of 2^63 and one byte less than 2^64 the loop never ends |
| `Counterexamples.SweepWraps` | vcs/archive/ranges.go:104-139 | A manifest that passes validation and whose prefetch sweep never ends under a cap of 2^63 bytes |
| `Ranges.SmallPacksFit` | vcs/archive/ranges.go:127-139 | Packs of at most 2^63 bytes always split exactly |
| `Ranges.PrefetchRanges` | vcs/archive/ranges.go:104-121 | Every byte before the priority boundary is in exactly one range, no other byte in any, all under the cap |
| `RootDigest.AppendSemanticEntry` | vcs/archive/rootdigest.go:73-110 | Writes exactly the entry's specified stream |
| `RootDigest.RootDigest` | vcs/archive/rootdigest.go:63-71 | Hashes exactly the specified stream of the whole table |
| `StreamLayout.RootStream` | vcs/archive/rootdigest.go:14-45 | The hashed stream has every restored field of every entry at its offset, least significant byte first, and nothing else |
| `RootDigest.StreamUnique` | vcs/archive/rootdigest.go:73-110 | Equal streams come from equally many entries that agree on every restored field, although nothing separates entries |
| `RootDigest.ValidPreimageInjective` | vcs/archive/rootdigest.go:63-110 | Two valid manifests with the same stream restore to the same fields |
| `Xxh64.Stream.constructor` | vcs/archive/xxh64.go:44-46 | A new stream has hashed nothing |
| `Xxh64.Stream.ConsumeBlock` | vcs/archive/xxh64.go:71-76 | One stripe advances the four accumulators by the specified round |
| `Xxh64.Stream.Write` | vcs/archive/xxh64.go:48-69 | After any write, of any total length, the state is that of all bytes written so far, however they were split |
| `Xxh64.Stream.Sum64` | vcs/archive/xxh64.go:78-113 | The sum is the one-shot hash of everything written, unless more than a stripe was written and the 64-bit length has wrapped to less than one |
| `Xxh64.SumOfParts` | vcs/archive/xxh64.go:48-135 | Writing any sequence of parts, empty ones included, gives the one-shot hash of their concatenation under the same condition |
| `Xxh64.Sum` | vcs/archive/xxh64.go:131-135 | The whole-buffer form is the one-shot hash |
| `Xxh64Values.ShortValues` | vcs/archive/checksum_test.go:18-20 | The hashes of the empty input, "a" and "abc" are the published ones |
| `Xxh64Values.TextValue` | vcs/archive/xxh64.go:71-135 | So is that of a text of 63 bytes, which goes through a stripe and every kind of remainder |
| `ZstdFrame.RawFrameRecovered` | vcs/archive/zstdframe.go:61-86 | The reference parser recovers the content of a raw-block frame, with only the last block marked last and every block within the maximum |
| `ZstdFrame.RawFramesRecovered` | vcs/archive/zstdframe.go:61-86 | It recovers the concatenated contents of any concatenation of such frames, each with its own window |
| `ZstdFrame.RawFrameLength` | vcs/archive/zstdframe.go:94-97 | The length of a raw frame is the predicted size |
| `ZstdFrame.EncodeRawFrame` | vcs/archive/zstdframe.go:61-86 | Refuses exactly empty content and windows out of range; else writes the specified frame, of the predicted size |
| `StreamLayout.RawFrameBytes` | vcs/archive/zstdframe.go:61-86 | The bytes of a raw frame: magic, descriptor, window, content size, blocks with their three-byte headers, and checksum, each at its place |
| `PackReader.EncodeFrame` | vcs/archive/zstdframe.go:121-134 | Fails exactly on parameters out of range, on a library refusal or on empty content, with the error class of each; else keeps the compressed frame exactly when it is smaller than the content, or raw blocks, and either way the decoder reads the content back |
| `PackReader.DecodeFrame` | vcs/archive/zstdframe.go:141-165 | Whatever is returned is what the decoder made of exactly the recorded number of bytes, with the recorded length and checksum |
| `PackReader.ReadFrame` | vcs/archive/pack.go:53-63 | A frame is read only if it exists, and has the recorded length |
| `PackReader.SliceFrame` | vcs/archive/pack.go:81-92 | Whatever is returned has the recorded length and digest |
| `PackReader.ReadChunkVerified` | vcs/archive/pack.go:68-77 | A chunk read from any bytes has the length of its extents and the recorded digest |
| `PackReader.NewReader` | vcs/archive/pack.go:40-48 | A reader is made exactly for valid manifests |
| `PackReader.Reader.ReadChunkLogical` | vcs/archive/pack.go:98-113 | Succeeds exactly when the chunk exists and verifies; the span is its stored bytes expanded |
| `PackReader.Reader.ReadFile` | vcs/archive/pack.go:118-142 | Succeeds exactly when the entry is a regular file within the limit and all its chunks verify; the result is its spans in order and nothing else |
| `Source.XattrsSorted` | vcs/archive/build.go:287-300 | Attributes reported in any order are stored sorted, none lost and none added |
| `Source.GroupIsInode` | vcs/archive/build.go:307-353 | Two grouped entries have the same number exactly when they carry the same inode key |
| `Source.ClosedLinksValid` | vcs/archive/build.go:307-353 | The groups assigned to a walk whose links are closed form a hardlink table validation accepts |
| `Source.ClipsPartition` | vcs/archive/build.go:742-781 | A byte is data exactly when one chunk's own map says so, and no second chunk's does |
| `Source.LegibleByChunk` | vcs/archive/build.go:742-781 | A file all of whose chunks could be read has data under every extent |
| `Source.ChunkExpands` | vcs/archive/build.go:742-781 | Whatever expands what a chunk stores is that chunk's logical span |
| `Source.ChunksMakeFile` | vcs/archive/pack.go:118-142 | A file that agrees with the source span by span is the source's logical content |
| `Order.UnitsOnce` | vcs/archive/build.go:357-383 | The units are the distinct inodes with bytes, each once; by the walk's own modification times the latest comes first, and of equal times the one listed first |
| `Order.LocalityPermutes` | vcs/archive/build.go:432-450 | Grouping by directory and extension reorders the units: none lost, none repeated |
| `Locality.SmallOrderMeaning` | vcs/archive/build.go:396-450 | Small files are written each once, those of one directory and extension adjacent, latest modification time first, and the groups by the latest time among their members |
| `Locality.LargeOrderMeaning` | vcs/archive/build.go:376-402 | Large files are written latest modification time first |
| `Locality.ExtensionMeaning` | vcs/archive/build.go:436-439 | The extension is the suffix from the last dot of the name's last path element, or empty |
| `Order.OrderOnce` | vcs/archive/build.go:392-426 | Small and large files together are every unit once, each in its class |
| `Config.ValidateConfig` | vcs/archive/build.go:80-111 | Accepts exactly configurations with a valid header, part and pack sizes in range, and a pack target the part limit can carry |
| `Collect.Walk.Next` | vcs/archive/source.go:85-92 | Returns the walk's entries in order, then its end |
| `Collect.Collected` | vcs/archive/build.go:218-279 | Refuses exactly walks that are not collectable; else returns the walk and its bare entry table |
| `Collect.AssignGroups` | vcs/archive/build.go:307-353 | Refuses exactly walks with an open hardlink group or links that disagree on size; else every entry has its group number and every group its first member as owner |
| `Schedule.ContentUnits` | vcs/archive/build.go:357-383 | Returns the specified units, latest modification time of the walk first |
| `Schedule.SplitClasses` | vcs/archive/build.go:394-402 | Separates the classes at the chunk size, in order |
| `Schedule.GroupByLocality` | vcs/archive/build.go:432-450 | Returns the units group by group, groups in the order of their first member |
| `Reading.DigestZeros` | vcs/archive/build.go:783-795 | Feeds exactly the counted zeros, pad by pad |
| `Reading.FileExtents` | vcs/archive/build.go:687-709 | Refuses as invalid exactly the maps that are not canonical for the file's size |
| `Reading.ReadChunkFrom` | vcs/archive/build.go:742-781 | Yields the chunk's stored bytes, its own map, and the digest advanced by its logical span |
| `Packing.ClosedInv` | vcs/archive/build.go:654-667 | Closing a pack keeps the storage invariant and moves no byte |
| `Packing.AddedInv` | vcs/archive/build.go:571-578 | Adding a slice that fits keeps the invariant and moves nothing already placed |
| `Packing.FlushedInv` | vcs/archive/build.go:597-635 | Flushing keeps the invariant: frames tile the packs, each pack is within target or one frame, every indexed location still names its slice |
| `Packing.AtFlushed` | vcs/archive/build.go:597-635 | A recorded write position keeps its meaning as later frames are written and packs closed |
| `Table.TableWritten` | vcs/archive/build.go:528-540 | Copying an owner's content to its links keeps the entry table's meaning |
| `Landmark.MarkedHere` | vcs/archive/build.go:467-483 | A boundary set with no frame under assembly has every file written so far behind it |
| `Builder.Builder.ClosePack` | vcs/archive/build.go:654-667 | Records the size, CRC-64 and SHA-256 of exactly the bytes the sink accepted, and keeps the invariant |
| `Builder.Builder.OpenPack` | vcs/archive/build.go:637-652 | Opens an empty pack unless the pack bound is reached |
| `Builder.Builder.FlushFrame` | vcs/archive/build.go:597-635 | Writes the frame under assembly into the open pack exactly when that stays within its target, else into a new one; nothing changes when there is none |
| `Builder.Builder.PlaceChunk` | vcs/archive/build.go:546-592 | The reference returned names bytes with the chunk's digest and length, in a frame whose recorded index is its eventual one; bytes are stored exactly when they were not before; small files share frames, a large chunk is alone in its own |
| `Builder.Builder.SetPriorityHere` | vcs/archive/build.go:673-681 | Records the current write position |
| `Builder.Builder.PropagateToLinks` | vcs/archive/build.go:528-540 | Copies content to exactly the entries whose content the owner holds |
| `Builder.Builder.ReadChunk` | vcs/archive/build.go:713-731 | Opens the file once and reads its only chunk |
| `Builder.Builder.WriteSmallFile` | vcs/archive/build.go:455-484 | Stores the file under all its names and keeps the boundary's bookkeeping exact |
| `Builder.Builder.WriteLargeFile` | vcs/archive/build.go:487-523 | Stores the file chunk by chunk, each chunk its own frame or a deduplicated slice, and keeps the boundary's meaning |
| `Builder.Builder.WriteContent` | vcs/archive/build.go:392-426 | Stores every distinct inode with bytes once, small before large, and leaves every pack closed and the boundary set |
| `Builder.Builder.CollectWalk` | vcs/archive/build.go:218-279 | Fills both tables from the walk, or refuses it |
| `Builder.Builder.AssignHardlinkGroups` | vcs/archive/build.go:307-353 | Succeeds exactly when every group is closed |
| `Builder.Builder.Finish` | vcs/archive/build.go:800-849 | Succeeds exactly when the walk was well formed and the totals and chunk count fit: no earlier step can make the final validation fail |
| `Builder.Build` | vcs/archive/build.go:142-165 | On success the manifest is valid and assembled from a finished build, its pack table gives size, CRC-64 and SHA-256 of every pack object returned, each distinct inode with bytes was opened exactly once, and deployment and walk were acceptable; a walk is refused as invalid only when they are not, or when its content fills the last frame or pack the format allows |
| `Described.BuiltPacks` | vcs/archive/build.go:654-667 | A built manifest has one pack record per pack object, with that object's size and both its digests |
| `Described.OnePackTable` | vcs/archive/build.go:654-667 | Two builds with equal pack tables have equal pack objects, or two different ones with one SHA-256 digest |
| `Described.BuiltHeader` | vcs/archive/build.go:800-849 | The header carries the deployment's identity and parameters |
| `Described.BuiltFields` | vcs/archive/build.go:218-300 | Every field of an entry is the walk's, the mode cut to its permission bits and a missing link count one |
| `Described.BuiltFrame` | vcs/archive/build.go:597-635 | A frame's bytes in its pack are exactly the encoding of its content under the deployment's parameters, raw blocks exactly where its record says so |
| `Refusal.FinishedMeans` | vcs/archive/build.go:800-849 | Once all content is written, deployment and walk are acceptable if and only if the tree is well formed and the totals and chunk count fit |
| `Refusal.OutlineAgrees` | vcs/archive/build.go:800-849 | Whether the totals and the chunk count fit is decided by the walk and the chunk size alone |
| `Refusal.QuotaNeverWraps` | vcs/archive/build.go:469-480 | The bytes of all small files fit 64 bits, so counting them toward the quota never overflows |
| `Sealing.PriorityIsFrameStart` | vcs/archive/build.go:813-816 | Once every pack is closed the boundary is the start of a frame, or the canonical end |
| `Sealing.ManifestValid` | vcs/archive/build.go:800-849 | The manifest of a finished build is valid if and only if the walk was a well-formed tree within the chunk bound |
| `Counterexamples.SymlinkClaimsInode` | vcs/archive/build.go:528-540 | A walk that collection and the hardlink checks accept, every entry in its place, and that is still not well formed |
| `Sealing.VisitedOnce` | vcs/archive/source.go:47-49 | Exactly the distinct inodes with bytes are opened, each once |
| `EndToEnd.ReadsBack` | vcs/archive/pack.go:118-142 | From the packs a build wrote, every regular file reads without an error |
| `EndToEnd.ReadsExactly` | vcs/archive/build.go:546-592 | What is read from them is the source's logical content, holes as zeros, for hardlinked, deduplicated and sparse files alike |
| `EndToEnd.FailsClosed` | vcs/archive/pack.go:81-92 | From any other bytes, a read that succeeds returns the source's content, or the bytes it accepted for some chunk differ from the source's and have the same SHA-256 digest |
| `Layout.SemanticsDetermined` | vcs/archive/rootdigest.go:73-110 | Every restored field of a build's output is a function of the walk and the chunk size alone |
| `Layout.LayoutIndependent` | vcs/archive/rootdigest.go:63-110 | Two builds of one walk with one chunk size have the same root digest stream, whatever else of the configuration and the change times differs |
| `ChunkSize.ChunkSizeShows` | vcs/archive/rootdigest.go:42-110 | Two builds of one walk have the same root digest stream if and only if they use one chunk size or every file fits in one chunk of the smaller size |
| `Counterexamples.ChunkSizeChangesIdentity` | vcs/archive/rootdigest.go:42-110 | Every two builds of one concrete tree with chunks of 4096 and 8192 bytes have different root digest streams |
| `Layout.BoundaryIsLandmark` | vcs/archive/build.go:673-681 | The boundary of a build separates its frames: exactly those before the marked one lie before it |
| `Layout.RegionHoldsSmallFiles` | vcs/archive/build.go:403-425 | Frames before the boundary hold whole small files only, and only the first ones in write order, which lie wholly before it; these reach the quota or are all there are, and without the last they would not; large-file frames lie at or after it |
| `Layout.NewestPrefetched` | vcs/archive/ranges.go:96-100 | The first file a build opens has the latest modification time of all small files, and with any quota lies wholly before the boundary |
| `Layout.StoredOnce` | vcs/archive/build.go:546-592 | Without digest collisions no bytes are stored twice |
| `Layout.FetchedFromOnePlace` | vcs/archive/build.go:130-135 | Without digest collisions, two chunks with one digest, of whichever files, are fetched from one place |
| `Layout.SweepAlwaysSplits` | vcs/archive/ranges.go:104-139 | The prefetch sweep of every build output splits exactly under any cap |
| `Restore.PlanIterator.Next` | vcs/archive/restore.go:64-92 | Steps come in table order, each with its entry's own fields; a step links exactly when an earlier entry of its group exists, to the first of them |
| `Restore.NamespacePlan` | vcs/archive/restore.go:57-59 | Draining the iterator gives one step per entry, with that entry's index, parent, name, type, size, mode, time, link target, attributes and group |
| `Restore.CreatesFirst` | vcs/archive/restore.go:64-92 | A group is created exactly at its first member |
| `Restore.LinksBackward` | vcs/archive/restore.go:64-92 | A link step names an earlier creating step of the same inode |
| `Restore.OneInodePerGroup` | vcs/archive/restore.go:19-22 | Two names share a restored inode exactly when they share a group |
| `Restore.ParentsFirst` | vcs/archive/restore.go:12-17 | A parent is created, as a directory, before anything inside it |
| `Restore.PlanConserves` | vcs/archive/validate.go:451-494 | Creating steps number the header's inodes and their regular sizes sum to its bytes |
| `Namespace.PlanRestores` | vcs/archive/restore.go:12-92 | Carried out on an empty tree the plan never meets an existing name, a missing directory or a missing link target, and leaves exactly the manifest's paths, each on the inode of its group's first member |
| `Namespace.RestoresWalk` | vcs/archive/restore.go:12-92 | Sealing a walk and carrying out the plan leaves the walk's own paths and no others, each with the type, size, mode, time, link target and attributes the walk found, hardlinks on one inode |
| `Restore.Path` | vcs/archive/restore.go:99-117 | Fails exactly for entries that do not exist; the components are those from the root, and the depth guard never trips |
| `Restore.PathInjective` | vcs/archive/restore.go:99-117 | No two entries have the same path |
| `Restore.ChunkAt` | vcs/archive/restore.go:122-136 | Finds exactly the chunk whose span holds the offset |
| `Restore.FramesForEntry` | vcs/archive/restore.go:141-160 | Returns exactly the frames the entry's stored chunks name, ascending, each once |
| `Authority.Session.Call` | vcs/readonlyfs/client.go:68-81 | What each request may grant or take back under each outcome: settled success, refusal, never sent, unsettled; only what the session holds may be used, and a fixed tree answers lookups, opens and pages from its own nodes |
| `Authority.Session.Detach` | vcs/readonlyfs/client.go:73-78 | Counts one departure; once it succeeds nothing is granted to the session any more |
| `Authority.NextPage` | vcs/readonlyfs/client.go:535-575 | Any page a fixed directory may be served in |
| `Client.Client.Mutate` | vcs/readonlyfs/client.go:328-348 | While the session lives the authority did what was asked or nothing changed; every other outcome ends it for good |
| `Client.Client.Fail` | vcs/readonlyfs/client.go:418-426 | The first cause ends the session and drops the connection; later ones change nothing |
| `Client.Client.Reclaim` | vcs/readonlyfs/client.go:364-370 | Returns the capability or ends the session |
| `Client.Client.Resolve` | vcs/readonlyfs/client.go:286-326 | A walk of any depth holds at most two capabilities at once, on every path and after every failure, and uses none it has given back; on success only the result's own is left, and in a fixed tree it names the node the components lead to from the root; a missing name is reported only when they lead nowhere |
| `Client.Client.OpenItem` | vcs/readonlyfs/client.go:241-284 | Opening leaves one handle, on the node the path leads to and owned by the new description, with that node's attributes, and no capability; every failure leaves neither or ends the session |
| `Client.Client.OpenFile` | vcs/readonlyfs/client.go:164-207 | The same for regular files |
| `Client.Client.OpenDirectory` | vcs/readonlyfs/client.go:241-284 | The same for directories, with a cursor at the start |
| `Client.Client.CloseDescription` | vcs/readonlyfs/client.go:375-378 | Closes the handle once; a refusal leaves it open with its caller |
| `Client.File.Close` | vcs/readonlyfs/client.go:512-523 | Keeps the accounts balanced, and marks the file closed exactly when it is |
| `Client.Cursor.Close` | vcs/readonlyfs/client.go:577-588 | Keeps the accounts balanced, and marks the cursor closed exactly when it is |
| `Client.Client.Close` | vcs/readonlyfs/client.go:450-469 | Asks the authority to let the session go exactly when it still lived, once in all; if that succeeds nothing is granted to it any more, and a second Close does nothing |
| `Client.Client.ReadEntries` | vcs/readonlyfs/client.go:535-575 | Terminates; against a fixed directory yields exactly the entries between the two cookies, reports the end only there, and else fills the limit |
| `Client.Client.List` | vcs/readonlyfs/client.go:209-239 | A page resumes where the last stopped, or starts the directory the path leads to; there is no next cursor exactly when the end was reported, and then the handle is closed |
| `Client.ListPages` | vcs/readonlyfs/client.go:209-239 | Under any sequence of limits the pages concatenate to the listing of the directory the path leads to, from its start, each entry once and in order; without the end having been reported they are as long as the limits together, so limits beyond the listing reach its end |
| `Client.AnyRun` | vcs/readonlyfs/client.go:164-469 | After any sequence of operations and any answers, the session is terminal, or no capability is out and the open handles are exactly those of the descriptions not yet closed; at most two capabilities were ever out at once, and it detached at most once |

## Left out

- SHA-256, CRC-64/NVME and the zstd library, with its encoder cache and shared decoder: foreign code, kept abstract.
- `ScanFileExtents` (`vcs/archive/extents_linux.go`): kernel calls; its output is the input of `NormalizeExtents`.
- `WholeFileExtents`, `DefaultBuilderConfig`, `RootDigestHex` and `TotalPackBytes`: one-line members with nothing to prove.
- Error texts and wrapping: only success or failure and the error class are modelled.
- Xxh64.Stream.Sum64: says nothing of the value returned when the wrapped length of a long input is taken for a short one.
- Ranges.AppendSplit: the inputs on which the loop never stops have no result to speak of; SplitExact and SweepWraps are about them.
- Ranges.PrefetchRanges: speaks of the sweeps whose stretches split exactly; on the others some byte is fetched twice or the loop does not end.
- Content.ExpandExtents: an extent whose end does not fit 64 bits is left out, because the source then slices out of range.
- PackReader.Reader.ReadFile: the source of compressed ranges is a function of the range and the time of the read; how it fetches is not modelled.
- Builder.Build: the walk, files and sink may fail at any call with no reason given, so no input is promised success; which of several refusals is reported is not modelled.
- Builder.Builder.Finish: the branch that sets a boundary not set before is left out, because the boundary is always set by then.
- The `File.ReadAt` loop of the client, `Dial`, TLS, timeouts, contexts and the keepalive timer: a call is one atomic step, and the keepalive may end the session before any of them.
- Locking in the client: operations are atomic steps.
- `vcs/cmd`, `vcs/readonlyfs/path.go`, `vcs/hostedauth`, `vcs/bench`, the Swift code and the Python scripts: process plumbing, thin wrappers and user interface.
