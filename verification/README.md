# MeshWeb storage protocol: verified model

MeshWeb cuts a file into stripes, turns each stripe into `k` data and `m` parity
blocks with a Reed-Solomon code over GF(2^8), and keeps one shard file per block
index on peers. Any `k` of the `k + m` shard files are enough to get the file
back. This project models the parts of the repository that this promise rests
on, and proves that they keep it:

- `ReedSolomon.dfy`, `Erasure.dfy`: the striping layer. The encoder, the file
  decoder and the segment decoders are methods with the loops of the source;
  `ShardFile` says what a shard file is, and the round trip is proved for every
  file, every `k`, `m` and block size and every set of surviving shards.
- `Geometry.dfy`, `Streaming.dfy`: pipelined retrieval computes segment counts,
  offsets and lengths from the manifest alone. They are proved to agree with the
  encoder, and decoding segment by segment is proved to give what batch decoding
  gives.
- `Repair.dfy`: the in-memory rebuild of missing shards, exact and all or
  nothing.
- `Lease.dfy`: the ordering of repair leases, one acquisition, runs of
  acquisitions that do not overlap (`Lease`), and peers whose reads, writes and
  read-backs interleave freely (`LeaseRace`).
- `Bitmap.dfy`, `Aggregator.dfy`, `Scanner.dfy`, `Pipeline.dfy`: the
  self-healing pass over a network of stores, including reads that fail, writes
  that fail or are cut short, and health queries.
- `ReorderWriter.dfy`, `Resume.dfy`: the writer that puts segments back in order
  and checkpoints, and any number of runs of it with crashes at every point.
- `Tokens.dfy`, `SegmentFetch.dfy`, `ShardFetch.dfy`: the concurrent workers of
  both retrieval versions as state machines over fetch tasks.
- `ChunkStore.dfy`: the ranged shard store of a node and the client's test of a
  response. `Retrieval.dfy`: both retrieval versions end to end.
- `Registry.dfy`: the provider index with lazy expiry.
- `FileId.dfy`, `Manifest.dfy`: identifiers, manifest validation, upload and
  reconstruction.

The end-to-end chain is: `Manifest.UploadReconstructs` (upload and whole-file
reconstruction), `ShardFetch.FiledExactly` and `Retrieval.RetrievalExact` (version 1 retrieval),
`Retrieval.HonestProviderServes`, `SegmentFetch.DecodeHasEnough`,
`Streaming.SegmentDecodes` and `Resume.CrashSafeResume` (version 2 retrieval,
from a node's store to the output file), and `Pipeline.RepairConverges`
(self-healing).

## How it is modelled

- The library klauspost/reedsolomon is taken by its documented contract. `Split`
  pads with zeros, `Join` cuts the padding off, the reconstruct calls fill the
  blocks that are asked for, and a block of length zero counts as missing. Only
  the matrix algebra is a parameter (`Codec.parity`, `Codec.solve`), bound by the
  laws of a systematic code in which any `k` blocks determine all. Two concrete
  codes satisfy the laws (`WitnessCodecs`).
- SHA-256 is a function parameter. No lemma assumes that it has no collisions.
  Where equal digests must mean equal bytes, a lemma asks only that no other bytes
  have the digest of the file or of one of its own shards (`OnlyPreimage`), which a
  digest of 64 hexadecimal characters can satisfy (`Retrieval.ReplicatedValid`).
- A file is its bytes; opened files are the unread rest. Clocks, network answers
  and faults are inputs of the operations or actions of the state machines.
- State machines take a list of actions. An action that is not enabled does
  nothing, so a statement about every list of actions is a statement about every
  interleaving. Cancellation is an action that may happen at any time.
- Quantities are unbounded integers, except for the lease epoch (modulo 2^64) and
  the sums of the chunk protocol (64-bit two's complement). `GeometryFitsInt64`
  gives the exact bound under which the segment geometry stays within 64 bits.
- `hide` statements only keep definitions away from a proof that does not need
  them.

## Where the code and the documents differ

The model follows the code.

- docs/rfcs/RFC-0003-soft-lease.md puts the epoch into the lease key, derives it
  from the number of healthy shards and makes the owner that is read back the
  winner; `AcquireLease` uses a key without an epoch, the epoch above the one it
  read, and `CompareLeases` against what it reads back.
- The lease is meant to elect a single repairing node (RFC-0003 concedes that a
  slow DHT can split the election). It need not, even without delays: when a peer
  reads back before another one puts, both can win, on a store that keeps the last
  write and also on one that keeps the greatest lease (`LeaseRace.TwoWinners`).
  Who wins in any interleaving is stated exactly (`LeaseRace.WinsExactly`). When
  all puts precede all read-backs, a store that keeps the greatest lease elects
  exactly one peer, or none if the lease found at the start beats every one written
  (`LeaseRace.ExactlyOneWinner`), and one that keeps the last write elects one
  exactly when somebody wrote and every other lease written compares below the
  stored one (`LeaseRace.OverwriteElects`).
- A live lease is meant to keep other peers out. A peer whose first read fails puts
  its own lease over it, and even when that call fails afterwards the next one finds
  the new lease its own (`Lease.BlindRun`); nothing else lets another peer in
  (`Lease.HolderStays`, `Lease.SerialSafety`).
- Version 1 retrieval tells a shard that is already on disk by comparing what it
  found with the path of the shard file. A shard fetched over version 1 of the
  storage protocol whose bytes are that path is counted without being written,
  and the file is lost (`Retrieval.TmpShardIsLost`). With the manifest of an upload
  there is no other way to lose one (`Retrieval.RetrievalExact`). Other valid
  manifests may give shard files other names, which the workers do not use
  (`Retrieval.NamesExact`).
- The result of a checkpoint write is ignored. A write that fails or is cut short
  can make a later run rewrite more than ten segments, and for every file of more
  than ten segments there is such a run (`Resume.BoundNeedsTenSegments`).
- Neither is a failed checkpoint read noticed, nor a failed read in the final digest
  check. Either can delete output that a saved checkpoint still counts on, and no
  other step can (`Resume.SoundRun`, `Resume.SpoiledStartSkips`).
- docs/WIRE_SPECIFICATION.md allows file identifiers of up to 128 characters and
  the code 192.
- Section 5.3 of docs/WIRE_SPECIFICATION.md asks that a failed retrieval removes
  partial files; version 1 retrieval leaves a partial shard file behind when a
  stream ends early and the shard is not fetched again (`ShardFetch.PartialFileLeft`).
  Exactly such files are left (`ShardFetch.LeftExactly`), and none is counted, unless
  the shard is its own path (`ShardFetch.VerifiedOnDisk`).
- `RunOnce` means to ignore a file that the node does not have, but the error is
  wrapped before it is inspected, so a missing manifest always ends the pass with
  an error (`Pipeline.ScanFailed`).
- `EncodeFile` cuts its buffer to a short read before it compares the two
  lengths, so the loop is always left at end of file.
- A repairing node reads only its own healthy shards. A node that wins the lease
  with fewer than `k` of them repairs nothing, whatever its peers hold
  (`Pipeline.WinnerNeedsKLocally`).
- A scan moves a shard away when it cannot read it, intact or not. A pass loses an
  intact copy exactly when a scan moves it away like that and it is not written back,
  or when a write over it is cut short: at a peer that did not report it, or on the
  node itself if that could not read its copy (`Pipeline.HarmExact`). A health query
  loses one only in the first way (`Pipeline.QueryEffect`).

## Model

| member | source | states |
|---|---|---|
| `Erasure.RoundTrip` | erasure/erasure.go:147-245 | for every file, `k`, `m`, block size and set of surviving intact shard files: with at least `k` of them the decoder writes exactly the file, full stripes and padded last stripe alike; with fewer it fails, unless the file is empty |
| `Erasure.EncodeFile` | erasure/erasure.go:84-123 | the encoding loop, short read and all, leaves in each of the `k + m` outputs that shard's block of every stripe in stripe order, after as many stripes as the file has; a zero block size is an error |
| `Erasure.ReconstructFile` | erasure/erasure.go:198-239 | the decoding loop writes what decoding stripe by stripe from the unread parts of the shard files gives, for any contents, intact or not, and returns the first error it meets |
| `Erasure.EncodeThenReconstruct` | erasure/erasure.go:84-239 | the two loops composed: encode, keep any `k` shards, decode, and the file is back |
| `Erasure.SegmentRoundTrip` | erasure/erasure.go:261-291 | from any `k` blocks of a stripe the full and the data-only segment decoder both write the stripe's bytes, so skipping parity blocks changes nothing |
| `Erasure.DecodedLength` | erasure/erasure.go:198-239 | whatever the shard files hold, decoding that works writes exactly as many bytes as the file had |
| `ReedSolomon.JoinSplit` | erasure/erasure.go:100-234 | joining the data blocks of a split buffer and cutting to its length gives the buffer back, whatever the padding was |
| `ReedSolomon.SplitPads` | erasure/erasure.go:100-108 | the data blocks of a buffer one after the other are the buffer and then zeros, up to the next multiple of `k` |
| `ReedSolomon.JoinExactly` | erasure/erasure.go:232-236 | a join that works returns exactly as many bytes as asked for, the first ones of the data blocks |
| `ReedSolomon.ReconstructErased` | docs/adr/ADR_0002_REED_SOLOMON.md:13-15 | any `k` blocks of a codeword pass the library's checks and restore every block that is asked for and no other, and blocks that were present stay as they were |
| `WitnessCodecs.XorCodecValid` | docs/adr/ADR_0002_REED_SOLOMON.md:13-15 | the laws asked of the code are satisfiable for every `k`: one xor parity block meets them |
| `WitnessCodecs.ReplicationCodecValid` | docs/adr/ADR_0002_REED_SOLOMON.md:13-15 | the laws are satisfiable for every number of parity blocks: replication meets them |
| `Geometry.ShardFileLength` | retrieval/orchestrator_v2.go:145 | every shard file the encoder writes, data or parity, has the shard size the retriever computes from the file size |
| `Geometry.SegmentsAreStripes` | retrieval/orchestrator_v2.go:146 | the retriever's segment count is the number of stripes that `Erasure.EncodeFile` writes, for every file size |
| `Geometry.SegmentsTile` | retrieval/orchestrator_v2.go:253-257 | segment ranges are non-empty, at most a block long, start where the one before ends, and cover each shard from 0 to its end |
| `Geometry.StripeLenClosed` | retrieval/orchestrator_v2.go:336-340 | the length a decoded segment is cut to is the smaller of a full stripe and what is left of the file, and is positive |
| `Geometry.StripeLensSum` | retrieval/orchestrator_v2.go:336-340 | after any number of segments the lengths add up to min(file size, segments * k * block size), and after the last one to the file size |
| `Geometry.SegmentIsBlock` | retrieval/orchestrator_v2.go:253-257 | the requested byte range of shard file `j` is exactly shard `j`'s block of the stripe with the segment's number |
| `Geometry.GeometryFitsInt64` | retrieval/orchestrator_v2.go:145-257 | within the manifest limits every quantity of the geometry stays below 2^63 if and only if the file size leaves room for the rounding: k - 1 bytes, or a block less one byte when there is one data shard |
| `Streaming.SegmentDecodes` | retrieval/orchestrator_v2.go:336-343 | any `k` or more fetched chunks of a segment, whichever shards they come from, decode to the bytes of that segment of the file |
| `Streaming.StreamingIsBatch` | retrieval/orchestrator_v2.go:236-363 | the decoded segments in order, each from its own set of chunks, equal what whole-file decoding makes of any `k` whole shards, and both are the file |
| `Retrieval.HonestProviderServes` | retrieval/orchestrator_v2.go:303 | for every segment and shard, a node that stores the encoder's shard file answers the retriever's request with the chunk the segment decoder needs and the client accepts it |
| `Repair.RepairShards` | erasure/repair.go:24-143 | the rebuild and verification loops return what rebuilding stripe by stripe gives, for any sources, damaged ones included, and for sources that cannot be opened or fail while being read, and hand out bytes only if no shard failed its digest |
| `Repair.RepairExact` | erasure/repair.go:49-142 | from any `k` intact shards not listed as missing, every listed shard, data or parity, comes back byte for byte as the encoder wrote it and none fails, unless a source cannot be opened or a read within the stripes of the file fails, and then nothing comes back |
| `Repair.ReadIsBlock` | erasure/repair.go:69-97 | the tail read size worked out here is the encoder's block length of that stripe, so padding is never added to an intact source |
| `Repair.PaddedReadExactly` | erasure/repair.go:81-96 | a read of a source always gives as many bytes as asked for, those of the source as far as they go and then zeros |
| `Repair.OnlyVerified` | erasure/repair.go:116-142 | whatever the sources hold, returned bytes are exactly those of the listed shards and each matches its manifest digest |
| `Repair.FailureLists` | erasure/repair.go:116-142 | a repair reports an integrity failure if and only if some listed shard does not match its manifest digest; it lists exactly those as failed and exactly the others as repaired, and hands out no bytes |
| `Repair.RepairNeedsK` | erasure/repair.go:99-107 | with fewer than `k` sources in range and not listed as missing, a non-empty repair of a non-empty file always fails, whatever the sources hold |
| `Lease.CompareTotal` | watchdog/lease.go:46-71 | swapping the arguments flips the sign, and only leases of the same epoch, creation time and owner tie |
| `Lease.CompareTransitive` | watchdog/lease.go:46-71 | not losing is transitive, and a chain ties only if every link does; with the row above, a strict total order up to ties |
| `Lease.CompareMeans` | watchdog/lease.go:46-71 | the higher epoch wins, at equal epochs the earlier creation, and at equal times the smaller owner |
| `Lease.LexMeans` | watchdog/lease.go:62-68 | an owner is smaller where the two first differ, or if it is a proper prefix |
| `Lease.AcquireLease` | watchdog/lease.go:78-148 | one acquisition: its verdict and the stored lease are those of the read, decide, put, read back and compare protocol under every combination of store faults and of puts by others between its steps |
| `Lease.AcquireExactly` | watchdog/lease.go:82-147 | verdict and stored lease of one call, told from what is stored, the time and the faults: it is refused if and only if it reads another peer's lease that has not expired; otherwise it puts a lease of ten minutes, one epoch above the one it read or of epoch 1, and wins if and only if put and read-back work and what is read back does not beat it |
| `Lease.TakeOver` | watchdog/lease.go:89-104 | a call that finds an expired lease, none that it can read, or its own wins when its accesses work and nobody else puts |
| `Lease.WinnerIsStored` | watchdog/lease.go:107-144 | a win that nobody wrote over leaves the winner's own lease stored, good for ten minutes, one epoch above the one it replaces, or at epoch 1 when none could be read |
| `Lease.BreakIn` | watchdog/lease.go:85-105 | while another peer's lease is alive a call wins if and only if its first read fails, both later accesses work and nothing put meanwhile beats its lease; a call that reads the lease changes nothing |
| `Lease.HolderStays` | watchdog/lease.go:82-119 | in every run of calls that do not overlap, under a clock that does not run back: until a winner's lease expires, the stored lease stays with it if and only if no other peer's put inside the lease time follows a failed first read |
| `Lease.SerialSafety` | watchdog/lease.go:82-147 | in every such run, no other peer that reads the store could win inside the lease time, after any prefix of the run, if and only if there is no such put; and two different peers win within one lease time of each other only if there is one |
| `Lease.BlindRun` | watchdog/lease.go:85-105 | two peers win two nanoseconds apart without overlap: the second one's first call cannot read, puts and fails, its next one renews its own lease |
| `LeaseRace.LastPutterWins` | watchdog/lease.go:122-147 | in every interleaving on an overwriting store, the last peer to put wins once its read-back works |
| `LeaseRace.RaceOfOne` | watchdog/lease.go:78-148 | the steps of the interleaved model, done by one peer alone, are one acquisition, under all store faults |
| `LeaseRace.WinnersAreNotBelow` | watchdog/lease.go:130-147 | once all puts are over, in every order of read-backs, the winners among the written leases are exactly those that do not lose to the stored one |
| `LeaseRace.ExactlyOneWinner` | watchdog/lease.go:78-148 | on a store that keeps the greatest lease, any interleaving of reads and puts followed by any order of read-backs elects exactly one peer, or none exactly when the lease found at the start beats every one written |
| `LeaseRace.OverwriteElects` | watchdog/lease.go:78-148 | on an overwriting store, after any interleaving of reads and puts and then any order of read-backs: nobody wins if and only if nobody wrote; the peer whose lease is stored wins; and it is the only winner if and only if every other lease written compares below it |
| `LeaseRace.WinsExactly` | watchdog/lease.go:78-148 | in any interleaving of reads, puts and read-backs, a peer whose read-back works wins if and only if its lease does not lose, on a store that keeps the greatest lease, to the one found at the start or any put before its read-back; on an overwriting store, to the last one put |
| `LeaseRace.TwoWinners` | watchdog/lease.go:78-148 | two peers both read, then each puts and reads back: the first wins, and the second too on an overwriting store, and on one that keeps the greatest lease if and only if the first does not have the smaller owner |
| `Bitmap.BitmapFromShardIndices` | watchdog/bitmap.go:84-96 | the packing loop builds the bitmap of the in-range indices, skipping the others |
| `Bitmap.DecodeBitmap` | watchdog/bitmap.go:69-79 | the double loop lists what decoding byte by byte lists |
| `Bitmap.DecodeEncode` | watchdog/bitmap.go:69-96 | decoding an encoded list gives its in-range part, sorted and without duplicates, for every list and size |
| `Bitmap.EncodeDecode` | watchdog/bitmap.go:69-96 | encoding a decoded bitmap at eight bits a byte restores it byte for byte |
| `Bitmap.MaskIsPower` | watchdog/bitmap.go:73 | bit `b` of a byte has the value 2^b |
| `Bitmap.OneShard` | watchdog/bitmap.go:88-95 | the bitmap of a single shard `i` is 2^(i mod 8) in byte i / 8 and zero elsewhere |
| `Bitmap.BuildBitmap` | watchdog/bitmap.go:32-65 | the two loops build the bitmap of the shard numbers found, sized by the largest |
| `Bitmap.BuiltBitmap` | watchdog/bitmap.go:51-65 | that bitmap lists exactly the shard numbers found and its last byte is never zero |
| `Aggregator.BuildNetworkState` | watchdog/aggregator.go:25-55 | available and missing are the covered and uncovered shards, and the replica map holds for every index, also past the shard count, in how many bitmaps its bit is set |
| `Aggregator.CoveredPartition` | watchdog/aggregator.go:39-46 | the two lists are increasing and partition the shard numbers: a shard is missing if and only if no bitmap has its bit |
| `Aggregator.ReplicasExist` | watchdog/aggregator.go:29-34 | a replica count is positive if and only if some bitmap has the bit |
| `Scanner.LocalScanner.ScanLocalFile` | watchdog/scanner.go:54-91 | a scan reports every shard as healthy, corrupted or missing by what was on disk and readable when it began, although it moves files meanwhile, and leaves a disk from which exactly the files it saw as corrupted and could move are gone into quarantine |
| `Scanner.ScanExactly` | watchdog/scanner.go:54-78 | told from the disk and the digests: a shard is missing if and only if it has no file, healthy if and only if its file can be read and has the manifest's digest, corrupted otherwise; and just the corrupted ones that can be moved are gone from the store, into quarantine, with their bytes |
| `Scanner.ScanPartition` | watchdog/scanner.go:54-78 | healthy, corrupted and missing are increasing, disjoint, and together are all shard numbers of the manifest |
| `Scanner.QuarantineEffect` | watchdog/scanner.go:64-77 | a scan changes the health of no shard except that those it sees as corrupted and can move become absent; a healthy shard is lost exactly when its read fails and it can be moved |
| `Scanner.Rescan` | watchdog/scanner.go:54-78 | after every move worked, a second scan finds healthy what the first did, except where a read fails now, and as missing what was missing or corrupted; with working reads it finds the same healthy list and nothing corrupted |
| `Scanner.HealthBitmapIsHealth` | node/node.go:421-428 | the health handler's bitmap has one bit per shard rounded up to bytes, and bit `i` is set if and only if shard `i` is healthy and its read works |
| `Pipeline.Network.RunOnce` | watchdog/pipeline.go:41-135 | a whole pass leaves the disks, the lease store and the outcome of the specified pass, for any peers, scans that health queries start at peers, failed reads and moves of any scan, replies, lease faults and puts by others, source faults, and writes that fail, complete or are cut short |
| `Pipeline.PassAt` | watchdog/pipeline.go:41-135 | the whole effect of a pass on one shard of one node: it is written only where a repair reaches it, and then with bytes that match the manifest; otherwise it is only swept by a scan the node makes, which moves away what it cannot read or what does not match |
| `Pipeline.EndsExactly` | watchdog/pipeline.go:41-113 | which way a pass ends, told from the state before it, and that it touches the lease only when the node could scan and see its peers and something is missing |
| `Pipeline.PassKeeps` | watchdog/pipeline.go:41-132 | no pass takes an intact copy away from any node, unless a scan fails to read it and moves it, or a write stops halfway over one; no assumption on digests, manifests, replies or leases |
| `Pipeline.HarmExact` | watchdog/pipeline.go:41-132 | a pass loses an intact copy if and only if, told from the state before it and its faults, it will write there and the write is cut short of the copy or cannot start after a scan moved the copy away, or it will not write there and a scan that cannot read the copy moves it away |
| `Pipeline.QueryEffect` | watchdog/scanner.go:64-77 | a health query loses an intact copy if and only if it is at the node asked, that has the manifest, the read of the copy fails and the file can be moved |
| `Pipeline.RepairNeverHarms` | watchdog/pipeline.go:41-135 | over every sequence of passes by any nodes and of health queries in which no scan moves an intact copy it cannot read and no write is torn over one, the set of intact (node, shard) copies never shrinks |
| `Pipeline.MissingMeans` | watchdog/pipeline.go:63-86 | a pass finds a shard missing if and only if the node has no healthy copy and no visible peer other than itself reported one |
| `Pipeline.WinnerNeedsKLocally` | watchdog/pipeline.go:100-113 | a node that wins the lease repairs all missing shards if it has `k` healthy ones itself (or the file is empty) and can read them, and otherwise nothing, whatever its peers hold |
| `Pipeline.RepairedCovers` | watchdog/pipeline.go:115-132 | after a repair with working local writes every shard is intact on the node or was reported by a visible peer, and no copy of a reported shard was written over, however the pushes went |
| `Pipeline.RepairConverges` | watchdog/pipeline.go:63-132 | a pass that wins with `k` healthy shards of its own leaves every shard intact at itself or a visible peer, and its next pass, whatever peers, replies and faults it meets as long as what was reported still is and it can read what nobody reports, finds nothing missing and leaves the lease alone |
| `Pipeline.HealthIsHonest` | node/node.go:421-428 | peers that answer with the health bitmap of the scan they make report only shards they hold intact and keep, as `Pipeline.RepairConverges` asks |
| `Pipeline.StillReported` | node/node.go:421-428 | after a repair, peers that go on answering with their health bitmaps still report every shard they reported and can read |
| `ReorderWriter.SegmentWriter.Accept` | retrieval/orchestrator_v2.go:194-225 | one result drains everything that has come into line, as the specified writer does |
| `ReorderWriter.SegmentWriter.Run` | retrieval/orchestrator_v2.go:188-231 | the writer loop leaves the state of the specified writer for any results, and its barrier passes if and only if the next expected segment is the segment count |
| `ReorderWriter.AnyOrder` | retrieval/orchestrator_v2.go:191-231 | for every arrival order the bytes written are the segments in order up to the first that has not arrived, the newest checkpoint records exactly the bytes up to its segment, and the barrier passes if and only if all arrived |
| `ReorderWriter.DueExactly` | retrieval/orchestrator_v2.go:207 | the last segment and every tenth one are checkpointed, and no others |
| `ReorderWriter.LastCheckpoint` | retrieval/orchestrator_v2.go:207-216 | once all segments have arrived, in any order, the checkpoint names the last one and all the bytes |
| `Resume.CrashSafeResume` | retrieval/orchestrator_v2.go:156-232 | over any number of runs, crashes (between or inside writes), failed checkpoint accesses and restarts: a run that reported success left exactly the file, whatever failed; unless a step spoiled it, the output is a prefix of the file, at least as long as the checkpoint says, which is min(file size, (segment + 1) * k * block size); and at most ten written segments are written again if every checkpoint access completes |
| `Resume.SpoilsStep` | retrieval/orchestrator_v2.go:160-387 | the exact steps that end the promise about the output: a start that cannot read the saved checkpoint and empties the output, and a final check that reads other bytes than the file's and deletes it while a checkpoint is saved |
| `Resume.SoundRun` | retrieval/orchestrator_v2.go:156-387 | a run keeps the output a prefix of the file that covers the checkpoint after every step if and only if it has none of those steps |
| `Resume.SpoiledStartSkips` | retrieval/orchestrator_v2.go:160-184 | after such a start and a crash, a run that reads the old checkpoint starts past the end of an empty output and never writes the segments before it |
| `Resume.BreaksStep` | retrieval/orchestrator_v2.go:198-220 | the exact steps that end the bound of ten: writing a segment ten or more past the checkpoint on disk, tearing a checkpoint once more than ten segments were written, and saving one more than ten behind what was written; every other step keeps it |
| `Resume.BoundedRun` | retrieval/orchestrator_v2.go:198-220 | a run keeps to the bound of ten after every step if and only if it has none of those steps |
| `Resume.BoundNeedsTenSegments` | retrieval/orchestrator_v2.go:207-216 | whatever becomes of checkpoint writes, the bound holds in every run if and only if the file has at most ten segments |
| `Resume.BarrierMeansWhole` | retrieval/orchestrator_v2.go:227-387 | unless a step spoiled the output, a final digest check that reads it all never deletes it; and every successful run wrote every segment from its start on exactly once, in order |
| `Resume.SuccessExactly` | retrieval/orchestrator_v2.go:227-399 | a run reports success if and only if every segment is launched, delivered and written, none failed, and what the final check reads has the file's digest; it does when the output was not spoiled and is read to the end |
| `Resume.SomeRunCompletes` | retrieval/orchestrator_v2.go:114-399 | for every file, code, block size and window some run reports success, with the file as output and a checkpoint of its last segment |
| `Resume.BarrierFailsOnlyAfterFailure` | retrieval/orchestrator_v2.go:227-231 | no segment gets lost between launch and output: when all were launched, nothing is under way and none failed, all are written |
| `Resume.FaultsExactly` | retrieval/orchestrator_v2.go:199-204 | a failed segment is remembered; a crash leaves the disk as it is; one inside a write adds just the first bytes of the segment at the writer's position |
| `Resume.TornCheckpointStartsOver` | retrieval/orchestrator_v2.go:160-216 | in every reachable state, a due checkpoint write cut short and a crash make the next run start from segment 0 with an emptied output and rewrite every segment ever written, more than ten exactly when more than ten were |
| `Resume.UnreadCheckpointStartsOver` | retrieval/orchestrator_v2.go:160-184 | a start that cannot read the checkpoint writes every segment again that was ever written |
| `SegmentFetch.TokensConserved` | retrieval/orchestrator_v2.go:264-326 | in every interleaving each of the shards is in exactly one of queue, hand, waiting to be put back, fetched, dropped or, only after cancellation, lost, and no other shard is anywhere; each was asked for at most five times and dropped only after the fifth; the filled slots are those counted plus those about to be counted, at most 2k - 1 |
| `SegmentFetch.SendsNeverBlock` | retrieval/orchestrator_v2.go:264-321 | whoever is about to send a task finds room in the queue, in every interleaving |
| `SegmentFetch.DecodeHasEnough` | retrieval/orchestrator_v2.go:303-343 | after any interleaving in which providers sent the right chunks, every filled slot holds the chunk of its shard; once the workers are gone the counter equals the number of filled slots, so decoding starts only with `k` distinct chunks, and they are what the segment decoder needs |
| `SegmentFetch.SlotsStep` | retrieval/orchestrator_v2.go:303-306 | only a completed fetch changes the slots, and puts just its chunk into the slot of its shard |
| `SegmentFetch.MovesExactly` | retrieval/orchestrator_v2.go:283-322 | tasks are served in order; one without a provider goes to the end of the queue as it is, a failed one with one attempt more, one tried five times is dropped |
| `SegmentFetch.LeavesExactly` | retrieval/orchestrator_v2.go:278-312 | a worker leaves if and only if it sees `k` chunks counted, the fetch cancelled, or the queue empty for the moment |
| `SegmentFetch.SomeFetchSucceeds` | retrieval/orchestrator_v2.go:264-326 | whatever chunks the first `k` shards have, some run fills their slots with them and counts `k` |
| `ShardFetch.TokensConserved` | retrieval/orchestrator_v1.go:173-365 | in every interleaving each shard is in exactly one place, none is lost before cancellation or success, all fetches together are at most five per shard and none is dropped before its fifth, the success counter is the size of the verified set, and that set never outgrows MinShards + concurrency - 1 |
| `ShardFetch.MovesExactly` | retrieval/orchestrator_v1.go:187-363 | tasks are served in order and fetched only while too few shards are counted; a failed one goes back with one attempt more, one tried five times is dropped; only shards of 1 byte to 8 GiB are found |
| `ShardFetch.LeavesExactly` | retrieval/orchestrator_v1.go:184-353 | a worker leaves if and only if it finds the fetch cancelled, enough shards counted before or after its own, or no provider; in the last two cases it cancels the others |
| `ShardFetch.VerifiedOnDisk` | retrieval/orchestrator_v1.go:264-346 | in every interleaving the number of every verified shard is in range and its file is on disk with the manifest's digest, whatever failed fetches leave behind, unless the bytes of the shard are its own path |
| `ShardFetch.FiledExactly` | retrieval/orchestrator_v1.go:321-346 | over all interleavings, whatever the store held before, every verified shard has its file if and only if no shard's path has the digest of that shard |
| `ShardFetch.LeftExactly` | retrieval/orchestrator_v1.go:252-272 | in every interleaving, the file of a shard that is neither verified nor in a worker's hand is the one from the start changed by the last failed fetch or write that touched it; without one at the start, it exists if and only if that left it partial, with just those bytes |
| `ShardFetch.PartialFileLeft` | retrieval/orchestrator_v1.go:259-262 | a run in which a stream ends early and the fetch is cancelled leaves the partial file of an unverified shard |
| `ShardFetch.SendsNeverBlock` | retrieval/orchestrator_v1.go:331-362 | a failed task waiting to be put back always finds room in the queue |
| `Retrieval.RetrievedFile` | retrieval/orchestrator_v1.go:371-391 | for any valid version 2 manifest of a file: after any interleaving of the workers, whatever the store held before and failed fetches left there, reconstruction with the verified shards listed in any order gives the file if the counter reached MinShards, none of them is its own path and the manifest names their files as the workers do, and stops at the count check if the counter did not |
| `Retrieval.RetrievalExact` | retrieval/orchestrator_v1.go:321-391 | for a manifest with the workers' file names, such as an upload's: over all interleavings that reach MinShards, whatever the store held before, reconstruction gives the file if and only if no shard consists of the bytes of its own path |
| `Retrieval.NamesExact` | retrieval/orchestrator_v1.go:252-391 | for any valid version 2 manifest of a non-empty file: over all stores and interleavings that reach MinShards, reconstruction gives the file if and only if the manifest names every shard file as the workers do and no shard is its own path |
| `Retrieval.TmpShardIsLost` | retrieval/orchestrator_v1.go:324-346 | with the store directory tmp and one data shard, the file of the twelve bytes tmp/shard.00 is fetched, verified, counted and lost |
| `ChunkStore.Store.Push` | node/node.go:276-323 | a rejected or unopened push changes nothing; an accepted one starts the file over at offset 0 and otherwise writes the received part into what is there; the response tells how much arrived and the file is advertised only when the shard's last byte did |
| `ChunkStore.Store.Read` | node/node.go:195-252 | an error exactly when the request is invalid, the shard is absent or the offset lies past its end; otherwise the shard's true size and its bytes from the offset on, as many as asked for if they are there, and all the rest for length 0 or one that is too long |
| `ChunkStore.PushRoundTrip` | node/node.go:290-306 | for any chunks of a shard in any order, onto anything: only the last chunk at offset 0 and what follows it count, and the file is exactly the shard if and only if the old content is not longer, one of the two reaches the end, and every uncovered byte is the old one, or zero past the old end |
| `ChunkStore.CoveringPush` | node/node.go:290-306 | the offset-0 chunk first and the others in any order, together covering the shard, leave exactly the shard |
| `ChunkStore.LateFirstChunk` | node/node.go:290-293 | an offset-0 chunk pushed last leaves only itself |
| `ChunkStore.ChunkIsValidPush` | node/node.go:276 | every chunk of a shard up to the size limit is accepted, and the sums of the check cannot overflow |
| `ChunkStore.AcceptedPush` | node/node.go:276 | a push is accepted if and only if its identifier is plain, its shard number at most 255 and its range non-empty within a shard of at most 8 GiB; the identifier is then one directory name |
| `ChunkStore.HonestFetch` | retrieval/orchestrator_v2.go:54-107 | a request of positive length up to 64 MiB to an honest node yields exactly the requested bytes if the node has the shard and the range fits, and fails otherwise; 64-bit wrap-around lets nothing through |
| `ChunkStore.AcceptedResponse` | retrieval/orchestrator_v2.go:87-106 | a response that is accepted, whoever sent it, names the requested file, shard, offset and length, claims a shard that the range fits, and carries just as many bytes as asked for |
| `ChunkStore.WrapExactly` | retrieval/orchestrator_v2.go:90 | the 64-bit sum of the client's check differs from the exact one by a multiple of 2^64 and lies in range |
| `Registry.ProviderRegistry.HandleAnnounce` | discovery/discovery.go:85-112 | an announce without file or provider identifier changes nothing; any other replaces that provider's record for the file, with the addresses that parse and the current time |
| `Registry.ParsableExactly` | discovery/discovery.go:91-96 | the addresses kept are exactly those that parse, in the order sent |
| `Registry.ProviderRegistry.PruneLocked` | discovery/discovery.go:129-141 | in any visiting order the loops remove exactly the records older than the time to live and the files left without any |
| `Registry.ProviderRegistry.HandleFind` | discovery/discovery.go:114-127 | a find prunes and then returns the information of every provider left for the file |
| `Registry.FindIsExact` | discovery/discovery.go:98-141 | after any announces and finds under a clock that does not run back, a find returns exactly the information of the providers whose newest announce for the file is at most five minutes old, and no file is kept without providers |
| `FileId.StaysInDirectory` | manifest/manifest.go:26-35 | a valid file identifier is a single directory name: not empty, not `.` or `..`, without separators |
| `FileId.Identifiers` | manifest/manifest.go:26 | a letter or digit is an identifier, and an identifier followed by a letter, digit, dash, dot or line is one, up to 192 characters; nothing else is |
| `Manifest.ShardNamesDiffer` | erasure/erasure.go:47-49 | two shards never share a file name, also past 99, and every shard name passes the manifest's path check |
| `Manifest.NameSpellsNumber` | erasure/erasure.go:47-49 | the file of shard `i` is called shard. and `i` in decimal, in at least two digits |
| `Manifest.ValidExactly` | manifest/manifest.go:97-153 | a manifest is valid if and only if its version is known, its identifier and every path name plain, its sizes and counts consistent and within limits, and its digests well formed |
| `Manifest.CreateUploadManifest` | manifest/manifest.go:168-223 | an upload writes the encoder's shard files and a manifest with the digest of each of them and an identifier derived from the content |
| `Manifest.UploadValidates` | manifest/manifest.go:97-223 | the manifest of an upload passes validation if and only if there is parity, at most 256 shards, a block of at most 64 MiB, a file name and a positive time |
| `Manifest.UploadDescribes` | manifest/manifest.go:203-220 | an upload within the limits makes a valid manifest of its file: content-addressed identifier, the workers' file names, and the digest of the file and of every shard |
| `Manifest.ReconstructFromManifest` | manifest/manifest.go:237-270 | validation, count check, range check of every listed number before any file is opened, decoding and the digest check give the outcome of the specified reconstruction for any manifest, directory and index list |
| `Manifest.OnlyTheFile` | manifest/manifest.go:256-267 | whatever the shard files hold, what reconstruction returns has the manifest's digest and size, so a wrong file never comes back if no other bytes have that digest |
| `Manifest.FailsExactly` | manifest/manifest.go:237-259 | which error a failing reconstruction reports: too short a list, then a number out of range, then a missing file, and only then the decoder's or a wrong digest |
| `Manifest.DescribedReconstructs` | manifest/manifest.go:237-270 | from the files a valid manifest names, as the encoder wrote them, the file comes back if and only if the index list is long enough, names only shards whose files exist and names `k` different ones (or the file is empty) |
| `Manifest.UploadReconstructs` | manifest/manifest.go:237-270 | from an upload's shard files the file comes back if and only if the index list is long enough, names only shards whose files exist and names `k` different ones (or the file is empty); a list padded with repeats gets past the count check and fails in the decoder |

## Left out

- Pipeline.RepairNeverHarms: excludes scans that move an intact copy they cannot read and writes torn over one, because they do lose the copy (`Pipeline.HarmExact` and `Pipeline.QueryEffect` give the exact conditions).
- Lease.SerialSafety: is about calls that do not overlap; for calls that do, `LeaseRace.WinsExactly` says who wins.
- LeaseRace.ExactlyOneWinner: needs all puts before all read-backs and a store that keeps the greatest lease, because without either two peers can be elected (`LeaseRace.TwoWinners`, `LeaseRace.OverwriteElects`).
- Resume.CrashSafeResume: the prefix excludes steps that spoil the output (`Resume.SoundRun`) and the bound of ten needs checkpoint accesses to complete (`Resume.BoundedRun`); only crashes of the process are modelled, not loss of cached pages, and nobody else touches the output file.
- Retrieval.RetrievedFile: says nothing about a run in which a verified shard is its own path or is named differently, because the outcome then depends on what the store held before.
- Pipeline.Network.RunOnce: a peer listed twice meets the same fate twice.
- Registry.ProviderRegistry.HandleFind: returns providers as a set, because the source lists a Go map in no particular order.
- Streams, deadlines, DHT calls, JSON and base64: requests and responses are records that are already decoded.
- Matrix construction over GF(2^8) and the error cases of the codec constructor.
- SHA-256 itself, and `CalculateIntentHash`: the intent digest of a lease is an opaque value that no decision looks at; `CreateRepairJob` only packs values for it.
- Reputation scores and blacklisting (`GetBestProvider`, `ReportSuccess`, `ReportError`): which provider is asked is left open in the fetch models, so they hold for any choice.
- Progress timeouts and sleeps: cancellation may happen at any time instead.
- Memory sampling, timing statistics and logging.
- The chunk buffer pool: chunks are fresh values.
- Directory listing and name parsing in `BuildBitmap`; a file named with a negative number makes the source fail and is not modelled.
- Version 1 manifests in scan and repair, which need not carry shard hashes.
- The version 1 storage and push handlers and the manifest exchange handler of a node.
- The copy of the manifest next to quarantined shards, and quarantined files themselves once moved.
- Read and write errors of the encoder and the file decoder, which end them with an error, and output that a decoder has already written when it meets one.
- Passes and health queries that cannot read the manifest: they do nothing.
- Liveness of retries: workers of a segment leave when the queue is momentarily empty.
- A size bound on the reorder buffer, and resuming after the final digest check deleted the output.
- Path names are modelled for the `/` separator.
- compliance, cmd, client, placement, peerstate and node retries.
