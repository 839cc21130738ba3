/** Retrieval end to end. Version 2: the chunk a client accepts from an honest provider is the one the segment
    decoder expects (retrieval/orchestrator_v2.go). Version 1: when the shards its workers verified give back the
    uploaded file (retrieval/orchestrator_v1.go). */
module Retrieval {
  import opened Prelude
  import opened FileId
  import opened ReedSolomon
  import opened WitnessCodecs
  import opened Erasure
  import opened Geometry
  import opened Streaming
  import ChunkStore
  import Manifest
  import ShardFetch

  /** The request for the chunk of shard j of a segment. */
  ghost function ChunkRequest(c: Codec, fileSize: nat, blockSize: nat, fileId: string, seg: nat, j: nat): ChunkStore.ReadRequest
    requires c.k >= 1
  {
    ChunkStore.ReadRequest(fileId, j, Offset(blockSize, seg), Length(fileSize, c.k, blockSize, seg))
  }

  /** For every segment and shard, a node that stores the encoder's shard file answers with the chunk the decoder
      needs, and the client accepts it; the geometry never asks for a range that does not fit. */
  lemma HonestProviderServes(c: Codec, file: Bytes, blockSize: nat, files: map<ChunkStore.Key, Bytes>, fileId: string, seg: nat, j: nat)
    requires c.Valid() && 1 <= blockSize <= MAX_BLOCK_SIZE && j < c.Total() && seg < TotalSegments(|file|, c.k, blockSize)
    requires ValidFileId(fileId) && j <= ChunkStore.MAX_SHARD_INDEX && |file| <= I64_MAX
    requires (fileId, j) in files && files[(fileId, j)] == ShardFile(c, file, blockSize, j)
    ensures var r := ChunkRequest(c, |file|, blockSize, fileId, seg, j);
      ChunkStore.FetchChunk(r, ChunkStore.Served(files, r)) == Some(Chunk(c, file, blockSize, seg, j))
  {
    hide ShardFile, ChunkStore.Served, ChunkStore.FetchChunk, StripeBlocks, StripeAt, Offset, Length;
    SegmentIsBlock(c, file, blockSize, seg, j);
    SegmentsTile(|file|, c.k, blockSize, seg);
    ShardFileLength(c, file, blockSize, j);
    CeilDivAtMost(|file|, c.k);
    OffsetNonNegative(blockSize, seg);
    ChunkStore.HonestFetch(files, ChunkRequest(c, |file|, blockSize, fileId, seg, j));
  }

  lemma OffsetNonNegative(blockSize: nat, seg: nat)
    ensures Offset(blockSize, seg) >= 0
  {
  }

  // ----- version 1: whole shards -----

  /** A file, a manifest that describes it, and a retriever's settings: no other bytes have the digest of one of the
      shards, and `paths` are where the shard files go. */
  datatype Fetch = Fetch(c: Codec, file: Bytes, m: Manifest.FileManifest, hash: Bytes -> Digest, paths: seq<Bytes>, concurrency: nat)
  {
    ghost predicate Valid() {
      && Manifest.Describes(m, c, file, hash)
      && (forall i: nat :: i < c.Total() ==> OnlyPreimage(hash, ShardFile(c, file, m.blockSize, i)))
      && |paths| == c.Total() && (forall i :: 0 <= i < |paths| ==> 0 < |paths[i]| <= MAX_SHARD_SIZE) && concurrency >= 1
    }

    ghost function Shard(i: nat): Bytes
      requires Valid() && i < c.Total()
    {
      ShardFile(c, file, m.blockSize, i)
    }

    /** What the workers take from the manifest. */
    ghost function Params(): ShardFetch.Params
      requires Valid()
    {
      ShardFetch.Params(c.k, concurrency, c.Total(), paths, hash, m.shardHashes)
    }

    /** Shard i consists of the bytes of its own path. */
    ghost predicate OwnPath(i: nat)
      requires Valid() && i < c.Total()
    {
      Shard(i) == paths[i]
    }

    /** The manifest calls the file of shard i what the workers call it. */
    ghost predicate Named(i: nat)
      requires Valid() && i < c.Total()
    {
      m.shardPaths[i] == Manifest.ShardName(i)
    }
  }

  /** The store directory holds exactly the shard files, under their names, and `present` lists the verified shards. */
  ghost predicate Listing(s: ShardFetch.State, dir: map<string, Bytes>, present: seq<int>) {
    && (forall i: nat :: Manifest.ShardName(i) in dir <==> i in s.disk)
    && (forall i: nat :: i in s.disk ==> Manifest.ShardName(i) in dir && dir[Manifest.ShardName(i)] == s.disk[i])
    && Distinct(present) && forall i :: i in present <==> i >= 0 && i in s.verified
  }

  ghost function Reconstructed(f: Fetch, dir: map<string, Bytes>, present: seq<int>): Result<Bytes, Manifest.Problem>
    requires f.Valid()
  {
    Manifest.FromManifest(f.c, f.hash, f.m, dir, present)
  }

  lemma OwnPathMeans(f: Fetch, i: nat)
    requires f.Valid() && i < f.c.Total()
    ensures ShardFetch.IsOwnPath(f.Params(), i) <==> f.OwnPath(i)
  {
    hide ShardFile;
    assert f.Params().hashes[i] == f.hash(f.Shard(i));
    assert OnlyPreimage(f.hash, f.Shard(i));
  }

  /** A listing has as many entries as shards were counted. */
  lemma ListingLength(f: Fetch, disk: map<nat, Bytes>, actions: seq<ShardFetch.Action>, dir: map<string, Bytes>, present: seq<int>)
    requires f.Valid() && Listing(ShardFetch.Exec(f.Params(), disk, actions), dir, present)
    ensures |present| == |Manifest.Listed(present)| == ShardFetch.Exec(f.Params(), disk, actions).successCount
  {
    hide ShardFetch.Exec, ShardFile, Manifest.ShardName, Manifest.Validate;
    var s := ShardFetch.Exec(f.Params(), disk, actions);
    ShardFetch.TokensConserved(f.Params(), disk, actions);
    DistinctCardinality(present);
    assert Elements(present) == Manifest.Listed(present);
    Manifest.SameIndices(s.verified, Manifest.Listed(present));
  }

  /** After any interleaving of the workers, whatever was in the store before and whatever failed fetches left there:
      reconstruction from the verified shards, listed in any order, stops at the count check if the counter is below
      MinShards, and otherwise gives the file, if none of those shards is its own path and the manifest names their
      files as the workers do. */
  lemma RetrievedFile(f: Fetch, disk: map<nat, Bytes>, actions: seq<ShardFetch.Action>, dir: map<string, Bytes>, present: seq<int>)
    requires f.Valid() && Listing(ShardFetch.Exec(f.Params(), disk, actions), dir, present)
    ensures var s := ShardFetch.Exec(f.Params(), disk, actions);
      && (s.successCount < f.c.k ==> Reconstructed(f, dir, present) == Err(Manifest.NotEnoughShards))
      && (s.successCount >= f.c.k && (forall i: nat :: i in s.verified && i < f.c.Total() ==> !f.OwnPath(i) && f.Named(i)) ==>
            Reconstructed(f, dir, present) == Ok(f.file))
  {
    hide ShardFetch.Exec, ShardFile, Manifest.ShardName, Manifest.Validate;
    var s := ShardFetch.Exec(f.Params(), disk, actions);
    ListingLength(f, disk, actions, dir, present);
    if s.successCount >= f.c.k && forall i: nat :: i in s.verified && i < f.c.Total() ==> !f.OwnPath(i) && f.Named(i) {
      forall idx | idx in present
        ensures 0 <= idx < f.c.Total() && Manifest.OnFile(f.m, dir, idx)
        ensures dir[f.m.shardPaths[idx]] == f.Shard(idx)
      {
        VerifiedShard(f, disk, actions, idx);
      }
      Manifest.DescribedReconstructs(f.m, f.c, f.file, f.hash, dir, present);
    }
  }

  lemma VerifiedShard(f: Fetch, disk: map<nat, Bytes>, actions: seq<ShardFetch.Action>, i: nat)
    requires f.Valid() && i in ShardFetch.Exec(f.Params(), disk, actions).verified
    ensures var s := ShardFetch.Exec(f.Params(), disk, actions);
      i < f.c.Total() && (!f.OwnPath(i) ==> i in s.disk && s.disk[i] == f.Shard(i))
  {
    hide ShardFetch.Exec, ShardFile, ShardFetch.IsOwnPath, Manifest.Validate;
    ShardFetch.VerifiedOnDisk(f.Params(), disk, actions, i);
    OwnPathMeans(f, i);
    assert f.Params().hashes[i] == f.hash(f.Shard(i));
    assert OnlyPreimage(f.hash, f.Shard(i));
  }

  /** Reconstruction gives the file back from what a run left. */
  ghost predicate Recovers(f: Fetch, s: ShardFetch.State)
    requires f.Valid()
  {
    forall dir, present :: Listing(s, dir, present) ==> Reconstructed(f, dir, present) == Ok(f.file)
  }

  /** It does so after every interleaving that reaches MinShards. */
  ghost predicate AlwaysRecovers(f: Fetch, disk: map<nat, Bytes>)
    requires f.Valid()
  {
    forall actions :: ShardFetch.Exec(f.Params(), disk, actions).successCount >= f.c.k ==> Recovers(f, ShardFetch.Exec(f.Params(), disk, actions))
  }

  /** Exactly when version 1 retrieval is sound, for a manifest that names the shard files as the workers do, such as one
      an upload made: whatever the store held before, every interleaving that reaches MinShards gives the file back if
      and only if no shard consists of the bytes of its own path. */
  lemma RetrievalExact(f: Fetch, disk: map<nat, Bytes>)
    requires f.Valid() && forall i: nat :: i < f.c.Total() ==> f.Named(i)
    ensures AlwaysRecovers(f, disk) <==> forall i: nat :: i < f.c.Total() ==> !f.OwnPath(i)
  {
    hide ShardFetch.Exec, ShardFile, Listing, Reconstructed, Manifest.Validate;
    if i: nat :| i < f.c.Total() && f.OwnPath(i) {
      var actions := LosingRun(f, disk, i, i);
      assert !Recovers(f, ShardFetch.Exec(f.Params(), disk, actions));
    } else {
      Sound(f, disk);
    }
  }

  lemma Sound(f: Fetch, disk: map<nat, Bytes>)
    requires f.Valid() && forall i: nat :: i < f.c.Total() ==> f.Named(i) && !f.OwnPath(i)
    ensures AlwaysRecovers(f, disk)
  {
    hide ShardFetch.Exec, ShardFile, Listing, Reconstructed, Manifest.Validate;
    forall actions | ShardFetch.Exec(f.Params(), disk, actions).successCount >= f.c.k
      ensures Recovers(f, ShardFetch.Exec(f.Params(), disk, actions))
    {
      forall dir, present | Listing(ShardFetch.Exec(f.Params(), disk, actions), dir, present)
        ensures Reconstructed(f, dir, present) == Ok(f.file)
      {
        RetrievedFile(f, disk, actions, dir, present);
      }
    }
  }

  /** Exactly when it is sound for any valid manifest of a file that is not empty: over all stores, it is if and only if
      the manifest names every shard file as the workers do and no shard is its own path. */
  lemma NamesExact(f: Fetch)
    requires f.Valid() && 0 < FileShardSize(|f.file|, f.c.k) <= MAX_SHARD_SIZE
    ensures (forall disk :: AlwaysRecovers(f, disk)) <==> forall i: nat :: i < f.c.Total() ==> f.Named(i) && !f.OwnPath(i)
  {
    hide ShardFetch.Exec, ShardFile, Recovers, Manifest.Validate, Manifest.ShardName;
    if forall i: nat :: i < f.c.Total() ==> f.Named(i) && !f.OwnPath(i) {
      forall disk ensures AlwaysRecovers(f, disk) { Sound(f, disk); }
    } else if i: nat :| i < f.c.Total() && !f.Named(i) {
      var x := f.c.Total();
      if y: nat :| f.m.shardPaths[i] == Manifest.ShardName(y) { x := y; }
      forall y: nat | f.m.shardPaths[i] == Manifest.ShardName(y) ensures y == x { Manifest.ShardNamesDiffer(x, y); }
      var actions := LosingRun(f, map[], i, x);
      assert !AlwaysRecovers(f, map[]);
    } else {
      var i: nat :| i < f.c.Total() && f.OwnPath(i);
      var actions := LosingRun(f, map[], i, i);
      assert !AlwaysRecovers(f, map[]);
    }
  }

  /** A run that counts MinShards shards, i among them, after which the file that the manifest names for i does not exist:
      i is its own path and was never written, or its file is called like that of a shard x that was never fetched. */
  lemma LosingRun(f: Fetch, disk: map<nat, Bytes>, i: nat, x: nat) returns (actions: seq<ShardFetch.Action>)
    requires f.Valid() && i < f.c.Total()
    requires if x == i then f.OwnPath(i) && f.Named(i) else 0 < FileShardSize(|f.file|, f.c.k) <= MAX_SHARD_SIZE && disk == map[]
    requires x != i ==> forall y: nat :: f.m.shardPaths[i] == Manifest.ShardName(y) ==> y == x
    ensures var s := ShardFetch.Exec(f.Params(), disk, actions); s.successCount >= f.c.k && !Recovers(f, s)
  {
    hide ShardFetch.Exec, ShardFile, ShardFetch.Collected, Manifest.ShardName, Manifest.Validate;
    var content := seq(f.c.Total(), y requires 0 <= y < f.c.Total() => f.Shard(y));
    forall y: nat | y < f.c.Total() ensures 0 < |content[y]| <= MAX_SHARD_SIZE && ShardFetch.Good(f.Params(), y, content[y]) {
      ShardFileLength(f.c, f.file, f.m.blockSize, y);
      ShardFileLength(f.c, f.file, f.m.blockSize, i);
    }
    ParityShards(f);
    actions := ShardFetch.CollectRun(f.Params(), disk, i, x, content, f.c.k);
    var s := ShardFetch.Exec(f.Params(), disk, actions);
    ShardFetch.CollectedMeans(f.Params(), s, i, x, f.c.k);
    var dir := DirectoryOf(s.disk);
    var present := ListOf(s.verified);
    assert Listing(s, dir, present);
    ListingLength(f, disk, actions, dir, present);
    forall idx | idx in present ensures idx < f.c.Total() { VerifiedShard(f, disk, actions, idx); }
    assert i in present && !Manifest.OnFile(f.m, dir, i);
  }

  lemma ParityShards(f: Fetch)
    requires f.Valid()
    ensures f.c.m >= 1
  {
  }

  /** A directory with exactly these shard files. */
  lemma DirectoryOf(disk: map<nat, Bytes>) returns (dir: map<string, Bytes>)
    ensures forall i: nat :: Manifest.ShardName(i) in dir <==> i in disk
    ensures forall i: nat :: i in disk ==> Manifest.ShardName(i) in dir && dir[Manifest.ShardName(i)] == disk[i]
    ensures forall name :: name in dir ==> exists i: nat :: i in disk && name == Manifest.ShardName(i)
    decreases |disk|
  {
    hide Manifest.ShardName;
    if disk.Keys == {} {
      dir := map[];
    } else {
      var x :| x in disk.Keys;
      var rest := disk - {x};
      assert disk.Keys == rest.Keys + {x} && |rest.Keys| == |rest| && |disk.Keys| == |disk|;
      var less := DirectoryOf(rest);
      dir := less[Manifest.ShardName(x) := disk[x]];
      forall i: nat | Manifest.ShardName(i) == Manifest.ShardName(x) ensures i == x { Manifest.ShardNamesDiffer(i, x); }
    }
  }

  /** Some listing of a set of shards. */
  lemma ListOf(s: set<nat>) returns (present: seq<int>)
    ensures Distinct(present) && forall i :: i in present <==> i >= 0 && i in s
  {
    if s == {} {
      present := [];
    } else {
      var x :| x in s;
      var rest := ListOf(s - {x});
      present := rest + [x];
    }
  }

  // ----- the assumptions can be met, and a file that is lost -----

  lemma {:induction false} ReplicatedShard(m: nat, file: Bytes, blockSize: nat, j: nat)
    requires blockSize >= 1 && j <= m
    ensures ReplicationCodec(m).Valid() && ShardFile(ReplicationCodec(m), file, blockSize, j) == file
    decreases |file|
  {
    ReplicationCodecValid(m);
    if file != [] {
      var c := ReplicationCodec(m);
      StripeSizePositive(c, blockSize);
      var s := StripeSize(c, blockSize);
      var stripe := Take(file, s);
      CeilDivUnique(|stripe|, 1, |stripe|);
      ReplicatedStripe(m, stripe, j);
      ReplicatedShard(m, Drop(file, s), blockSize, j);
      assert stripe + Drop(file, s) == file;
    }
  }

  lemma ReplicatedStripe(m: nat, stripe: Bytes, j: nat)
    requires stripe != [] && j <= m
    ensures |StripeBlocks(ReplicationCodec(m), stripe)| == m + 1 && StripeBlocks(ReplicationCodec(m), stripe)[j] == stripe
  {
    CeilDivUnique(|stripe|, 1, |stripe|);
    var padded := stripe + Zeros(0);
    assert padded == stripe && padded[..|stripe|] == stripe;
    assert SplitBlocks(stripe, 1)[0] == stripe;
  }

  const ZEROS: Digest := seq(64, _ => '0')
  const ONES: Digest := seq(64, _ => '1')

  /** A digest function that only tells this file from all others. */
  function TwoDigests(file: Bytes): Bytes -> Digest {
    x => if x == file then ZEROS else ONES
  }

  /** An upload of a file kept by replication. */
  ghost function Replicated(file: Bytes, paths: seq<Bytes>): Fetch {
    ReplicationCodecValid(1);
    Fetch(ReplicationCodec(1), file, Manifest.UploadManifest(ReplicationCodec(1), file, "file", 1, TwoDigests(file), 1), TwoDigests(file), paths, 1)
  }

  /** Every file meets the assumptions in some way, with any paths. */
  lemma ReplicatedValid(file: Bytes, paths: seq<Bytes>)
    requires |paths| == 2 && forall i :: 0 <= i < 2 ==> 0 < |paths[i]| <= MAX_SHARD_SIZE
    ensures var f := Replicated(file, paths);
      f.Valid() && f.c.Total() == 2 && f.c.k == 1 && forall i: nat :: i < 2 ==> f.Shard(i) == file && f.Named(i)
  {
    hide ShardFile, Manifest.ShardName, Manifest.Validate;
    var f := Replicated(file, paths);
    ReplicationCodecValid(1);
    forall i: nat | i < 2 ensures ShardFile(f.c, file, 1, i) == file { ReplicatedShard(1, file, 1, i); }
    assert OnlyPreimage(f.hash, file) by { assert ZEROS[0] != ONES[0]; }
    forall x: Bytes ensures Manifest.IsSha256(f.hash(x)) { }
    Manifest.UploadDescribes(f.c, file, "file", 1, f.hash, 1);
  }

  /** The bytes of tmp/shard.00 and tmp/shard.01. */
  const TMP_SHARD_00: Bytes := [116, 109, 112, 47, 115, 104, 97, 114, 100, 46, 48, 48]
  const TMP_SHARD_01: Bytes := [116, 109, 112, 47, 115, 104, 97, 114, 100, 46, 48, 49]

  /** With the store directory tmp and a single data shard, a file that consists of the twelve bytes tmp/shard.00 can be
      fetched, verified and counted, and is then lost: its only shard was never written. */
  lemma TmpShardIsLost(disk: map<nat, Bytes>) returns (actions: seq<ShardFetch.Action>)
    ensures var f := Replicated(TMP_SHARD_00, [TMP_SHARD_00, TMP_SHARD_01]);
      && f.Valid()
      && ShardFetch.Exec(f.Params(), disk, actions).successCount >= 1
      && !Recovers(f, ShardFetch.Exec(f.Params(), disk, actions))
  {
    hide ShardFile, ShardFetch.Exec, Recovers, Replicated;
    var f := Replicated(TMP_SHARD_00, [TMP_SHARD_00, TMP_SHARD_01]);
    ReplicatedValid(TMP_SHARD_00, [TMP_SHARD_00, TMP_SHARD_01]);
    assert f.paths[0] == TMP_SHARD_00 by { ReplicatedPaths(TMP_SHARD_00, [TMP_SHARD_00, TMP_SHARD_01]); }
    actions := LosingRun(f, disk, 0, 0);
  }

  lemma ReplicatedPaths(file: Bytes, paths: seq<Bytes>)
    ensures Replicated(file, paths).paths == paths
  {
  }
}
