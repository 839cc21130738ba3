/** Integrity scan of the shards a node holds of one file (watchdog/scanner.go). */
module Scanner {
  import opened Prelude
  import opened Bitmap

  /** What one node keeps of a file: its manifest, shard files by index, and the quarantine directory. */
  datatype Disk = Disk(hasManifest: bool, shards: map<nat, Bytes>, quarantine: map<nat, Bytes>)

  /** What one scan can do with the files: the shards that fail to open or to be read to the end, and those that can be moved. */
  datatype Access = Access(failing: set<nat>, movable: set<nat>)

  datatype Health = Absent | Healthy | Corrupted

  datatype ScanResult = ScanResult(healthy: seq<nat>, corrupted: seq<nat>, missing: seq<nat>)

  /** Health of shard i as a scan sees it: a file that cannot be read counts as corrupted, as does one without
      a manifest hash. */
  function HealthOf(hash: Bytes -> Digest, hashes: seq<Digest>, shards: map<nat, Bytes>, failing: set<nat>, i: nat): Health {
    if i !in shards then Absent
    else if i in failing then Corrupted
    else if i < |hashes| && hash(shards[i]) == hashes[i] then Healthy
    else Corrupted
  }

  /** The indices below total in a given state of health. */
  function InHealth(total: nat, hash: Bytes -> Digest, hashes: seq<Digest>, shards: map<nat, Bytes>, failing: set<nat>, h: Health): seq<nat> {
    if total == 0 then []
    else InHealth(total - 1, hash, hashes, shards, failing, h) + if HealthOf(hash, hashes, shards, failing, total - 1) == h then [total - 1] else []
  }

  function ScanOf(total: nat, hash: Bytes -> Digest, hashes: seq<Digest>, shards: map<nat, Bytes>, failing: set<nat>): ScanResult {
    ScanResult(InHealth(total, hash, hashes, shards, failing, Healthy), InHealth(total, hash, hashes, shards, failing, Corrupted),
      InHealth(total, hash, hashes, shards, failing, Absent))
  }

  lemma {:induction false} InHealthAre(total: nat, hash: Bytes -> Digest, hashes: seq<Digest>, shards: map<nat, Bytes>, failing: set<nat>, h: Health)
    ensures StrictlyIncreasing(InHealth(total, hash, hashes, shards, failing, h))
    ensures forall i: nat :: i in InHealth(total, hash, hashes, shards, failing, h) <==> i < total && HealthOf(hash, hashes, shards, failing, i) == h
  {
    hide HealthOf;
    if total > 0 {
      InHealthAre(total - 1, hash, hashes, shards, failing, h);
      var low, high: seq<nat> := InHealth(total - 1, hash, hashes, shards, failing, h), if HealthOf(hash, hashes, shards, failing, total - 1) == h then [total - 1] else [];
      assert InHealth(total, hash, hashes, shards, failing, h) == low + high;
      forall i: nat ensures i in low + high <==> i in low || i in high { }
      IncreasingConcat(low, high, total - 1);
    }
  }

  /** Every shard number below total is in exactly one of the three increasing lists. */
  lemma {:induction false} ScanPartition(total: nat, hash: Bytes -> Digest, hashes: seq<Digest>, shards: map<nat, Bytes>, failing: set<nat>)
    ensures var s := ScanOf(total, hash, hashes, shards, failing);
      && |s.healthy| + |s.corrupted| + |s.missing| == total
      && StrictlyIncreasing(s.healthy) && StrictlyIncreasing(s.corrupted) && StrictlyIncreasing(s.missing)
      && (forall i: nat :: i < total <==> i in s.healthy || i in s.corrupted || i in s.missing)
      && (forall i: nat :: !(i in s.healthy && i in s.corrupted) && !(i in s.healthy && i in s.missing) && !(i in s.corrupted && i in s.missing))
  {
    hide HealthOf;
    ScanCounts(total, hash, hashes, shards, failing);
    InHealthAre(total, hash, hashes, shards, failing, Healthy);
    InHealthAre(total, hash, hashes, shards, failing, Corrupted);
    InHealthAre(total, hash, hashes, shards, failing, Absent);
    forall i: nat
      ensures var h := HealthOf(hash, hashes, shards, failing, i); h.Healthy? || h.Corrupted? || h.Absent?
    {
    }
  }

  lemma {:induction false} ScanCounts(total: nat, hash: Bytes -> Digest, hashes: seq<Digest>, shards: map<nat, Bytes>, failing: set<nat>)
    ensures var s := ScanOf(total, hash, hashes, shards, failing); |s.healthy| + |s.corrupted| + |s.missing| == total
  {
    if total > 0 { ScanCounts(total - 1, hash, hashes, shards, failing); }
  }

  /** Corrupted files whose move works leave the store for the quarantine directory. */
  function Quarantined(disk: Disk, corrupted: seq<nat>, movable: set<nat>): (after: Disk)
    ensures after.hasManifest == disk.hasManifest
  {
    var moved := set i | i in corrupted && i in movable;
    disk.(shards := disk.shards - moved, quarantine := disk.quarantine + Only(disk.shards, moved))
  }

  function Only(shards: map<nat, Bytes>, indices: set<nat>): map<nat, Bytes> {
    map i | i in indices && i in shards :: shards[i]
  }

  class LocalScanner {
    var disk: Disk

    constructor (disk: Disk)
      ensures this.disk == disk
    {
      this.disk := disk;
    }

    /** Moves one file out; the move may fail, and then the file stays. */
    method Quarantine(i: nat, movable: set<nat>)
      requires i in disk.shards
      modifies this
      ensures disk == if i in movable
        then old(disk).(shards := old(disk).shards - {i}, quarantine := old(disk).quarantine[i := old(disk).shards[i]])
        else old(disk)
    {
      if i in movable {
        disk := disk.(quarantine := disk.quarantine[i := disk.shards[i]], shards := disk.shards - {i});
      }
    }

    method ScanLocalFile(total: nat, hash: Bytes -> Digest, hashes: seq<Digest>, access: Access) returns (result: ScanResult)
      modifies this
      ensures result == ScanOf(total, hash, hashes, old(disk).shards, access.failing)
      ensures disk == Quarantined(old(disk), result.corrupted, access.movable)
    {
      ghost var before := disk;
      var healthy: seq<nat>, corrupted: seq<nat>, missing: seq<nat> := [], [], [];
      assert disk == Quarantined(before, corrupted, access.movable);
      for i := 0 to total
        invariant ScanResult(healthy, corrupted, missing) == ScanOf(i, hash, hashes, before.shards, access.failing)
        invariant disk == Quarantined(before, corrupted, access.movable)
      {
        InHealthAre(i, hash, hashes, before.shards, access.failing, Corrupted);
        if i !in disk.shards {
          missing := missing + [i];
        } else {
          assert disk.shards[i] == before.shards[i];
          if i !in access.failing && i < |hashes| && hash(disk.shards[i]) == hashes[i] {
            healthy := healthy + [i];
          } else {
            QuarantineMore(before, corrupted, i, access.movable);
            corrupted := corrupted + [i];
            Quarantine(i, access.movable);
          }
        }
      }
      return ScanResult(healthy, corrupted, missing);
    }
  }

  lemma QuarantineMore(disk: Disk, corrupted: seq<nat>, i: nat, movable: set<nat>)
    requires i !in corrupted && i in disk.shards
    ensures var d, d' := Quarantined(disk, corrupted, movable), Quarantined(disk, corrupted + [i], movable);
      d' == if i in movable then d.(shards := d.shards - {i}, quarantine := d.quarantine[i := disk.shards[i]]) else d
  {
    var moved := set j | j in corrupted && j in movable;
    var moved' := set j | j in corrupted + [i] && j in movable;
    if i in movable {
      assert moved' == moved + {i};
      assert disk.shards - moved' == (disk.shards - moved) - {i};
      assert disk.quarantine + Only(disk.shards, moved') == (disk.quarantine + Only(disk.shards, moved))[i := disk.shards[i]];
    } else {
      assert moved' == moved;
    }
  }

  /** What a scan reports, told from the disk and the digests: a shard is missing exactly when it has no file, healthy
      when its file can be read and has the manifest's digest, corrupted in every other case; and of the corrupted
      ones just those that can be moved leave the store, for the quarantine directory, with their bytes. */
  lemma ScanExactly(total: nat, hash: Bytes -> Digest, hashes: seq<Digest>, disk: Disk, access: Access, i: nat)
    requires i < total
    ensures var s := ScanOf(total, hash, hashes, disk.shards, access.failing);
      var after := Quarantined(disk, s.corrupted, access.movable);
      var matches := i in disk.shards && i < |hashes| && hash(disk.shards[i]) == hashes[i];
      && (i in s.missing <==> i !in disk.shards)
      && (i in s.healthy <==> matches && i !in access.failing)
      && (i in s.corrupted <==> i in disk.shards && (i in access.failing || !matches))
      && (if i in disk.shards && (i in access.failing || !matches) && i in access.movable
          then i !in after.shards && i in after.quarantine && after.quarantine[i] == disk.shards[i]
          else (i in after.shards <==> i in disk.shards) && (i in disk.shards ==> after.shards[i] == disk.shards[i])
               && (i in after.quarantine <==> i in disk.quarantine) && (i in disk.quarantine ==> after.quarantine[i] == disk.quarantine[i]))
  {
    InHealthAre(total, hash, hashes, disk.shards, access.failing, Absent);
    InHealthAre(total, hash, hashes, disk.shards, access.failing, Healthy);
    InHealthAre(total, hash, hashes, disk.shards, access.failing, Corrupted);
  }

  /** The health of a shard when every file can be read. */
  function TrueHealth(hash: Bytes -> Digest, hashes: seq<Digest>, shards: map<nat, Bytes>, i: nat): Health {
    HealthOf(hash, hashes, shards, {}, i)
  }

  /** What a scan does to the health of a shard: one that it sees as corrupted and can move becomes absent,
      nothing else changes; in particular a healthy shard is lost exactly when its read fails and it can be moved. */
  lemma QuarantineEffect(total: nat, hash: Bytes -> Digest, hashes: seq<Digest>, disk: Disk, access: Access, i: nat)
    ensures var corrupted := ScanOf(total, hash, hashes, disk.shards, access.failing).corrupted;
      var h, h' := TrueHealth(hash, hashes, disk.shards, i), TrueHealth(hash, hashes, Quarantined(disk, corrupted, access.movable).shards, i);
      && h' == (if i < total && i in access.movable && HealthOf(hash, hashes, disk.shards, access.failing, i) == Corrupted then Absent else h)
      && (h == Healthy && i < total ==> (h' == Healthy <==> i !in access.failing || i !in access.movable))
  {
    InHealthAre(total, hash, hashes, disk.shards, access.failing, Corrupted);
  }

  /** A rescan after every move worked finds healthy what the first scan did, except where a read fails now, nothing
      else corrupted, and missing what was missing or corrupted; with working reads it finds the same healthy list. */
  lemma Rescan(total: nat, hash: Bytes -> Digest, hashes: seq<Digest>, disk: Disk, access: Access, failing: set<nat>)
    requires forall i :: i in ScanOf(total, hash, hashes, disk.shards, access.failing).corrupted ==> i in access.movable
    ensures var first := ScanOf(total, hash, hashes, disk.shards, access.failing);
      var second := ScanOf(total, hash, hashes, Quarantined(disk, first.corrupted, access.movable).shards, failing);
      && (forall i: nat :: i in second.healthy <==> i in first.healthy && i !in failing)
      && (forall i: nat :: i in second.corrupted <==> i in first.healthy && i in failing)
      && (forall i: nat :: i in second.missing <==> i in first.missing || i in first.corrupted)
      && (failing == {} ==> second.healthy == first.healthy && second.corrupted == [])
  {
    hide HealthOf, Quarantined, InHealth;
    var first := ScanOf(total, hash, hashes, disk.shards, access.failing);
    var shards := Quarantined(disk, first.corrupted, access.movable).shards;
    var second := ScanOf(total, hash, hashes, shards, failing);
    InHealthAre(total, hash, hashes, disk.shards, access.failing, Healthy);
    InHealthAre(total, hash, hashes, disk.shards, access.failing, Corrupted);
    InHealthAre(total, hash, hashes, disk.shards, access.failing, Absent);
    InHealthAre(total, hash, hashes, shards, failing, Healthy);
    InHealthAre(total, hash, hashes, shards, failing, Corrupted);
    InHealthAre(total, hash, hashes, shards, failing, Absent);
    forall i: nat
      ensures i in second.healthy <==> i in first.healthy && i !in failing
      ensures i in second.corrupted <==> i in first.healthy && i in failing
      ensures i in second.missing <==> i in first.missing || i in first.corrupted
    {
      SecondLook(total, hash, hashes, disk, access, failing, i);
    }
    if failing == {} {
      IncreasingUnique(first.healthy, second.healthy);
      IncreasingUnique(second.corrupted, []);
    }
  }

  lemma SecondLook(total: nat, hash: Bytes -> Digest, hashes: seq<Digest>, disk: Disk, access: Access, failing: set<nat>, i: nat)
    requires forall j :: j in ScanOf(total, hash, hashes, disk.shards, access.failing).corrupted ==> j in access.movable
    ensures var shards := Quarantined(disk, ScanOf(total, hash, hashes, disk.shards, access.failing).corrupted, access.movable).shards;
      var h, h' := HealthOf(hash, hashes, disk.shards, access.failing, i), HealthOf(hash, hashes, shards, failing, i);
      i < total ==> h' == if h == Healthy then (if i in failing then Corrupted else Healthy) else Absent
  {
    InHealthAre(total, hash, hashes, disk.shards, access.failing, Corrupted);
  }

  /** The bitmap of the health handler, sized by the three list lengths. */
  function HealthBitmap(s: ScanResult): Bytes {
    Encode(|s.healthy| + |s.missing| + |s.corrupted|, s.healthy)
  }

  /** It has one bit per shard of the file, rounded up to bytes, and bit i is set exactly for a healthy shard i that
      the scan could read. */
  lemma HealthBitmapIsHealth(total: nat, hash: Bytes -> Digest, hashes: seq<Digest>, shards: map<nat, Bytes>, failing: set<nat>, i: nat)
    ensures var bitmap := HealthBitmap(ScanOf(total, hash, hashes, shards, failing));
      && |bitmap| == CeilDiv(total, 8)
      && (Bit(bitmap, i) <==> i < total && HealthOf(hash, hashes, shards, failing, i) == Healthy)
  {
    var s := ScanOf(total, hash, hashes, shards, failing);
    ScanPartition(total, hash, hashes, shards, failing);
    InHealthAre(total, hash, hashes, shards, failing, Healthy);
    EncodeBits(total, s.healthy, i);
  }
}
