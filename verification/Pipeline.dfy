/** One self-healing pass over a network of stores: scan, ask peers, aggregate,
    take the lease, rebuild, commit and push (watchdog/pipeline.go). */
module Pipeline {
  import opened Prelude
  import opened ReedSolomon
  import opened Bitmap
  import opened Aggregator
  import opened Scanner
  import opened Lease
  import Erasure
  import Repair

  type NodeId = Bytes

  /** The manifest fields a pass uses, the codec they select, and the digest function. */
  datatype Params = Params(c: Codec, blockSize: nat, origSize: nat, hash: Bytes -> Digest, hashes: seq<Digest>)
  {
    ghost predicate Valid() { c.Valid() && blockSize >= 1 && |hashes| == c.Total() }
  }

  /** Every node's disk for the file, and what the lease store holds for it. */
  datatype Net = Net(disks: map<NodeId, Disk>, lease: Stored)

  /** What becomes of writing a shard file: it cannot start and leaves the old file, it completes, or it
      stops after n bytes in a file that was already truncated. */
  datatype Write = Fails | Completes | CutShort(n: nat)

  /** One pass by call.self: the peers it sees (None when they cannot be resolved); the bitmaps that came back; the
      peers that scan their own shards because they are asked, with what goes wrong there (for the node itself, which
      always scans, just that); how the sources behave; and what becomes of writing a shard at a node. */
  datatype Pass = Pass(peers: Option<seq<NodeId>>, replies: map<NodeId, Bytes>, scans: map<NodeId, Access>, call: Call,
                       fault: Repair.Fault, writes: map<(NodeId, nat), Write>)

  function AccessOf(scans: map<NodeId, Access>, n: NodeId): Access {
    if n in scans then scans[n] else Access({}, {})
  }

  function Fate(writes: map<(NodeId, nat), Write>, n: NodeId, i: nat): Write {
    if (n, i) in writes then writes[(n, i)] else Fails
  }

  datatype Outcome = ScanFailed | NoPeers | NothingMissing | LeaseFailed | NotElected | RepairFailed | Repaired(indices: seq<nat>)

  // ----- the steps of a pass -----

  /** The replies that count, in the order of the peer list: not from itself, not empty. */
  function Replies(peers: seq<NodeId>, self: NodeId, replies: map<NodeId, Bytes>): seq<Bytes> {
    if peers == [] then []
    else
      var last := peers[|peers| - 1];
      Replies(peers[..|peers| - 1], self, replies)
        + if last != self && last in replies && replies[last] != [] then [replies[last]] else []
  }

  /** What a node has of shard i after a write. */
  function Overwritten(cell: Option<Bytes>, bytes: Bytes, w: Write): Option<Bytes> {
    match w case Fails => cell case Completes => Some(bytes) case CutShort(n) => Some(Take(bytes, n))
  }

  function WriteShard(disks: map<NodeId, Disk>, node: NodeId, i: nat, bytes: Bytes, w: Write): map<NodeId, Disk> {
    if w.Fails? || node !in disks then disks
    else disks[node := disks[node].(shards := disks[node].shards[i := Overwritten(None, bytes, w).value])]
  }

  function Pushed(disks: map<NodeId, Disk>, self: NodeId, peers: seq<NodeId>, i: nat, bytes: Bytes, writes: map<(NodeId, nat), Write>): map<NodeId, Disk> {
    if peers == [] then disks
    else
      var before, last := Pushed(disks, self, peers[..|peers| - 1], i, bytes, writes), peers[|peers| - 1];
      if last == self then before else WriteShard(before, last, i, bytes, Fate(writes, last, i))
  }

  /** Every repaired shard is written locally, then pushed to every visible peer. */
  function Committed(disks: map<NodeId, Disk>, peers: seq<NodeId>, pass: Pass, repaired: seq<nat>, data: map<nat, Bytes>): map<NodeId, Disk>
    requires forall p :: 0 <= p < |repaired| ==> repaired[p] in data
  {
    if repaired == [] then disks
    else
      var i, self := repaired[|repaired| - 1], pass.call.self;
      var before := Committed(disks, peers, pass, repaired[..|repaired| - 1], data);
      Pushed(WriteShard(before, self, i, data[i], Fate(pass.writes, self, i)), self, peers, i, data[i], pass.writes)
  }

  function Sources(disk: Disk, healthy: seq<nat>): map<nat, Bytes> {
    map i | i in healthy && i in disk.shards :: disk.shards[i]
  }

  function Scanned(p: Params, disk: Disk, failing: set<nat>): ScanResult {
    ScanOf(p.c.Total(), p.hash, p.hashes, disk.shards, failing)
  }

  /** What the node that makes the pass sees of its own shards. */
  function OwnScan(p: Params, disk: Disk, pass: Pass): ScanResult {
    Scanned(p, disk, AccessOf(pass.scans, pass.call.self).failing)
  }

  /** A node that has the manifest scans its shards and quarantines what it sees as corrupted and can move. */
  function ScanNode(p: Params, disks: map<NodeId, Disk>, n: NodeId, access: Access): map<NodeId, Disk> {
    if n in disks && disks[n].hasManifest then disks[n := Quarantined(disks[n], Scanned(p, disks[n], access.failing).corrupted, access.movable)] else disks
  }

  /** The peers that can be asked scan in turn. */
  function Queried(p: Params, disks: map<NodeId, Disk>, self: NodeId, peers: seq<NodeId>, scans: map<NodeId, Access>): map<NodeId, Disk> {
    if peers == [] then disks
    else
      var before, last := Queried(p, disks, self, peers[..|peers| - 1], scans), peers[|peers| - 1];
      if last != self && last in scans then ScanNode(p, before, last, scans[last]) else before
  }

  /** The shards no bitmap reports, the local one first. */
  function MissingShards(p: Params, healthy: seq<nat>, peers: seq<NodeId>, pass: Pass): seq<nat> {
    Covered(p.c.Total(), [Encode(p.c.Total(), healthy)] + Replies(peers, pass.call.self, pass.replies), false)
  }

  /** The part of a pass after the lease is won. */
  ghost function Healed(p: Params, disks: map<NodeId, Disk>, peers: seq<NodeId>, pass: Pass, healthy: seq<nat>): (map<NodeId, Disk>, Outcome)
    requires p.Valid() && pass.call.self in disks
  {
    var missing := MissingShards(p, healthy, peers, pass);
    MissingInRange(p, healthy, peers, pass);
    var sources := Sources(disks[pass.call.self], healthy);
    match Repair.RepairSpec(p.c, p.blockSize, p.origSize, p.hash, p.hashes, missing, sources, pass.fault)
    case Rebuilt(repaired, data) =>
      Repair.OnlyVerified(p.c, p.blockSize, p.origSize, p.hash, p.hashes, missing, sources, pass.fault);
      (Committed(disks, peers, pass, repaired, data), Repaired(repaired))
    case _ => (disks, RepairFailed)
  }

  /** A whole pass. */
  ghost function PassOf(p: Params, net: Net, pass: Pass): (Net, Outcome)
    requires p.Valid()
  {
    var self := pass.call.self;
    if self !in net.disks || !net.disks[self].hasManifest then (net, ScanFailed)
    else
      var scan := OwnScan(p, net.disks[self], pass);
      var swept := ScanNode(p, net.disks, self, AccessOf(pass.scans, self));
      if pass.peers.None? then (Net(swept, net.lease), NoPeers)
      else
        var disks := Queried(p, swept, self, pass.peers.value, pass.scans);
        QueriedNodes(p, swept, self, pass.peers.value, pass.scans);
        if MissingShards(p, scan.healthy, pass.peers.value, pass) == [] then (Net(disks, net.lease), NothingMissing)
        else
        var (lease, verdict) := Acquire(net.lease, pass.call);
        match verdict
        case Failed => (Net(disks, lease), LeaseFailed)
        case Lost => (Net(disks, lease), NotElected)
        case Won =>
          var (healed, outcome) := Healed(p, disks, pass.peers.value, pass, scan.healthy);
          (Net(healed, lease), outcome)
  }

  ghost predicate SameNodes(a: map<NodeId, Disk>, b: map<NodeId, Disk>) {
    a.Keys == b.Keys && forall n :: n in a ==> a[n].hasManifest == b[n].hasManifest
  }

  lemma ScannedNodes(p: Params, disks: map<NodeId, Disk>, n: NodeId, access: Access)
    ensures SameNodes(disks, ScanNode(p, disks, n, access))
  {
  }

  lemma {:induction false} QueriedNodes(p: Params, disks: map<NodeId, Disk>, self: NodeId, peers: seq<NodeId>, scans: map<NodeId, Access>)
    ensures SameNodes(disks, Queried(p, disks, self, peers, scans))
    ensures self in disks ==> Queried(p, disks, self, peers, scans)[self] == disks[self]
  {
    hide Quarantined, Scanned;
    if peers != [] { QueriedNodes(p, disks, self, peers[..|peers| - 1], scans); }
  }

  lemma MissingInRange(p: Params, healthy: seq<nat>, peers: seq<NodeId>, pass: Pass)
    ensures var missing := MissingShards(p, healthy, peers, pass);
      Repair.InRange(p.c, missing) && StrictlyIncreasing(missing) && Distinct(missing)
  {
    var missing := MissingShards(p, healthy, peers, pass);
    CoveredAre(p.c.Total(), [Encode(p.c.Total(), healthy)] + Replies(peers, pass.call.self, pass.replies), false);
    forall q | 0 <= q < |missing| ensures missing[q] < p.c.Total() {
      assert missing[q] in missing;
    }
  }

  class Network {
    var disks: map<NodeId, Disk>
    const store: LeaseStore

    ghost function View(): Net
      reads this, store
    {
      Net(disks, store.value)
    }

    constructor (disks: map<NodeId, Disk>, store: LeaseStore)
      ensures this.disks == disks && this.store == store
    {
      this.disks := disks;
      this.store := store;
    }

    /** A scan of one node's shards, its own or because it is asked for its health. */
    method Scan(p: Params, n: NodeId, access: Access) returns (scan: ScanResult)
      requires n in disks && disks[n].hasManifest
      modifies this
      ensures disks == ScanNode(p, old(disks), n, access) && scan == Scanned(p, old(disks)[n], access.failing)
    {
      var scanner := new LocalScanner(disks[n]);
      scan := scanner.ScanLocalFile(p.c.Total(), p.hash, p.hashes, access);
      disks := disks[n := scanner.disk];
    }

    method Push(i: nat, bytes: Bytes, peers: seq<NodeId>, pass: Pass)
      modifies this
      ensures disks == Pushed(old(disks), pass.call.self, peers, i, bytes, pass.writes)
    {
      ghost var before := disks;
      for n := 0 to |peers|
        invariant disks == Pushed(before, pass.call.self, peers[..n], i, bytes, pass.writes)
      {
        assert peers[..n + 1][..n] == peers[..n];
        if peers[n] != pass.call.self {
          disks := WriteShard(disks, peers[n], i, bytes, Fate(pass.writes, peers[n], i));
        }
      }
      assert peers[..|peers|] == peers;
    }

    method Commit(repaired: seq<nat>, data: map<nat, Bytes>, peers: seq<NodeId>, pass: Pass)
      requires forall p :: 0 <= p < |repaired| ==> repaired[p] in data
      modifies this
      ensures disks == Committed(old(disks), peers, pass, repaired, data)
    {
      ghost var before := disks;
      for n := 0 to |repaired|
        invariant disks == Committed(before, peers, pass, repaired[..n], data)
      {
        assert repaired[..n + 1][..n] == repaired[..n];
        var i := repaired[n];
        disks := WriteShard(disks, pass.call.self, i, data[i], Fate(pass.writes, pass.call.self, i));
        Push(i, data[i], peers, pass);
      }
      assert repaired[..|repaired|] == repaired;
    }

    /** Asks every visible peer for its health, which makes it scan, and collects the bitmaps that come back. */
    method Ask(p: Params, peers: seq<NodeId>, pass: Pass) returns (bitmaps: seq<Bytes>)
      modifies this
      ensures bitmaps == Replies(peers, pass.call.self, pass.replies)
      ensures disks == Queried(p, old(disks), pass.call.self, peers, pass.scans)
    {
      ghost var before := disks;
      bitmaps := [];
      for n := 0 to |peers|
        invariant bitmaps == Replies(peers[..n], pass.call.self, pass.replies)
        invariant disks == Queried(p, before, pass.call.self, peers[..n], pass.scans)
      {
        assert peers[..n + 1][..n] == peers[..n];
        var peer := peers[n];
        if peer != pass.call.self {
          if peer in pass.scans && peer in disks && disks[peer].hasManifest {
            var _ := Scan(p, peer, pass.scans[peer]);
          }
          if peer in pass.replies && |pass.replies[peer]| > 0 {
            bitmaps := bitmaps + [pass.replies[peer]];
          }
        }
      }
      assert peers[..|peers|] == peers;
    }

    method RunOnce(p: Params, pass: Pass) returns (outcome: Outcome)
      requires p.Valid()
      modifies this, store
      ensures (View(), outcome) == PassOf(p, old(View()), pass)
    {
      hide Scanned, Acquire, Covered, Committed, Encode, ScanNode, Queried, Replies, Repair.RepairSpec;
      var self := pass.call.self;
      if self !in disks || !disks[self].hasManifest {
        return ScanFailed;
      }
      var scan := Scan(p, self, AccessOf(pass.scans, self));
      ScannedNodes(p, old(disks), self, AccessOf(pass.scans, self));
      ghost var swept := disks;
      if pass.peers.None? {
        return NoPeers;
      }
      var peers := pass.peers.value;
      var localBitmap := BitmapFromShardIndices(p.c.Total(), scan.healthy);
      var replies := Ask(p, peers, pass);
      QueriedNodes(p, swept, self, peers, pass.scans);
      var state := BuildNetworkState(p.c.Total(), [localBitmap] + replies);
      assert state.missing == MissingShards(p, scan.healthy, peers, pass);
      if |state.missing| == 0 {
        return NothingMissing;
      }
      var verdict := AcquireLease(store, pass.call);
      if verdict == Failed {
        return LeaseFailed;
      }
      if verdict == Lost {
        return NotElected;
      }
      MissingInRange(p, scan.healthy, peers, pass);
      var sources := Sources(disks[self], scan.healthy);
      var r := Repair.RepairShards(p.c, p.blockSize, p.origSize, p.hash, p.hashes, state.missing, sources, pass.fault);
      if !r.Rebuilt? {
        return RepairFailed;
      }
      Repair.OnlyVerified(p.c, p.blockSize, p.origSize, p.hash, p.hashes, state.missing, sources, pass.fault);
      Commit(r.repaired, r.data, peers, pass);
      return Repaired(r.repaired);
    }
  }

  // ----- what a pass does to one shard of one node -----

  function Cell(disks: map<NodeId, Disk>, n: NodeId, i: nat): Option<Bytes> {
    if n in disks && i in disks[n].shards then Some(disks[n].shards[i]) else None
  }

  lemma WrittenAt(disks: map<NodeId, Disk>, node: NodeId, i: nat, bytes: Bytes, w: Write, n: NodeId, j: nat)
    ensures var after := WriteShard(disks, node, i, bytes, w);
      && SameNodes(disks, after)
      && Cell(after, n, j) == if n == node && j == i && n in disks then Overwritten(Cell(disks, n, j), bytes, w) else Cell(disks, n, j)
  {
  }

  /** Writing the same shard twice with the same fate is writing it once. */
  lemma OverwrittenTwice(cell: Option<Bytes>, bytes: Bytes, w: Write)
    ensures Overwritten(Overwritten(cell, bytes, w), bytes, w) == Overwritten(cell, bytes, w)
  {
  }

  lemma {:induction false} PushedAt(disks: map<NodeId, Disk>, self: NodeId, peers: seq<NodeId>, i: nat, bytes: Bytes,
                                    writes: map<(NodeId, nat), Write>, n: NodeId, j: nat)
    ensures var after := Pushed(disks, self, peers, i, bytes, writes);
      && SameNodes(disks, after)
      && Cell(after, n, j) == if n in peers && n != self && j == i && n in disks
                              then Overwritten(Cell(disks, n, j), bytes, Fate(writes, n, j)) else Cell(disks, n, j)
  {
    hide WriteShard, Cell, Overwritten;
    if peers != [] {
      var init, last := peers[..|peers| - 1], peers[|peers| - 1];
      var before := Pushed(disks, self, init, i, bytes, writes);
      assert peers == init + [last];
      PushedAt(disks, self, init, i, bytes, writes, n, j);
      WrittenAt(before, last, i, bytes, Fate(writes, last, i), n, j);
      OverwrittenTwice(Cell(disks, n, j), bytes, Fate(writes, n, j));
    }
  }

  lemma {:induction false} CommittedAt(disks: map<NodeId, Disk>, peers: seq<NodeId>, pass: Pass, repaired: seq<nat>, data: map<nat, Bytes>, n: NodeId, j: nat)
    requires Distinct(repaired) && forall q :: 0 <= q < |repaired| ==> repaired[q] in data
    ensures var after := Committed(disks, peers, pass, repaired, data);
      && SameNodes(disks, after)
      && Cell(after, n, j) == if j in repaired && (n == pass.call.self || n in peers) && n in disks
                              then Overwritten(Cell(disks, n, j), data[j], Fate(pass.writes, n, j)) else Cell(disks, n, j)
  {
    hide WriteShard, Pushed, Cell, Overwritten;
    if repaired != [] {
      var i, init, self := repaired[|repaired| - 1], repaired[..|repaired| - 1], pass.call.self;
      var before := Committed(disks, peers, pass, init, data);
      assert repaired == init + [i];
      CommittedAt(disks, peers, pass, init, data, n, j);
      WrittenAt(before, self, i, data[i], Fate(pass.writes, self, i), n, j);
      PushedAt(WriteShard(before, self, i, data[i], Fate(pass.writes, self, i)), self, peers, i, data[i], pass.writes, n, j);
    }
  }

  /** The shards a pass finds missing. */
  function MissingOf(p: Params, net: Net, pass: Pass): seq<nat> {
    if pass.call.self !in net.disks || pass.peers.None? then []
    else MissingShards(p, OwnScan(p, net.disks[pass.call.self], pass).healthy, pass.peers.value, pass)
  }

  /** Node n scans its shards in this pass. */
  predicate Scans(net: Net, pass: Pass, n: NodeId) {
    var self := pass.call.self;
    && self in net.disks && net.disks[self].hasManifest && n in net.disks && net.disks[n].hasManifest
    && (n == self || (pass.peers.Some? && n in pass.peers.value && n in pass.scans))
  }

  /** The bytes are what the manifest asks of shard i. */
  ghost predicate Matching(p: Params, bytes: Bytes, i: nat) {
    i < |p.hashes| && p.hash(bytes) == p.hashes[i]
  }

  /** What a scan makes of one shard: a file that cannot be read or does not match the manifest goes away if it can
      be moved. */
  ghost function Sweep(p: Params, disks: map<NodeId, Disk>, n: NodeId, access: Access, i: nat): Option<Bytes> {
    if n in disks && i in disks[n].shards && i < p.c.Total() && (i in access.failing || !Matching(p, disks[n].shards[i], i)) && i in access.movable
    then None else Cell(disks, n, i)
  }

  /** Shard i of node n once the scans of a pass are over. */
  ghost function Swept(p: Params, net: Net, pass: Pass, n: NodeId, i: nat): Option<Bytes> {
    if Scans(net, pass, n) then Sweep(p, net.disks, n, AccessOf(pass.scans, n), i) else Cell(net.disks, n, i)
  }

  /** Whether a pass gets to write shard i at node n. */
  ghost predicate Touches(p: Params, net: Net, pass: Pass, n: NodeId, i: nat)
    requires p.Valid()
  {
    && PassOf(p, net, pass).1.Repaired? && pass.peers.Some? && i in MissingOf(p, net, pass)
    && n in net.disks && (n == pass.call.self || n in pass.peers.value)
  }

  lemma ScannedAt(p: Params, disks: map<NodeId, Disk>, node: NodeId, access: Access, n: NodeId, i: nat)
    ensures var after := ScanNode(p, disks, node, access);
      && SameNodes(disks, after)
      && Cell(after, n, i) == if n == node && n in disks && disks[n].hasManifest then Sweep(p, disks, n, access, i) else Cell(disks, n, i)
  {
    if node in disks {
      InHealthAre(p.c.Total(), p.hash, p.hashes, disks[node].shards, access.failing, Corrupted);
      if i < p.c.Total() { ScanExactly(p.c.Total(), p.hash, p.hashes, disks[node], access, i); }
    }
  }

  /** Scanning a second time with the same access sweeps nothing more. */
  lemma SweepTwice(p: Params, a: map<NodeId, Disk>, b: map<NodeId, Disk>, n: NodeId, access: Access, i: nat)
    requires SameNodes(a, b)
    ensures Cell(b, n, i) == Sweep(p, a, n, access, i) ==> Sweep(p, b, n, access, i) == Sweep(p, a, n, access, i)
    ensures Cell(b, n, i) == Cell(a, n, i) ==> Sweep(p, b, n, access, i) == Sweep(p, a, n, access, i)
  {
  }

  lemma {:induction false} QueriedAt(p: Params, disks: map<NodeId, Disk>, self: NodeId, peers: seq<NodeId>, scans: map<NodeId, Access>, n: NodeId, i: nat)
    ensures var after := Queried(p, disks, self, peers, scans);
      && SameNodes(disks, after)
      && Cell(after, n, i) ==
           if n in peers && n != self && n in scans && n in disks && disks[n].hasManifest then Sweep(p, disks, n, scans[n], i) else Cell(disks, n, i)
  {
    hide ScanNode, Cell, Sweep;
    if peers != [] {
      var init, last := peers[..|peers| - 1], peers[|peers| - 1];
      var before := Queried(p, disks, self, init, scans);
      assert peers == init + [last];
      QueriedAt(p, disks, self, init, scans, n, i);
      if last in scans { ScannedAt(p, before, last, scans[last], n, i); }
      if n in scans { SweepTwice(p, disks, before, n, scans[n], i); }
    }
  }

  lemma SweptAt(p: Params, net: Net, pass: Pass, n: NodeId, i: nat)
    requires var self := pass.call.self; self in net.disks && net.disks[self].hasManifest
    ensures var self := pass.call.self;
      var swept := ScanNode(p, net.disks, self, AccessOf(pass.scans, self));
      && SameNodes(net.disks, swept)
      && (pass.peers.None? ==> Cell(swept, n, i) == Swept(p, net, pass, n, i))
      && (pass.peers.Some? ==>
            var disks := Queried(p, swept, self, pass.peers.value, pass.scans);
            SameNodes(swept, disks) && Cell(disks, n, i) == Swept(p, net, pass, n, i))
  {
    hide ScanNode, Cell, Sweep, Queried;
    var self := pass.call.self;
    var swept := ScanNode(p, net.disks, self, AccessOf(pass.scans, self));
    ScannedAt(p, net.disks, self, AccessOf(pass.scans, self), n, i);
    if pass.peers.Some? {
      QueriedAt(p, swept, self, pass.peers.value, pass.scans, n, i);
      if n in pass.scans { SweepTwice(p, net.disks, swept, n, pass.scans[n], i); }
    }
  }

  /** The whole effect of a pass on one shard of one node: the scan sweeps it, and if the pass repairs the shard and
      reaches the node, bytes that match the manifest are written over it with whatever fate that write has. */
  lemma PassAt(p: Params, net: Net, pass: Pass, n: NodeId, i: nat)
    requires p.Valid()
    ensures var after := PassOf(p, net, pass).0;
      && SameNodes(net.disks, after.disks)
      && if Touches(p, net, pass, n, i)
         then exists bytes :: Matching(p, bytes, i) && Cell(after.disks, n, i) == Overwritten(Swept(p, net, pass, n, i), bytes, Fate(pass.writes, n, i))
         else Cell(after.disks, n, i) == Swept(p, net, pass, n, i)
  {
    hide ScanNode, Queried, OwnScan, Healed, Acquire, MissingShards, Cell, Overwritten, Swept;
    var self := pass.call.self;
    if self in net.disks && net.disks[self].hasManifest {
      SweptAt(p, net, pass, n, i);
      var swept := ScanNode(p, net.disks, self, AccessOf(pass.scans, self));
      if pass.peers.Some? {
        var disks := Queried(p, swept, self, pass.peers.value, pass.scans);
        HealedAt(p, disks, pass.peers.value, pass, OwnScan(p, net.disks[self], pass).healthy, n, i);
      }
    } else {
      assert PassOf(p, net, pass) == (net, ScanFailed);
      assert Swept(p, net, pass, n, i) == Cell(net.disks, n, i) by { NotSwept(p, net, pass, n, i); }
    }
  }

  lemma NotSwept(p: Params, net: Net, pass: Pass, n: NodeId, i: nat)
    requires !Scans(net, pass, n)
    ensures Swept(p, net, pass, n, i) == Cell(net.disks, n, i)
  {
  }

  lemma HealedAt(p: Params, disks: map<NodeId, Disk>, peers: seq<NodeId>, pass: Pass, healthy: seq<nat>, n: NodeId, i: nat)
    requires p.Valid() && pass.call.self in disks
    ensures var (after, outcome) := Healed(p, disks, peers, pass, healthy);
      && SameNodes(disks, after)
      && (outcome == RepairFailed || outcome == Repaired(MissingShards(p, healthy, peers, pass)))
      && if outcome.Repaired? && i in MissingShards(p, healthy, peers, pass) && n in disks && (n == pass.call.self || n in peers)
         then exists bytes :: Matching(p, bytes, i) && Cell(after, n, i) == Overwritten(Cell(disks, n, i), bytes, Fate(pass.writes, n, i))
         else Cell(after, n, i) == Cell(disks, n, i)
  {
    hide Committed, MissingShards, Sources, Cell, Overwritten, Repair.RepairSpec;
    var missing, sources := MissingShards(p, healthy, peers, pass), Sources(disks[pass.call.self], healthy);
    MissingInRange(p, healthy, peers, pass);
    Repair.OnlyVerified(p.c, p.blockSize, p.origSize, p.hash, p.hashes, missing, sources, pass.fault);
    var r := Repair.RepairSpec(p.c, p.blockSize, p.origSize, p.hash, p.hashes, missing, sources, pass.fault);
    if r.Rebuilt? {
      CommittedAt(disks, peers, pass, r.repaired, r.data, n, i);
      if i in missing { assert Matching(p, r.data[i], i); }
    }
  }

  // ----- repair never harms -----

  ghost predicate Good(p: Params, cell: Option<Bytes>, i: nat) {
    cell.Some? && Matching(p, cell.value, i)
  }

  /** Node n holds an intact copy of shard i. */
  ghost predicate Intact(p: Params, disks: map<NodeId, Disk>, n: NodeId, i: nat) {
    Good(p, Cell(disks, n, i), i)
  }

  /** A scan sees exactly the intact shards as healthy whose read works. */
  lemma SeenHealthy(p: Params, disks: map<NodeId, Disk>, n: NodeId, failing: set<nat>, i: nat)
    requires p.Valid() && n in disks
    ensures i in Scanned(p, disks[n], failing).healthy <==> Intact(p, disks, n, i) && i !in failing
  {
    InHealthAre(p.c.Total(), p.hash, p.hashes, disks[n].shards, failing, Healthy);
  }

  ghost predicate Keeps(p: Params, before: map<NodeId, Disk>, after: map<NodeId, Disk>) {
    forall n, i {:trigger Intact(p, after, n, i)} :: Intact(p, before, n, i) ==> Intact(p, after, n, i)
  }

  /** A scan of the pass fails to read the file of shard i at node n and moves it away, intact or not. */
  predicate SweptAway(net: Net, pass: Pass, n: NodeId, i: nat) {
    Scans(net, pass, n) && i in AccessOf(pass.scans, n).failing && i in AccessOf(pass.scans, n).movable
  }

  lemma SweepIntact(p: Params, disks: map<NodeId, Disk>, n: NodeId, access: Access, i: nat)
    requires p.Valid() && Intact(p, disks, n, i)
    ensures Sweep(p, disks, n, access, i) == if i in access.failing && i in access.movable then None else Cell(disks, n, i)
  {
  }

  /** A scan sweeps an intact copy away exactly when its read fails and the file can be moved. */
  lemma SweptIntact(p: Params, net: Net, pass: Pass, n: NodeId, i: nat)
    requires p.Valid() && Intact(p, net.disks, n, i)
    ensures Swept(p, net, pass, n, i) == if SweptAway(net, pass, n, i) then None else Cell(net.disks, n, i)
  {
    hide Sweep, Intact;
    SweepIntact(p, net.disks, n, AccessOf(pass.scans, n), i);
  }

  /** A node never writes a shard of which it holds an intact copy that it can read. */
  lemma OwnCopyUntouched(p: Params, net: Net, pass: Pass, i: nat)
    requires p.Valid() && Intact(p, net.disks, pass.call.self, i) && i !in AccessOf(pass.scans, pass.call.self).failing
    ensures i !in MissingOf(p, net, pass)
  {
    hide MissingShards, Intact, Scanned;
    var self := pass.call.self;
    if pass.peers.Some? && self in net.disks {
      SeenHealthy(p, net.disks, self, AccessOf(pass.scans, self).failing, i);
      MissingMeans(p, OwnScan(p, net.disks[self], pass).healthy, pass.peers.value, pass, i);
    }
  }

  /** No scan of the pass moves an intact copy away that it cannot read, and no write stops halfway over an intact
      copy, other than the node's own that it can read. */
  ghost predicate Clean(p: Params, net: Net, pass: Pass) {
    forall n, i {:trigger Fate(pass.writes, n, i)} :: Intact(p, net.disks, n, i) ==>
      && !SweptAway(net, pass, n, i)
      && (Fate(pass.writes, n, i).CutShort? ==> n == pass.call.self && i !in AccessOf(pass.scans, n).failing)
  }

  /** A pass by anyone, with any peers, replies, lease state and faults, keeps every intact copy in the network; only
      scans that move an intact copy they cannot read, and writes that stop halfway over one, are excluded. */
  lemma PassKeeps(p: Params, net: Net, pass: Pass)
    requires p.Valid() && Clean(p, net, pass)
    ensures Keeps(p, net.disks, PassOf(p, net, pass).0.disks)
  {
    hide PassOf, Swept, Cell, MissingOf, SweptAway;
    forall n, i | Intact(p, net.disks, n, i) ensures Intact(p, PassOf(p, net, pass).0.disks, n, i) {
      PassAt(p, net, pass, n, i);
      SweptIntact(p, net, pass, n, i);
      assert !SweptAway(net, pass, n, i) by { var w := Fate(pass.writes, n, i); }
      if n == pass.call.self && i !in AccessOf(pass.scans, n).failing { OwnCopyUntouched(p, net, pass, i); }
    }
  }

  /** What can happen to the network: a pass, or a health query, which scans and quarantines at the node asked. */
  datatype Event = Heal(pass: Pass) | Query(node: NodeId, access: Access)

  ghost function Happen(p: Params, net: Net, e: Event): Net
    requires p.Valid()
  {
    match e
    case Heal(pass) => PassOf(p, net, pass).0
    case Query(node, access) => net.(disks := ScanNode(p, net.disks, node, access))
  }

  ghost function Evolve(p: Params, net: Net, events: seq<Event>): Net
    requires p.Valid()
  {
    if events == [] then net else Happen(p, Evolve(p, net, events[..|events| - 1]), events[|events| - 1])
  }

  ghost predicate CleanEvent(p: Params, net: Net, e: Event) {
    match e
    case Heal(pass) => Clean(p, net, pass)
    case Query(node, access) => forall i :: i in access.failing && i in access.movable ==> !Intact(p, net.disks, node, i)
  }

  ghost predicate CleanRun(p: Params, net: Net, events: seq<Event>)
    requires p.Valid()
  {
    forall q :: 0 <= q < |events| ==> CleanEvent(p, Evolve(p, net, events[..q]), events[q])
  }

  /** Over every sequence of passes and health queries in which no scan moves an intact copy it cannot read and no
      write is torn over one, the set of intact (node, shard) copies never shrinks. */
  lemma {:induction false} RepairNeverHarms(p: Params, net: Net, events: seq<Event>)
    requires p.Valid() && CleanRun(p, net, events)
    ensures Keeps(p, net.disks, Evolve(p, net, events).disks)
  {
    hide PassOf, Intact, Clean;
    if events != [] {
      var init, e := events[..|events| - 1], events[|events| - 1];
      var before := Evolve(p, net, init);
      forall q | 0 <= q < |init| ensures CleanEvent(p, Evolve(p, net, init[..q]), init[q]) {
        assert init[..q] == events[..q] && init[q] == events[q];
      }
      RepairNeverHarms(p, net, init);
      assert events[..|init|] == init && CleanEvent(p, before, e);
      match e {
        case Heal(pass) => PassKeeps(p, before, pass);
        case Query(node, access) => QueryKeeps(p, before, node, access);
      }
      forall n, i | Intact(p, net.disks, n, i) ensures Intact(p, Happen(p, before, e).disks, n, i) {
        assert Intact(p, before.disks, n, i);
      }
    }
  }

  /** What a health query does to an intact copy: it is lost exactly at the node asked, if that has the manifest, when
      its read fails and it can be moved. */
  lemma QueryEffect(p: Params, net: Net, node: NodeId, access: Access, n: NodeId, i: nat)
    requires p.Valid() && Intact(p, net.disks, n, i)
    ensures Intact(p, Happen(p, net, Query(node, access)).disks, n, i) <==>
      !(n == node && net.disks[node].hasManifest && i in access.failing && i in access.movable)
  {
    hide ScanNode, Sweep;
    ScannedAt(p, net.disks, node, access, n, i);
    SweepIntact(p, net.disks, n, access, i);
  }

  lemma QueryKeeps(p: Params, net: Net, node: NodeId, access: Access)
    requires p.Valid() && CleanEvent(p, net, Query(node, access))
    ensures Keeps(p, net.disks, Happen(p, net, Query(node, access)).disks)
  {
    hide Happen, Intact;
    forall n, i | Intact(p, net.disks, n, i) ensures Intact(p, Happen(p, net, Query(node, access)).disks, n, i) {
      QueryEffect(p, net, node, access, n, i);
    }
  }

  // ----- repair converges -----

  /** Some visible peer other than the node itself reported shard i. */
  ghost predicate Reported(peers: seq<NodeId>, pass: Pass, i: nat) {
    exists q :: 0 <= q < |peers| && peers[q] != pass.call.self && peers[q] in pass.replies && Bit(pass.replies[peers[q]], i)
  }

  lemma {:induction false} RepliesReport(peers: seq<NodeId>, pass: Pass, i: nat)
    ensures Replicas(Replies(peers, pass.call.self, pass.replies), i) > 0 <==> Reported(peers, pass, i)
  {
    hide Bit, Replicas, Reported;
    if peers == [] {
      NoneReported(pass, i);
    } else {
      var last, init := peers[|peers| - 1], peers[..|peers| - 1];
      RepliesReport(init, pass, i);
      assert peers == init + [last];
      ReportedMore(init, last, pass, i);
      if last in pass.replies { ReplicasSnoc(Replies(init, pass.call.self, pass.replies), pass.replies[last], i); }
      NoBitInEmpty(i);
      assert Replies(init, pass.call.self, pass.replies) + [] == Replies(init, pass.call.self, pass.replies);
      assert peers[..|peers| - 1] == init;
    }
  }

  lemma NoneReported(pass: Pass, i: nat)
    ensures Replicas([], i) == 0 && !Reported([], pass, i)
  {
  }

  lemma NoBitInEmpty(i: nat)
    ensures !Bit([], i)
  {
  }

  lemma ReportedMore(init: seq<NodeId>, last: NodeId, pass: Pass, i: nat)
    ensures Reported(init + [last], pass, i) <==>
      Reported(init, pass, i) || (last != pass.call.self && last in pass.replies && Bit(pass.replies[last], i))
  {
    hide Bit;
    var peers := init + [last];
    if q :| 0 <= q < |init| && init[q] != pass.call.self && init[q] in pass.replies && Bit(pass.replies[init[q]], i) {
      assert peers[q] == init[q];
    }
    if q :| 0 <= q < |peers| && peers[q] != pass.call.self && peers[q] in pass.replies && Bit(pass.replies[peers[q]], i) {
      assert q < |init| ==> init[q] == peers[q];
    }
    assert peers[|init|] == last;
  }

  lemma ReplicasSnoc(bitmaps: seq<Bytes>, bitmap: Bytes, i: nat)
    ensures Replicas(bitmaps + [bitmap], i) == Replicas(bitmaps, i) + if Bit(bitmap, i) then 1 else 0
  {
    hide Bit;
    assert (bitmaps + [bitmap])[..|bitmaps|] == bitmaps;
  }

  lemma {:induction false} ReplicasCons(bitmap: Bytes, bitmaps: seq<Bytes>, i: nat)
    ensures Replicas([bitmap] + bitmaps, i) == Replicas(bitmaps, i) + if Bit(bitmap, i) then 1 else 0
  {
    hide Bit;
    if bitmaps == [] {
      assert [bitmap] + bitmaps == [bitmap];
    } else {
      ReplicasCons(bitmap, bitmaps[..|bitmaps| - 1], i);
      assert ([bitmap] + bitmaps)[..|bitmaps|] == [bitmap] + bitmaps[..|bitmaps| - 1];
    }
  }

  /** A shard counts as missing exactly when the node has no healthy copy and no visible peer reported one. */
  lemma MissingMeans(p: Params, healthy: seq<nat>, peers: seq<NodeId>, pass: Pass, i: nat)
    ensures i in MissingShards(p, healthy, peers, pass) <==> i < p.c.Total() && i !in healthy && !Reported(peers, pass, i)
  {
    hide Bit, Encode, Reported;
    var replies := Replies(peers, pass.call.self, pass.replies);
    var local := Encode(p.c.Total(), healthy);
    CoveredAre(p.c.Total(), [local] + replies, false);
    ReplicasCons(local, replies, i);
    EncodeBits(p.c.Total(), healthy, i);
    RepliesReport(peers, pass, i);
  }

  /** The manifest really describes this file, and no other bytes have the digest of one of its shards. */
  ghost predicate Describes(p: Params, file: Bytes)
    requires p.Valid()
  {
    && p.origSize == |file|
    && (forall i: nat :: i < p.c.Total() ==> p.hashes[i] == p.hash(Erasure.ShardFile(p.c, file, p.blockSize, i)))
    && forall i: nat :: i < p.c.Total() ==> OnlyPreimage(p.hash, Erasure.ShardFile(p.c, file, p.blockSize, i))
  }

  /** A source cannot be opened or read to the end of the file. */
  ghost predicate Broken(p: Params, fault: Repair.Fault)
    requires p.Valid()
  {
    fault.OpenFails? || Repair.ReadBreaks(p.c, p.origSize, p.blockSize, fault)
  }

  /** Enough healthy shards in the node's own store rebuild everything that is missing. */
  lemma HealthySourcesSuffice(p: Params, disk: Disk, file: Bytes, missing: seq<nat>, failing: set<nat>, fault: Repair.Fault)
    requires p.Valid() && Describes(p, file)
    requires Repair.InRange(p.c, missing) && Distinct(missing)
    requires var healthy := Scanned(p, disk, failing).healthy;
      (file == [] || |healthy| >= p.c.k) && forall i :: i in healthy ==> i !in missing
    ensures var sources := Sources(disk, Scanned(p, disk, failing).healthy);
      var r := Repair.RepairSpec(p.c, p.blockSize, p.origSize, p.hash, p.hashes, missing, sources, fault);
      if Broken(p, fault) then r.Aborted? else r == Repair.Rebuilt(missing, Repair.Originals(p.c, file, p.blockSize, missing))
  {
    hide Repair.Rebuild, Repair.Originals, Repair.ReadBreaks, Erasure.ShardFile;
    var healthy := Scanned(p, disk, failing).healthy;
    var sources := Sources(disk, healthy);
    InHealthAre(p.c.Total(), p.hash, p.hashes, disk.shards, failing, Healthy);
    forall i | i in sources && i < p.c.Total() ensures sources[i] == Erasure.ShardFile(p.c, file, p.blockSize, i) {
      assert p.hash(sources[i]) == p.hash(Erasure.ShardFile(p.c, file, p.blockSize, i));
    }
    DistinctCardinality(healthy);
    assert Elements(healthy) == Repair.Sources(p.c, sources, missing);
    Repair.RepairExact(p.c, file, p.blockSize, p.hash, p.hashes, missing, sources, fault);
  }

  /** Quarantine moves nothing a repair reads from. */
  lemma SameSources(p: Params, disk: Disk, access: Access)
    ensures var scan := Scanned(p, disk, access.failing);
      Sources(Quarantined(disk, scan.corrupted, access.movable), scan.healthy) == Sources(disk, scan.healthy)
  {
    InHealthAre(p.c.Total(), p.hash, p.hashes, disk.shards, access.failing, Healthy);
    InHealthAre(p.c.Total(), p.hash, p.hashes, disk.shards, access.failing, Corrupted);
    var scan := Scanned(p, disk, access.failing);
    forall i | i in scan.healthy ensures i !in scan.corrupted { }
  }

  /** The node scans its shards, sees its peers, finds something missing and wins the lease. */
  ghost predicate Elected(p: Params, net: Net, pass: Pass) {
    var self := pass.call.self;
    && self in net.disks && net.disks[self].hasManifest && pass.peers.Some?
    && MissingOf(p, net, pass) != [] && Acquire(net.lease, pass.call).1 == Won
  }

  /** The node can rebuild: k of its own shards are healthy (an empty file needs none) and can be read. */
  ghost predicate CanRebuild(p: Params, net: Net, pass: Pass)
    requires p.Valid() && pass.call.self in net.disks
  {
    !Broken(p, pass.fault) && (p.origSize == 0 || |OwnScan(p, net.disks[pass.call.self], pass).healthy| >= p.c.k)
  }

  /** A winner repairs everything or nothing, and which of the two depends only on whether k shards of its own are
      healthy and readable: shards that peers hold are never fetched. */
  lemma WinnerNeedsKLocally(p: Params, net: Net, pass: Pass, file: Bytes)
    requires p.Valid() && Describes(p, file) && Elected(p, net, pass)
    ensures PassOf(p, net, pass).1 == if CanRebuild(p, net, pass) then Repaired(MissingOf(p, net, pass)) else RepairFailed
  {
    hide Quarantined, Queried, Acquire, MissingShards, Broken, Repair.RepairSpec;
    var disk, peers := net.disks[pass.call.self], pass.peers.value;
    var access := AccessOf(pass.scans, pass.call.self);
    var scan, missing := OwnScan(p, disk, pass), MissingOf(p, net, pass);
    QueriedNodes(p, ScanNode(p, net.disks, pass.call.self, AccessOf(pass.scans, pass.call.self)), pass.call.self, peers, pass.scans);
    MissingInRange(p, scan.healthy, peers, pass);
    SameSources(p, disk, access);
    if p.origSize == 0 || |scan.healthy| >= p.c.k {
      forall i | i in scan.healthy ensures i !in missing { MissingMeans(p, scan.healthy, peers, pass, i); }
      HealthySourcesSuffice(p, disk, file, missing, access.failing, pass.fault);
    } else {
      TooFewHealthy(p, disk, missing, access.failing, pass.fault);
    }
  }

  lemma TooFewHealthy(p: Params, disk: Disk, missing: seq<nat>, failing: set<nat>, fault: Repair.Fault)
    requires p.Valid() && p.origSize > 0 && missing != [] && Repair.InRange(p.c, missing) && |Scanned(p, disk, failing).healthy| < p.c.k
    ensures Repair.RepairSpec(p.c, p.blockSize, p.origSize, p.hash, p.hashes, missing, Sources(disk, Scanned(p, disk, failing).healthy), fault).Aborted?
  {
    hide Repair.RepairSpec;
    var healthy := Scanned(p, disk, failing).healthy;
    InHealthAre(p.c.Total(), p.hash, p.hashes, disk.shards, failing, Healthy);
    DistinctCardinality(healthy);
    var sources := Sources(disk, healthy);
    SubsetCardinality(Repair.Sources(p.c, sources, missing), Elements(healthy));
    Repair.RepairNeedsK(p.c, p.blockSize, p.origSize, p.hash, p.hashes, missing, sources, fault);
  }

  /** The pass is about to take the lease and will write shard i at node n. */
  ghost predicate WillWrite(p: Params, net: Net, pass: Pass, n: NodeId, i: nat)
    requires p.Valid()
  {
    && Elected(p, net, pass) && CanRebuild(p, net, pass) && i in MissingOf(p, net, pass)
    && n in net.disks && (n == pass.call.self || n in pass.peers.value)
  }

  /** An intact copy that the pass will lose: it writes over the copy and stops before the end, or cannot start
      to write back one that its scan moved away, or it does not write and the scan moves the copy away. */
  ghost predicate WillLose(p: Params, net: Net, pass: Pass, n: NodeId, i: nat)
    requires p.Valid() && Intact(p, net.disks, n, i)
  {
    var w := Fate(pass.writes, n, i);
    if WillWrite(p, net, pass, n, i)
    then (w.CutShort? && w.n < |Cell(net.disks, n, i).value|) || (w.Fails? && SweptAway(net, pass, n, i))
    else SweptAway(net, pass, n, i)
  }

  /** Exactly which passes harm, told from the state before the pass and its faults. */
  lemma HarmExact(p: Params, net: Net, pass: Pass, file: Bytes, n: NodeId, i: nat)
    requires p.Valid() && Describes(p, file) && Intact(p, net.disks, n, i)
    ensures Intact(p, PassOf(p, net, pass).0.disks, n, i) <==> !WillLose(p, net, pass, n, i)
  {
    hide PassOf, Swept, Cell, MissingOf, CanRebuild, SweptAway, Erasure.ShardFile;
    PassAt(p, net, pass, n, i);
    SweptIntact(p, net, pass, n, i);
    TouchesMeans(p, net, pass, file, n, i);
    if Touches(p, net, pass, n, i) {
      var bytes :| Matching(p, bytes, i) && Cell(PassOf(p, net, pass).0.disks, n, i)
        == Overwritten(Swept(p, net, pass, n, i), bytes, Fate(pass.writes, n, i));
      TornIsLost(p, file, Cell(net.disks, n, i), Swept(p, net, pass, n, i), bytes, Fate(pass.writes, n, i), i);
    }
  }

  /** What becomes of an intact copy when matching bytes are written where it is, or was until it was moved away. */
  lemma TornIsLost(p: Params, file: Bytes, cell: Option<Bytes>, swept: Option<Bytes>, bytes: Bytes, w: Write, i: nat)
    requires p.Valid() && Describes(p, file) && Good(p, cell, i) && Matching(p, bytes, i) && (swept == cell || swept == None)
    ensures Good(p, Overwritten(swept, bytes, w), i) <==> !((w.CutShort? && w.n < |cell.value|) || (w.Fails? && swept == None))
  {
    hide Erasure.ShardFile;
    var shard := Erasure.ShardFile(p.c, file, p.blockSize, i);
    assert OnlyPreimage(p.hash, shard) && p.hash(shard) == p.hashes[i];
    assert bytes == shard && cell.value == shard;
    if w.CutShort? {
      assert Take(bytes, w.n) == bytes <==> w.n >= |bytes|;
    }
  }

  /** When a pass writes at a node, told from what is there before it. */
  lemma TouchesMeans(p: Params, net: Net, pass: Pass, file: Bytes, n: NodeId, i: nat)
    requires p.Valid() && Describes(p, file)
    ensures Touches(p, net, pass, n, i) <==> WillWrite(p, net, pass, n, i)
  {
    hide MissingOf, CanRebuild, Queried, ScanNode, Healed, Acquire, OwnScan;
    if Elected(p, net, pass) {
      WinnerNeedsKLocally(p, net, pass, file);
    } else {
      NotElectedNotRepaired(p, net, pass);
    }
  }

  /** How a pass ends, told from the state before it, and what it does to the lease: it asks for it only when the
      node could scan and see its peers and something is missing, and it repairs nothing without winning it. */
  lemma EndsExactly(p: Params, net: Net, pass: Pass)
    requires p.Valid()
    ensures var self := pass.call.self;
      var (after, outcome) := PassOf(p, net, pass);
      var scanned := self in net.disks && net.disks[self].hasManifest;
      var asks := scanned && pass.peers.Some? && MissingOf(p, net, pass) != [];
      && (outcome == ScanFailed <==> !scanned)
      && (outcome == NoPeers <==> scanned && pass.peers.None?)
      && (outcome == NothingMissing <==> scanned && pass.peers.Some? && MissingOf(p, net, pass) == [])
      && (outcome == LeaseFailed <==> asks && Acquire(net.lease, pass.call).1 == Failed)
      && (outcome == NotElected <==> asks && Acquire(net.lease, pass.call).1 == Lost)
      && (outcome == RepairFailed || outcome.Repaired? <==> asks && Acquire(net.lease, pass.call).1 == Won)
      && after.lease == if asks then Acquire(net.lease, pass.call).0 else net.lease
  {
    hide MissingShards, Queried, ScanNode, Acquire, OwnScan;
  }

  lemma NotElectedNotRepaired(p: Params, net: Net, pass: Pass)
    requires p.Valid() && !Elected(p, net, pass)
    ensures !PassOf(p, net, pass).1.Repaired?
  {
    hide MissingShards, Queried, ScanNode, Healed, Acquire, OwnScan;
  }

  ghost predicate LocalWritesComplete(p: Params, net: Net, pass: Pass) {
    forall i :: i in MissingOf(p, net, pass) ==> Fate(pass.writes, pass.call.self, i).Completes?
  }

  /** After a pass that repaired and wrote locally what was missing, every shard is intact on the node itself or
      was reported by a visible peer, and no copy of a reported shard was written over, however the pushes went. */
  lemma RepairedCovers(p: Params, net: Net, pass: Pass, i: nat)
    requires p.Valid() && PassOf(p, net, pass).1.Repaired? && LocalWritesComplete(p, net, pass) && i < p.c.Total()
    ensures var self, after := pass.call.self, PassOf(p, net, pass).0;
      && self in after.disks && after.disks[self].hasManifest && pass.peers.Some?
      && (Intact(p, after.disks, self, i) || Reported(pass.peers.value, pass, i))
      && (Reported(pass.peers.value, pass, i) ==> forall n :: n != self ==> Cell(after.disks, n, i) == Swept(p, net, pass, n, i))
  {
    hide MissingShards, Reported, Acquire, Healed, ScanNode, Queried, Scanned, Cell, Swept, SweptAway;
    var self, access := pass.call.self, AccessOf(pass.scans, pass.call.self);
    var healthy, peers := OwnScan(p, net.disks[self], pass).healthy, pass.peers.value;
    MissingMeans(p, healthy, peers, pass, i);
    SeenHealthy(p, net.disks, self, access.failing, i);
    PassAt(p, net, pass, self, i);
    if i in healthy {
      SweptIntact(p, net, pass, self, i);
      assert !SweptAway(net, pass, self, i) by { ReadNotSwept(net, pass, self, i); }
    }
    forall n | Reported(peers, pass, i) && n != self
      ensures Cell(PassOf(p, net, pass).0.disks, n, i) == Swept(p, net, pass, n, i)
    {
      PassAt(p, net, pass, n, i);
    }
  }

  lemma ReadNotSwept(net: Net, pass: Pass, n: NodeId, i: nat)
    requires i !in AccessOf(pass.scans, n).failing
    ensures !SweptAway(net, pass, n, i)
  {
  }

  /** Peers only report shards they hold intact and keep through their scan. */
  ghost predicate HonestReplies(p: Params, net: Net, pass: Pass) {
    forall n, i: nat :: n in pass.replies && Bit(pass.replies[n], i) ==> Intact(p, net.disks, n, i) && !SweptAway(net, pass, n, i)
  }

  /** Every reply is the health bitmap of the scan it started. */
  ghost predicate HealthReplies(p: Params, net: Net, pass: Pass) {
    forall n :: n in pass.replies ==>
      n in net.disks && n in pass.scans && pass.replies[n] == HealthBitmap(Scanned(p, net.disks[n], pass.scans[n].failing))
  }

  /** Peers that answer with their health bitmap are honest. */
  lemma HealthIsHonest(p: Params, net: Net, pass: Pass)
    requires p.Valid() && HealthReplies(p, net, pass)
    ensures HonestReplies(p, net, pass)
  {
    hide Bit, HealthBitmap, Intact;
    forall n, i: nat | n in pass.replies && Bit(pass.replies[n], i)
      ensures Intact(p, net.disks, n, i) && !SweptAway(net, pass, n, i)
    {
      HealthBit(p, net.disks, n, pass.scans[n].failing, i);
    }
  }

  lemma HealthBit(p: Params, disks: map<NodeId, Disk>, n: NodeId, failing: set<nat>, i: nat)
    requires p.Valid() && n in disks
    ensures Bit(HealthBitmap(Scanned(p, disks[n], failing)), i) <==> Intact(p, disks, n, i) && i !in failing
  {
    hide HealthBitmap, Bit;
    HealthBitmapIsHealth(p.c.Total(), p.hash, p.hashes, disks[n].shards, failing, i);
    InHealthAre(p.c.Total(), p.hash, p.hashes, disks[n].shards, failing, Healthy);
    SeenHealthy(p, disks, n, failing, i);
  }

  /** Peers that answer with their health bitmaps before and after a pass that repaired still report what they
      reported, as long as they can read it. */
  lemma StillReported(p: Params, net: Net, pass: Pass, next: Pass, i: nat)
    requires p.Valid() && PassOf(p, net, pass).1.Repaired? && LocalWritesComplete(p, net, pass) && i < p.c.Total()
    requires HealthReplies(p, net, pass) && HealthReplies(p, PassOf(p, net, pass).0, next)
    requires next.call.self == pass.call.self && next.peers == pass.peers && pass.peers.Some? && next.replies.Keys == pass.replies.Keys
    requires forall n :: n in next.replies && Bit(pass.replies[n], i) ==> i !in next.scans[n].failing
    requires Reported(pass.peers.value, pass, i)
    ensures Reported(next.peers.value, next, i)
  {
    hide PassOf, Bit, HealthBitmap, Cell, Swept, MissingOf, Scanned;
    var self, peers := pass.call.self, pass.peers.value;
    var q :| 0 <= q < |peers| && peers[q] != self && peers[q] in pass.replies && Bit(pass.replies[peers[q]], i);
    HealthIsHonest(p, net, pass);
    RepairedCovers(p, net, pass, i);
    SweptIntact(p, net, pass, peers[q], i);
    HealthBit(p, PassOf(p, net, pass).0.disks, peers[q], next.scans[peers[q]].failing, i);
  }

  /** Repair converges: after a pass that won the lease with k healthy shards of its own and wrote them locally,
      every shard is held intact by the node or by a visible peer, as long as peers report what they hold; and the next
      pass by the same node, whatever its peers, faults and clock, finds nothing missing and leaves the lease alone, as
      long as what was reported still is and it can read what nobody reports. */
  lemma RepairConverges(p: Params, net: Net, pass: Pass, file: Bytes, next: Pass)
    requires p.Valid() && Describes(p, file) && Elected(p, net, pass)
    requires CanRebuild(p, net, pass) && LocalWritesComplete(p, net, pass)
    requires HonestReplies(p, net, pass)
    requires next.call.self == pass.call.self && next.peers.Some?
    requires forall i: nat :: i < p.c.Total() && Reported(pass.peers.value, pass, i) ==> Reported(next.peers.value, next, i)
    requires forall i: nat :: i < p.c.Total() && i in AccessOf(next.scans, next.call.self).failing ==> Reported(next.peers.value, next, i)
    ensures var after := PassOf(p, net, pass).0;
      && (forall i: nat :: i < p.c.Total() ==>
           Intact(p, after.disks, pass.call.self, i) || exists n :: n in pass.peers.value && Intact(p, after.disks, n, i))
      && PassOf(p, after, next).1 == NothingMissing
      && PassOf(p, after, next).0.lease == after.lease
  {
    hide PassOf, Acquire, MissingOf, Cell, Bit, Scanned, Swept, SweptAway, CanRebuild, AccessOf;
    var after, self, peers := PassOf(p, net, pass).0, pass.call.self, pass.peers.value;
    WinnerNeedsKLocally(p, net, pass, file);
    RepairedCovers(p, net, pass, 0);
    forall i: nat | i < p.c.Total()
      ensures Intact(p, after.disks, self, i) || Reported(peers, pass, i)
      ensures Intact(p, after.disks, self, i) || exists n :: n in peers && Intact(p, after.disks, n, i)
    {
      RepairedCovers(p, net, pass, i);
      if Reported(peers, pass, i) {
        var q :| 0 <= q < |peers| && peers[q] != self && peers[q] in pass.replies && Bit(pass.replies[peers[q]], i);
        assert Intact(p, net.disks, peers[q], i);
        SweptIntact(p, net, pass, peers[q], i);
        assert Intact(p, after.disks, peers[q], i);
      }
    }
    NextFindsNothing(p, after, next);
  }

  lemma NextFindsNothing(p: Params, net: Net, pass: Pass)
    requires p.Valid() && pass.call.self in net.disks && net.disks[pass.call.self].hasManifest && pass.peers.Some?
    requires forall i: nat :: i < p.c.Total() ==>
      (Intact(p, net.disks, pass.call.self, i) && i !in AccessOf(pass.scans, pass.call.self).failing) || Reported(pass.peers.value, pass, i)
    ensures PassOf(p, net, pass).1 == NothingMissing && PassOf(p, net, pass).0.lease == net.lease
  {
    hide Acquire, MissingShards, ScanNode, Queried, Scanned, Intact, Reported;
    var self := pass.call.self;
    var healthy := OwnScan(p, net.disks[self], pass).healthy;
    var missing := MissingShards(p, healthy, pass.peers.value, pass);
    forall i: nat ensures i !in missing {
      SeenHealthy(p, net.disks, self, AccessOf(pass.scans, self).failing, i);
      MissingMeans(p, healthy, pass.peers.value, pass, i);
    }
    MissingInRange(p, healthy, pass.peers.value, pass);
    IncreasingUnique(missing, []);
  }
}
