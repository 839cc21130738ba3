/** The network view built from everybody's bitmaps (watchdog/aggregator.go). */
module Aggregator {
  import opened Prelude
  import opened Bitmap

  datatype NetworkState = NetworkState(providers: nat, available: seq<nat>, missing: seq<nat>, replicaCount: map<nat, nat>)

  /** How many bitmaps have bit i. */
  function Replicas(bitmaps: seq<Bytes>, i: nat): nat {
    if bitmaps == [] then 0
    else Replicas(bitmaps[..|bitmaps| - 1], i) + if Bit(bitmaps[|bitmaps| - 1], i) then 1 else 0
  }

  lemma {:induction false} ReplicasExist(bitmaps: seq<Bytes>, i: nat)
    ensures Replicas(bitmaps, i) > 0 <==> exists b :: 0 <= b < |bitmaps| && Bit(bitmaps[b], i)
  {
    if bitmaps != [] {
      var init := bitmaps[..|bitmaps| - 1];
      ReplicasExist(init, i);
      if b :| 0 <= b < |bitmaps| && Bit(bitmaps[b], i) {
        if b < |init| { assert Bit(init[b], i); }
      }
      if Replicas(init, i) > 0 {
        var b :| 0 <= b < |init| && Bit(init[b], i);
        assert Bit(bitmaps[b], i);
      }
    }
  }

  /** The indices below total whose replica count is positive (held) or zero (not held). */
  function Covered(total: int, bitmaps: seq<Bytes>, held: bool): seq<nat> {
    if total <= 0 then []
    else Covered(total - 1, bitmaps, held) + if (Replicas(bitmaps, total - 1) > 0) == held then [total - 1] else []
  }

  lemma {:induction false} CoveredAre(total: int, bitmaps: seq<Bytes>, held: bool)
    ensures StrictlyIncreasing(Covered(total, bitmaps, held))
    ensures forall i: nat :: i in Covered(total, bitmaps, held) <==> i < total && (Replicas(bitmaps, i) > 0) == held
  {
    hide Replicas;
    if total > 0 {
      CoveredAre(total - 1, bitmaps, held);
      var low, high: seq<nat> := Covered(total - 1, bitmaps, held), if (Replicas(bitmaps, total - 1) > 0) == held then [total - 1] else [];
      assert Covered(total, bitmaps, held) == low + high;
      forall i: nat ensures i in low + high <==> i in low || i in high { }
      IncreasingConcat(low, high, total - 1);
    }
  }

  /** Available and missing shards partition [0, total): a shard is missing exactly when no bitmap has its bit. */
  lemma CoveredPartition(total: int, bitmaps: seq<Bytes>)
    ensures StrictlyIncreasing(Covered(total, bitmaps, true)) && StrictlyIncreasing(Covered(total, bitmaps, false))
    ensures forall i: nat :: i in Covered(total, bitmaps, true) <==> i < total && exists b :: 0 <= b < |bitmaps| && Bit(bitmaps[b], i)
    ensures forall i: nat :: i in Covered(total, bitmaps, false) <==> i < total && !exists b :: 0 <= b < |bitmaps| && Bit(bitmaps[b], i)
  {
    CoveredAre(total, bitmaps, true);
    CoveredAre(total, bitmaps, false);
    forall i: nat ensures Replicas(bitmaps, i) > 0 <==> exists b :: 0 <= b < |bitmaps| && Bit(bitmaps[b], i) {
      ReplicasExist(bitmaps, i);
    }
  }

  /** The map counts every bit of every bitmap, also bits past the shard count, and has no zero entries. */
  ghost predicate Counts(replicaCount: map<nat, nat>, bitmaps: seq<Bytes>) {
    forall i: nat :: (i in replicaCount <==> Replicas(bitmaps, i) > 0) && (i in replicaCount ==> replicaCount[i] == Replicas(bitmaps, i))
  }

  function Count(replicaCount: map<nat, nat>, i: nat): nat {
    if i in replicaCount then replicaCount[i] else 0
  }

  method CountBitmap(before: map<nat, nat>, ghost bitmaps: seq<Bytes>, bitmap: Bytes) returns (replicaCount: map<nat, nat>)
    requires Counts(before, bitmaps)
    ensures Counts(replicaCount, bitmaps + [bitmap])
  {
    replicaCount := before;
    var shards := DecodeBitmap(bitmap);
    DecodeBits(bitmap);
    for n := 0 to |shards|
      invariant forall i: nat :: Count(replicaCount, i) == Count(before, i) + if i in shards[..n] then 1 else 0
      invariant forall i: nat :: i in replicaCount ==> replicaCount[i] > 0
    {
      assert shards[..n + 1] == shards[..n] + [shards[n]];
      assert shards[n] !in shards[..n];
      replicaCount := replicaCount[shards[n] := Count(replicaCount, shards[n]) + 1];
    }
    assert shards[..|shards|] == shards;
    assert (bitmaps + [bitmap])[..|bitmaps|] == bitmaps;
    forall i: nat ensures Count(replicaCount, i) == Replicas(bitmaps + [bitmap], i) { }
  }

  lemma CountIsReplicas(replicaCount: map<nat, nat>, bitmaps: seq<Bytes>, i: nat)
    requires Counts(replicaCount, bitmaps)
    ensures Count(replicaCount, i) == Replicas(bitmaps, i)
  {
  }

  lemma NothingCounted()
    ensures Counts(map[], [])
  {
  }

  method BuildNetworkState(total: int, bitmaps: seq<Bytes>) returns (s: NetworkState)
    ensures s.providers == |bitmaps|
    ensures s.available == Covered(total, bitmaps, true) && s.missing == Covered(total, bitmaps, false)
    ensures Counts(s.replicaCount, bitmaps)
  {
    hide Counts, Replicas, Count;
    var replicaCount: map<nat, nat> := map[];
    NothingCounted();
    for n := 0 to |bitmaps|
      invariant Counts(replicaCount, bitmaps[..n])
    {
      replicaCount := CountBitmap(replicaCount, bitmaps[..n], bitmaps[n]);
      assert bitmaps[..n + 1] == bitmaps[..n] + [bitmaps[n]];
    }
    assert bitmaps[..|bitmaps|] == bitmaps;
    var available, missing := [], [];
    var i := 0;
    while i < total
      invariant 0 <= i && (total >= 0 ==> i <= total) && (total < 0 ==> i == 0)
      invariant available == Covered(i, bitmaps, true) && missing == Covered(i, bitmaps, false)
    {
      CountIsReplicas(replicaCount, bitmaps, i);
      if Count(replicaCount, i) > 0 {
        available := available + [i];
      } else {
        missing := missing + [i];
      }
      i := i + 1;
    }
    return NetworkState(|bitmaps|, available, missing, replicaCount);
  }
}
