/** In-memory rebuild of missing shard files, accepted only when every one of
    them hashes to its manifest entry (erasure/repair.go). */
module Repair {
  import opened Prelude
  import opened ReedSolomon
  import opened Erasure

  datatype RepairResult =
    | Rebuilt(repaired: seq<nat>, data: map<nat, Bytes>)
    | IntegrityFailure(repaired: seq<nat>, failed: seq<nat>)
    | Aborted(cause: Failure)

  datatype Failure = OpenFailed | ReadFailed | CodecFailed(error: Error)

  /** Faults of the source files: one of them cannot be opened, or a read of one fails, for the first time in the given stripe. */
  datatype Fault = NoFault | OpenFails | ReadFails(stripe: nat)

  function Later(fault: Fault): Fault {
    if fault.ReadFails? && fault.stripe > 0 then ReadFails(fault.stripe - 1) else fault
  }

  // ----- the rebuild loop -----

  function ReadSize(c: Codec, blockSize: nat, remaining: nat): nat
    requires c.k >= 1
  {
    if remaining < StripeSize(c, blockSize) then (remaining + c.k - 1) / c.k else blockSize
  }

  /** A full read of n bytes from an open source, zero padded when the source is shorter; missing without a source. */
  function PaddedRead(source: Option<Bytes>, n: nat): Bytes {
    match source
    case None => []
    case Some(bytes) => Take(bytes, n) + Zeros(n - |Take(bytes, n)|)
  }

  /** A read always gives n bytes, those of the source as far as they go and then zeros. */
  lemma PaddedReadExactly(bytes: Bytes, n: nat)
    ensures var r := PaddedRead(Some(bytes), n);
      && |r| == n && PaddedRead(None, n) == []
      && forall p :: 0 <= p < n ==> r[p] == if p < |bytes| then bytes[p] else 0
  {
  }

  function Slots(sources: seq<Option<Bytes>>, n: nat, missing: seq<nat>): (s: seq<Bytes>)
    ensures |s| == |sources|
  {
    seq(|sources|, i requires 0 <= i < |sources| => if i in missing then [] else PaddedRead(sources[i], n))
  }

  function Advance(sources: seq<Option<Bytes>>, n: nat): (s: seq<Option<Bytes>>)
    ensures |s| == |sources|
  {
    seq(|sources|, i requires 0 <= i < |sources| =>
      match sources[i] case None => None case Some(bytes) => Some(Drop(bytes, n)))
  }

  function Wanted(total: nat, missing: seq<nat>): (w: seq<bool>)
    ensures |w| == total
  {
    seq(total, i => i in missing)
  }

  /** One append per entry of the missing list, in list order. */
  function Appended(out: map<nat, Bytes>, missing: seq<nat>, blocks: seq<Bytes>): (r: map<nat, Bytes>)
    requires forall p :: 0 <= p < |missing| ==> missing[p] in out && missing[p] < |blocks|
    ensures r.Keys == out.Keys
  {
    if missing == [] then out
    else Appended(out[missing[0] := out[missing[0]] + blocks[missing[0]]], missing[1..], blocks)
  }

  /** The source indexes its slices by these entries without a check of its own. */
  ghost predicate InRange(c: Codec, missing: seq<nat>) {
    forall p :: 0 <= p < |missing| ==> missing[p] < c.Total()
  }

  ghost predicate Outputs(c: Codec, out: map<nat, Bytes>, missing: seq<nat>) {
    forall p :: 0 <= p < |missing| ==> missing[p] in out && missing[p] < c.Total()
  }

  /** The output buffers after all stripes, or the failure of the first stripe that cannot be read or rebuilt. */
  ghost function Rebuild(c: Codec, sources: seq<Option<Bytes>>, blockSize: nat, remaining: int, missing: seq<nat>, out: map<nat, Bytes>, fault: Fault)
    : (r: Result<map<nat, Bytes>, Failure>)
    requires c.k >= 1 && blockSize >= 1 && |sources| == c.Total() && Outputs(c, out, missing)
    ensures r.Ok? ==> r.value.Keys == out.Keys
    decreases if remaining > 0 then remaining else 0
  {
    if remaining <= 0 then Ok(out)
    else if fault == ReadFails(0) then Err(ReadFailed)
    else
      StripeSizePositive(c, blockSize);
      var n := ReadSize(c, blockSize, remaining);
      match ReconstructSome(c, Slots(sources, n, missing), Wanted(c.Total(), missing))
      case Err(e) => Err(CodecFailed(e))
      case Ok(blocks) =>
        BlocksLength(c, Slots(sources, n, missing), Wanted(c.Total(), missing));
        Rebuild(c, Advance(sources, n), blockSize, remaining - Min(remaining, StripeSize(c, blockSize)), missing,
          Appended(out, missing, blocks), Later(fault))
  }

  // ----- verification of the result -----

  predicate Verified(hash: Bytes -> Digest, hashes: seq<Digest>, data: map<nat, Bytes>, i: nat) {
    i in data && i < |hashes| && hash(data[i]) == hashes[i]
  }

  function Passing(hash: Bytes -> Digest, hashes: seq<Digest>, data: map<nat, Bytes>, missing: seq<nat>, want: bool): seq<nat> {
    if missing == [] then []
    else
      var rest := Passing(hash, hashes, data, missing[..|missing| - 1], want);
      var last := missing[|missing| - 1];
      if Verified(hash, hashes, data, last) == want then rest + [last] else rest
  }

  lemma {:induction false} PassingElements(hash: Bytes -> Digest, hashes: seq<Digest>, data: map<nat, Bytes>, missing: seq<nat>, want: bool)
    ensures forall i :: i in Passing(hash, hashes, data, missing, want) <==> i in missing && Verified(hash, hashes, data, i) == want
  {
    if missing != [] {
      var init, last := missing[..|missing| - 1], missing[|missing| - 1];
      PassingElements(hash, hashes, data, init, want);
      assert missing == init + [last];
    }
  }

  lemma {:induction false} AllPassing(hash: Bytes -> Digest, hashes: seq<Digest>, data: map<nat, Bytes>, missing: seq<nat>)
    requires forall i :: i in missing ==> Verified(hash, hashes, data, i)
    ensures Passing(hash, hashes, data, missing, true) == missing
    ensures Passing(hash, hashes, data, missing, false) == []
  {
    if missing != [] {
      var init, last := missing[..|missing| - 1], missing[|missing| - 1];
      assert missing == init + [last];
      AllPassing(hash, hashes, data, init);
    }
  }

  /** All or nothing: bytes come out only when every rebuilt shard hashes to its manifest entry. */
  ghost function Outcome(hash: Bytes -> Digest, hashes: seq<Digest>, missing: seq<nat>, rebuilt: Result<map<nat, Bytes>, Failure>): RepairResult {
    match rebuilt
    case Err(e) => Aborted(e)
    case Ok(data) =>
      var repaired := Passing(hash, hashes, data, missing, true);
      var failed := Passing(hash, hashes, data, missing, false);
      if failed == [] then Rebuilt(repaired, data) else IntegrityFailure(repaired, failed)
  }

  /** The open source files, by shard index. */
  function OpenSources(c: Codec, sources: map<nat, Bytes>): (s: seq<Option<Bytes>>)
    ensures |s| == c.Total()
  {
    seq(c.Total(), i requires 0 <= i < c.Total() => if i in sources then Some(sources[i]) else None)
  }

  function EmptyOutputs(missing: seq<nat>): map<nat, Bytes> {
    map i | i in missing :: []
  }

  /** What one call returns, for any sources, intact or not, and any fault. */
  ghost function RepairSpec(c: Codec, blockSize: nat, origSize: int, hash: Bytes -> Digest, hashes: seq<Digest>,
                            missing: seq<nat>, sources: map<nat, Bytes>, fault: Fault): RepairResult
    requires c.k >= 1 && blockSize >= 1 && InRange(c, missing)
  {
    if fault.OpenFails? then Aborted(OpenFailed)
    else Outcome(hash, hashes, missing,
      Rebuild(c, OpenSources(c, sources), blockSize, origSize, missing, EmptyOutputs(missing), fault))
  }

  method ReadStripe(sources: seq<Option<Bytes>>, n: nat, missing: seq<nat>)
    returns (shards: seq<Bytes>, unread: seq<Option<Bytes>>)
    requires forall p :: 0 <= p < |missing| ==> missing[p] < |sources|
    ensures shards == Slots(sources, n, missing) && unread == Advance(sources, n)
  {
    shards, unread := [], [];
    for i := 0 to |sources|
      invariant |shards| == |unread| == i
      invariant forall j :: 0 <= j < i ==> shards[j] == PaddedRead(sources[j], n) && unread[j] == Advance(sources, n)[j]
    {
      shards := shards + [PaddedRead(sources[i], n)];
      unread := unread + [match sources[i] case None => None case Some(bytes) => Some(Drop(bytes, n))];
    }
    for i := 0 to |missing|
      invariant |shards| == |sources|
      invariant forall j :: 0 <= j < |shards| ==>
        shards[j] == if j in missing[..i] then [] else PaddedRead(sources[j], n)
    {
      shards := shards[missing[i] := []];
      assert missing[..i + 1] == missing[..i] + [missing[i]];
    }
    assert missing[..|missing|] == missing;
  }

  lemma {:induction false} AppendedSnoc(out: map<nat, Bytes>, missing: seq<nat>, blocks: seq<Bytes>, i: nat)
    requires forall p :: 0 <= p < |missing| ==> missing[p] in out && missing[p] < |blocks|
    requires i < |missing|
    ensures var before := Appended(out, missing[..i], blocks);
      missing[i] in before
      && Appended(out, missing[..i + 1], blocks) == before[missing[i] := before[missing[i]] + blocks[missing[i]]]
    decreases i
  {
    if i == 0 {
      assert missing[..1] == [missing[0]];
    } else {
      var next := out[missing[0] := out[missing[0]] + blocks[missing[0]]];
      AppendedSnoc(next, missing[1..], blocks, i - 1);
      assert missing[..i][1..] == missing[1..][..i - 1];
      assert missing[..i + 1][1..] == missing[1..][..i];
    }
  }

  method AppendBlocks(out: map<nat, Bytes>, missing: seq<nat>, blocks: seq<Bytes>) returns (r: map<nat, Bytes>)
    requires forall p :: 0 <= p < |missing| ==> missing[p] in out && missing[p] < |blocks|
    ensures r == Appended(out, missing, blocks)
  {
    r := out;
    for i := 0 to |missing|
      invariant r == Appended(out, missing[..i], blocks)
    {
      AppendedSnoc(out, missing, blocks, i);
      r := r[missing[i] := r[missing[i]] + blocks[missing[i]]];
    }
    assert missing[..|missing|] == missing;
  }

  method RepairShards(c: Codec, blockSize: nat, origSize: int, hash: Bytes -> Digest, hashes: seq<Digest>,
                      missing: seq<nat>, sources: map<nat, Bytes>, fault: Fault) returns (r: RepairResult)
    requires c.Valid() && blockSize >= 1 && InRange(c, missing)
    ensures r == RepairSpec(c, blockSize, origSize, hash, hashes, missing, sources, fault)
  {
    hide ReconstructSome, Slots, Advance, Wanted, Appended, PaddedRead, Verified;
    var outBufs := EmptyOutputs(missing);
    if fault.OpenFails? {
      return Aborted(OpenFailed);
    }
    var files := OpenSources(c, sources);
    var remaining := origSize;
    var readable := fault;
    StripeSizePositive(c, blockSize);
    while remaining > 0
      invariant |files| == c.Total() && Outputs(c, outBufs, missing)
      invariant Rebuild(c, OpenSources(c, sources), blockSize, origSize, missing, EmptyOutputs(missing), fault)
        == Rebuild(c, files, blockSize, remaining, missing, outBufs, readable)
      decreases remaining
    {
      var stripeLen := StripeSize(c, blockSize);
      if remaining < stripeLen {
        stripeLen := remaining;
      }
      var readSize := blockSize;
      if remaining < StripeSize(c, blockSize) {
        readSize := (remaining + c.k - 1) / c.k;
      }
      if readable == ReadFails(0) {
        return Aborted(ReadFailed);
      }
      var shards, unread := ReadStripe(files, readSize, missing);
      match ReconstructSome(c, shards, Wanted(c.Total(), missing)) {
        case Err(e) =>
          return Aborted(CodecFailed(e));
        case Ok(blocks) =>
          BlocksLength(c, shards, Wanted(c.Total(), missing));
          outBufs := AppendBlocks(outBufs, missing, blocks);
          files := unread;
          remaining := remaining - stripeLen;
          readable := Later(readable);
      }
    }
    var repaired, failed := [], [];
    for i := 0 to |missing|
      invariant repaired == Passing(hash, hashes, outBufs, missing[..i], true)
      invariant failed == Passing(hash, hashes, outBufs, missing[..i], false)
    {
      assert missing[..i + 1][..i] == missing[..i];
      if Verified(hash, hashes, outBufs, missing[i]) {
        repaired := repaired + [missing[i]];
      } else {
        failed := failed + [missing[i]];
      }
    }
    assert missing[..|missing|] == missing;
    if |failed| > 0 {
      return IntegrityFailure(repaired, failed);
    }
    return Rebuilt(repaired, outBufs);
  }

  lemma BlocksLength(c: Codec, slots: seq<Bytes>, wanted: seq<bool>)
    requires |slots| == |wanted|
    ensures var r := ReconstructSome(c, slots, wanted); r.Ok? ==> |r.value| == |slots|
  {
  }

  // ----- what the call promises -----

  /** Whatever the sources hold: bytes are returned only if all of them match the manifest. */
  lemma OnlyVerified(c: Codec, blockSize: nat, origSize: int, hash: Bytes -> Digest, hashes: seq<Digest>,
                     missing: seq<nat>, sources: map<nat, Bytes>, fault: Fault)
    requires c.k >= 1 && blockSize >= 1 && InRange(c, missing)
    ensures var r := RepairSpec(c, blockSize, origSize, hash, hashes, missing, sources, fault);
      r.Rebuilt? ==>
        (&& r.repaired == missing
         && (forall i :: i in r.data <==> i in missing)
         && (forall i :: i in r.data ==> Verified(hash, hashes, r.data, i)))
  {
    var r := RepairSpec(c, blockSize, origSize, hash, hashes, missing, sources, fault);
    if r.Rebuilt? {
      PassingElements(hash, hashes, r.data, missing, false);
      forall i | i in missing ensures Verified(hash, hashes, r.data, i) {
        assert i !in Passing(hash, hashes, r.data, missing, false);
      }
      AllPassing(hash, hashes, r.data, missing);
    }
  }

  /** What is reported when some rebuilt shard does not match: as failed those without a matching manifest digest, as
      repaired the others, each in the order of the list, and no bytes are handed out. */
  lemma FailureLists(hash: Bytes -> Digest, hashes: seq<Digest>, missing: seq<nat>, data: map<nat, Bytes>)
    requires forall i :: i in missing ==> i in data
    ensures var r := Outcome(hash, hashes, missing, Ok(data));
      && (r.IntegrityFailure? <==> exists i :: i in missing && !(i < |hashes| && hash(data[i]) == hashes[i]))
      && (r.IntegrityFailure? ==>
            (&& (forall i :: i in r.failed <==> i in missing && !(i < |hashes| && hash(data[i]) == hashes[i]))
             && (forall i :: i in r.repaired <==> i in missing && i < |hashes| && hash(data[i]) == hashes[i])
             && |r.failed| + |r.repaired| == |missing|))
      && (!r.IntegrityFailure? ==> r == Rebuilt(missing, data))
  {
    hide Passing;
    PassingElements(hash, hashes, data, missing, true);
    PassingElements(hash, hashes, data, missing, false);
    PassingLengths(hash, hashes, data, missing);
    var failed := Passing(hash, hashes, data, missing, false);
    if failed == [] {
      forall i | i in missing ensures Verified(hash, hashes, data, i) { assert i !in failed; }
      AllPassing(hash, hashes, data, missing);
    } else {
      assert failed[0] in failed;
    }
  }

  lemma {:induction false} PassingLengths(hash: Bytes -> Digest, hashes: seq<Digest>, data: map<nat, Bytes>, missing: seq<nat>)
    ensures |Passing(hash, hashes, data, missing, true)| + |Passing(hash, hashes, data, missing, false)| == |missing|
  {
    hide Verified;
    if missing != [] { PassingLengths(hash, hashes, data, missing[..|missing| - 1]); }
  }

  /** Sources that still hold the rest of the shard files the encoder wrote. */
  ghost predicate Intact(c: Codec, sources: seq<Option<Bytes>>, file: Bytes, blockSize: nat)
    requires c.Valid() && blockSize >= 1
  {
    && |sources| == c.Total()
    && forall i :: 0 <= i < c.Total() && sources[i].Some? ==> sources[i].value == ShardFile(c, file, blockSize, i)
  }

  function Usable(sources: seq<Option<Bytes>>, missing: seq<nat>): set<nat> {
    set i: nat | i < |sources| && sources[i].Some? && i !in missing
  }

  /** The tail block size worked out here is the one the encoder used, so a padded read is never padded. */
  lemma ReadIsBlock(c: Codec, file: Bytes, blockSize: nat, i: nat)
    requires c.Valid() && blockSize >= 1 && i < c.Total() && file != []
    ensures var s, n := StripeSize(c, blockSize), ReadSize(c, blockSize, |file|);
      && |StripeBlocks(c, Take(file, s))| == c.Total()
      && StripeBlocks(c, Take(file, s))[i] != []
      && PaddedRead(Some(ShardFile(c, file, blockSize, i)), n) == StripeBlocks(c, Take(file, s))[i]
      && Drop(ShardFile(c, file, blockSize, i), n) == ShardFile(c, Drop(file, s), blockSize, i)
  {
    hide StripeBlocks;
    var s, n := StripeSize(c, blockSize), ReadSize(c, blockSize, |file|);
    StripeSizePositive(c, blockSize);
    StripeShape(c, Take(file, s));
    FirstBlock(c, file, blockSize, i);
    CeilDivMultiple(c.k, blockSize);
    assert |StripeBlocks(c, Take(file, s))[i]| == n;
  }

  lemma SourcesAdvance(c: Codec, sources: seq<Option<Bytes>>, file: Bytes, blockSize: nat, missing: seq<nat>)
    requires c.Valid() && blockSize >= 1 && file != [] && Intact(c, sources, file, blockSize)
    ensures var n := ReadSize(c, blockSize, |file|);
      && Intact(c, Advance(sources, n), Drop(file, StripeSize(c, blockSize)), blockSize)
      && Usable(Advance(sources, n), missing) == Usable(sources, missing)
  {
    hide StripeBlocks, ShardFile, ReadSize;
    forall i: nat | i < c.Total() && sources[i].Some?
      ensures Advance(sources, ReadSize(c, blockSize, |file|))[i].value
        == ShardFile(c, Drop(file, StripeSize(c, blockSize)), blockSize, i)
    {
      ReadIsBlock(c, file, blockSize, i);
    }
  }

  lemma SlotIsBlock(c: Codec, sources: seq<Option<Bytes>>, file: Bytes, blockSize: nat, missing: seq<nat>, i: nat)
    requires c.Valid() && blockSize >= 1 && file != [] && Intact(c, sources, file, blockSize) && i < c.Total()
    ensures var slots, w := Slots(sources, ReadSize(c, blockSize, |file|), missing), StripeBlocks(c, Take(file, StripeSize(c, blockSize)));
      && |w| == c.Total()
      && (slots[i] == [] || slots[i] == w[i])
      && (slots[i] != [] <==> i in Usable(sources, missing))
  {
    hide StripeBlocks, ShardFile, ReadSize;
    ReadIsBlock(c, file, blockSize, i);
  }

  lemma SlotsErased(c: Codec, sources: seq<Option<Bytes>>, file: Bytes, blockSize: nat, missing: seq<nat>)
    requires c.Valid() && blockSize >= 1 && file != [] && Intact(c, sources, file, blockSize)
    ensures var slots := Slots(sources, ReadSize(c, blockSize, |file|), missing);
      && Present(slots) == Usable(sources, missing)
      && Agree(slots, StripeBlocks(c, Take(file, StripeSize(c, blockSize))))
  {
    hide StripeBlocks, ShardFile, ReadSize, Slots;
    var slots := Slots(sources, ReadSize(c, blockSize, |file|), missing);
    SlotIsBlock(c, sources, file, blockSize, missing, 0);
    forall i: nat | i < c.Total()
      ensures slots[i] == [] || slots[i] == StripeBlocks(c, Take(file, StripeSize(c, blockSize)))[i]
      ensures slots[i] != [] <==> i in Usable(sources, missing)
    {
      SlotIsBlock(c, sources, file, blockSize, missing, i);
    }
  }

  lemma RepairStep(c: Codec, sources: seq<Option<Bytes>>, file: Bytes, blockSize: nat, missing: seq<nat>)
    requires c.Valid() && blockSize >= 1 && file != [] && InRange(c, missing)
    requires Intact(c, sources, file, blockSize) && |Usable(sources, missing)| >= c.k
    ensures var stripe := Take(file, StripeSize(c, blockSize));
      var r := ReconstructSome(c, Slots(sources, ReadSize(c, blockSize, |file|), missing), Wanted(c.Total(), missing));
      && r.Ok? && |r.value| == c.Total() == |StripeBlocks(c, stripe)|
      && forall p :: 0 <= p < |missing| ==> r.value[missing[p]] == StripeBlocks(c, stripe)[missing[p]]
  {
    hide ReconstructSome, Intact, ReadSize;
    var stripe := Take(file, StripeSize(c, blockSize));
    var slots := Slots(sources, ReadSize(c, blockSize, |file|), missing);
    SlotsErased(c, sources, file, blockSize, missing);
    StripeSizePositive(c, blockSize);
    StripeShape(c, stripe);
    ReconstructErased(c, SplitBlocks(stripe, c.k), slots, Wanted(c.Total(), missing));
    assert forall p :: 0 <= p < |missing| ==> Wanted(c.Total(), missing)[missing[p]];
  }

  lemma {:induction false} AppendedDistinct(out: map<nat, Bytes>, missing: seq<nat>, blocks: seq<Bytes>)
    requires forall p :: 0 <= p < |missing| ==> missing[p] in out && missing[p] < |blocks|
    requires Distinct(missing)
    ensures var r := Appended(out, missing, blocks);
      forall i :: i in out ==> r[i] == if i in missing then out[i] + blocks[i] else out[i]
  {
    if missing != [] {
      var next := out[missing[0] := out[missing[0]] + blocks[missing[0]]];
      AppendedDistinct(next, missing[1..], blocks);
      assert missing == [missing[0]] + missing[1..];
    }
  }

  /** The first failing read lies within the stripes of the file. */
  ghost predicate ReadBreaks(c: Codec, size: nat, blockSize: nat, fault: Fault)
    requires c.Valid() && blockSize >= 1
  {
    StripeSizePositive(c, blockSize);
    fault.ReadFails? && fault.stripe < StripeCount(size, StripeSize(c, blockSize))
  }

  lemma LaterBreaks(c: Codec, size: nat, blockSize: nat, fault: Fault)
    requires c.Valid() && blockSize >= 1 && size > 0 && fault != ReadFails(0)
    ensures ReadBreaks(c, size, blockSize, fault) <==> ReadBreaks(c, size - Min(size, StripeSize(c, blockSize)), blockSize, Later(fault))
  {
  }

  lemma {:induction false} RebuildExact(c: Codec, sources: seq<Option<Bytes>>, file: Bytes, blockSize: nat, missing: seq<nat>, out: map<nat, Bytes>, fault: Fault)
    requires c.Valid() && blockSize >= 1 && InRange(c, missing) && Distinct(missing) && Outputs(c, out, missing)
    requires Intact(c, sources, file, blockSize)
    requires file == [] || |Usable(sources, missing)| >= c.k
    ensures var r := Rebuild(c, sources, blockSize, |file|, missing, out, fault);
      if ReadBreaks(c, |file|, blockSize, fault) then r == Err(ReadFailed)
      else
        && r.Ok?
        && forall p :: 0 <= p < |missing| ==> r.value[missing[p]] == out[missing[p]] + ShardFile(c, file, blockSize, missing[p])
    decreases |file|
  {
    hide ReconstructSome, StripeBlocks, Slots, Advance, ReadSize, Wanted, Usable, ShardFile, Appended, ReadBreaks, Later;
    if file == [] {
      EmptyShard(c, blockSize);
      assert !ReadBreaks(c, 0, blockSize, fault) by { NothingBreaks(c, blockSize, fault); }
    } else if fault == ReadFails(0) {
      assert ReadBreaks(c, |file|, blockSize, fault) by { FirstBreaks(c, |file|, blockSize); }
    } else {
      var s, n := StripeSize(c, blockSize), ReadSize(c, blockSize, |file|);
      StripeSizePositive(c, blockSize);
      SourcesAdvance(c, sources, file, blockSize, missing);
      RepairStep(c, sources, file, blockSize, missing);
      var blocks := ReconstructSome(c, Slots(sources, n, missing), Wanted(c.Total(), missing)).value;
      var next := Appended(out, missing, blocks);
      AppendedDistinct(out, missing, blocks);
      LaterBreaks(c, |file|, blockSize, fault);
      RebuildExact(c, Advance(sources, n), Drop(file, s), blockSize, missing, next, Later(fault));
      if !ReadBreaks(c, |file|, blockSize, fault) {
        var done := Rebuild(c, Advance(sources, n), blockSize, |Drop(file, s)|, missing, next, Later(fault)).value;
        BlocksAdd(c, file, blockSize, missing, out, next, done);
      }
    }
  }

  lemma BlocksAdd(c: Codec, file: Bytes, blockSize: nat, missing: seq<nat>, out: map<nat, Bytes>, next: map<nat, Bytes>, done: map<nat, Bytes>)
    requires c.Valid() && blockSize >= 1 && file != [] && InRange(c, missing)
    requires forall p :: 0 <= p < |missing| ==> missing[p] in out && missing[p] in next && missing[p] in done
    requires |StripeBlocks(c, Take(file, StripeSize(c, blockSize)))| == c.Total()
    requires forall p :: 0 <= p < |missing| ==>
      (next[missing[p]] == out[missing[p]] + StripeBlocks(c, Take(file, StripeSize(c, blockSize)))[missing[p]]
       && done[missing[p]] == next[missing[p]] + ShardFile(c, Drop(file, StripeSize(c, blockSize)), blockSize, missing[p]))
    ensures forall p :: 0 <= p < |missing| ==> done[missing[p]] == out[missing[p]] + ShardFile(c, file, blockSize, missing[p])
  {
    hide StripeBlocks, ShardFile;
    forall p | 0 <= p < |missing|
      ensures done[missing[p]] == out[missing[p]] + ShardFile(c, file, blockSize, missing[p])
    {
      NextBlock(c, file, blockSize, missing[p]);
    }
  }

  lemma NothingBreaks(c: Codec, blockSize: nat, fault: Fault)
    requires c.Valid() && blockSize >= 1
    ensures !ReadBreaks(c, 0, blockSize, fault)
  {
  }

  lemma FirstBreaks(c: Codec, size: nat, blockSize: nat)
    requires c.Valid() && blockSize >= 1 && size > 0
    ensures ReadBreaks(c, size, blockSize, ReadFails(0))
  {
  }

  lemma EmptyShard(c: Codec, blockSize: nat)
    requires c.Valid() && blockSize >= 1
    ensures forall j: nat :: j < c.Total() ==> ShardFile(c, [], blockSize, j) == []
  {
  }

  lemma NextBlock(c: Codec, file: Bytes, blockSize: nat, j: nat)
    requires c.Valid() && blockSize >= 1 && j < c.Total() && file != []
    ensures var s := StripeSize(c, blockSize);
      |StripeBlocks(c, Take(file, s))| == c.Total()
      && ShardFile(c, file, blockSize, j) == StripeBlocks(c, Take(file, s))[j] + ShardFile(c, Drop(file, s), blockSize, j)
  {
    hide StripeBlocks;
    FirstBlock(c, file, blockSize, j);
  }

  /** The listed shard files as the encoder wrote them. */
  ghost function Originals(c: Codec, file: Bytes, blockSize: nat, missing: seq<nat>): (m: map<nat, Bytes>)
    requires c.Valid() && blockSize >= 1 && InRange(c, missing)
    ensures forall i :: i in m <==> i in missing
    ensures forall i :: i in missing ==> i < c.Total() && m[i] == ShardFile(c, file, blockSize, i)
  {
    map i | i in missing :: ShardFile(c, file, blockSize, i)
  }

  /** The shards a repair can read from. */
  function Sources(c: Codec, sources: map<nat, Bytes>, missing: seq<nat>): set<nat> {
    set i | i in sources && i < c.Total() && i !in missing
  }

  /** Repair is exact: from any k intact shards that are not themselves listed as missing, every
      missing shard, data or parity, comes back byte for byte as the encoder wrote it, and nothing fails, unless a
      source cannot be opened or a read within the stripes of the file fails, and then nothing comes back. */
  lemma RepairExact(c: Codec, file: Bytes, blockSize: nat, hash: Bytes -> Digest, hashes: seq<Digest>,
                    missing: seq<nat>, sources: map<nat, Bytes>, fault: Fault)
    requires c.Valid() && blockSize >= 1 && InRange(c, missing) && Distinct(missing)
    requires forall i :: i in sources && i < c.Total() ==> sources[i] == ShardFile(c, file, blockSize, i)
    requires |hashes| == c.Total() && forall i: nat :: i < c.Total() ==> hashes[i] == hash(ShardFile(c, file, blockSize, i))
    requires file == [] || |Sources(c, sources, missing)| >= c.k
    ensures RepairSpec(c, blockSize, |file|, hash, hashes, missing, sources, fault) ==
      if fault.OpenFails? then Aborted(OpenFailed)
      else if ReadBreaks(c, |file|, blockSize, fault) then Aborted(ReadFailed)
      else Rebuilt(missing, Originals(c, file, blockSize, missing))
  {
    hide Rebuild, ShardFile, Verified, OpenSources, EmptyOutputs, Originals, ReadBreaks;
    var data := Originals(c, file, blockSize, missing);
    RebuiltData(c, file, blockSize, missing, sources, fault);
    forall i | i in missing ensures Verified(hash, hashes, data, i) {
      VerifiedWhen(hash, hashes, data, i);
    }
    AllPassing(hash, hashes, data, missing);
  }

  lemma RebuiltData(c: Codec, file: Bytes, blockSize: nat, missing: seq<nat>, sources: map<nat, Bytes>, fault: Fault)
    requires c.Valid() && blockSize >= 1 && InRange(c, missing) && Distinct(missing)
    requires forall i :: i in sources && i < c.Total() ==> sources[i] == ShardFile(c, file, blockSize, i)
    requires file == [] || |Sources(c, sources, missing)| >= c.k
    ensures Rebuild(c, OpenSources(c, sources), blockSize, |file|, missing, EmptyOutputs(missing), fault) ==
      if ReadBreaks(c, |file|, blockSize, fault) then Err(ReadFailed) else Ok(Originals(c, file, blockSize, missing))
  {
    hide Rebuild, ShardFile, Originals, ReadBreaks;
    var cursors, out := OpenSources(c, sources), EmptyOutputs(missing);
    assert Usable(cursors, missing) == Sources(c, sources, missing);
    RebuildExact(c, cursors, file, blockSize, missing, out, fault);
    if !ReadBreaks(c, |file|, blockSize, fault) {
      var data := Rebuild(c, cursors, blockSize, |file|, missing, out, fault).value;
      forall i | i in missing ensures data[i] == Originals(c, file, blockSize, missing)[i] {
        var p :| 0 <= p < |missing| && missing[p] == i;
        assert out[missing[p]] + ShardFile(c, file, blockSize, i) == ShardFile(c, file, blockSize, i);
      }
      assert data == Originals(c, file, blockSize, missing);
    }
  }

  lemma VerifiedWhen(hash: Bytes -> Digest, hashes: seq<Digest>, data: map<nat, Bytes>, i: nat)
    requires i in data && i < |hashes| && hash(data[i]) == hashes[i]
    ensures Verified(hash, hashes, data, i)
  {
  }

  /** Without k usable sources nothing of a non-empty file is rebuilt, whatever the sources hold: the first
      stripe already fails. */
  lemma RepairNeedsK(c: Codec, blockSize: nat, origSize: int, hash: Bytes -> Digest, hashes: seq<Digest>,
                     missing: seq<nat>, sources: map<nat, Bytes>, fault: Fault)
    requires c.Valid() && blockSize >= 1 && InRange(c, missing)
    requires origSize > 0 && missing != [] && |Sources(c, sources, missing)| < c.k
    ensures RepairSpec(c, blockSize, origSize, hash, hashes, missing, sources, fault).Aborted?
  {
    hide ReconstructSome;
    var cursors, n := OpenSources(c, sources), ReadSize(c, blockSize, origSize);
    var slots := Slots(cursors, n, missing);
    assert Present(slots) <= Sources(c, sources, missing);
    SubsetCardinality(Present(slots), Sources(c, sources, missing));
    assert missing[0] in missing;
    TooFewRefused(c, slots, Wanted(c.Total(), missing), missing[0]);
  }
}
