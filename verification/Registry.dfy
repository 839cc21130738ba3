/** The provider registry: announces are kept with the time they arrived, stale ones are
    pruned only when somebody asks (discovery/discovery.go). */
module Registry {
  import opened Prelude

  const TTL: int := 5 * 60 * 1_000_000_000

  datatype ProviderInfo = ProviderInfo(id: string, addrs: seq<string>)

  datatype Record = Record(info: ProviderInfo, shardIndices: seq<int>, lastSeen: int)

  type Records = map<string, map<string, Record>>

  // ----- what the handlers do to the records -----

  /** The addresses that parse, in order. */
  function Parsable(addrs: seq<string>, parses: string -> bool): seq<string> {
    if addrs == [] then []
    else Parsable(addrs[..|addrs| - 1], parses) + if parses(addrs[|addrs| - 1]) then [addrs[|addrs| - 1]] else []
  }

  /** The addresses kept are exactly those that parse, in the order they were sent. */
  lemma {:induction false} ParsableExactly(addrs: seq<string>, parses: string -> bool) returns (from: seq<nat>)
    ensures |from| == |Parsable(addrs, parses)| && StrictlyIncreasing(from)
    ensures forall j :: 0 <= j < |from| ==> from[j] < |addrs| && Parsable(addrs, parses)[j] == addrs[from[j]]
    ensures forall i :: 0 <= i < |addrs| ==> (i in from <==> parses(addrs[i]))
  {
    hide StrictlyIncreasing;
    from := [];
    if addrs == [] {
      assert StrictlyIncreasing([]) by { EmptyIncreases(); }
    } else {
      var n := |addrs| - 1;
      var init := ParsableExactly(addrs[..n], parses);
      forall i | i in init ensures i < n { }
      from := if parses(addrs[n]) then init + [n] else init;
      OneMore(init, n);
      forall i | 0 <= i < n ensures i in init <==> parses(addrs[i]) { assert addrs[..n][i] == addrs[i]; }
    }
  }

  lemma EmptyIncreases()
    ensures StrictlyIncreasing([])
  {
  }

  lemma OneMore(init: seq<nat>, n: nat)
    requires StrictlyIncreasing(init) && forall i :: i in init ==> i < n
    ensures StrictlyIncreasing(init + [n])
    ensures forall i :: i in init + [n] <==> i in init || i == n
  {
    forall p, q | 0 <= p < q < |init + [n]| ensures (init + [n])[p] < (init + [n])[q] {
      assert init[p] in init;
    }
  }

  function Announced(records: Records, fileId: string, record: Record): Records {
    var inner := if fileId in records then records[fileId] else map[];
    records[fileId := inner[record.info.id := record]]
  }

  predicate Stale(record: Record, now: int) {
    now - record.lastSeen > TTL
  }

  function PrunedInner(providers: map<string, Record>, now: int): map<string, Record> {
    map pid | pid in providers && !Stale(providers[pid], now) :: providers[pid]
  }

  /** Drops stale records, and files that have none left. */
  function Pruned(records: Records, now: int): Records {
    map fileId | fileId in records && PrunedInner(records[fileId], now) != map[] :: PrunedInner(records[fileId], now)
  }

  /** Pruned, except for the files still to be visited. */
  function Partly(records: Records, todo: set<string>, now: int): Records {
    map f | f in records && (f in todo || PrunedInner(records[f], now) != map[]) ::
      if f in todo then records[f] else PrunedInner(records[f], now)
  }

  lemma PartlyStep(records: Records, todo: set<string>, f: string, now: int)
    requires f in records && f in todo
    ensures var inner, partly := PrunedInner(records[f], now), Partly(records, todo, now);
      && f in partly && partly[f] == records[f]
      && Partly(records, todo - {f}, now) == if inner == map[] then partly[f := inner] - {f} else partly[f := inner]
  {
    hide PrunedInner;
  }

  /** The providers stored for a file. */
  function Listed(records: Records, fileId: string): set<ProviderInfo> {
    if fileId in records then set pid | pid in records[fileId] :: records[fileId][pid].info else {}
  }

  class ProviderRegistry {
    var records: Records

    constructor ()
      ensures records == map[]
    {
      records := map[];
    }

    method HandleAnnounce(now: int, fileId: string, provider: ProviderInfo, shardIndices: seq<int>, parses: string -> bool) returns (ok: bool)
      modifies this
      ensures ok <==> fileId != "" && provider.id != ""
      ensures records == if ok
        then Announced(old(records), fileId, Record(ProviderInfo(provider.id, Parsable(provider.addrs, parses)), shardIndices, now))
        else old(records)
    {
      if fileId == "" || provider.id == "" {
        return false;
      }
      var addrs: seq<string> := [];
      for n := 0 to |provider.addrs|
        invariant addrs == Parsable(provider.addrs[..n], parses)
      {
        assert provider.addrs[..n + 1][..n] == provider.addrs[..n];
        if parses(provider.addrs[n]) {
          addrs := addrs + [provider.addrs[n]];
        }
      }
      assert provider.addrs[..|provider.addrs|] == provider.addrs;
      if fileId !in records {
        records := records[fileId := map[]];
      }
      records := records[fileId := records[fileId][provider.id := Record(ProviderInfo(provider.id, addrs), shardIndices, now)]];
      return true;
    }

    /** One file's providers, visited in any order. */
    method PruneFile(now: int, fileId: string)
      requires fileId in records
      modifies this
      ensures records == old(records)[fileId := PrunedInner(old(records)[fileId], now)]
    {
      ghost var all := records[fileId];
      var todo := records[fileId].Keys;
      while todo != {}
        invariant todo <= all.Keys
        invariant fileId in records && records == old(records)[fileId := records[fileId]]
        invariant records[fileId] == map pid | pid in all && (pid in todo || !Stale(all[pid], now)) :: all[pid]
        decreases |todo|
      {
        var pid :| pid in todo;
        todo := todo - {pid};
        if now - records[fileId][pid].lastSeen > TTL {
          records := records[fileId := records[fileId] - {pid}];
        }
      }
      assert records[fileId] == PrunedInner(all, now);
    }

    method PruneLocked(now: int)
      modifies this
      ensures records == Pruned(old(records), now)
    {
      hide PrunedInner;
      ghost var all := records;
      var todo := records.Keys;
      assert records == Partly(all, todo, now);
      while todo != {}
        invariant todo <= all.Keys && records == Partly(all, todo, now)
        decreases |todo|
      {
        var fileId :| fileId in todo;
        PartlyStep(all, todo, fileId, now);
        PruneFile(now, fileId);
        todo := todo - {fileId};
        if records[fileId] == map[] {
          records := records - {fileId};
        }
      }
      assert records == Pruned(all, now);
    }

    method HandleFind(now: int, fileId: string) returns (providers: set<ProviderInfo>)
      modifies this
      ensures records == Pruned(old(records), now)
      ensures providers == Listed(records, fileId)
    {
      PruneLocked(now);
      providers := {};
      if fileId in records {
        var todo := records[fileId].Keys;
        while todo != {}
          invariant todo <= records[fileId].Keys
          invariant providers == set pid | pid in records[fileId] && pid !in todo :: records[fileId][pid].info
          decreases |todo|
        {
          var pid :| pid in todo;
          todo := todo - {pid};
          providers := providers + {records[fileId][pid].info};
        }
      }
    }
  }

  // ----- the exact history -----

  /** A request as the registry sees it; announces carry the record they would store. */
  datatype Event = Announce(fileId: string, record: Record) | Find(fileId: string, now: int)

  function TimeOf(e: Event): int {
    match e case Announce(_, record) => record.lastSeen case Find(_, now) => now
  }

  function Apply(records: Records, e: Event): Records {
    match e
    case Announce(fileId, record) => if fileId == "" || record.info.id == "" then records else Announced(records, fileId, record)
    case Find(_, now) => Pruned(records, now)
  }

  function After(history: seq<Event>): Records {
    if history == [] then map[] else Apply(After(history[..|history| - 1]), history[|history| - 1])
  }

  /** The newest valid announce of a provider for a file, however old. */
  function Newest(history: seq<Event>, fileId: string, pid: string): Option<Record> {
    if history == [] then None
    else match history[|history| - 1]
      case Announce(f, record) =>
        if f == fileId != "" && record.info.id == pid != "" then Some(record) else Newest(history[..|history| - 1], fileId, pid)
      case _ => Newest(history[..|history| - 1], fileId, pid)
  }

  ghost predicate ClockNeverBack(history: seq<Event>, now: int) {
    && (forall i, j :: 0 <= i <= j < |history| ==> TimeOf(history[i]) <= TimeOf(history[j]))
    && (forall i :: 0 <= i < |history| ==> TimeOf(history[i]) <= now)
  }

  function Kept(records: Records, fileId: string, pid: string): Option<Record> {
    if fileId in records && pid in records[fileId] then Some(records[fileId][pid]) else None
  }

  ghost predicate NoEmptyInner(records: Records) {
    forall f :: f in records ==> records[f] != map[]
  }

  /** What is stored for a provider is its newest announce, except that one already stale at `now` may be gone. */
  ghost predicate Tracks(records: Records, history: seq<Event>, now: int, fileId: string, pid: string) {
    var kept, newest := Kept(records, fileId, pid), Newest(history, fileId, pid);
    && (kept.Some? ==> kept == newest && kept.value.info.id == pid)
    && (kept.None? && newest.Some? ==> Stale(newest.value, now))
  }

  lemma AppliedTracks(records: Records, init: seq<Event>, e: Event, fileId: string, pid: string)
    requires Tracks(records, init, TimeOf(e), fileId, pid) && NoEmptyInner(records)
    ensures Tracks(Apply(records, e), init + [e], TimeOf(e), fileId, pid) && NoEmptyInner(Apply(records, e))
  {
    assert (init + [e])[..|init|] == init;
    var after := Apply(records, e);
    if e.Find? {
      assert Kept(after, fileId, pid) ==
        (if Kept(records, fileId, pid).Some? && !Stale(Kept(records, fileId, pid).value, e.now) then Kept(records, fileId, pid) else None) by
      {
        PrunedKeeps(records, e.now, fileId, pid);
      }
    } else if after != records {
      assert e.record.info.id in after[e.fileId];
    }
  }

  lemma PrunedKeeps(records: Records, now: int, fileId: string, pid: string)
    ensures Kept(Pruned(records, now), fileId, pid) ==
      if Kept(records, fileId, pid).Some? && !Stale(Kept(records, fileId, pid).value, now) then Kept(records, fileId, pid) else None
  {
    if fileId in records && pid in records[fileId] && !Stale(records[fileId][pid], now) {
      assert pid in PrunedInner(records[fileId], now);
    }
  }

  lemma LaterTracks(records: Records, history: seq<Event>, t: int, now: int, fileId: string, pid: string)
    requires Tracks(records, history, t, fileId, pid) && t <= now
    ensures Tracks(records, history, now, fileId, pid)
  {
  }

  lemma {:induction false} HistoryTracks(history: seq<Event>, now: int, fileId: string, pid: string)
    requires ClockNeverBack(history, now)
    ensures Tracks(After(history), history, now, fileId, pid) && NoEmptyInner(After(history))
  {
    hide Tracks, Apply;
    if history == [] {
      assert Tracks(map[], [], now, fileId, pid) by { NothingTracks(now, fileId, pid); }
    } else {
      var init, e := history[..|history| - 1], history[|history| - 1];
      HistoryTracks(init, TimeOf(e), fileId, pid);
      AppliedTracks(After(init), init, e, fileId, pid);
      assert history == init + [e];
      LaterTracks(After(history), history, TimeOf(e), now, fileId, pid);
    }
  }

  lemma NothingTracks(now: int, fileId: string, pid: string)
    ensures Tracks(map[], [], now, fileId, pid)
  {
  }

  /** The lazy index is exact: after any announces and finds under a clock that does not run back, a find returns
      exactly the information of those providers whose newest announce for the file is at most five minutes old,
      and the index keeps no file without providers. */
  lemma FindIsExact(history: seq<Event>, fileId: string, now: int)
    requires ClockNeverBack(history, now)
    ensures var records := Pruned(After(history), now);
      && (forall info :: info in Listed(records, fileId) <==>
            (var newest := Newest(history, fileId, info.id); newest.Some? && newest.value.info == info && now - newest.value.lastSeen <= 5 * 60 * 1_000_000_000))
      && NoEmptyInner(records)
  {
    hide After, Newest, Pruned;
    var before, records := After(history), Pruned(After(history), now);
    forall info
      ensures info in Listed(records, fileId) <==>
        (var newest := Newest(history, fileId, info.id); newest.Some? && newest.value.info == info && !Stale(newest.value, now))
    {
      HistoryTracks(history, now, fileId, info.id);
      PrunedKeeps(before, now, fileId, info.id);
      if info in Listed(records, fileId) {
        var pid :| pid in records[fileId] && records[fileId][pid].info == info;
        PrunedKeeps(before, now, fileId, pid);
        HistoryTracks(history, now, fileId, pid);
        assert pid == info.id;
      } else if Kept(records, fileId, info.id).Some? {
        assert info.id in records[fileId];
      }
    }
    NoneEmpty(before, now);
  }

  lemma NoneEmpty(records: Records, now: int)
    ensures NoEmptyInner(Pruned(records, now))
  {
  }
}
