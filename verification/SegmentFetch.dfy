/** Fetching the chunks of one segment: k workers share a queue of shard tasks and
    stop once k chunks are in (retrieval/orchestrator_v2.go). */
module SegmentFetch {
  import opened Prelude
  import opened Tokens
  import opened ReedSolomon
  import opened Geometry
  import opened Streaming

  /** Where a worker stands: at the head of its loop, past the count check, with a task, between
      storing a chunk and counting it, or gone. */
  datatype Worker = Top | Choosing | Holding(task: Task) | Storing | Gone

  /** The queue channel, the workers, the goroutines that put failed tasks back, the chunk slots, the counter,
      dropped and (after cancellation) lost shards, and how often each shard was asked for. */
  datatype State = State(queue: seq<Task>, workers: seq<Worker>, pending: seq<Task>, shards: map<nat, Bytes>, got: nat,
                         dropped: set<nat>, lost: set<nat>, tries: seq<nat>, cancelled: bool)

  datatype Action =
    | CheckCount(w: nat)
    | Dequeue(w: nat)
    | Quit(w: nat)
    | DropTask(w: nat)
    | NoProvider(w: nat)
    | FetchOk(w: nat, chunk: Bytes)
    | CountChunk(w: nat)
    | FetchFails(w: nat)
    | PutBack(j: nat)
    | Lose(j: nat)
    | Cancel

  function Initial(k: nat, n: nat): State {
    State(AllTasks(n), seq(k, _ => Top), [], map[], 0, {}, {}, seq(n, _ => 0), false)
  }

  function At(s: State, w: nat, x: Worker): seq<Worker>
    requires w < |s.workers|
  {
    s.workers[w := x]
  }

  /** One step; an action that is not enabled does nothing. */
  function Step(k: nat, s: State, a: Action): (s': State)
    ensures |s'.workers| == |s.workers|
  {
    match a
    case CheckCount(w) =>
      if w < |s.workers| && s.workers[w].Top? then s.(workers := At(s, w, if s.got >= k then Gone else Choosing)) else s
    case Dequeue(w) =>
      if w < |s.workers| && s.workers[w].Choosing? && s.queue != []
      then s.(workers := At(s, w, Holding(s.queue[0])), queue := Without(s.queue, 0)) else s
    case Quit(w) =>
      if w < |s.workers| && s.workers[w].Choosing? && (s.queue == [] || s.cancelled) then s.(workers := At(s, w, Gone)) else s
    case DropTask(w) =>
      if w < |s.workers| && s.workers[w].Holding? && s.workers[w].task.attempts >= MAX_ATTEMPTS
      then s.(workers := At(s, w, Top), dropped := s.dropped + {s.workers[w].task.shard}) else s
    case NoProvider(w) =>
      if w < |s.workers| && s.workers[w].Holding? && s.workers[w].task.attempts < MAX_ATTEMPTS
      then s.(workers := At(s, w, Top), queue := s.queue + [s.workers[w].task]) else s
    case FetchOk(w, chunk) =>
      if w < |s.workers| && s.workers[w].Holding? && s.workers[w].task.attempts < MAX_ATTEMPTS && chunk != []
      then
        var i := s.workers[w].task.shard;
        s.(workers := At(s, w, Storing), shards := s.shards[i := chunk], tries := Bump(s.tries, i))
      else s
    case CountChunk(w) =>
      if w < |s.workers| && s.workers[w].Storing?
      then s.(workers := At(s, w, if s.got + 1 >= k then Gone else Top), got := s.got + 1) else s
    case FetchFails(w) =>
      if w < |s.workers| && s.workers[w].Holding? && s.workers[w].task.attempts < MAX_ATTEMPTS
      then
        var t := s.workers[w].task;
        s.(workers := At(s, w, Top), pending := s.pending + [Task(t.shard, t.attempts + 1)], tries := Bump(s.tries, t.shard))
      else s
    case PutBack(j) =>
      if j < |s.pending| then s.(pending := Without(s.pending, j), queue := s.queue + [s.pending[j]]) else s
    case Lose(j) =>
      if j < |s.pending| && s.cancelled then s.(pending := Without(s.pending, j), lost := s.lost + {s.pending[j].shard}) else s
    case Cancel => s.(cancelled := true)
  }

  function Exec(k: nat, n: nat, actions: seq<Action>): State {
    if actions == [] then Initial(k, n) else Step(k, Exec(k, n, actions[..|actions| - 1]), actions[|actions| - 1])
  }

  // ----- conservation -----

  function Hand(x: Worker): Option<Task> { if x.Holding? then Some(x.task) else None }

  function Hands(workers: seq<Worker>): seq<Option<Task>> {
    seq(|workers|, w requires 0 <= w < |workers| => Hand(workers[w]))
  }

  /** The tasks in workers' hands. */
  function Held(workers: seq<Worker>): seq<Task> {
    InHand(Hands(workers))
  }

  /** In how many places the task of shard i is. */
  function Places(s: State, i: nat): nat {
    Occurs(s.queue, i) + Occurs(Held(s.workers), i) + Occurs(s.pending, i)
      + One(i in s.shards) + One(i in s.dropped) + One(i in s.lost)
  }

  lemma HeldUpdate(workers: seq<Worker>, w: nat, x: Worker, i: nat)
    requires w < |workers|
    ensures Occurs(Held(workers[w := x]), i) + Holds(Hand(workers[w]), i) == Occurs(Held(workers), i) + Holds(Hand(x), i)
  {
    assert Hands(workers[w := x]) == Hands(workers)[w := Hand(x)];
    InHandUpdate(Hands(workers), w, Hand(x), i);
  }

  lemma HeldOccurs(workers: seq<Worker>, w: nat)
    requires w < |workers| && workers[w].Holding?
    ensures Occurs(Held(workers), workers[w].task.shard) >= 1
  {
    InHandOccurs(Hands(workers), w);
  }

  ghost predicate Conserved(n: nat, s: State) {
    forall i: nat :: Places(s, i) == One(i < n)
  }

  /** The number of attempts a task carries is the number of times its shard was asked for. */
  ghost predicate Tried(n: nat, s: State) {
    && |s.tries| == n
    && (forall i :: 0 <= i < n ==> s.tries[i] <= MAX_ATTEMPTS)
    && (forall j :: 0 <= j < |s.queue| ==> Matches(s.tries, s.queue[j], 0))
    && (forall j :: 0 <= j < |s.pending| ==> Matches(s.tries, s.pending[j], 0))
    && (forall w :: 0 <= w < |s.workers| && s.workers[w].Holding? ==> Matches(s.tries, s.workers[w].task, 0))
  }

  ghost predicate Counted(k: nat, s: State) {
    && |s.workers| == k
    && |s.shards| == s.got + |Indices(s.workers, Storing)|
    && s.got <= k - 1 + |Indices(s.workers, Gone)|
    && (forall i :: i in s.shards ==> s.shards[i] != [])
    && (s.lost != {} ==> s.cancelled)
  }

  /** A shard is given up only after five attempts. */
  ghost predicate Patient(n: nat, s: State) {
    |s.tries| == n && forall i :: i in s.dropped && i < n ==> s.tries[i] == MAX_ATTEMPTS
  }

  ghost predicate Inv(k: nat, n: nat, s: State) {
    Conserved(n, s) && Tried(n, s) && Counted(k, s) && Patient(n, s)
  }

  lemma InitialOk(k: nat, n: nat)
    requires k >= 1
    ensures Inv(k, n, Initial(k, n))
  {
    var s := Initial(k, n);
    forall i: nat ensures Places(s, i) == One(i < n) {
      OccursAll(n, i);
      NoneInHand(Hands(s.workers));
    }
    assert Indices(s.workers, Storing) == {};
  }

  /** The worker a step moves, and where to. */
  function Mover(a: Action): Option<nat> {
    match a
    case CheckCount(w) => Some(w) case Dequeue(w) => Some(w) case Quit(w) => Some(w) case DropTask(w) => Some(w)
    case NoProvider(w) => Some(w) case FetchOk(w, _) => Some(w) case CountChunk(w) => Some(w) case FetchFails(w) => Some(w)
    case _ => None
  }

  lemma WorkerConserves(k: nat, n: nat, s: State, a: Action, w: nat, i: nat)
    requires Conserved(n, s) && Mover(a) == Some(w) && w < |s.workers|
    ensures Places(Step(k, s, a), i) == Places(s, i)
  {
    hide Held, Occurs, Conserved;
    var x, s' := s.workers[w], Step(k, s, a);
    assert s'.workers == s.workers[w := s'.workers[w]];
    HeldUpdate(s.workers, w, s'.workers[w], i);
    if x.Holding? {
      OnlyOne(n, s, w);
      OccursAppend(s.queue, x.task, i);
      OccursAppend(s.pending, Task(x.task.shard, x.task.attempts + 1), i);
    } else if a.Dequeue? && s.queue != [] {
      OccursWithout(s.queue, 0, i);
    }
  }

  lemma PendingConserves(k: nat, n: nat, s: State, a: Action, i: nat)
    requires Conserved(n, s) && (a.PutBack? || a.Lose?) && a.j < |s.pending|
    ensures Places(Step(k, s, a), i) == Places(s, i)
  {
    hide Held, Occurs;
    var t := s.pending[a.j];
    OccursWithout(s.pending, a.j, i);
    OccursMember(s.pending, a.j);
    assert Places(s, t.shard) == One(t.shard < n);
    OccursAppend(s.queue, t, i);
  }

  /** No step makes a task appear, vanish or be in two places. */
  lemma StepConserves(k: nat, n: nat, s: State, a: Action, i: nat)
    requires Conserved(n, s)
    ensures Places(Step(k, s, a), i) == Places(s, i)
  {
    hide Held, Occurs, Conserved, Places;
    match Mover(a) {
      case Some(w) => if w < |s.workers| { WorkerConserves(k, n, s, a, w, i); }
      case None => if (a.PutBack? || a.Lose?) && a.j < |s.pending| { PendingConserves(k, n, s, a, i); } else { IdleStep(k, s, a, i); }
    }
    if Mover(a).Some? && Mover(a).value >= |s.workers| { assert Step(k, s, a) == s; }
  }

  lemma IdleStep(k: nat, s: State, a: Action, i: nat)
    requires Mover(a).None? && ((a.PutBack? || a.Lose?) ==> a.j >= |s.pending|)
    ensures Places(Step(k, s, a), i) == Places(s, i)
  {
  }

  /** A task in a worker's hand is the only one of its shard. */
  lemma OnlyOne(n: nat, s: State, w: nat)
    requires Conserved(n, s) && w < |s.workers| && s.workers[w].Holding?
    ensures var i := s.workers[w].task.shard;
      && i < n && i !in s.shards && i !in s.dropped && i !in s.lost
      && (forall j :: 0 <= j < |s.queue| ==> s.queue[j].shard != i)
      && (forall j :: 0 <= j < |s.pending| ==> s.pending[j].shard != i)
      && (forall v :: 0 <= v < |s.workers| && v != w && s.workers[v].Holding? ==> s.workers[v].task.shard != i)
  {
    hide Held, Occurs;
    var i := s.workers[w].task.shard;
    assert Places(s, i) == One(i < n);
    HeldOccurs(s.workers, w);
    forall j | 0 <= j < |s.queue| ensures s.queue[j].shard != i { OccursMember(s.queue, j); }
    forall j | 0 <= j < |s.pending| ensures s.pending[j].shard != i { OccursMember(s.pending, j); }
    forall v | 0 <= v < |s.workers| && v != w && s.workers[v].Holding? ensures s.workers[v].task.shard != i {
      HeldUpdate(s.workers, w, Top, i);
      if s.workers[v].task.shard == i {
        assert s.workers[w := Top][v] == s.workers[v];
        HeldOccurs(s.workers[w := Top], v);
      }
    }
  }

  lemma StepTries(k: nat, n: nat, s: State, a: Action)
    requires Conserved(n, s) && Tried(n, s)
    ensures Tried(n, Step(k, s, a))
  {
    hide Conserved, Matches, Bump;
    if (a.FetchOk? || a.FetchFails?) && a.w < |s.workers| && s.workers[a.w].Holding? {
      var t := s.workers[a.w].task;
      OnlyOne(n, s, a.w);
      BumpMatches(s.tries, t.shard);
      RetryMatches(s.tries, t);
    }
  }

  lemma RetryMatches(tries: seq<nat>, t: Task)
    requires Matches(tries, t, 0)
    ensures Matches(Bump(tries, t.shard), Task(t.shard, t.attempts + 1), 0)
    ensures t.attempts < MAX_ATTEMPTS && (forall i :: 0 <= i < |tries| ==> tries[i] <= MAX_ATTEMPTS) ==>
      forall i :: 0 <= i < |tries| ==> Bump(tries, t.shard)[i] <= MAX_ATTEMPTS
  {
  }

  lemma StepCounts(k: nat, n: nat, s: State, a: Action)
    requires k >= 1 && Conserved(n, s) && Counted(k, s)
    ensures Counted(k, Step(k, s, a))
  {
    hide Conserved, Indices;
    var s' := Step(k, s, a);
    match Mover(a) {
      case Some(w) =>
        if w < |s.workers| {
          assert s'.workers == s.workers[w := s'.workers[w]];
          IndicesUpdate(s.workers, w, s'.workers[w], Storing);
          IndicesUpdate(s.workers, w, s'.workers[w], Gone);
          if s.workers[w].Holding? {
            OnlyOne(n, s, w);
            if s'.shards != s.shards { OneMoreKey(s.shards, s.workers[w].task.shard, s'.shards[s.workers[w].task.shard]); }
          }
        }
      case None =>
    }
  }

  lemma StepPatient(k: nat, n: nat, s: State, a: Action)
    requires Conserved(n, s) && Tried(n, s) && Patient(n, s)
    ensures Patient(n, Step(k, s, a))
  {
    hide Conserved, Bump;
    if (a.FetchOk? || a.FetchFails? || a.DropTask?) && a.w < |s.workers| && s.workers[a.w].Holding? {
      OnlyOne(n, s, a.w);
      BumpOnly(s.tries, s.workers[a.w].task.shard);
    }
  }

  lemma BumpOnly(tries: seq<nat>, i: nat)
    ensures forall x :: 0 <= x < |tries| && x != i ==> Bump(tries, i)[x] == tries[x]
  {
  }

  /** How tasks move: the queue is served in order; a task without a provider goes back to its end as it is, a failed one
      with one attempt more, once its goroutine puts it back; one that was tried five times is dropped. */
  lemma MovesExactly(k: nat, s: State, a: Action)
    ensures var s' := Step(k, s, a);
      var held := Mover(a).Some? && Mover(a).value < |s.workers| && s.workers[Mover(a).value].Holding?;
      var task := if held then s.workers[Mover(a).value].task else Task(0, 0);
      var puts := a.PutBack? && a.j < |s.pending|;
      var takes := a.Dequeue? && a.w < |s.workers| && s.workers[a.w].Choosing? && s.queue != [];
      var unserved := a.NoProvider? && held && task.attempts < 5;
      var failed := a.FetchFails? && held && task.attempts < 5;
      && s'.queue == (if takes then s.queue[1..] else if unserved then s.queue + [task] else if puts then s.queue + [s.pending[a.j]] else s.queue)
      && (takes ==> s'.workers[a.w] == Holding(s.queue[0]))
      && (failed ==> s'.pending == s.pending + [Task(task.shard, task.attempts + 1)])
      && (puts ==> s'.pending == s.pending[..a.j] + s.pending[a.j + 1..])
      && s'.dropped == (if a.DropTask? && held && task.attempts >= 5 then s.dropped + {task.shard} else s.dropped)
      && (held && task.attempts >= 5 ==> s'.shards == s.shards && s'.tries == s.tries)
      && (s'.cancelled <==> s.cancelled || a.Cancel?)
      && (a.Lose? && a.j < |s.pending| && s.cancelled ==> s'.lost == s.lost + {s.pending[a.j].shard})
  {
  }

  /** When a worker leaves: k chunks are counted, the fetch is cancelled, or the queue is empty for the moment. */
  lemma LeavesExactly(k: nat, s: State, a: Action, w: nat)
    requires w < |s.workers| && !s.workers[w].Gone?
    ensures Step(k, s, a).workers[w].Gone? <==>
      || (a == CheckCount(w) && s.workers[w].Top? && s.got >= k)
      || (a == CountChunk(w) && s.workers[w].Storing? && s.got + 1 >= k)
      || (a == Quit(w) && s.workers[w].Choosing? && (s.queue == [] || s.cancelled))
  {
  }

  lemma {:induction false} Reachable(k: nat, n: nat, actions: seq<Action>)
    requires k >= 1
    ensures Inv(k, n, Exec(k, n, actions))
  {
    hide Conserved, Tried, Counted, Patient, Step, Initial;
    if actions == [] {
      InitialOk(k, n);
    } else {
      var s, a := Exec(k, n, actions[..|actions| - 1]), actions[|actions| - 1];
      Reachable(k, n, actions[..|actions| - 1]);
      StepInv(k, n, s, a);
    }
  }

  lemma StepInv(k: nat, n: nat, s: State, a: Action)
    requires k >= 1 && Inv(k, n, s)
    ensures Inv(k, n, Step(k, s, a))
  {
    hide Step, Tried, Counted, Patient, Places;
    forall i: nat ensures Places(Step(k, s, a), i) == One(i < n) { StepConserves(k, n, s, a, i); }
    StepTries(k, n, s, a);
    StepCounts(k, n, s, a);
    StepPatient(k, n, s, a);
  }

  // ----- what it gives -----

  /** In every interleaving each of the n shards is in exactly one place and no other shard is in any, nothing is
      lost before cancellation, each shard was asked for at most five times and dropped only after the fifth, and the filled slots are those counted and
      those about to be counted, together never more than 2k - 1. */
  lemma TokensConserved(k: nat, n: nat, actions: seq<Action>)
    requires k >= 1
    ensures var s := Exec(k, n, actions);
      && (forall i: nat :: Places(s, i) == One(i < n)) && (s.lost != {} ==> s.cancelled)
      && |s.tries| == n && (forall i :: 0 <= i < n ==> s.tries[i] <= MAX_ATTEMPTS)
      && (forall i :: i in s.dropped && i < n ==> s.tries[i] == MAX_ATTEMPTS)
      && |s.shards| == s.got + |Indices(s.workers, Storing)| <= 2 * k - 1
  {
    hide Exec;
    Reachable(k, n, actions);
    var s := Exec(k, n, actions);
    TwoKinds(s.workers, Gone, Storing);
  }

  /** Whoever is about to send a task finds room in the queue, whose capacity is n. */
  lemma SendsNeverBlock(k: nat, n: nat, actions: seq<Action>)
    requires k >= 1
    ensures var s := Exec(k, n, actions);
      s.pending != [] || (exists w :: 0 <= w < |s.workers| && s.workers[w].Holding?) ==> |s.queue| < n
  {
    hide Exec, Held, Occurs;
    Reachable(k, n, actions);
    var s := Exec(k, n, actions);
    forall i: nat ensures Occurs(s.queue, i) <= if i < n then 1 else 0 { assert Places(s, i) == One(i < n); }
    if s.pending != [] {
      OccursMember(s.pending, 0);
      assert Places(s, s.pending[0].shard) == One(s.pending[0].shard < n);
      RoomForOne(s.queue, n, s.pending[0].shard);
    } else if w :| 0 <= w < |s.workers| && s.workers[w].Holding? {
      HeldOccurs(s.workers, w);
      assert Places(s, s.workers[w].task.shard) == One(s.workers[w].task.shard < n);
      RoomForOne(s.queue, n, s.workers[w].task.shard);
    }
  }

  function Slots(s: State, n: nat): seq<Bytes> {
    seq(n, i requires i >= 0 => if i in s.shards then s.shards[i] else [])
  }

  /** The fetch that step a completes: the shard of the task in the worker's hand, and the chunk. */
  function Fetches(s: State, a: Action): Option<(nat, Bytes)> {
    match a
    case FetchOk(w, chunk) =>
      if w < |s.workers| && s.workers[w].Holding? && s.workers[w].task.attempts < MAX_ATTEMPTS && chunk != []
      then Some((s.workers[w].task.shard, chunk)) else None
    case _ => None
  }

  /** Only a completed fetch changes the slots, and puts just its chunk into the slot of its shard. */
  lemma SlotsStep(k: nat, s: State, a: Action)
    ensures Step(k, s, a).shards == match Fetches(s, a) case None => s.shards case Some(f) => s.shards[f.0 := f.1]
  {
  }

  /** Every completed fetch of the run brought the chunk of its shard. */
  ghost predicate HonestRun(c: Codec, file: Bytes, blockSize: nat, seg: nat, actions: seq<Action>)
    requires c.Valid() && blockSize >= 1 && seg < TotalSegments(|file|, c.k, blockSize)
  {
    forall q :: 0 <= q < |actions| ==>
      var f := Fetches(Exec(c.k, c.Total(), actions[..q]), actions[q]);
      f.Some? && f.value.0 < c.Total() ==> f.value.1 == Chunk(c, file, blockSize, seg, f.value.0)
  }

  lemma {:induction false} SlotsHonest(c: Codec, file: Bytes, blockSize: nat, seg: nat, actions: seq<Action>, i: nat)
    requires c.Valid() && blockSize >= 1 && seg < TotalSegments(|file|, c.k, blockSize) && i < c.Total()
    requires HonestRun(c, file, blockSize, seg, actions)
    ensures var s := Exec(c.k, c.Total(), actions); i in s.shards ==> s.shards[i] == Chunk(c, file, blockSize, seg, i)
  {
    hide Chunk, Step, Initial, Fetches;
    if actions == [] {
      assert Initial(c.k, c.Total()).shards == map[] by { NothingFetched(c.k, c.Total()); }
    } else {
      var init, a := actions[..|actions| - 1], actions[|actions| - 1];
      forall q | 0 <= q < |init| ensures init[..q] == actions[..q] && init[q] == actions[q] { }
      assert actions[..|init|] == init;
      SlotsHonest(c, file, blockSize, seg, init, i);
      SlotsStep(c.k, Exec(c.k, c.Total(), init), a);
    }
  }

  lemma NothingFetched(k: nat, n: nat)
    ensures Initial(k, n).shards == map[]
  {
  }

  /** After any interleaving in which providers sent the right chunks, every filled slot holds the chunk of its shard.
      Once all workers are gone the counter is the number of filled slots, so decoding starts only with at least k
      distinct chunks, and they are what the segment decoder needs. */
  lemma DecodeHasEnough(c: Codec, file: Bytes, blockSize: nat, seg: nat, actions: seq<Action>)
    requires c.Valid() && blockSize >= 1 && seg < TotalSegments(|file|, c.k, blockSize)
    requires HonestRun(c, file, blockSize, seg, actions)
    ensures var s := Exec(c.k, c.Total(), actions);
      && (forall i: nat :: i in s.shards ==> i < c.Total() && s.shards[i] == Chunk(c, file, blockSize, seg, i))
      && ((forall w :: 0 <= w < |s.workers| ==> s.workers[w].Gone?) ==>
            && s.got == |s.shards| == |Present(Slots(s, c.Total()))|
            && (s.got >= c.k ==> Fetched(c, file, blockSize, seg, Slots(s, c.Total()))))
  {
    hide Exec, Chunk, HonestRun;
    Reachable(c.k, c.Total(), actions);
    var s := Exec(c.k, c.Total(), actions);
    forall i: nat | i in s.shards ensures i < c.Total() && s.shards[i] == Chunk(c, file, blockSize, seg, i) {
      assert Places(s, i) == One(i < c.Total());
      SlotsHonest(c, file, blockSize, seg, actions, i);
    }
    if forall w :: 0 <= w < |s.workers| ==> s.workers[w].Gone? {
      assert Indices(s.workers, Storing) == {};
      assert Present(Slots(s, c.Total())) == s.shards.Keys;
    }
  }

  // ----- a fetch that succeeds -----

  /** The first j workers have fetched the first j shards and are back or gone; the others have not begun. */
  ghost predicate Fetching(k: nat, n: nat, s: State, j: nat, chunks: seq<Bytes>) {
    && j <= k <= n && |s.workers| == k && !s.cancelled && s.pending == [] && s.dropped == {}
    && (forall w :: 0 <= w < k ==> s.workers[w] == if j == k && w == k - 1 then Gone else Top)
    && s.queue == AllTasks(n)[j..] && s.got == j
    && (forall i: nat :: i in s.shards <==> i < j) && (forall i: nat :: i < j && i < |chunks| ==> s.shards[i] == chunks[i])
  }

  function FetchNext(j: nat, chunk: Bytes): seq<Action> {
    [CheckCount(j), Dequeue(j), FetchOk(j, chunk), CountChunk(j)]
  }

  lemma FetchOne(k: nat, n: nat, s: State, j: nat, chunks: seq<Bytes>)
    requires Fetching(k, n, s, j, chunks) && j < k && j < |chunks| && chunks[j] != []
    ensures var f := FetchNext(j, chunks[j]);
      Fetching(k, n, Step(k, Step(k, Step(k, Step(k, s, f[0]), f[1]), f[2]), f[3]), j + 1, chunks)
  {
    hide Bump;
    var f := FetchNext(j, chunks[j]);
    var s1 := Step(k, s, f[0]);
    assert s1.workers[j] == Choosing;
    assert s1.queue[0] == Task(j, 0);
    var s2 := Step(k, s1, f[1]);
    assert s2.workers[j] == Holding(Task(j, 0)) && s2.queue == AllTasks(n)[j + 1..];
    var s3 := Step(k, s2, f[2]);
    assert s3.workers[j] == Storing && s3.shards == s.shards[j := chunks[j]];
  }

  lemma ExecFour(k: nat, n: nat, init: seq<Action>, f: seq<Action>)
    requires |f| == 4
    ensures Exec(k, n, init + f) == Step(k, Step(k, Step(k, Step(k, Exec(k, n, init), f[0]), f[1]), f[2]), f[3])
  {
    hide Step, Initial;
    var a1 := init + [f[0]];
    var a2 := a1 + [f[1]];
    var a3 := a2 + [f[2]];
    assert init + f == a3 + [f[3]];
    ExecLast(k, n, init, f[0]);
    ExecLast(k, n, a1, f[1]);
    ExecLast(k, n, a2, f[2]);
    ExecLast(k, n, a3, f[3]);
  }

  lemma ExecLast(k: nat, n: nat, init: seq<Action>, a: Action)
    ensures Exec(k, n, init + [a]) == Step(k, Exec(k, n, init), a)
  {
    hide Step, Initial;
    assert (init + [a])[..|init|] == init;
  }

  lemma {:induction false} FetchRun(k: nat, n: nat, chunks: seq<Bytes>, j: nat) returns (actions: seq<Action>)
    requires 1 <= k <= n && j <= k <= |chunks| && forall i :: 0 <= i < |chunks| ==> chunks[i] != []
    ensures Fetching(k, n, Exec(k, n, actions), j, chunks)
  {
    hide Step;
    if j == 0 {
      actions := [];
    } else {
      var init := FetchRun(k, n, chunks, j - 1);
      FetchOne(k, n, Exec(k, n, init), j - 1, chunks);
      ExecFour(k, n, init, FetchNext(j - 1, chunks[j - 1]));
      actions := init + FetchNext(j - 1, chunks[j - 1]);
    }
  }

  /** A segment can be fetched: whatever non-empty chunks the first k shards have, some run fills their slots with them
      and counts k, after which every worker that checks the count leaves. */
  lemma SomeFetchSucceeds(k: nat, n: nat, chunks: seq<Bytes>) returns (actions: seq<Action>)
    requires 1 <= k <= n && |chunks| == k && forall i :: 0 <= i < k ==> chunks[i] != []
    ensures var s := Exec(k, n, actions);
      && |s.workers| == k && s.got == k && Slots(s, k) == chunks && !s.cancelled
      && forall w: nat :: w < k ==> Step(k, s, CheckCount(w)).workers[w] == Gone
  {
    hide Exec;
    actions := FetchRun(k, n, chunks, k);
  }
}
