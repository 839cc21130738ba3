/** Fetching whole shards: any number of workers share a queue of shard tasks until
    MinShards distinct shards are on disk and verified (retrieval/orchestrator_v1.go). */
module ShardFetch {
  import opened Prelude
  import opened Tokens

  /** Where a worker stands: waiting for a task, with one, past the success check, with what a successful fetch
      found, past the registration, or gone. Over protocol version 2 the shard is already in its file and
      `found` is the path of that file; over version 1 it is the bytes of the shard. */
  datatype Worker =
    | Choosing
    | Holding(task: Task)
    | Ready(task: Task)
    | Found(task: Task, found: Bytes)
    | Settled
    | Gone

  /** Shard files in the store directory, the set of verified shards and its counter, and the places of tasks as
      in a segment fetch; `lost` holds the shards of tasks given up by leaving workers or after cancellation. */
  datatype State = State(queue: seq<Task>, workers: seq<Worker>, pending: seq<Task>, disk: map<nat, Bytes>, verified: set<nat>,
                         successCount: nat, dropped: set<nat>, lost: set<nat>, tries: seq<nat>, cancelled: bool)

  /** What a failed fetch or write does to the shard file: nothing, a partial file left behind, or the file removed
      (the attempt to remove it may fail). */
  datatype Residue = Untouched | Partial(bytes: Bytes) | Removed

  datatype Action =
    | Quit(w: nat)
    | Dequeue(w: nat)
    | CheckFirst(w: nat)
    | DropTask(w: nat)
    | NoProvider(w: nat)
    | FetchOk(w: nat, data: Bytes, overV2: bool)
    | FetchFails(w: nat, residue: Residue)
    | Register(w: nat)
    | WriteFails(w: nat, residue: Residue)
    | CheckLast(w: nat)
    | PutBack(j: nat)
    | Lose(j: nat)
    | Cancel

  /** `paths` are the paths of the shard files. */
  datatype Params = Params(minShards: nat, concurrency: nat, total: nat, paths: seq<Bytes>, hash: Bytes -> Digest, hashes: seq<Digest>)

  function PathOf(p: Params, i: nat): Bytes {
    if i < |p.paths| then p.paths[i] else []
  }

  /** Whether a worker takes what was found for bytes that are still to be written. */
  predicate ToWrite(p: Params, i: nat, found: Bytes) {
    found != PathOf(p, i)
  }

  function Initial(p: Params, disk: map<nat, Bytes>): State {
    State(AllTasks(p.total), seq(p.concurrency, _ => Choosing), [], disk, {}, 0, {}, {}, seq(p.total, _ => 0), false)
  }

  function Left(disk: map<nat, Bytes>, i: nat, r: Residue): map<nat, Bytes> {
    match r case Untouched => disk case Partial(bytes) => disk[i := bytes] case Removed => disk - {i}
  }

  function Retry(t: Task): Task { Task(t.shard, t.attempts + 1) }

  /** The step of worker w, standing at x; an action it is not ready for does nothing. */
  function WorkerStep(p: Params, s: State, a: Action, w: nat, x: Worker): State
    requires w < |s.workers|
  {
    match (a, x)
    case (Quit(_), Choosing) => if s.cancelled then s.(workers := s.workers[w := Gone]) else s
    case (Dequeue(_), Choosing) =>
      if s.queue != [] then s.(workers := s.workers[w := Holding(s.queue[0])], queue := Without(s.queue, 0)) else s
    case (CheckFirst(_), Holding(t)) =>
      if s.successCount >= p.minShards then s.(workers := s.workers[w := Gone], lost := s.lost + {t.shard})
      else s.(workers := s.workers[w := Ready(t)])
    case (DropTask(_), Ready(t)) =>
      if t.attempts >= MAX_ATTEMPTS then s.(workers := s.workers[w := Choosing], dropped := s.dropped + {t.shard}) else s
    case (NoProvider(_), Ready(t)) =>
      if t.attempts < MAX_ATTEMPTS then s.(workers := s.workers[w := Gone], lost := s.lost + {t.shard}, cancelled := true) else s
    case (FetchOk(_, data, overV2), Ready(t)) =>
      if t.attempts < MAX_ATTEMPTS && 0 < |data| <= MAX_SHARD_SIZE && t.shard < |p.hashes| && p.hash(data) == p.hashes[t.shard]
      then s.(workers := s.workers[w := Found(t, if overV2 then PathOf(p, t.shard) else data)], tries := Bump(s.tries, t.shard),
              disk := if overV2 then s.disk[t.shard := data] else s.disk)
      else s
    case (FetchFails(_, residue), Ready(t)) =>
      if t.attempts < MAX_ATTEMPTS
      then s.(workers := s.workers[w := Choosing], tries := Bump(s.tries, t.shard), pending := s.pending + [Retry(t)],
              disk := Left(s.disk, t.shard, residue))
      else s
    case (Register(_), Found(t, found)) =>
      if t.shard in s.verified then s.(workers := s.workers[w := Settled])
      else s.(workers := s.workers[w := Settled], verified := s.verified + {t.shard}, successCount := s.successCount + 1,
              disk := if ToWrite(p, t.shard, found) then s.disk[t.shard := found] else s.disk)
    case (WriteFails(_, residue), Found(t, found)) =>
      if ToWrite(p, t.shard, found) && t.shard !in s.verified
      then s.(workers := s.workers[w := Choosing], pending := s.pending + [Retry(t)], disk := Left(s.disk, t.shard, residue)) else s
    case (CheckLast(_), Settled) =>
      if s.successCount >= p.minShards then s.(workers := s.workers[w := Gone], cancelled := true)
      else s.(workers := s.workers[w := Choosing])
    case _ => s
  }

  function Mover(a: Action): Option<nat> {
    match a
    case PutBack(_) => None case Lose(_) => None case Cancel => None
    case Quit(w) => Some(w) case Dequeue(w) => Some(w) case CheckFirst(w) => Some(w) case DropTask(w) => Some(w)
    case NoProvider(w) => Some(w) case FetchOk(w, _, _) => Some(w) case FetchFails(w, _) => Some(w)
    case Register(w) => Some(w) case WriteFails(w, _) => Some(w) case CheckLast(w) => Some(w)
  }

  function OtherStep(s: State, a: Action): State {
    match a
    case PutBack(j) => if j < |s.pending| then s.(pending := Without(s.pending, j), queue := s.queue + [s.pending[j]]) else s
    case Lose(j) =>
      if j < |s.pending| && s.cancelled then s.(pending := Without(s.pending, j), lost := s.lost + {s.pending[j].shard}) else s
    case Cancel => s.(cancelled := true)
    case _ => s
  }

  function Step(p: Params, s: State, a: Action): State {
    match Mover(a)
    case Some(w) => if w < |s.workers| then WorkerStep(p, s, a, w, s.workers[w]) else s
    case None => OtherStep(s, a)
  }

  function Exec(p: Params, disk: map<nat, Bytes>, actions: seq<Action>): State {
    if actions == [] then Initial(p, disk) else Step(p, Exec(p, disk, actions[..|actions| - 1]), actions[|actions| - 1])
  }

  // ----- the invariant -----

  function Hand(x: Worker): Option<Task> {
    match x case Holding(t) => Some(t) case Ready(t) => Some(t) case Found(t, _) => Some(t) case _ => None
  }

  function Hands(workers: seq<Worker>): seq<Option<Task>> {
    seq(|workers|, w requires 0 <= w < |workers| => Hand(workers[w]))
  }

  /** In how many places the task of shard i is. */
  function Places(s: State, i: nat): nat {
    Occurs(s.queue, i) + Occurs(InHand(Hands(s.workers)), i) + Occurs(s.pending, i)
      + One(i in s.verified) + One(i in s.dropped) + One(i in s.lost)
  }

  ghost predicate Conserved(p: Params, s: State) {
    forall i: nat :: Places(s, i) == One(i < p.total)
  }

  /** A task's attempts are the fetches of its shard so far; a worker that holds fetched bytes has made one more. */
  ghost predicate Tried(p: Params, s: State) {
    && |s.tries| == p.total
    && (forall i :: 0 <= i < |s.tries| ==> s.tries[i] <= MAX_ATTEMPTS)
    && (forall j :: 0 <= j < |s.queue| ==> Matches(s.tries, s.queue[j], 0))
    && (forall j :: 0 <= j < |s.pending| ==> Matches(s.tries, s.pending[j], 0))
    && (forall w :: 0 <= w < |s.workers| && Hand(s.workers[w]).Some? ==>
          Matches(s.tries, Hand(s.workers[w]).value, One(s.workers[w].Found?)))
  }

  ghost predicate Good(p: Params, i: nat, data: Bytes) {
    i < |p.hashes| && p.hash(data) == p.hashes[i]
  }

  /** The bytes of shard i are, as far as digests tell, its own path. */
  ghost predicate IsOwnPath(p: Params, i: nat) {
    Good(p, i, PathOf(p, i))
  }

  /** The file of shard i is there with the manifest's digest. */
  ghost predicate Filed(p: Params, disk: map<nat, Bytes>, i: nat) {
    i in disk && Good(p, i, disk[i])
  }

  /** Verified shards are on disk with the manifest's digest, and so is what a worker will not write any more; what
      it will write has the digest. Shards that are their own path are excepted. */
  ghost predicate OnDisk(p: Params, s: State) {
    && (forall i :: i in s.verified ==> i < |p.hashes| && (IsOwnPath(p, i) || Filed(p, s.disk, i)))
    && (forall w :: 0 <= w < |s.workers| && s.workers[w].Found? ==> FoundOk(p, s.disk, s.workers[w].task.shard, s.workers[w].found))
  }

  ghost predicate FoundOk(p: Params, disk: map<nat, Bytes>, i: nat, found: Bytes) {
    i < |p.hashes| && if ToWrite(p, i, found) then Good(p, i, found) else IsOwnPath(p, i) || Filed(p, disk, i)
  }

  ghost predicate Counted(p: Params, s: State) {
    && |s.workers| == p.concurrency
    && s.successCount == |s.verified|
    && s.successCount <= p.minShards - 1 + |Indices(s.workers, Gone)| + |Indices(s.workers, Settled)|
  }

  ghost predicate LostLate(p: Params, s: State) {
    s.lost != {} ==> s.cancelled || s.successCount >= p.minShards
  }

  /** A shard is given up only after five attempts. */
  ghost predicate Patient(p: Params, s: State) {
    |s.tries| == p.total && forall i :: i in s.dropped && i < p.total ==> s.tries[i] == MAX_ATTEMPTS
  }

  ghost predicate Inv(p: Params, s: State) {
    Conserved(p, s) && Tried(p, s) && OnDisk(p, s) && Counted(p, s) && LostLate(p, s) && Patient(p, s)
  }

  lemma HandUpdate(workers: seq<Worker>, w: nat, x: Worker, i: nat)
    requires w < |workers|
    ensures Occurs(InHand(Hands(workers[w := x])), i) + Holds(Hand(workers[w]), i) == Occurs(InHand(Hands(workers)), i) + Holds(Hand(x), i)
  {
    assert Hands(workers[w := x]) == Hands(workers)[w := Hand(x)];
    InHandUpdate(Hands(workers), w, Hand(x), i);
  }

  /** A task in a worker's hand is the only one of its shard. */
  lemma OnlyOne(p: Params, s: State, w: nat)
    requires Conserved(p, s) && w < |s.workers| && Hand(s.workers[w]).Some?
    ensures var i := Hand(s.workers[w]).value.shard;
      && i < p.total && i !in s.verified && i !in s.dropped && i !in s.lost
      && (forall j :: 0 <= j < |s.queue| ==> s.queue[j].shard != i)
      && (forall j :: 0 <= j < |s.pending| ==> s.pending[j].shard != i)
      && (forall v :: 0 <= v < |s.workers| && v != w && Hand(s.workers[v]).Some? ==> Hand(s.workers[v]).value.shard != i)
  {
    hide InHand, Occurs;
    var i := Hand(s.workers[w]).value.shard;
    assert Places(s, i) == One(i < p.total);
    InHandOccurs(Hands(s.workers), w);
    forall j | 0 <= j < |s.queue| ensures s.queue[j].shard != i { OccursMember(s.queue, j); }
    forall j | 0 <= j < |s.pending| ensures s.pending[j].shard != i { OccursMember(s.pending, j); }
    forall v | 0 <= v < |s.workers| && v != w && Hand(s.workers[v]).Some? ensures Hand(s.workers[v]).value.shard != i {
      InHandUpdate(Hands(s.workers), w, None, i);
      if Hand(s.workers[v]).value.shard == i {
        assert Hands(s.workers)[w := None][v] == Hand(s.workers[v]);
        InHandOccurs(Hands(s.workers)[w := None], v);
      }
    }
  }

  lemma InitialOk(p: Params, disk: map<nat, Bytes>)
    requires p.minShards >= 1
    ensures Inv(p, Initial(p, disk))
  {
    var s := Initial(p, disk);
    forall i: nat ensures Places(s, i) == One(i < p.total) {
      OccursAll(p.total, i);
      NoneInHand(Hands(s.workers));
    }
  }

  lemma WorkerConserves(p: Params, s: State, a: Action, w: nat, i: nat)
    requires Conserved(p, s) && w < |s.workers|
    ensures Places(WorkerStep(p, s, a, w, s.workers[w]), i) == Places(s, i)
  {
    hide InHand, Occurs, Conserved, Hands;
    var x, s' := s.workers[w], WorkerStep(p, s, a, w, s.workers[w]);
    assert s'.workers == s.workers[w := s'.workers[w]];
    HandUpdate(s.workers, w, s'.workers[w], i);
    if Hand(x).Some? {
      OnlyOne(p, s, w);
      OccursAppend(s.pending, Retry(Hand(x).value), i);
    } else if s.queue != [] {
      OccursWithout(s.queue, 0, i);
    }
  }

  lemma OtherConserves(p: Params, s: State, a: Action, i: nat)
    requires Conserved(p, s)
    ensures Places(OtherStep(s, a), i) == Places(s, i)
  {
    hide InHand, Occurs, Hands;
    if (a.PutBack? || a.Lose?) && a.j < |s.pending| {
      var t := s.pending[a.j];
      OccursWithout(s.pending, a.j, i);
      OccursMember(s.pending, a.j);
      assert Places(s, t.shard) == One(t.shard < p.total);
      OccursAppend(s.queue, t, i);
    }
  }

  lemma WorkerTries(p: Params, s: State, a: Action, w: nat)
    requires Conserved(p, s) && Tried(p, s) && w < |s.workers|
    ensures Tried(p, WorkerStep(p, s, a, w, s.workers[w]))
  {
    hide Conserved, Matches, Bump;
    if Hand(s.workers[w]).Some? {
      var t := Hand(s.workers[w]).value;
      OnlyOne(p, s, w);
      BumpMatches(s.tries, t.shard);
      RetryMatches(s.tries, t);
    }
  }

  /** A failed fetch counts once on both sides, a fetched task whose write fails was counted when it was fetched. */
  lemma RetryMatches(tries: seq<nat>, t: Task)
    ensures Matches(tries, t, 0) ==> Matches(Bump(tries, t.shard), Retry(t), 0) && Matches(Bump(tries, t.shard), t, 1)
    ensures Matches(tries, t, 1) ==> Matches(tries, Retry(t), 0)
    ensures Matches(tries, t, 0) && t.attempts < MAX_ATTEMPTS && (forall i :: 0 <= i < |tries| ==> tries[i] <= MAX_ATTEMPTS) ==>
      forall i :: 0 <= i < |tries| ==> Bump(tries, t.shard)[i] <= MAX_ATTEMPTS
  {
  }

  lemma FetchedOk(p: Params, i: nat, data: Bytes)
    ensures i < |p.hashes| && p.hash(data) == p.hashes[i] <==> Good(p, i, data)
  {
  }

  lemma WorkerOnDisk(p: Params, s: State, a: Action, w: nat)
    requires Conserved(p, s) && OnDisk(p, s) && w < |s.workers|
    ensures OnDisk(p, WorkerStep(p, s, a, w, s.workers[w]))
  {
    hide Conserved, Bump, Without, Retry, Good;
    if Hand(s.workers[w]).Some? { OnlyOne(p, s, w); }
    if s.workers[w].Ready? && a.FetchOk? {
      FetchedOk(p, s.workers[w].task.shard, a.data);
    }
  }

  lemma WorkerCounts(p: Params, s: State, a: Action, w: nat)
    requires p.minShards >= 1 && Counted(p, s) && w < |s.workers|
    ensures Counted(p, WorkerStep(p, s, a, w, s.workers[w]))
  {
    hide WorkerStep, Indices;
    WorkerVerifies(p, s, a, w);
    WorkerBounded(p, s, a, w);
  }

  lemma WorkerVerifies(p: Params, s: State, a: Action, w: nat)
    requires w < |s.workers| && s.successCount == |s.verified|
    ensures var s' := WorkerStep(p, s, a, w, s.workers[w]);
      s'.successCount == |s'.verified| && |s'.workers| == |s.workers|
  {
    hide Bump, Without, Left, Retry;
  }

  lemma WorkerBounded(p: Params, s: State, a: Action, w: nat)
    requires p.minShards >= 1 && w < |s.workers|
    requires s.successCount <= p.minShards - 1 + |Indices(s.workers, Gone)| + |Indices(s.workers, Settled)|
    ensures var s' := WorkerStep(p, s, a, w, s.workers[w]);
      s'.successCount <= p.minShards - 1 + |Indices(s'.workers, Gone)| + |Indices(s'.workers, Settled)|
  {
    hide Indices, Bump, Without, Left, Retry;
    var s' := WorkerStep(p, s, a, w, s.workers[w]);
    assert s'.workers == s.workers[w := s'.workers[w]];
    IndicesUpdate(s.workers, w, s'.workers[w], Gone);
    IndicesUpdate(s.workers, w, s'.workers[w], Settled);
  }

  lemma WorkerLoses(p: Params, s: State, a: Action, w: nat)
    requires LostLate(p, s) && w < |s.workers|
    ensures LostLate(p, WorkerStep(p, s, a, w, s.workers[w]))
  {
    hide Bump, Without, Left, Retry;
  }

  lemma WorkerPatient(p: Params, s: State, a: Action, w: nat)
    requires Conserved(p, s) && Tried(p, s) && Patient(p, s) && w < |s.workers|
    ensures Patient(p, WorkerStep(p, s, a, w, s.workers[w]))
  {
    hide Conserved, Bump, Without, Left, Retry;
    if Hand(s.workers[w]).Some? {
      var i := Hand(s.workers[w]).value.shard;
      OnlyOne(p, s, w);
      BumpOnly(s.tries, i);
    }
  }

  lemma BumpOnly(tries: seq<nat>, i: nat)
    ensures forall x :: 0 <= x < |tries| && x != i ==> Bump(tries, i)[x] == tries[x]
  {
  }

  /** How tasks move: the queue is served in order; a task goes on to a fetch only while too few shards are counted; a
      failed one goes back to the end of the queue with one attempt more, once its goroutine puts it back; one that was
      tried five times is dropped. */
  lemma MovesExactly(p: Params, s: State, a: Action, w: nat)
    requires Mover(a) == Some(w) && w < |s.workers|
    ensures var x, s' := s.workers[w], Step(p, s, a);
      && s'.queue == (if a.Dequeue? && x.Choosing? && s.queue != [] then s.queue[1..] else s.queue)
      && (a.Dequeue? && x.Choosing? && s.queue != [] ==> s'.workers[w] == Holding(s.queue[0]))
      && (a.CheckFirst? && x.Holding? && s.successCount < p.minShards ==> s'.workers[w] == Ready(x.task))
      && (a.FetchFails? && x.Ready? && x.task.attempts < 5 ==>
            s'.pending == s.pending + [Task(x.task.shard, x.task.attempts + 1)] && s'.workers[w] == Choosing)
      && s'.dropped == (if a.DropTask? && x.Ready? && x.task.attempts >= 5 then s.dropped + {x.task.shard} else s.dropped)
      && (x.Ready? && x.task.attempts >= 5 ==> s'.tries == s.tries && s'.disk == s.disk)
      && (s'.workers[w].Found? && !x.Found? ==> a.FetchOk? && 0 < |a.data| <= 8 * 1024 * 1024 * 1024)
  {
  }

  lemma OthersMove(s: State, a: Action)
    ensures var s' := OtherStep(s, a);
      && (a.PutBack? && a.j < |s.pending| ==> s'.queue == s.queue + [s.pending[a.j]] && s'.pending == s.pending[..a.j] + s.pending[a.j + 1..])
      && (a.Lose? && a.j < |s.pending| && s.cancelled ==> s'.lost == s.lost + {s.pending[a.j].shard})
      && (s'.cancelled <==> s.cancelled || a.Cancel?)
  {
  }

  /** When a worker leaves, and when its step cancels the others: it finds the fetch cancelled while it waits, it takes a
      task although enough shards are counted, it sees enough counted after its own, or no provider is left. */
  lemma LeavesExactly(p: Params, s: State, a: Action, w: nat)
    requires Mover(a) == Some(w) && w < |s.workers| && !s.workers[w].Gone?
    ensures var x, s' := s.workers[w], Step(p, s, a);
      && |s'.workers| == |s.workers|
      && (s'.workers[w].Gone? <==>
            || (a.Quit? && x.Choosing? && s.cancelled)
            || (a.CheckFirst? && x.Holding? && s.successCount >= p.minShards)
            || (a.CheckLast? && x.Settled? && s.successCount >= p.minShards)
            || (a.NoProvider? && x.Ready? && x.task.attempts < MAX_ATTEMPTS))
      && (s'.cancelled <==> s.cancelled || (s'.workers[w].Gone? && (a.CheckLast? || a.NoProvider?)))
  {
  }

  lemma OtherKeeps(p: Params, s: State, a: Action)
    requires Tried(p, s) && OnDisk(p, s) && Counted(p, s) && LostLate(p, s) && Patient(p, s)
    ensures Tried(p, OtherStep(s, a)) && OnDisk(p, OtherStep(s, a)) && Counted(p, OtherStep(s, a)) && LostLate(p, OtherStep(s, a))
    ensures Patient(p, OtherStep(s, a))
  {
  }

  lemma StepInv(p: Params, s: State, a: Action)
    requires p.minShards >= 1 && Inv(p, s)
    ensures Inv(p, Step(p, s, a))
  {
    hide WorkerStep, OtherStep, Tried, Counted, OnDisk, LostLate, Patient, Places;
    match Mover(a) {
      case Some(w) =>
        if w < |s.workers| {
          forall i: nat ensures Places(Step(p, s, a), i) == One(i < p.total) { WorkerConserves(p, s, a, w, i); }
          WorkerTries(p, s, a, w);
          WorkerOnDisk(p, s, a, w);
          WorkerCounts(p, s, a, w);
          WorkerLoses(p, s, a, w);
          WorkerPatient(p, s, a, w);
        }
      case None =>
        forall i: nat ensures Places(Step(p, s, a), i) == One(i < p.total) { OtherConserves(p, s, a, i); }
        OtherKeeps(p, s, a);
    }
  }

  lemma {:induction false} Reachable(p: Params, disk: map<nat, Bytes>, actions: seq<Action>)
    requires p.minShards >= 1
    ensures Inv(p, Exec(p, disk, actions))
  {
    hide Inv, Step, Initial;
    if actions == [] {
      InitialOk(p, disk);
    } else {
      Reachable(p, disk, actions[..|actions| - 1]);
      StepInv(p, Exec(p, disk, actions[..|actions| - 1]), actions[|actions| - 1]);
    }
  }

  // ----- what it gives -----

  /** In every interleaving each shard is in exactly one place, none is lost before the fetch was cancelled or had
      enough, all fetches together are at most five per shard and none is dropped before its fifth, the counter is the size of the verified set, and that set
      never outgrows MinShards + concurrency - 1. */
  lemma TokensConserved(p: Params, disk: map<nat, Bytes>, actions: seq<Action>)
    requires p.minShards >= 1
    ensures var s := Exec(p, disk, actions);
      && (forall i: nat :: Places(s, i) == One(i < p.total))
      && (s.lost != {} ==> s.cancelled || s.successCount >= p.minShards)
      && Sum(s.tries) <= 5 * p.total && |s.tries| == p.total && (forall i :: i in s.dropped && i < p.total ==> s.tries[i] == MAX_ATTEMPTS)
      && s.successCount == |s.verified| <= p.minShards + p.concurrency - 1
  {
    hide Exec;
    Reachable(p, disk, actions);
    var s := Exec(p, disk, actions);
    SumAtMost(s.tries, MAX_ATTEMPTS);
    TwoKinds(s.workers, Gone, Settled);
  }

  /** Whatever happens to other shards, the number of a verified shard is in range, and its file is there and has the
      manifest's digest, unless the shard is its own path. */
  lemma VerifiedOnDisk(p: Params, disk: map<nat, Bytes>, actions: seq<Action>, i: nat)
    requires p.minShards >= 1
    ensures var s := Exec(p, disk, actions);
      i in s.verified ==> i < p.total && i < |p.hashes| && (IsOwnPath(p, i) || Filed(p, s.disk, i))
  {
    hide Exec, Occurs, InHand, Hands, IsOwnPath;
    Reachable(p, disk, actions);
    assert Places(Exec(p, disk, actions), i) == One(i < p.total);
  }

  /** Whoever is about to send a task finds room in the queue, whose capacity is the number of shards. */
  lemma SendsNeverBlock(p: Params, disk: map<nat, Bytes>, actions: seq<Action>)
    requires p.minShards >= 1
    ensures var s := Exec(p, disk, actions); s.pending != [] ==> |s.queue| < p.total
  {
    hide Exec, InHand, Hands, Occurs;
    Reachable(p, disk, actions);
    var s := Exec(p, disk, actions);
    forall i: nat ensures Occurs(s.queue, i) <= if i < p.total then 1 else 0 { assert Places(s, i) == One(i < p.total); }
    if s.pending != [] {
      OccursMember(s.pending, 0);
      assert Places(s, s.pending[0].shard) == One(s.pending[0].shard < p.total);
      RoomForOne(s.queue, p.total, s.pending[0].shard);
    }
  }

  // ----- files that failed fetches leave behind -----

  /** What step a does to the file of shard i by failing. */
  function Touch(p: Params, s: State, a: Action, i: nat): Residue {
    match Mover(a)
    case None => Untouched
    case Some(w) =>
      if w >= |s.workers| then Untouched
      else match (a, s.workers[w])
        case (FetchFails(_, residue), Ready(t)) => if t.shard == i && t.attempts < MAX_ATTEMPTS then residue else Untouched
        case (WriteFails(_, residue), Found(t, found)) =>
          if t.shard == i && ToWrite(p, i, found) && i !in s.verified then residue else Untouched
        case _ => Untouched
  }

  /** What the last failed fetch or write that touched the file of shard i did to it. */
  function LastTouch(p: Params, disk: map<nat, Bytes>, actions: seq<Action>, i: nat): Residue {
    if actions == [] then Untouched
    else
      var init := actions[..|actions| - 1];
      var now := Touch(p, Exec(p, disk, init), actions[|actions| - 1], i);
      if now.Untouched? then LastTouch(p, disk, init, i) else now
  }

  /** Some worker has fetched shard i into its file, or takes it for written. */
  ghost predicate InFile(p: Params, s: State, i: nat) {
    exists w :: 0 <= w < |s.workers| && s.workers[w].Found? && s.workers[w].task.shard == i && !ToWrite(p, i, s.workers[w].found)
  }

  /** The file of a shard that is neither verified nor in hand is what the last failure left of the one at the start. */
  ghost predicate LeftOver(p: Params, s: State, i: nat, start: map<nat, Bytes>, last: Residue) {
    i in s.verified || InFile(p, s, i) || SameFile(s.disk, Left(start, i, last), i)
  }

  ghost predicate SameFile(a: map<nat, Bytes>, b: map<nat, Bytes>, i: nat) {
    (i in a <==> i in b) && (i in a ==> a[i] == b[i])
  }

  lemma LeftOverStep(p: Params, s: State, a: Action, i: nat, start: map<nat, Bytes>, last: Residue)
    requires Conserved(p, s) && LeftOver(p, s, i, start, last)
    ensures LeftOver(p, Step(p, s, a), i, start, if Touch(p, s, a, i).Untouched? then last else Touch(p, s, a, i))
  {
    hide Conserved, Bump, Without, Retry, InFile;
    match Mover(a) {
      case Some(w) =>
        if w < |s.workers| {
          if Hand(s.workers[w]).Some? { OnlyOne(p, s, w); }
          InFileStep(p, s, a, w, i);
        }
      case None => OtherInFile(p, s, a, i);
    }
  }

  lemma OtherInFile(p: Params, s: State, a: Action, i: nat)
    ensures InFile(p, OtherStep(s, a), i) <==> InFile(p, s, i)
  {
  }

  /** A worker's step takes shard i out of hand only by registering it, and puts it in hand only by fetching it. */
  lemma InFileStep(p: Params, s: State, a: Action, w: nat, i: nat)
    requires Conserved(p, s) && w < |s.workers|
    ensures var x, s' := s.workers[w], WorkerStep(p, s, a, w, s.workers[w]);
      && (InFile(p, s, i) ==> InFile(p, s', i) || i in s'.verified)
      && (s'.workers[w].Found? && s'.workers[w].task.shard == i && !ToWrite(p, i, s'.workers[w].found) ==> InFile(p, s', i))
      && (x.Found? && x.task.shard == i && !ToWrite(p, i, x.found) ==> InFile(p, s, i))
  {
    hide Conserved, Bump, Without, Retry;
    var x, s' := s.workers[w], WorkerStep(p, s, a, w, s.workers[w]);
    if v :| 0 <= v < |s.workers| && s.workers[v].Found? && s.workers[v].task.shard == i && !ToWrite(p, i, s.workers[v].found) {
      if v != w { assert s'.workers[v] == s.workers[v]; }
    }
  }

  /** Exactly when a partial file is left: the file of a shard that is neither verified nor in a worker's hand is
      the one from the start, changed by the last failed fetch or write that touched it. So a shard without a file at
      the start has one if and only if the last of them left it partial, with just those bytes. */
  lemma {:induction false} LeftExactly(p: Params, disk: map<nat, Bytes>, actions: seq<Action>, i: nat)
    requires p.minShards >= 1
    ensures var s, last := Exec(p, disk, actions), LastTouch(p, disk, actions, i);
      && LeftOver(p, s, i, disk, last)
      && (i !in disk && i !in s.verified && !InFile(p, s, i) ==>
            (i in s.disk <==> last.Partial?) && (last.Partial? ==> s.disk[i] == last.bytes))
  {
    hide Step, Touch, InFile, Conserved;
    if actions == [] {
    } else {
      var init := actions[..|actions| - 1];
      LeftExactly(p, disk, init, i);
      Reachable(p, disk, init);
      LeftOverStep(p, Exec(p, disk, init), actions[|actions| - 1], i, disk, LastTouch(p, disk, init, i));
    }
  }

  /** A run that leaves a partial file: the first shard is fetched, its stream ends early, and the fetch is cancelled. */
  lemma PartialFileLeft(p: Params, disk: map<nat, Bytes>, bytes: Bytes)
    requires p.minShards >= 1 && p.concurrency >= 1 && p.total >= 1
    ensures var s := Exec(p, disk, [Dequeue(0), CheckFirst(0), FetchFails(0, Partial(bytes)), Cancel]);
      s.cancelled && 0 !in s.verified && 0 in s.disk && s.disk[0] == bytes
  {
    hide Step, Steps, Initial;
    var run := [Dequeue(0), CheckFirst(0), FetchFails(0, Partial(bytes)), Cancel];
    assert [] + run == run;
    ExecMore(p, disk, [], run);
    FourSteps(p, Initial(p, disk), run);
    FirstFails(p, disk, bytes);
  }

  lemma FirstFails(p: Params, disk: map<nat, Bytes>, bytes: Bytes)
    requires p.minShards >= 1 && p.concurrency >= 1 && p.total >= 1
    ensures var s3 := Step(p, Step(p, Step(p, Initial(p, disk), Dequeue(0)), CheckFirst(0)), FetchFails(0, Partial(bytes)));
      var s := Step(p, s3, Cancel);
      s.cancelled && s.verified == {} && s.disk == disk[0 := bytes]
  {
    hide Bump;
    var s1 := Step(p, Initial(p, disk), Dequeue(0));
    assert s1.workers[0] == Holding(Task(0, 0));
    var s2 := Step(p, s1, CheckFirst(0));
    assert s2.workers[0] == Ready(Task(0, 0));
  }

  lemma FourSteps(p: Params, s: State, f: seq<Action>)
    requires |f| == 4
    ensures Steps(p, s, f) == Step(p, Step(p, Step(p, Step(p, s, f[0]), f[1]), f[2]), f[3])
  {
    hide Step;
    OneStep(p, s, f, 0);
    var s1 := Step(p, s, f[0]);
    OneStep(p, s1, f, 1);
    var s2 := Step(p, s1, f[1]);
    OneStep(p, s2, f, 2);
    OneStep(p, Step(p, s2, f[2]), f, 3);
  }

  // ----- shards that are their own path -----

  function Steps(p: Params, s: State, actions: seq<Action>): State
    decreases |actions|
  {
    if actions == [] then s else Steps(p, Step(p, s, actions[0]), actions[1..])
  }

  lemma {:induction false} ExecMore(p: Params, disk: map<nat, Bytes>, init: seq<Action>, more: seq<Action>)
    ensures Exec(p, disk, init + more) == Steps(p, Exec(p, disk, init), more)
    decreases |more|
  {
    hide Step, Initial;
    if more == [] {
      assert init + more == init;
    } else {
      var first := init + [more[0]];
      assert first[..|first| - 1] == init;
      ExecMore(p, disk, first, more[1..]);
      assert first + more[1..] == init + more;
    }
  }

  /** The first n shards were tried once, failed and left no file; worker 0 is free. */
  ghost predicate Drained(p: Params, s: State, n: nat) {
    && n <= p.total && |s.workers| == p.concurrency >= 1 && s.workers[0] == Choosing
    && s.successCount == 0 && s.verified == {} && !s.cancelled
    && s.queue == AllTasks(p.total)[n..] && s.pending == seq(n, j requires j >= 0 => Task(j, 1))
    && forall j: nat :: j < n ==> j !in s.disk
  }

  const FAIL: seq<Action> := [Dequeue(0), CheckFirst(0), FetchFails(0, Removed)]

  lemma DrainStep(p: Params, s: State, n: nat)
    requires p.minShards >= 1 && n < p.total && Drained(p, s, n)
    ensures Drained(p, Steps(p, s, FAIL), n + 1) && Steps(p, s, FAIL).disk.Keys <= s.disk.Keys
  {
    hide Bump;
    var t := AllTasks(p.total)[n];
    assert t == Task(n, 0) == s.queue[0];
    var s1 := Step(p, s, FAIL[0]);
    assert s1.queue == AllTasks(p.total)[n + 1..];
    var s2 := Step(p, s1, FAIL[1]);
    var s3 := Step(p, s2, FAIL[2]);
    assert Steps(p, s, FAIL) == s3 by {
      assert FAIL[1..] == [FAIL[1], FAIL[2]] && FAIL[1..][1..] == [FAIL[2]];
      assert Steps(p, s2, [FAIL[2]]) == Steps(p, s3, []);
    }
    assert s3.pending == s.pending + [Task(n, 1)];
  }

  lemma {:induction false} DrainRun(p: Params, disk: map<nat, Bytes>, n: nat) returns (actions: seq<Action>)
    requires p.minShards >= 1 && p.concurrency >= 1 && n <= p.total
    ensures Drained(p, Exec(p, disk, actions), n) && Exec(p, disk, actions).disk.Keys <= disk.Keys
  {
    hide Step;
    if n == 0 {
      actions := [];
    } else {
      var init := DrainRun(p, disk, n - 1);
      DrainStep(p, Exec(p, disk, init), n - 1);
      ExecMore(p, disk, init, FAIL);
      actions := init + FAIL;
    }
  }

  /** n shards are verified, i among them; x has no file and is i itself or not verified; all other shards wait to be put
      back with one attempt. */
  ghost predicate Collected(p: Params, s: State, i: nat, x: nat, n: nat) {
    && |s.workers| == p.concurrency >= 1 && (n < p.minShards ==> s.workers[0] == Choosing && !s.cancelled)
    && s.queue == [] && |s.pending| == p.total - n && (forall j :: 0 <= j < |s.pending| ==> s.pending[j].attempts == 1)
    && s.successCount == n && (n > 0 ==> i in s.verified) && x !in s.disk && (x == i || x !in s.verified)
  }

  /** A task that waits is put back and its shard is fetched over version 1 and registered. */
  function Fetch(j: nat, data: Bytes): seq<Action> {
    [PutBack(j), Dequeue(0), CheckFirst(0), FetchOk(0, data, false), Register(0), CheckLast(0)]
  }

  lemma CollectStep(p: Params, s: State, i: nat, x: nat, n: nat, j: nat, data: Bytes)
    requires n < p.minShards && Collected(p, s, i, x, n) && j < |s.pending| && s.pending[j].shard !in s.verified
    requires 0 < |data| <= MAX_SHARD_SIZE && Good(p, s.pending[j].shard, data)
    requires s.pending[j].shard == x ==> x == i && data == PathOf(p, i)
    requires n == 0 ==> s.pending[j].shard == i
    ensures Collected(p, Steps(p, s, Fetch(j, data)), i, x, n + 1)
  {
    hide Bump, Step, Fetch, Good;
    var f := Fetch(j, data);
    CollectFetch(p, s, j, data);
    SixSteps(p, s, f);
    CollectCount(p, s, Step(p, Step(p, Step(p, Step(p, s, f[0]), f[1]), f[2]), f[3]), i, x, n, j, data);
  }

  /** The state once the fetched bytes are in worker 0's hand. */
  function InHandState(s: State, j: nat, data: Bytes): State
    requires j < |s.pending| && |s.workers| >= 1
  {
    s.(workers := s.workers[0 := Found(s.pending[j], data)], pending := Without(s.pending, j), tries := Bump(s.tries, s.pending[j].shard))
  }

  lemma CollectFetch(p: Params, s: State, j: nat, data: Bytes)
    requires |s.workers| >= 1 && s.workers[0] == Choosing && s.queue == [] && s.successCount < p.minShards
    requires j < |s.pending| && s.pending[j].attempts == 1 && 0 < |data| <= MAX_SHARD_SIZE && Good(p, s.pending[j].shard, data)
    ensures var f := Fetch(j, data);
      && Step(p, Step(p, Step(p, Step(p, s, f[0]), f[1]), f[2]), f[3]) == InHandState(s, j, data)
      && f[4] == Register(0) && f[5] == CheckLast(0) && |f| == 6
  {
    hide Bump;
    var f := Fetch(j, data);
    var s1 := Step(p, s, f[0]);
    assert s1.queue == [s.pending[j]];
    var s2 := Step(p, s1, f[1]);
    assert s2.queue == [];
  }

  lemma CollectCount(p: Params, s: State, held: State, i: nat, x: nat, n: nat, j: nat, data: Bytes)
    requires n < p.minShards && Collected(p, s, i, x, n) && j < |s.pending| && s.pending[j].shard !in s.verified
    requires s.pending[j].shard == x ==> x == i && data == PathOf(p, i)
    requires n == 0 ==> s.pending[j].shard == i
    requires held == InHandState(s, j, data)
    ensures Collected(p, Step(p, Step(p, held, Register(0)), CheckLast(0)), i, x, n + 1)
  {
    hide Bump;
  }

  lemma SixSteps(p: Params, s: State, f: seq<Action>)
    requires |f| == 6
    ensures Steps(p, s, f) == Step(p, Step(p, Step(p, Step(p, Step(p, Step(p, s, f[0]), f[1]), f[2]), f[3]), f[4]), f[5])
  {
    hide Step;
    OneStep(p, s, f, 0);
    var s1 := Step(p, s, f[0]);
    OneStep(p, s1, f, 1);
    var s2 := Step(p, s1, f[1]);
    OneStep(p, s2, f, 2);
    var s3 := Step(p, s2, f[2]);
    OneStep(p, s3, f, 3);
    var s4 := Step(p, s3, f[3]);
    OneStep(p, s4, f, 4);
    OneStep(p, Step(p, s4, f[4]), f, 5);
  }

  lemma OneStep(p: Params, s: State, f: seq<Action>, n: nat)
    requires n < |f|
    ensures f[0..] == f && f[|f|..] == [] && Steps(p, s, f[n..]) == Steps(p, Step(p, s, f[n]), f[n + 1..])
    ensures n + 1 == |f| ==> Steps(p, s, f[n..]) == Step(p, s, f[n])
  {
    hide Step;
    assert f[n..][1..] == f[n + 1..];
  }

  lemma DrainedCollected(p: Params, s: State, i: nat, x: nat)
    requires p.minShards >= 1 && i < p.total && Drained(p, s, p.total) && (x < p.total || x !in s.disk)
    ensures Collected(p, s, i, x, 0) && i < |s.pending| && s.pending[i].shard == i && s.pending[i].shard !in s.verified
  {
  }

  lemma PendingNotVerified(p: Params, disk: map<nat, Bytes>, actions: seq<Action>, j: nat)
    requires p.minShards >= 1 && j < |Exec(p, disk, actions).pending|
    ensures var s := Exec(p, disk, actions); s.pending[j].shard < p.total && s.pending[j].shard !in s.verified
  {
    hide Exec, Occurs, InHand, Hands;
    Reachable(p, disk, actions);
    var s := Exec(p, disk, actions);
    OccursMember(s.pending, j);
    assert Places(s, s.pending[j].shard) == One(s.pending[j].shard < p.total);
  }

  lemma PendingDiffer(p: Params, disk: map<nat, Bytes>, actions: seq<Action>)
    requires p.minShards >= 1 && |Exec(p, disk, actions).pending| >= 2
    ensures var s := Exec(p, disk, actions); s.pending[0].shard != s.pending[1].shard
  {
    hide Exec, Occurs, InHand, Hands;
    Reachable(p, disk, actions);
    var s := Exec(p, disk, actions);
    OccursWithout(s.pending, 0, s.pending[0].shard);
    assert Without(s.pending, 0)[0] == s.pending[1];
    OccursMember(Without(s.pending, 0), 0);
    assert Places(s, s.pending[0].shard) == One(s.pending[0].shard < p.total);
  }

  /** A run in which shard i and n - 1 others are fetched over version 1 and counted, while shard x has no file: x is i
      itself, if that is its own path, or one that is not fetched. `content` are the bytes that providers send. */
  lemma {:induction false} CollectRun(p: Params, disk: map<nat, Bytes>, i: nat, x: nat, content: seq<Bytes>, n: nat) returns (actions: seq<Action>)
    requires 1 <= n <= p.minShards && p.concurrency >= 1 && p.minShards <= p.total == |content| && i < p.total
    requires if x == i then content[i] == PathOf(p, i) else p.minShards < p.total && (x < p.total || x !in disk)
    requires forall y: nat :: y < p.total && (y == i || n > 1) ==> 0 < |content[y]| <= MAX_SHARD_SIZE && Good(p, y, content[y])
    ensures Collected(p, Exec(p, disk, actions), i, x, n)
  {
    hide Exec, Steps, Good, PathOf, Collected, Drained;
    if n == 1 {
      var init := DrainRun(p, disk, p.total);
      var s := Exec(p, disk, init);
      DrainedCollected(p, s, i, x);
      CollectStep(p, s, i, x, 0, i, content[i]);
      ExecMore(p, disk, init, Fetch(i, content[i]));
      actions := init + Fetch(i, content[i]);
    } else {
      var init := CollectRun(p, disk, i, x, content, n - 1);
      var s := Exec(p, disk, init);
      CollectedMeans(p, s, i, x, n - 1);
      PendingNotVerified(p, disk, init, 0);
      if x != i {
        PendingNotVerified(p, disk, init, 1);
        PendingDiffer(p, disk, init);
      }
      var j := if s.pending[0].shard != x then 0 else 1;
      var data := content[s.pending[j].shard];
      CollectStep(p, s, i, x, n - 1, j, data);
      ExecMore(p, disk, init, Fetch(j, data));
      actions := init + Fetch(j, data);
    }
  }

  lemma CollectedMeans(p: Params, s: State, i: nat, x: nat, n: nat)
    requires Collected(p, s, i, x, n)
    ensures |s.pending| == p.total - n && s.successCount == n && (n > 0 ==> i in s.verified) && x !in s.disk
  {
  }

  /** Every verified shard has its file, with the manifest's digest. */
  ghost predicate AllFiled(p: Params, s: State) {
    forall i :: i in s.verified ==> Filed(p, s.disk, i)
  }

  /** Exactly when verified shards are on disk: over all interleavings, and whatever the store held before, every
      verified shard has its file if and only if no shard is its own path. */
  lemma FiledExactly(p: Params, disk: map<nat, Bytes>)
    requires 1 <= p.minShards <= p.total == |p.paths| && p.concurrency >= 1
    requires forall i :: 0 <= i < p.total ==> 0 < |p.paths[i]| <= MAX_SHARD_SIZE
    ensures (forall actions :: AllFiled(p, Exec(p, disk, actions))) <==> forall i: nat :: i < p.total ==> !IsOwnPath(p, i)
  {
    hide Exec, Filed, IsOwnPath;
    if i: nat :| i < p.total && IsOwnPath(p, i) {
      var actions := LostShard(p, disk, i);
      assert !AllFiled(p, Exec(p, disk, actions));
    } else {
      forall actions ensures AllFiled(p, Exec(p, disk, actions)) {
        forall i | i in Exec(p, disk, actions).verified ensures Filed(p, Exec(p, disk, actions).disk, i) {
          VerifiedOnDisk(p, disk, actions, i);
        }
      }
    }
  }

  /** A shard that is its own path can be verified and counted without a file. */
  lemma LostShard(p: Params, disk: map<nat, Bytes>, i: nat) returns (actions: seq<Action>)
    requires 1 <= p.minShards <= p.total == |p.paths| && p.concurrency >= 1 && i < p.total
    requires 0 < |p.paths[i]| <= MAX_SHARD_SIZE && IsOwnPath(p, i)
    ensures var s := Exec(p, disk, actions); i in s.verified && !Filed(p, s.disk, i)
  {
    hide Exec, Collected;
    actions := CollectRun(p, disk, i, i, p.paths, 1);
    CollectedMeans(p, Exec(p, disk, actions), i, i, 1);
  }
}
