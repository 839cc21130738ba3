/** Pipelined retrieval over any number of runs, crashes and restarts: segments are fetched, decoded
    and delivered in any order, one writer appends and checkpoints them, and a later run resumes from
    the checkpoint it finds (retrieval/orchestrator_v2.go). */
module Resume {
  import opened Prelude
  import opened ReedSolomon
  import opened Erasure
  import opened Geometry
  import opened Streaming
  import opened ReorderWriter

  /** What is retrieved, with which codec, through how wide a window. */
  datatype Job = Job(c: Codec, file: Bytes, blockSize: nat, window: nat, hash: Bytes -> Digest)
  {
    ghost predicate Valid() { c.Valid() && blockSize >= 1 }

    ghost function Total(): nat
      requires Valid()
    {
      TotalSegments(|file|, c.k, blockSize)
    }

    /** Bytes of the file that segments 0 .. n - 1 carry. */
    ghost function Upto(n: nat): nat {
      |StripesBelow(file, StripeSize(c, blockSize), n)|
    }

    ghost function Seg(i: nat): Bytes {
      StripeAt(file, StripeSize(c, blockSize), i)
    }
  }

  /** A run in progress: the next segment to launch, the ones being fetched, the results channel, the writer's
      variables, the segments it has written so far, and whether some segment failed. */
  datatype Proc = Proc(start: nat, next: nat, inflight: set<nat>, channel: seq<(nat, Bytes)>,
                       expected: nat, written: nat, buffer: map<nat, Bytes>, midway: bool, log: seq<nat>, failed: bool)

  /** The disk, the current run if any, how many leading segments were ever written, and whether the last run
      reported success. */
  datatype Sys = Sys(disk: Disk, proc: Option<Proc>, high: nat, complete: bool)

  /** What becomes of a checkpoint write, whose error nobody looks at: it completes, it cannot start and leaves the
      old checkpoint, or it stops halfway in a file that was already truncated. */
  datatype Fate = Completes | NeverStarts | StopsHalfway

  /** Start says whether the checkpoint file can be read and the output truncated, Finish after how many bytes reading
      the output for its digest breaks off, if it does, and whether a wrong output can be deleted: none of these errors is
      looked at. Take1 receives a result, Write and Book are the two halves of a turn of the writer. A run that was cancelled
      and ends with an error leaves the disk as a Crash at that moment does, one whose segment write fails as a
      CrashInWrite of what was written does, and a crash during a checkpoint write is a Book that stops halfway followed by a Crash. */
  datatype Action =
    | Start(ckptRead: bool, truncates: bool)
    | Launch
    | Deliver(seg: nat, slots: seq<Bytes>)
    | Abandon(seg: nat)
    | Take1
    | Write
    | Book(fate: Fate)
    | Finish(cut: Option<nat>, removes: bool)
    | Crash
    | CrashInWrite(n: nat)

  /** Where a run that finds this checkpoint starts, and how many bytes it takes as written. */
  function ResumeAt(ckpt: Saved): (nat, nat) {
    match ckpt case Saved(last, bytes) => (last + 1, bytes) case _ => (0, 0)
  }

  function WriterOf(disk: Disk, p: Proc): Writer {
    Writer(disk, p.expected, p.written, p.buffer, p.midway)
  }

  function Back(p: Proc, w: Writer): Proc {
    p.(expected := w.expected, written := w.totalWritten, buffer := w.buffer, midway := w.midway)
  }

  /** What the final check reads of the output. */
  function Seen(file: Bytes, cut: Option<nat>): Bytes {
    match cut case None => file case Some(n) => Take(file, n)
  }

  /** The second half of a turn, with what becomes of the checkpoint write if one is due. */
  function Booked(w: Writer, totalSegments: nat, fate: Fate): Writer {
    var next := Advance(w, totalSegments);
    if !CheckpointDue(w.expected, totalSegments) || fate.Completes? then next
    else next.(disk := w.disk.(ckpt := if fate.NeverStarts? then w.disk.ckpt else Torn))
  }

  /** One step; an action that is not enabled does nothing. */
  ghost function Step(job: Job, s: Sys, a: Action): Sys
    requires job.Valid()
  {
    match s.proc
    case None =>
      if !a.Start? then s
      else
        var (start, bytes) := if a.ckptRead then ResumeAt(s.disk.ckpt) else (0, 0);
        Sys(if start > 0 || !a.truncates then s.disk else s.disk.(file := []),
          Some(Proc(start, start, {}, [], start, bytes, map[], false, [], false)), s.high, false)
    case Some(p) =>
      var w := WriterOf(s.disk, p);
      match a
      case Start(_, _) => s
      case Launch =>
        if p.next < job.Total() && |p.inflight| < job.window
        then s.(proc := Some(p.(next := p.next + 1, inflight := p.inflight + {p.next}))) else s
      case Deliver(i, slots) =>
        if i in p.inflight && i < job.Total() && |p.channel| < job.window && Fetched(job.c, job.file, job.blockSize, i, slots)
        then s.(proc := Some(p.(inflight := p.inflight - {i},
          channel := p.channel + [(i, DecodedOrEmpty(job, i, slots))]))) else s
      case Abandon(i) =>
        if i in p.inflight then s.(proc := Some(p.(inflight := p.inflight - {i}, failed := true))) else s
      case Take1 =>
        if p.channel != [] && !p.midway && p.expected !in p.buffer
        then s.(proc := Some(Back(p.(channel := p.channel[1..]), Receive(w, p.channel[0].0, p.channel[0].1)))) else s
      case Write =>
        if !p.midway && p.expected in p.buffer
        then Sys(WriteNext(w).disk, Some(Back(p.(log := p.log + [p.expected]), WriteNext(w))),
          if s.high > p.expected then s.high else p.expected + 1, s.complete) else s
      case Book(fate) =>
        if p.midway then s.(disk := Booked(w, job.Total(), fate).disk, proc := Some(Back(p, Booked(w, job.Total(), fate)))) else s
      case Finish(cut, removes) =>
        if p.next == job.Total() && p.inflight == {} && p.channel == [] && !p.midway && p.expected !in p.buffer then
          if p.expected != job.Total() || p.failed then s.(proc := None)
          else if job.hash(Seen(s.disk.file, cut)) == job.hash(job.file) then s.(proc := None, complete := true)
          else s.(proc := None, disk := if removes then s.disk.(file := []) else s.disk)
        else s
      case Crash => s.(proc := None)
      case CrashInWrite(n) =>
        if !p.midway && p.expected in p.buffer && n < |p.buffer[p.expected]|
        then s.(proc := None, disk := s.disk.(file := WriteAt(s.disk.file, p.written, Take(p.buffer[p.expected], n)))) else s
  }

  ghost function DecodedOrEmpty(job: Job, i: nat, slots: seq<Bytes>): Bytes
    requires job.Valid()
  {
    match DecodedSegment(job.c, |job.file|, job.blockSize, i, slots) case Ok(bytes) => bytes case Err(_) => []
  }

  const FRESH := Sys(Disk([], NoCheckpoint), None, 0, false)

  ghost function Exec(job: Job, actions: seq<Action>): Sys
    requires job.Valid()
  {
    if actions == [] then FRESH else Step(job, Exec(job, actions[..|actions| - 1]), actions[|actions| - 1])
  }

  // ----- the invariants -----

  /** How many leading segments the writer of this run counts as written. */
  function Done(p: Proc): nat { if p.midway then p.expected + 1 else p.expected }

  ghost predicate CkptOk(job: Job, ckpt: Saved)
    requires job.Valid()
  {
    ckpt.Saved? ==> ckpt.lastSegment < job.Total() && ckpt.bytesWritten == job.Upto(ckpt.lastSegment + 1) && CheckpointDue(ckpt.lastSegment, job.Total())
  }

  ghost predicate ProcOk(job: Job, p: Proc)
    requires job.Valid()
  {
    && p.start <= p.expected && Done(p) <= job.Total() && p.start <= p.next <= job.Total()
    && p.written == job.Upto(Done(p))
    && (forall i :: i in p.inflight ==> i < job.Total())
    && |p.inflight| <= job.window && |p.channel| <= job.window
    && (forall q :: 0 <= q < |p.channel| ==> p.channel[q].0 < job.Total() && p.channel[q].1 == job.Seg(p.channel[q].0))
    && (forall i :: i in p.buffer ==> i < job.Total() && p.buffer[i] == job.Seg(i))
    && |p.log| == Done(p) - p.start && (forall q :: 0 <= q < |p.log| ==> p.log[q] == p.start + q)
  }

  /** What every run keeps, whatever fails: all counts are right, the output is never longer than the file, and
      success means that bytes with the file's digest were read from the output. */
  ghost predicate Steady(job: Job, s: Sys)
    requires job.Valid()
  {
    && CkptOk(job, s.disk.ckpt) && |s.disk.file| <= |job.file| && s.high <= job.Total()
    && (s.proc.Some? ==> ProcOk(job, s.proc.value))
    && (s.complete ==> s.proc.None? && exists cut :: job.hash(Seen(s.disk.file, cut)) == job.hash(job.file))
  }

  /** The output is a prefix of the file and holds at least what the checkpoint claims. */
  ghost predicate DiskOk(job: Job, disk: Disk) {
    disk.file <= job.file && (disk.ckpt.Saved? ==> disk.ckpt.bytesWritten <= |disk.file|)
  }

  /** And at least what the current run takes as written; after success it is the file. */
  ghost predicate Firm(job: Job, s: Sys) {
    && DiskOk(job, s.disk)
    && (s.proc.Some? ==> s.proc.value.written <= |s.disk.file|)
    && (s.complete ==> s.disk.file == job.file)
  }

  /** The steps that leave a checkpoint behind whose bytes are gone: a start that cannot read the saved checkpoint and
      empties the output, and a final check that reads too little, or something else, and deletes it. */
  ghost predicate Spoils(job: Job, s: Sys, a: Action)
    requires job.Valid()
  {
    s.disk.ckpt.Saved? &&
    match a
    case Start(ckptRead, truncates) => s.proc.None? && !ckptRead && truncates
    case Finish(cut, removes) =>
      removes && s.proc.Some? &&
      var p := s.proc.value;
      p.next == job.Total() && p.inflight == {} && p.channel == [] && !p.midway && p.expected !in p.buffer
      && p.expected == job.Total() && !p.failed && job.hash(Seen(s.disk.file, cut)) != job.hash(job.file)
    case _ => false
  }

  lemma UptoNext(job: Job, i: nat)
    requires job.Valid() && i < job.Total()
    ensures job.Upto(i + 1) == job.Upto(i) + |job.Seg(i)| <= |job.file|
    ensures job.file[job.Upto(i)..job.Upto(i + 1)] == job.Seg(i)
    ensures job.Upto(0) == 0
  {
    NextStripe(job.file, StripeSize(job.c, job.blockSize), i);
  }

  /** A checkpoint is only ever made of bytes. */
  lemma UptoPositive(job: Job, i: nat)
    requires job.Valid() && i < job.Total()
    ensures job.Upto(i + 1) > 0
  {
    StripeLenClosed(|job.file|, job.c.k, job.blockSize, 0);
    StripeSizePositive(job.c, job.blockSize);
    MulMonotone(StripeSize(job.c, job.blockSize), 1, i + 1);
  }

  /** Writing any part of the segment that belongs at the writer's position keeps the output a prefix and takes nothing away. */
  lemma WritePrefix(file: Bytes, whole: Bytes, pos: nat, data: Bytes)
    requires file <= whole && pos <= |file| && pos + |data| <= |whole| && data == whole[pos..pos + |data|]
    ensures WriteAt(file, pos, data) <= whole
    ensures |WriteAt(file, pos, data)| == if pos + |data| > |file| then pos + |data| else |file|
  {
  }

  lemma WriteLength(file: Bytes, pos: nat, data: Bytes, n: nat)
    requires |file| <= n && pos + |data| <= n
    ensures |WriteAt(file, pos, data)| <= n
  {
  }

  lemma StartOk(job: Job, s: Sys, a: Action)
    requires job.Valid() && Steady(job, s) && s.proc.None? && a.Start?
    ensures Steady(job, Step(job, s, a))
    ensures Firm(job, s) && !Spoils(job, s, a) ==> Firm(job, Step(job, s, a))
  {
    assert job.Upto(0) == 0;
  }

  lemma DeliverOk(job: Job, s: Sys, i: nat, slots: seq<Bytes>)
    requires job.Valid() && Steady(job, s)
    ensures Steady(job, Step(job, s, Deliver(i, slots)))
    ensures Firm(job, s) ==> Firm(job, Step(job, s, Deliver(i, slots)))
  {
    hide Fetched, DecodedSegment, StripeAt;
    if i < job.Total() && Fetched(job.c, job.file, job.blockSize, i, slots) {
      SegmentDecodes(job.c, job.file, job.blockSize, i, slots);
    }
  }

  lemma WriteOk(job: Job, s: Sys)
    requires job.Valid() && Steady(job, s)
    ensures Steady(job, Step(job, s, Write))
    ensures Firm(job, s) ==> Firm(job, Step(job, s, Write))
  {
    hide WriteAt, StripeAt, TotalSegments, Seen;
    if s.proc.Some? && !s.proc.value.midway && s.proc.value.expected in s.proc.value.buffer {
      var p := s.proc.value;
      UptoNext(job, p.expected);
      WriteLength(s.disk.file, p.written, p.buffer[p.expected], |job.file|);
      if Firm(job, s) { WritePrefix(s.disk.file, job.file, p.written, p.buffer[p.expected]); }
    }
  }

  lemma CrashInWriteOk(job: Job, s: Sys, n: nat)
    requires job.Valid() && Steady(job, s)
    ensures Steady(job, Step(job, s, CrashInWrite(n)))
    ensures Firm(job, s) ==> Firm(job, Step(job, s, CrashInWrite(n)))
  {
    hide WriteAt, StripeAt, TotalSegments, Seen;
    if s.proc.Some? && !s.proc.value.midway && s.proc.value.expected in s.proc.value.buffer {
      var p := s.proc.value;
      var data := p.buffer[p.expected];
      UptoNext(job, p.expected);
      assert Take(data, n) == job.file[p.written..p.written + |Take(data, n)|];
      WriteLength(s.disk.file, p.written, Take(data, n), |job.file|);
      if Firm(job, s) { WritePrefix(s.disk.file, job.file, p.written, Take(data, n)); }
    }
  }

  lemma FinishOk(job: Job, s: Sys, cut: Option<nat>, removes: bool)
    requires job.Valid() && Steady(job, s)
    ensures Steady(job, Step(job, s, Finish(cut, removes)))
    ensures Firm(job, s) && !Spoils(job, s, Finish(cut, removes)) ==> Firm(job, Step(job, s, Finish(cut, removes)))
    ensures Firm(job, s) && cut == None ==> Step(job, s, Finish(cut, removes)).disk == s.disk && !Spoils(job, s, Finish(cut, removes))
  {
    hide StripeAt, TotalSegments;
    if Firm(job, s) && s.proc.Some? && s.proc.value.expected == job.Total() && !s.proc.value.midway {
      WholeWritten(job, s.disk, s.proc.value);
    }
  }

  lemma WholeWritten(job: Job, disk: Disk, p: Proc)
    requires job.Valid() && DiskOk(job, disk) && ProcOk(job, p) && p.written <= |disk.file| && Done(p) == job.Total()
    ensures disk.file == job.file
  {
    AllStripes(job.c, job.file, job.blockSize);
    assert job.Upto(job.Total()) == |job.file|;
  }

  lemma TakeOk(job: Job, s: Sys)
    requires job.Valid() && Steady(job, s)
    ensures Steady(job, Step(job, s, Take1))
    ensures Firm(job, s) ==> Firm(job, Step(job, s, Take1))
  {
    hide StripeAt, TotalSegments, StripesBelow, Seen;
  }

  lemma BookOk(job: Job, s: Sys, fate: Fate)
    requires job.Valid() && Steady(job, s)
    ensures Steady(job, Step(job, s, Book(fate)))
    ensures Firm(job, s) ==> Firm(job, Step(job, s, Book(fate)))
  {
    hide StripeAt, TotalSegments, StripesBelow, Seen;
  }

  lemma FetchOk(job: Job, s: Sys, a: Action)
    requires job.Valid() && Steady(job, s) && (a.Launch? || a.Abandon? || a.Crash?)
    ensures Steady(job, Step(job, s, a))
    ensures Firm(job, s) ==> Firm(job, Step(job, s, a))
  {
    hide StripeAt, TotalSegments, StripesBelow, Seen;
  }

  lemma StepOk(job: Job, s: Sys, a: Action)
    requires job.Valid() && Steady(job, s)
    ensures Steady(job, Step(job, s, a))
    ensures Firm(job, s) && !Spoils(job, s, a) ==> Firm(job, Step(job, s, a))
  {
    hide Steady, Firm, Spoils;
    match a {
      case Start(_, _) =>
        if s.proc.None? { StartOk(job, s, a); }
      case Deliver(i, slots) => DeliverOk(job, s, i, slots);
      case Take1 => TakeOk(job, s);
      case Write => WriteOk(job, s);
      case Book(fate) => BookOk(job, s, fate);
      case Finish(cut, removes) => FinishOk(job, s, cut, removes);
      case CrashInWrite(n) => CrashInWriteOk(job, s, n);
      case _ => FetchOk(job, s, a);
    }
  }

  lemma {:induction false} Reachable(job: Job, actions: seq<Action>)
    requires job.Valid()
    ensures Steady(job, Exec(job, actions))
    ensures NoneSpoils(job, actions) ==> Firm(job, Exec(job, actions))
  {
    hide Steady, Firm, Spoils, Step, NoneSpoils;
    if actions == [] {
      FreshOk(job);
    } else {
      var init, a := actions[..|actions| - 1], actions[|actions| - 1];
      assert actions == init + [a];
      Reachable(job, init);
      NoneSpoilsMore(job, init, a);
      StepOk(job, Exec(job, init), a);
    }
  }

  lemma FreshOk(job: Job)
    requires job.Valid()
    ensures Steady(job, FRESH) && Firm(job, FRESH)
  {
  }

  ghost predicate NoneSpoils(job: Job, actions: seq<Action>)
    requires job.Valid()
  {
    forall n :: 0 <= n < |actions| ==> !Spoils(job, Exec(job, actions[..n]), actions[n])
  }

  lemma NoneSpoilsMore(job: Job, init: seq<Action>, a: Action)
    requires job.Valid()
    ensures NoneSpoils(job, init + [a]) <==> NoneSpoils(job, init) && !Spoils(job, Exec(job, init), a)
  {
    hide Exec, Spoils;
    var all := init + [a];
    assert all[..|init|] == init;
    forall n | 0 <= n < |init| ensures all[..n] == init[..n] && all[n] == init[n] { }
    if NoneSpoils(job, all) { assert all[|init|] == a; }
  }

  // ----- what it gives -----

  /** Crash safety, after any interleaving of fetches, deliveries, writes, checkpoint faults, crashes and restarts. Whatever
      fails, a run that reported success left exactly the file, if no other bytes have its digest. Unless some step
      spoiled it, the output is a prefix of the file at least as long as the checkpoint says. And if every checkpoint
      access completed, a new run rewrites at most ten segments. */
  lemma CrashSafeResume(job: Job, actions: seq<Action>)
    requires job.Valid()
    ensures var s := Exec(job, actions);
      && (s.disk.ckpt.Saved? ==> s.disk.ckpt.bytesWritten == Min(|job.file|, (s.disk.ckpt.lastSegment + 1) * StripeSize(job.c, job.blockSize)))
      && (s.complete && OnlyPreimage(job.hash, job.file) ==> s.disk.file == job.file)
      && (NoneSpoils(job, actions) ==>
            (&& s.disk.file <= job.file
             && (s.disk.ckpt.Saved? ==> s.disk.ckpt.bytesWritten <= |s.disk.file|)
             && (s.complete ==> s.disk.file == job.file)))
      && (Faultless(actions) ==> TenAtMost(s))
  {
    hide Exec, NoneSpoils;
    Reachable(job, actions);
    var s := Exec(job, actions);
    if s.complete && OnlyPreimage(job.hash, job.file) {
      var cut :| job.hash(Seen(s.disk.file, cut)) == job.hash(job.file);
      assert Seen(s.disk.file, cut) == job.file;
    }
    if Faultless(actions) { FaultlessRun(job, actions); }
  }

  /** Which steps break the promise about the output: from a state that keeps it, exactly the spoiling ones. */
  lemma SpoilsStep(job: Job, s: Sys, a: Action)
    requires job.Valid() && Steady(job, s) && Firm(job, s)
    ensures DiskOk(job, Step(job, s, a).disk) <==> !Spoils(job, s, a)
  {
    hide Steady, TotalSegments;
    StepOk(job, s, a);
    if Spoils(job, s, a) {
      SavedPositive(job, s);
    }
  }

  lemma SavedPositive(job: Job, s: Sys)
    requires job.Valid() && Steady(job, s) && s.disk.ckpt.Saved?
    ensures s.disk.ckpt.bytesWritten > 0
  {
    UptoPositive(job, s.disk.ckpt.lastSegment);
  }

  /** Exactly which runs keep the promise throughout: those without a spoiling step. */
  lemma {:induction false} SoundRun(job: Job, actions: seq<Action>)
    requires job.Valid()
    ensures (forall n :: 0 <= n <= |actions| ==> DiskOk(job, Exec(job, actions[..n]).disk)) <==> NoneSpoils(job, actions)
  {
    hide Step, Steady, Firm, Spoils, DiskOk, NoneSpoils;
    Reachable(job, actions);
    if NoneSpoils(job, actions) {
      forall n | 0 <= n <= |actions| ensures DiskOk(job, Exec(job, actions[..n]).disk) {
        NoneSpoilsBefore(job, actions, n);
        Reachable(job, actions[..n]);
        FirmDisk(job, Exec(job, actions[..n]));
      }
    } else {
      var n := FirstSpoil(job, actions);
      Reachable(job, actions[..n]);
      SpoilsStep(job, Exec(job, actions[..n]), actions[n]);
      assert actions[..n + 1][..n] == actions[..n];
      assert !DiskOk(job, Exec(job, actions[..n + 1]).disk);
    }
  }

  lemma FirmDisk(job: Job, s: Sys)
    requires Firm(job, s)
    ensures DiskOk(job, s.disk)
  {
  }

  lemma NoneSpoilsBefore(job: Job, actions: seq<Action>, n: nat)
    requires job.Valid() && NoneSpoils(job, actions) && n <= |actions|
    ensures NoneSpoils(job, actions[..n])
  {
    hide Exec, Spoils;
    forall m | 0 <= m < n ensures actions[..n][..m] == actions[..m] && actions[..n][m] == actions[m] { }
  }

  lemma {:induction false} FirstSpoil(job: Job, actions: seq<Action>) returns (n: nat)
    requires job.Valid() && !NoneSpoils(job, actions)
    ensures n < |actions| && NoneSpoils(job, actions[..n]) && Spoils(job, Exec(job, actions[..n]), actions[n])
  {
    hide Exec, Spoils;
    var init := actions[..|actions| - 1];
    assert actions == init + [actions[|actions| - 1]];
    NoneSpoilsMore(job, init, actions[|actions| - 1]);
    if NoneSpoils(job, init) {
      n := |init|;
    } else {
      n := FirstSpoil(job, init);
      assert actions[..n] == init[..n];
    }
  }

  /** What a spoiling start leads to: after a crash the next run that reads the old checkpoint starts behind it, past the
      end of an empty output, and never writes the segments before it. */
  lemma SpoiledStartSkips(job: Job, s: Sys, a: Action, truncates: bool)
    requires job.Valid() && Steady(job, s) && a.Start? && Spoils(job, s, a)
    ensures var again := Step(job, Step(job, Step(job, s, a), Crash), Start(true, truncates));
      && again.proc.Some? && again.proc.value.start == s.disk.ckpt.lastSegment + 1
      && again.disk.file == [] && again.proc.value.written > 0
  {
    hide TotalSegments;
    SavedPositive(job, s);
  }

  /** Unless the output was spoiled, a final check that can read it all never deletes it; and a run that succeeds
      has written every segment from its start on exactly once, in order, whatever happened before. */
  lemma BarrierMeansWhole(job: Job, actions: seq<Action>, cut: Option<nat>, removes: bool)
    requires job.Valid()
    ensures var s := Exec(job, actions);
      && (NoneSpoils(job, actions) ==> Step(job, s, Finish(None, removes)).disk == s.disk)
      && (s.proc.Some? && Step(job, s, Finish(cut, removes)).complete ==>
            (&& |s.proc.value.log| == job.Total() - s.proc.value.start
             && forall q :: 0 <= q < |s.proc.value.log| ==> s.proc.value.log[q] == s.proc.value.start + q))
  {
    hide Exec, NoneSpoils, Firm;
    Reachable(job, actions);
    FinishOk(job, Exec(job, actions), None, removes);
  }

  /** Everything was launched, delivered and written, and nothing failed. */
  ghost predicate AllDone(job: Job, s: Sys)
    requires job.Valid()
  {
    s.proc.Some? &&
    var p := s.proc.value;
    p.next == job.Total() == p.expected && p.inflight == {} && p.channel == [] && !p.midway && !p.failed && p.expected !in p.buffer
  }

  /** When a run reports success: once everything is done, if and only if what the final check reads has the file's
      digest; it does if the output was not spoiled and all of it is read. At any other time ending a run reports nothing. */
  lemma SuccessExactly(job: Job, s: Sys, cut: Option<nat>, removes: bool)
    requires job.Valid() && Steady(job, s) && s.proc.Some?
    ensures var after := Step(job, s, Finish(cut, removes));
      && (after.complete <==> AllDone(job, s) && job.hash(Seen(s.disk.file, cut)) == job.hash(job.file))
      && (AllDone(job, s) ==> after.proc.None?)
      && (AllDone(job, s) && Firm(job, s) && cut == None ==> after.complete && after.disk == s.disk)
      && (AllDone(job, s) && !after.complete ==> after.disk == if removes then s.disk.(file := []) else s.disk)
  {
    hide TotalSegments, StripeAt, StripesBelow;
    if AllDone(job, s) && Firm(job, s) { WholeWritten(job, s.disk, s.proc.value); }
  }

  /** Segment i is somewhere between launch and the output. */
  ghost predicate UnderWay(p: Proc, i: nat) {
    i in p.inflight || (exists q :: 0 <= q < |p.channel| && p.channel[q].0 == i) || i in p.buffer || i < Done(p)
  }

  /** No segment gets lost: every one that was launched is under way, unless some fetch of the run failed. */
  ghost predicate Accounted(s: Sys) {
    s.proc.Some? && !s.proc.value.failed ==> forall i {:trigger UnderWay(s.proc.value, i)} :: s.proc.value.start <= i < s.proc.value.next ==> UnderWay(s.proc.value, i)
  }

  lemma AccountedStep(job: Job, s: Sys, a: Action)
    requires job.Valid() && Accounted(s)
    ensures Accounted(Step(job, s, a))
  {
    hide TotalSegments, WriteAt, Fetched, DecodedSegment;
    var s' := Step(job, s, a);
    if s.proc.Some? && s'.proc.Some? && !s'.proc.value.failed {
      forall i: nat | s'.proc.value.start <= i < s'.proc.value.next ensures UnderWay(s'.proc.value, i) {
        UnderWayStep(job, s, a, i);
      }
    }
  }

  lemma UnderWayStep(job: Job, s: Sys, a: Action, i: nat)
    requires job.Valid() && s.proc.Some? && Step(job, s, a).proc.Some? && !Step(job, s, a).proc.value.failed
    requires UnderWay(s.proc.value, i) || (a.Launch? && i == s.proc.value.next)
    requires i < Step(job, s, a).proc.value.next
    ensures UnderWay(Step(job, s, a).proc.value, i)
  {
    hide TotalSegments, WriteAt, Fetched, DecodedSegment;
    var p, p' := s.proc.value, Step(job, s, a).proc.value;
    if q :| 0 <= q < |p.channel| && p.channel[q].0 == i {
      if |p'.channel| > |p.channel| {
        assert p'.channel[q] == p.channel[q];
      } else if |p'.channel| < |p.channel| && q > 0 {
        assert p'.channel[q - 1] == p.channel[q];
      }
    }
    if a.Deliver? && a.seg == i && |p'.channel| > |p.channel| { assert p'.channel[|p.channel|].0 == i; }
  }

  lemma {:induction false} AccountedRun(job: Job, actions: seq<Action>)
    requires job.Valid()
    ensures Accounted(Exec(job, actions))
  {
    hide Step, Accounted;
    if actions == [] {
      assert Accounted(FRESH) by { FreshAccounted(); }
    } else {
      AccountedRun(job, actions[..|actions| - 1]);
      AccountedStep(job, Exec(job, actions[..|actions| - 1]), actions[|actions| - 1]);
    }
  }

  lemma FreshAccounted()
    ensures Accounted(FRESH)
  {
  }

  /** The barrier fails only after a failed fetch: when every segment was launched, nothing is under way and none failed,
      all segments from the start on are written. */
  lemma BarrierFailsOnlyAfterFailure(job: Job, actions: seq<Action>)
    requires job.Valid()
    requires var s := Exec(job, actions);
      s.proc.Some? && var p := s.proc.value;
      p.next == job.Total() && p.inflight == {} && p.channel == [] && !p.midway && p.expected !in p.buffer && !p.failed
    ensures AllDone(job, Exec(job, actions))
  {
    hide Exec, TotalSegments;
    AccountedRun(job, actions);
    Reachable(job, actions);
    var p := Exec(job, actions).proc.value;
    assert p.expected < p.next ==> UnderWay(p, p.expected);
  }

  /** What failures and crashes leave: a failed segment is given up and the run remembers it; a crash ends the run and
      leaves the disk; a crash inside a write also leaves the first n bytes of the segment at the writer's position. */
  lemma FaultsExactly(job: Job, s: Sys, i: nat, n: nat)
    requires job.Valid() && s.proc.Some?
    ensures var p := s.proc.value;
      && (i in p.inflight ==> var s' := Step(job, s, Abandon(i));
            s'.proc == Some(p.(inflight := p.inflight - {i}, failed := true)) && s'.disk == s.disk)
      && (var s' := Step(job, s, Crash); s'.proc.None? && s'.disk == s.disk && s'.high == s.high)
      && (!p.midway && p.expected in p.buffer && n < |p.buffer[p.expected]| && p.written == |s.disk.file| ==>
            var s' := Step(job, s, CrashInWrite(n));
            s'.proc.None? && s'.disk == s.disk.(file := s.disk.file + p.buffer[p.expected][..n]))
  {
    hide TotalSegments;
  }

  /** Every file can be retrieved: some run reports success, and then the output is the file and the checkpoint names its
      last segment. */
  lemma SomeRunCompletes(job: Job) returns (actions: seq<Action>)
    requires job.Valid() && job.window >= 1
    ensures var s := Exec(job, actions);
      && s.complete && s.disk.file == job.file
      && (job.file != [] ==> s.disk.ckpt == Saved(job.Total() - 1, |job.file|))
  {
    hide Exec, TotalSegments, Steady, Firm, Plain, Step, StripesBelow;
    var init := WriteThrough(job, job.Total(), Completes);
    var s := Exec(job, init);
    actions := init + [Finish(None, true)];
    assert actions[..|actions| - 1] == init;
    assert Exec(job, actions) == Step(job, s, Finish(None, true)) by { ExecLast(job, init, Finish(None, true)); }
    NothingFails(job, init, s);
    SuccessExactly(job, s, None, true);
    CompleteIsFile(job, s, Step(job, s, Finish(None, true)));
    if job.file != [] { LastSegment(job, s); }
  }

  lemma ExecLast(job: Job, init: seq<Action>, a: Action)
    requires job.Valid()
    ensures Exec(job, init + [a]) == Step(job, Exec(job, init), a)
  {
    hide Step;
    assert (init + [a])[..|init|] == init;
  }

  lemma NothingFails(job: Job, init: seq<Action>, s: Sys)
    requires job.Valid() && s == Exec(job, init) && Plain(job, s, job.Total()) && Written(job, s, job.Total(), Completes) && Faultless(init)
    requires forall n :: 0 <= n < |init| ==> !init[n].Finish?
    ensures Steady(job, s) && Firm(job, s) && AllDone(job, s)
  {
    hide Exec, TotalSegments, Steady, Firm, StripesBelow;
    assert NoneSpoils(job, init) by {
      forall n | 0 <= n < |init| ensures !Spoils(job, Exec(job, init[..n]), init[n]) { }
    }
    Reachable(job, init);
  }

  lemma CompleteIsFile(job: Job, s: Sys, after: Sys)
    requires job.Valid() && Steady(job, s) && Firm(job, s) && AllDone(job, s) && after.disk == s.disk
    ensures after.disk.file == job.file
  {
    hide TotalSegments, StripesBelow;
    WholeWritten(job, s.disk, s.proc.value);
  }

  lemma LastSegment(job: Job, s: Sys)
    requires job.Valid() && Steady(job, s) && Written(job, s, job.Total(), Completes) && job.file != []
    ensures s.disk.ckpt == Saved(job.Total() - 1, |job.file|)
  {
    hide TotalSegments, StripesBelow;
    SegmentsOfSome(job);
    AllStripes(job.c, job.file, job.blockSize);
  }

  lemma SegmentsOfSome(job: Job)
    requires job.Valid() && job.file != []
    ensures job.Total() >= 1
  {
    FirstSegment(|job.file|, job.c.k, job.blockSize);
  }

  // ----- how much a restart rewrites -----

  /** A run that started now and read the checkpoint would rewrite at most ten of the segments written so far. */
  predicate TenAtMost(s: Sys) {
    s.high - ResumeAt(s.disk.ckpt).0 <= 10
  }

  /** The steps that break the bound of ten: writing a segment ten or more past the checkpoint on disk, tearing a
      checkpoint once more than ten segments were written, and saving one that far behind what was written. */
  ghost predicate Breaks(job: Job, s: Sys, a: Action)
    requires job.Valid()
  {
    s.proc.Some? &&
    var p := s.proc.value;
    match a
    case Write => !p.midway && p.expected in p.buffer && p.expected >= ResumeAt(s.disk.ckpt).0 + 10
    case Book(fate) =>
      && p.midway && CheckpointDue(p.expected, job.Total())
      && (match fate case StopsHalfway => s.high > 10 case Completes => s.high > p.expected + 11 case NeverStarts => false)
    case _ => false
  }

  lemma BreaksStep(job: Job, s: Sys, a: Action)
    requires job.Valid() && TenAtMost(s)
    ensures TenAtMost(Step(job, s, a)) <==> !Breaks(job, s, a)
  {
    hide StripeAt, TotalSegments, StripesBelow, WriteAt, Fetched, DecodedSegment;
  }

  /** The bound of ten holds after every step. */
  ghost predicate Throughout(job: Job, actions: seq<Action>)
    requires job.Valid()
  {
    forall n :: 0 <= n <= |actions| ==> TenAtMost(Exec(job, actions[..n]))
  }

  ghost predicate NoneBreaks(job: Job, actions: seq<Action>)
    requires job.Valid()
  {
    forall n :: 0 <= n < |actions| ==> !Breaks(job, Exec(job, actions[..n]), actions[n])
  }

  lemma ThroughoutMore(job: Job, init: seq<Action>, a: Action)
    requires job.Valid()
    ensures Throughout(job, init + [a]) <==> Throughout(job, init) && TenAtMost(Exec(job, init + [a]))
    ensures NoneBreaks(job, init + [a]) <==> NoneBreaks(job, init) && !Breaks(job, Exec(job, init), a)
    ensures Throughout(job, init) ==> TenAtMost(Exec(job, init))
  {
    hide Exec, Breaks, TenAtMost;
    var all := init + [a];
    assert all[..|all|] == all && all[..|init|] == init == init[..|init|];
    forall n | 0 <= n <= |init| ensures all[..n] == init[..n] { }
    if Throughout(job, init) && TenAtMost(Exec(job, all)) {
      forall n | 0 <= n <= |all| ensures TenAtMost(Exec(job, all[..n])) { if n <= |init| { assert all[..n] == init[..n]; } }
    }
    if Throughout(job, all) {
      forall n | 0 <= n <= |init| ensures TenAtMost(Exec(job, init[..n])) { assert all[..n] == init[..n]; }
    }
    if NoneBreaks(job, all) {
      forall n | 0 <= n < |init| ensures !Breaks(job, Exec(job, init[..n]), init[n]) { assert all[n] == init[n]; }
      assert all[|init|] == a;
    }
  }

  /** Exactly which runs keep to the bound of ten throughout: those without a breaking step. */
  lemma {:induction false} BoundedRun(job: Job, actions: seq<Action>)
    requires job.Valid()
    ensures Throughout(job, actions) <==> NoneBreaks(job, actions)
  {
    hide Step, Breaks, TenAtMost, Throughout, NoneBreaks;
    if actions == [] {
      EmptyRunBounded(job);
    } else {
      var init, a := actions[..|actions| - 1], actions[|actions| - 1];
      assert actions == init + [a];
      BoundedRun(job, init);
      ThroughoutMore(job, init, a);
      if TenAtMost(Exec(job, init)) { BreaksStep(job, Exec(job, init), a); }
    }
  }

  lemma EmptyRunBounded(job: Job)
    requires job.Valid()
    ensures Throughout(job, []) && NoneBreaks(job, [])
  {
  }

  lemma FreshBounded()
    ensures TenAtMost(FRESH)
  {
  }

  /** No access to the checkpoint file fails. */
  ghost predicate Faultless(actions: seq<Action>) {
    forall n :: 0 <= n < |actions| ==> (actions[n].Book? ==> actions[n].fate.Completes?) && (actions[n].Start? ==> actions[n].ckptRead)
  }

  /** The checkpoint on disk is behind the writer, and every due one behind the writer is on disk. */
  ghost predicate UpToDate(job: Job, s: Sys)
    requires job.Valid()
  {
    s.proc.Some? ==> ResumeAt(s.disk.ckpt).0 <= s.proc.value.expected && forall i :: ResumeAt(s.disk.ckpt).0 <= i < s.proc.value.expected ==> !CheckpointDue(i, job.Total())
  }

  lemma {:induction false} FaultlessRun(job: Job, actions: seq<Action>)
    requires job.Valid() && Faultless(actions)
    ensures TenAtMost(Exec(job, actions)) && UpToDate(job, Exec(job, actions))
  {
    hide Step, Breaks, Steady, TenAtMost, UpToDate;
    if actions == [] {
      FreshBounded();
      assert UpToDate(job, FRESH) by { FreshUpToDate(job); }
    } else {
      var init, a := actions[..|actions| - 1], actions[|actions| - 1];
      FaultlessRun(job, init);
      Reachable(job, init);
      UpToDateStep(job, Exec(job, init), a);
      BreaksStep(job, Exec(job, init), a);
    }
  }

  lemma FreshUpToDate(job: Job)
    requires job.Valid()
    ensures UpToDate(job, FRESH)
  {
  }

  lemma UpToDateStep(job: Job, s: Sys, a: Action)
    requires job.Valid() && Steady(job, s) && UpToDate(job, s) && TenAtMost(s)
    requires (a.Book? ==> a.fate.Completes?) && (a.Start? ==> a.ckptRead)
    ensures UpToDate(job, Step(job, s, a)) && !Breaks(job, s, a)
  {
    hide StripeAt, TotalSegments, StripesBelow, WriteAt, Fetched, DecodedSegment;
    if s.proc.Some? && s.proc.value.expected in s.proc.value.buffer {
      NextDue(job, ResumeAt(s.disk.ckpt).0, s.proc.value.expected);
    }
  }

  /** Among ten segments in a row one asks for a checkpoint. */
  lemma NextDue(job: Job, r: nat, e: nat)
    requires job.Valid() && r <= e && (r > 0 ==> CheckpointDue(r - 1, job.Total())) && e < job.Total()
    requires forall i :: r <= i < e ==> !CheckpointDue(i, job.Total())
    ensures e < r + 10
  {
    if r == 0 {
      assert CheckpointDue(0, job.Total());
    } else {
      assert CheckpointDue(r + 9, job.Total()) by { assert (r - 1) % 10 == 0; }
    }
  }

  /** Whatever becomes of checkpoint writes, the bound holds in every run exactly for files of at most ten segments. */
  lemma BoundNeedsTenSegments(job: Job)
    requires job.Valid() && job.window >= 1
    ensures (forall actions :: TenAtMost(Exec(job, actions))) <==> job.Total() <= 10
  {
    hide Exec, TotalSegments;
    if job.Total() <= 10 {
      forall actions ensures TenAtMost(Exec(job, actions)) { Reachable(job, actions); }
    } else {
      var actions := WriteThrough(job, 11, NeverStarts);
      assert !TenAtMost(Exec(job, actions));
    }
  }

  /** The first n segments are written and nothing is under way. */
  ghost predicate Plain(job: Job, s: Sys, n: nat)
    requires job.Valid()
  {
    && s.high == n && s.proc.Some?
    && var p := s.proc.value;
      p.next == n == p.expected && p.inflight == {} && p.channel == [] && p.buffer == map[] && !p.midway && !p.failed
  }

  /** What is checkpointed when all checkpoint writes have this fate: nothing, or the newest due segment. */
  ghost predicate Written(job: Job, s: Sys, n: nat, fate: Fate)
    requires job.Valid()
  {
    && (fate.NeverStarts? ==> s.disk.ckpt == NoCheckpoint)
    && (fate.Completes? && n > 0 && n == job.Total() ==> s.disk.ckpt.Saved? && s.disk.ckpt.lastSegment == n - 1)
  }

  /** A run that writes n segments one after the other, all of whose checkpoint writes have this fate. */
  lemma {:induction false} WriteThrough(job: Job, n: nat, fate: Fate) returns (actions: seq<Action>)
    requires job.Valid() && job.window >= 1 && n <= job.Total()
    ensures Plain(job, Exec(job, actions), n) && Written(job, Exec(job, actions), n, fate)
    ensures fate.Completes? ==> Faultless(actions)
    ensures forall m :: 0 <= m < |actions| ==> !actions[m].Finish?
  {
    hide TotalSegments, Step, Plain, Written;
    if n == 0 {
      actions := [Start(true, true)];
      StartPlain(job, fate);
      assert actions[..0] == [];
    } else {
      var init := WriteThrough(job, n - 1, fate);
      var more := [Launch, Deliver(n - 1, EveryChunk(job, n - 1)), Take1, Write, Book(fate)];
      actions := init + more;
      PlainTurn(job, Exec(job, init), n - 1, fate);
      FiveSteps(job, init, more);
    }
  }

  lemma StartPlain(job: Job, fate: Fate)
    requires job.Valid()
    ensures Plain(job, Step(job, FRESH, Start(true, true)), 0) && Written(job, Step(job, FRESH, Start(true, true)), 0, fate)
  {
  }

  /** The answer of every shard for one segment. */
  ghost function EveryChunk(job: Job, i: nat): seq<Bytes>
    requires job.Valid() && i < job.Total()
  {
    seq(job.c.Total(), j requires 0 <= j < job.c.Total() => Chunk(job.c, job.file, job.blockSize, i, j))
  }

  lemma FiveSteps(job: Job, init: seq<Action>, more: seq<Action>)
    requires job.Valid() && |more| == 5
    ensures Exec(job, init + more)
      == Step(job, Step(job, Step(job, Step(job, Step(job, Exec(job, init), more[0]), more[1]), more[2]), more[3]), more[4])
  {
    hide Step;
    var all := init + more;
    var n := |init|;
    assert all[..n] == init;
    assert all[..n + 1][..n] == init && all[..n + 2][..n + 1] == all[..n + 1] && all[..n + 3][..n + 2] == all[..n + 2];
    assert all[..n + 4][..n + 3] == all[..n + 3] && all[..n + 4] == all[..|all| - 1];
    assert Exec(job, all[..n + 1]) == Step(job, Exec(job, init), more[0]);
    assert Exec(job, all[..n + 2]) == Step(job, Exec(job, all[..n + 1]), more[1]);
    assert Exec(job, all[..n + 3]) == Step(job, Exec(job, all[..n + 2]), more[2]);
    assert Exec(job, all[..n + 4]) == Step(job, Exec(job, all[..n + 3]), more[3]);
  }

  /** The same, and segment n has arrived and waits to be written. */
  ghost predicate Ready(job: Job, s: Sys, n: nat, data: Bytes)
    requires job.Valid()
  {
    && s.high == n && s.proc.Some?
    && var p := s.proc.value;
      p.next == n + 1 && p.expected == n && p.inflight == {} && p.channel == [] && p.buffer == map[n := data] && !p.midway && !p.failed
  }

  lemma PlainTurn(job: Job, s: Sys, n: nat, fate: Fate)
    requires job.Valid() && job.window >= 1 && n < job.Total() && Plain(job, s, n) && Written(job, s, n, fate)
    ensures var s1 := Step(job, s, Launch);
      var s2 := Step(job, s1, Deliver(n, EveryChunk(job, n)));
      var s5 := Step(job, Step(job, Step(job, s2, Take1), Write), Book(fate));
      Plain(job, s5, n + 1) && Written(job, s5, n + 1, fate)
  {
    hide Step, Plain, Ready, Written;
    Arrives(job, s, n);
    var data := DecodedOrEmpty(job, n, EveryChunk(job, n));
    var s3 := Step(job, Step(job, Step(job, s, Launch), Deliver(n, EveryChunk(job, n))), Take1);
    assert Written(job, s3, n, fate) by { SameCheckpoint(job, s, s3, n, fate); }
    ReadyTurn(job, s3, n, data, fate);
  }

  lemma SameCheckpoint(job: Job, s: Sys, s': Sys, n: nat, fate: Fate)
    requires job.Valid() && s'.disk == s.disk && Written(job, s, n, fate)
    ensures Written(job, s', n, fate)
  {
  }

  lemma Arrives(job: Job, s: Sys, n: nat)
    requires job.Valid() && job.window >= 1 && n < job.Total() && Plain(job, s, n)
    ensures var s3 := Step(job, Step(job, Step(job, s, Launch), Deliver(n, EveryChunk(job, n))), Take1);
      s3.disk == s.disk && Ready(job, s3, n, DecodedOrEmpty(job, n, EveryChunk(job, n)))
  {
    hide TotalSegments, Fetched, DecodedSegment, WriteAt, EveryChunk;
    assert Fetched(job.c, job.file, job.blockSize, n, EveryChunk(job, n)) by { EveryChunkFetched(job, n); }
    var s1 := Step(job, s, Launch);
    var s2 := Step(job, s1, Deliver(n, EveryChunk(job, n)));
    assert s2.proc.value.inflight == {} && s2.proc.value.channel == [(n, DecodedOrEmpty(job, n, EveryChunk(job, n)))];
  }

  lemma ReadyTurn(job: Job, s: Sys, n: nat, data: Bytes, fate: Fate)
    requires job.Valid() && n < job.Total() && Ready(job, s, n, data) && Written(job, s, n, fate)
    ensures var s2 := Step(job, Step(job, s, Write), Book(fate)); Plain(job, s2, n + 1) && Written(job, s2, n + 1, fate)
  {
    hide TotalSegments, WriteAt;
    var s1 := Step(job, s, Write);
    assert Step(job, s1, Book(fate)).proc.value.buffer == map[n := data] - {n} == map[];
  }

  lemma EveryChunkFetched(job: Job, i: nat)
    requires job.Valid() && i < job.Total()
    ensures Fetched(job.c, job.file, job.blockSize, i, EveryChunk(job, i))
  {
    hide Fetched, TotalSegments;
    AllAnswer(job.c, job.file, job.blockSize, i);
  }

  /** A checkpoint write cut short loses all progress: after a crash the next run starts over with an empty output and
      rewrites every segment ever written, more than ten of them exactly when more than ten were. */
  lemma TornCheckpointStartsOver(job: Job, actions: seq<Action>)
    requires job.Valid()
    requires var s := Exec(job, actions); s.proc.Some? && s.proc.value.midway && CheckpointDue(s.proc.value.expected, job.Total())
    ensures var s := Exec(job, actions);
      var again := Step(job, Step(job, Step(job, s, Book(StopsHalfway)), Crash), Start(true, true));
      && again.proc.Some? && again.proc.value.start == 0 && again.disk.file == []
      && again.high - again.proc.value.start == s.high
      && (TenAtMost(again) <==> s.high <= 10)
  {
    hide Exec, TotalSegments;
  }

  /** So does a start that cannot read the checkpoint: it rewrites every segment ever written. */
  lemma UnreadCheckpointStartsOver(job: Job, s: Sys, truncates: bool)
    requires job.Valid() && s.proc.None?
    ensures var again := Step(job, s, Start(false, truncates));
      again.proc.Some? && again.high - again.proc.value.start == s.high
  {
  }
}
