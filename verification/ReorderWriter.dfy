/** The single writer of pipelined retrieval: it takes segment results in any order, appends
    them in segment order and checkpoints its progress (retrieval/orchestrator_v2.go). */
module ReorderWriter {
  import opened Prelude
  import opened ReedSolomon

  /** The checkpoint file. A torn one cannot be decoded and is ignored like a missing one. */
  datatype Saved = NoCheckpoint | Torn | Saved(lastSegment: nat, bytesWritten: nat)

  datatype Disk = Disk(file: Bytes, ckpt: Saved)

  /** `midway` holds between the write of a segment and the bookkeeping that follows it. */
  datatype Writer = Writer(disk: Disk, expected: nat, totalWritten: nat, buffer: map<nat, Bytes>, midway: bool)

  function Receive(w: Writer, idx: nat, data: Bytes): Writer {
    w.(buffer := w.buffer[idx := data])
  }

  /** Writes the segment that is next in line. */
  function WriteNext(w: Writer): Writer
    requires w.expected in w.buffer
  {
    var data := w.buffer[w.expected];
    w.(disk := w.disk.(file := WriteAt(w.disk.file, w.totalWritten, data)), totalWritten := w.totalWritten + |data|, midway := true)
  }

  predicate CheckpointDue(seg: nat, totalSegments: nat) {
    seg % 10 == 0 || seg + 1 == totalSegments
  }

  /** Checkpoints if the segment just written asks for it, forgets the segment and waits for the next. */
  function Advance(w: Writer, totalSegments: nat): Writer {
    var ckpt := if CheckpointDue(w.expected, totalSegments) then Saved(w.expected, w.totalWritten) else w.disk.ckpt;
    Writer(w.disk.(ckpt := ckpt), w.expected + 1, w.totalWritten, w.buffer - {w.expected}, false)
  }

  /** One turn of the writer's inner loop. */
  function Turn(w: Writer, totalSegments: nat): (next: Writer)
    requires w.expected in w.buffer
    ensures next.buffer == w.buffer - {w.expected} && !next.midway
  {
    Advance(WriteNext(w), totalSegments)
  }

  /** Writes everything that is in line. */
  function Drained(w: Writer, totalSegments: nat): Writer
    decreases |w.buffer|
  {
    if w.expected in w.buffer then
      SmallerBuffer(w.buffer, w.expected);
      Drained(Turn(w, totalSegments), totalSegments)
    else w
  }

  lemma SmallerBuffer(buffer: map<nat, Bytes>, i: nat)
    requires i in buffer
    ensures |buffer - {i}| < |buffer|
  {
    var rest := buffer - {i};
    assert buffer.Keys == rest.Keys + {i};
    assert |buffer.Keys| == |buffer| && |rest.Keys| == |rest|;
  }

  function Accepted(w: Writer, results: seq<(nat, Bytes)>, totalSegments: nat): Writer {
    if results == [] then w
    else
      var last := results[|results| - 1];
      Drained(Receive(Accepted(w, results[..|results| - 1], totalSegments), last.0, last.1), totalSegments)
  }

  /** The last segment and every tenth one are checkpointed, and no others. */
  lemma DueExactly(seg: nat, totalSegments: nat)
    ensures CheckpointDue(seg, totalSegments) <==> seg + 1 == totalSegments || exists q: nat :: seg == 10 * q
  {
    if seg % 10 == 0 { assert seg == 10 * (seg / 10); }
  }

  class SegmentWriter {
    var file: Bytes
    var ckpt: Saved
    var expectedSegment: nat
    var totalWritten: nat
    var buffer: map<nat, Bytes>
    const totalSegments: nat

    ghost function State(): Writer
      reads this
    {
      Writer(Disk(file, ckpt), expectedSegment, totalWritten, buffer, false)
    }

    constructor (disk: Disk, startSegment: nat, written: nat, totalSegments: nat)
      ensures State() == Writer(disk, startSegment, written, map[], false) && this.totalSegments == totalSegments
    {
      file, ckpt := disk.file, disk.ckpt;
      expectedSegment, totalWritten, buffer := startSegment, written, map[];
      this.totalSegments := totalSegments;
    }

    method WriteReady()
      requires expectedSegment in buffer
      modifies this
      ensures State() == Turn(old(State()), totalSegments)
    {
      hide WriteAt;
      var ready := buffer[expectedSegment];
      file := WriteAt(file, totalWritten, ready);
      totalWritten := totalWritten + |ready|;
      if expectedSegment % 10 == 0 || expectedSegment + 1 == totalSegments {
        ckpt := Saved(expectedSegment, totalWritten);
      }
      buffer := buffer - {expectedSegment};
      expectedSegment := expectedSegment + 1;
    }

    method Accept(idx: nat, data: Bytes)
      modifies this
      ensures State() == Drained(Receive(old(State()), idx, data), totalSegments)
    {
      hide Turn;
      buffer := buffer[idx := data];
      while expectedSegment in buffer
        invariant Drained(State(), totalSegments) == Drained(Receive(old(State()), idx, data), totalSegments)
        decreases |buffer|
      {
        SmallerBuffer(buffer, expectedSegment);
        WriteReady();
      }
    }

    /** The writer goroutine: drains the channel until it is closed, then checks the barrier. */
    method Run(results: seq<(nat, Bytes)>) returns (barrier: bool)
      modifies this
      ensures State() == Accepted(old(State()), results, totalSegments)
      ensures barrier <==> expectedSegment == totalSegments
    {
      for n := 0 to |results|
        invariant State() == Accepted(old(State()), results[..n], totalSegments)
      {
        assert results[..n + 1][..n] == results[..n];
        Accept(results[n].0, results[n].1);
      }
      assert results[..|results|] == results;
      barrier := expectedSegment == totalSegments;
    }
  }

  // ----- every arrival order -----

  /** Where a segment starts in the file. */
  function Below(segs: seq<Bytes>, n: nat): nat
    requires n <= |segs|
  {
    if n == 0 then 0 else Below(segs, n - 1) + |segs[n - 1]|
  }

  /** After the results in `got`, starting from segment `start` at its place in the file: everything in line
      is written in order, the rest of what arrived waits, and the last due segment is checkpointed. */
  ghost predicate InLine(w: Writer, segs: seq<Bytes>, start: nat, got: set<nat>, before: Disk) {
    && start <= w.expected <= |segs|
    && w.totalWritten == Below(segs, w.expected) <= |w.disk.file| && Below(segs, start) <= |before.file|
    && !w.midway
    && (forall i :: start <= i < w.expected ==> i in got)
    && (forall i :: i in w.buffer <==> i in got && i >= w.expected)
    && (forall i :: i in w.buffer ==> i < |segs| && w.buffer[i] == segs[i])
    && w.disk.file[..w.totalWritten] == before.file[..Below(segs, start)] + Concat(segs[start..w.expected])
    && w.disk.ckpt == LastDue(segs, start, w.expected, before.ckpt)
  }

  /** The newest checkpoint among segments start .. n - 1. */
  function LastDue(segs: seq<Bytes>, start: nat, n: nat, ckpt: Saved): Saved
    requires n <= |segs|
  {
    if n <= start then ckpt
    else if CheckpointDue(n - 1, |segs|) then Saved(n - 1, Below(segs, n))
    else LastDue(segs, start, n - 1, ckpt)
  }

  lemma {:induction false} ConcatAppend<T>(a: seq<seq<T>>, x: seq<T>)
    ensures Concat(a + [x]) == Concat(a) + x
  {
    if a == [] {
      assert a + [x] == [x] && [x][1..] == [];
      assert x + Concat<T>([]) == x;
    } else {
      ConcatAppend(a[1..], x);
      assert (a + [x])[1..] == a[1..] + [x];
    }
  }

  lemma WriteExtends(file: Bytes, pos: nat, data: Bytes)
    requires pos <= |file|
    ensures |WriteAt(file, pos, data)| >= pos + |data|
    ensures WriteAt(file, pos, data)[..pos + |data|] == file[..pos] + data
  {
  }

  /** One turn of the inner loop keeps the line. */
  lemma InLineStep(w: Writer, segs: seq<Bytes>, start: nat, got: set<nat>, before: Disk)
    requires InLine(w, segs, start, got, before) && w.expected in w.buffer
    ensures InLine(Turn(w, |segs|), segs, start, got, before)
  {
    hide WriteAt;
    var e := w.expected;
    NextPrefix(w.disk.file, w.totalWritten, before.file[..Below(segs, start)], segs, start, e);
    hide Concat;
  }

  lemma NextPrefix(file: Bytes, pos: nat, head: Bytes, segs: seq<Bytes>, start: nat, e: nat)
    requires start <= e < |segs| && pos <= |file| && file[..pos] == head + Concat(segs[start..e])
    ensures |WriteAt(file, pos, segs[e])| >= pos + |segs[e]|
    ensures WriteAt(file, pos, segs[e])[..pos + |segs[e]|] == head + Concat(segs[start..e + 1])
  {
    hide WriteAt;
    WriteExtends(file, pos, segs[e]);
    ConcatAppend(segs[start..e], segs[e]);
    assert segs[start..e] + [segs[e]] == segs[start..e + 1];
    assert head + (Concat(segs[start..e]) + segs[e]) == (head + Concat(segs[start..e])) + segs[e];
  }

  lemma {:induction false} DrainedInLine(w: Writer, segs: seq<Bytes>, start: nat, got: set<nat>, before: Disk)
    requires InLine(w, segs, start, got, before)
    ensures InLine(Drained(w, |segs|), segs, start, got, before)
    ensures Drained(w, |segs|).expected !in Drained(w, |segs|).buffer
    decreases |w.buffer|
  {
    hide InLine, Turn;
    if w.expected in w.buffer {
      InLineStep(w, segs, start, got, before);
      SmallerBuffer(w.buffer, w.expected);
      DrainedInLine(Turn(w, |segs|), segs, start, got, before);
    }
  }

  /** The segments that arrived. */
  ghost function Arrived(results: seq<(nat, Bytes)>): set<nat> {
    set r | r in results :: r.0
  }

  /** Results of distinct segments that are still to be written, each with the segment's own bytes. */
  ghost predicate Results(results: seq<(nat, Bytes)>, segs: seq<Bytes>, start: nat) {
    && (forall p :: 0 <= p < |results| ==> start <= results[p].0 < |segs| && results[p].1 == segs[results[p].0])
    && (forall p, q :: 0 <= p < q < |results| ==> results[p].0 != results[q].0)
  }

  lemma {:induction false} AcceptedInLine(w: Writer, segs: seq<Bytes>, start: nat, results: seq<(nat, Bytes)>, before: Disk)
    requires Results(results, segs, start)
    requires InLine(w, segs, start, {}, before) && w.expected == start
    ensures var after := Accepted(w, results, |segs|);
      InLine(after, segs, start, Arrived(results), before) && after.expected !in after.buffer
  {
    if results != [] {
      var init, last := results[..|results| - 1], results[|results| - 1];
      AcceptedInLine(w, segs, start, init, before);
      var mid := Accepted(w, init, |segs|);
      ArrivedMore(init, last);
      assert results == init + [last];
      LateResult(mid, segs, start, Arrived(init), before, last);
      DrainedInLine(Receive(mid, last.0, last.1), segs, start, Arrived(results), before);
    }
  }

  lemma ArrivedMore(init: seq<(nat, Bytes)>, last: (nat, Bytes))
    requires forall p :: 0 <= p < |init| ==> init[p].0 != last.0
    ensures Arrived(init + [last]) == Arrived(init) + {last.0} && last.0 !in Arrived(init)
  {
    forall i ensures i in Arrived(init + [last]) <==> i in Arrived(init) + {last.0} {
      if i in Arrived(init + [last]) {
        var r :| r in init + [last] && r.0 == i;
        if r != last { assert r in init; }
      }
      if i in Arrived(init) {
        var r :| r in init && r.0 == i;
        assert r in init + [last];
      }
      assert last in init + [last];
    }
  }

  lemma LateResult(w: Writer, segs: seq<Bytes>, start: nat, got: set<nat>, before: Disk, r: (nat, Bytes))
    requires InLine(w, segs, start, got, before) && w.expected !in w.buffer
    requires start <= r.0 < |segs| && r.1 == segs[r.0] && r.0 !in got
    ensures InLine(Receive(w, r.0, r.1), segs, start, got + {r.0}, before)
  {
  }

  /** For every arrival order of any segments: the bytes written are the segments from the first one on in
      segment order, up to the first that has not arrived; the newest checkpoint records exactly the bytes up to its
      segment; and the barrier passes exactly when all segments arrived. */
  lemma AnyOrder(disk: Disk, segs: seq<Bytes>, start: nat, results: seq<(nat, Bytes)>)
    requires start <= |segs| && Below(segs, start) <= |disk.file| && Results(results, segs, start)
    ensures var w := Accepted(Writer(disk, start, Below(segs, start), map[], false), results, |segs|);
      && start <= w.expected <= |segs|
      && (forall i :: start <= i < w.expected ==> i in Arrived(results)) && w.expected !in Arrived(results)
      && Below(segs, w.expected) <= |w.disk.file|
      && w.disk.file[..Below(segs, w.expected)] == disk.file[..Below(segs, start)] + Concat(segs[start..w.expected])
      && w.disk.ckpt == LastDue(segs, start, w.expected, disk.ckpt)
      && (w.expected == |segs| <==> forall i :: start <= i < |segs| ==> i in Arrived(results))
  {
    var w0 := Writer(disk, start, Below(segs, start), map[], false);
    assert segs[start..start] == [];
    AcceptedInLine(w0, segs, start, results, disk);
    var w := Accepted(w0, results, |segs|);
    assert w.expected in Arrived(results) <==> w.expected in w.buffer;
  }

  /** Once all segments have arrived, in any order, the checkpoint names the last one and all the bytes. */
  lemma LastCheckpoint(disk: Disk, segs: seq<Bytes>, start: nat, results: seq<(nat, Bytes)>)
    requires start < |segs| && Below(segs, start) <= |disk.file| && Results(results, segs, start)
    requires forall i :: start <= i < |segs| ==> i in Arrived(results)
    ensures var w := Accepted(Writer(disk, start, Below(segs, start), map[], false), results, |segs|);
      w.disk.ckpt == Saved(|segs| - 1, Below(segs, |segs|))
  {
    AnyOrder(disk, segs, start, results);
    DueExactly(|segs| - 1, |segs|);
  }
}
