/**
 What the Perfetto export draws: every slice of the timeline once, on the track of its task
 and under its own name, interrupts shortened to the RUNNING slice they start in.
 */
module XtraceExport {
  import opened Options
  import opened XtraceTasks
  import opened XtraceCpuLoad
  import opened XtracePerfetto
  import opened XtraceNesting

  // ----- What is to be drawn -------------------------------------------------------------

  /** A RUNNING slice of the interrupt's task that contains its first instant, its own end included. */
  predicate RunsAtStart(s: Slice, isr: Slice) {
    s.tid == isr.tid && s.name == Task(RUNNING) && s.ts <= isr.ts <= s.ts + s.dur
  }

  /** Such a slice, and none before it in the list. */
  ghost predicate FirstRunning(slices: seq<Slice>, isr: Slice, p: nat) {
    p < |slices| && RunsAtStart(slices[p], isr) && forall q :: 0 <= q < p ==> !RunsAtStart(slices[q], isr)
  }

  /** An interrupt is drawn to its own end or to that of the first such slice, whichever is earlier, in nanoseconds. */
  ghost predicate DrawnTo(slices: seq<Slice>, isr: Slice, end: nat) {
    var own := 1000 * (isr.ts + isr.dur);
    if p: nat :| FirstRunning(slices, isr, p)
    then end == if own <= 1000 * (slices[p].ts + slices[p].dur) then own else 1000 * (slices[p].ts + slices[p].dur)
    else end == own
  }

  /** `x` is how `s` is to be drawn. */
  ghost predicate DrawsAs(slices: seq<Slice>, s: Slice, x: Emitted) {
    && x.uuid == 0x1001 + s.tid && x.name == s.name && x.ts == 1000 * s.ts
    && if s.name.Task? then x.end == 1000 * (s.ts + s.dur) else x.ts < x.end && DrawnTo(slices, s, x.end)
  }

  /** How many of `some` are to be drawn as `x`. */
  ghost function Times(slices: seq<Slice>, some: seq<Slice>, x: Emitted): nat {
    if some == [] then 0 else (if DrawsAs(slices, some[0], x) then 1 else 0) + Times(slices, some[1..], x)
  }

  // ----- Clipping, by position in the whole list -------------------------------------------

  lemma {:induction false} ContainingFirst(slices: seq<Slice>, isr: Slice)
    ensures var c := Containing(StateRow(slices, isr.tid), isr);
      && (c.None? <==> forall p: nat :: !FirstRunning(slices, isr, p))
      && (c.Some? ==> exists p: nat :: FirstRunning(slices, isr, p) && slices[p] == c.value)
  {
    if slices != [] {
      var rest := slices[1..];
      ContainingFirst(rest, isr);
      ContainingHead(slices, isr);
      if RunsAtStart(slices[0], isr) {
        assert FirstRunning(slices, isr, 0);
      } else {
        forall p: nat ensures FirstRunning(slices, isr, p) <==> p > 0 && FirstRunning(rest, isr, p - 1) {
          FirstLater(slices, isr, p);
        }
        if p: nat :| FirstRunning(rest, isr, p) {
          assert FirstRunning(slices, isr, p + 1) && slices[p + 1] == rest[p];
        }
      }
    }
  }

  lemma ContainingHead(slices: seq<Slice>, isr: Slice)
    requires slices != []
    ensures Containing(StateRow(slices, isr.tid), isr)
      == if RunsAtStart(slices[0], isr) then Some(slices[0]) else Containing(StateRow(slices[1..], isr.tid), isr)
  {
    var row := StateRow(slices[1..], isr.tid);
    assert ([slices[0]] + row)[1..] == row && [] + row == row;
  }

  lemma FirstLater(slices: seq<Slice>, isr: Slice, p: nat)
    requires slices != [] && !RunsAtStart(slices[0], isr)
    ensures FirstRunning(slices, isr, p) <==> p > 0 && FirstRunning(slices[1..], isr, p - 1)
  {
    var rest := slices[1..];
    if p > 0 && FirstRunning(slices, isr, p) {
      assert forall q :: 0 <= q < p - 1 ==> rest[q] == slices[q + 1];
    }
    if p > 0 && FirstRunning(rest, isr, p - 1) {
      forall q | 0 <= q < p ensures !RunsAtStart(slices[q], isr) {
        assert q > 0 ==> slices[q] == rest[q - 1];
      }
    }
  }

  lemma FirstIsOne(slices: seq<Slice>, isr: Slice, p: nat, q: nat)
    requires FirstRunning(slices, isr, p) && FirstRunning(slices, isr, q)
    ensures p == q
  {
  }

  /** The exporter's clipping is what is to be drawn. */
  lemma ClipDraws(slices: seq<Slice>, isr: Slice, x: Emitted)
    requires isr.name.Isr?
    ensures ClipIsr(StateRow(slices, isr.tid), isr) == [x] <==> DrawsAs(slices, isr, x)
  {
    hide StateRow, Containing, FirstRunning;
    ContainingFirst(slices, isr);
    if p: nat :| FirstRunning(slices, isr, p) {
      forall q: nat | FirstRunning(slices, isr, q) ensures p == q {
        FirstIsOne(slices, isr, p, q);
      }
    }
  }

  // ----- Every slice once ----------------------------------------------------------------

  lemma CountOne(y: seq<Emitted>, s: seq<Emitted>, x: Emitted)
    requires |y| <= 1
    ensures multiset(y + s)[x] == multiset(s)[x] + if y == [x] then 1 else 0
  {
  }

  /** The slices of `some` drawn on the row of a task. */
  lemma {:induction false} RowTimes(slices: seq<Slice>, some: seq<Slice>, tid: nat, x: Emitted)
    ensures multiset(EmitStates(StateRow(some, tid)))[x]
      + multiset(EmitIsrs(StateRow(slices, tid), IsrRow(some, tid)))[x]
      == if x.uuid == 0x1001 + tid then Times(slices, some, x) else 0
    decreases |some|
  {
    hide ClipIsr, DrawsAs;
    if some != [] {
      var s, rest := some[0], some[1..];
      RowTimes(slices, rest, tid, x);
      RowHead(slices, some, tid);
      DrawsOnTrack(slices, s, x);
      if s.tid == tid {
        if s.name.Isr? {
          ClipIsrSize(StateRow(slices, tid), s);
          ClipDraws(slices, s, x);
          CountOne(ClipIsr(StateRow(slices, tid), s), EmitIsrs(StateRow(slices, tid), IsrRow(rest, tid)), x);
        } else {
          CountOne([ToEmitted(s)], EmitStates(StateRow(rest, tid)), x);
          StateDraws(slices, s, x);
        }
      }
    }
  }

  lemma RowHead(slices: seq<Slice>, some: seq<Slice>, tid: nat)
    requires some != []
    ensures var s, states := some[0], StateRow(slices, tid);
      var a, b := EmitStates(StateRow(some[1..], tid)), EmitIsrs(states, IsrRow(some[1..], tid));
      && EmitStates(StateRow(some, tid)) == (if s.tid == tid && s.name.Task? then [ToEmitted(s)] + a else a)
      && EmitIsrs(states, IsrRow(some, tid)) == (if s.tid == tid && s.name.Isr? then ClipIsr(states, s) + b else b)
  {
    hide ClipIsr, ToEmitted;
    var s, row, isrs := some[0], StateRow(some[1..], tid), IsrRow(some[1..], tid);
    assert ([s] + row)[1..] == row && ([s] + isrs)[1..] == isrs && [] + row == row && [] + isrs == isrs;
  }

  lemma DrawsOnTrack(slices: seq<Slice>, s: Slice, x: Emitted)
    ensures DrawsAs(slices, s, x) ==> x.uuid == 0x1001 + s.tid
  {
  }

  lemma StateDraws(slices: seq<Slice>, s: Slice, x: Emitted)
    requires s.name.Task?
    ensures ToEmitted(s) == x <==> DrawsAs(slices, s, x)
  {
  }

  lemma {:induction false} NoTimes(slices: seq<Slice>, some: seq<Slice>, x: Emitted)
    requires forall s :: s in some ==> x.uuid != 0x1001 + s.tid
    ensures Times(slices, some, x) == 0
    decreases |some|
  {
    hide DrawsAs;
    if some != [] {
      DrawsOnTrack(slices, some[0], x);
      assert some[0] in some && forall s :: s in some[1..] ==> s in some;
      NoTimes(slices, some[1..], x);
    }
  }

  lemma {:induction false} TracksTimes(slices: seq<Slice>, tids: seq<nat>, x: Emitted)
    requires Ascending(tids)
    ensures multiset(ClipTasks(slices, tids))[x]
      == if x.uuid >= 0x1001 && x.uuid - 0x1001 in tids then Times(slices, slices, x) else 0
    decreases |tids|
  {
    hide ClipTask, Times;
    if tids != [] {
      var first, rest := tids[0], tids[1..];
      assert forall k :: 0 <= k < |rest| ==> first < rest[k];
      TracksTimes(slices, rest, x);
      TrackTimes(slices, first, x);
      assert forall tid :: tid in tids <==> tid == first || tid in rest;
    }
  }

  lemma TrackTimes(slices: seq<Slice>, tid: nat, x: Emitted)
    ensures multiset(ClipTask(slices, tid))[x] == if x.uuid == 0x1001 + tid then Times(slices, slices, x) else 0
  {
    hide EmitStates, EmitIsrs, Times;
    RowTimes(slices, slices, tid, x);
  }

  /** The export holds every slice of the timeline exactly as often as it is there, as it is to be drawn. */
  lemma ExportIsTimeline(slices: seq<Slice>, x: Emitted)
    ensures multiset(Exported(slices))[x] == Times(slices, slices, x)
  {
    hide ClipTasks, TaskIds, Times;
    TaskIdsFacts(slices);
    TracksTimes(slices, TaskIds(slices), x);
    if x.uuid < 0x1001 || x.uuid - 0x1001 !in TaskIds(slices) {
      forall s | s in slices ensures x.uuid != 0x1001 + s.tid {
        TidInTids(slices, s);
      }
      NoTimes(slices, slices, x);
    }
  }

  lemma {:induction false} TimesMeans(slices: seq<Slice>, some: seq<Slice>, x: Emitted)
    ensures Times(slices, some, x) > 0 <==> exists s :: s in some && DrawsAs(slices, s, x)
    decreases |some|
  {
    hide DrawsAs;
    if some != [] {
      TimesMeans(slices, some[1..], x);
      assert forall s :: s in some <==> s == some[0] || s in some[1..];
    }
  }

  lemma ExportedIff(slices: seq<Slice>, x: Emitted)
    ensures x in Exported(slices) <==> exists s :: s in slices && DrawsAs(slices, s, x)
  {
    hide Exported, Times, DrawsAs;
    ExportIsTimeline(slices, x);
    TimesMeans(slices, slices, x);
    assert x in Exported(slices) <==> x in multiset(Exported(slices));
  }

  // ----- What the viewer sees ------------------------------------------------------------

  /** The track of the task has a slice named after the state over this nanosecond. */
  ghost predicate ExportShows(em: seq<Emitted>, tid: nat, state: State, ns: nat) {
    exists x :: x in em && x.uuid == 0x1001 + tid && x.name == Task(state) && x.ts <= ns < x.end
  }

  /** On every track the export shows a state at a nanosecond exactly when the timeline does at that microsecond. */
  lemma ExportShowsStates(slices: seq<Slice>, tid: nat, state: State, ns: nat)
    ensures ExportShows(Exported(slices), tid, state, ns) <==> Shows(slices, tid, state, ns / 1000)
  {
    hide Exported, DrawnTo;
    if x :| x in Exported(slices) && x.uuid == 0x1001 + tid && x.name == Task(state) && x.ts <= ns < x.end {
      ExportedIff(slices, x);
      var s :| s in slices && DrawsAs(slices, s, x);
      var i :| 0 <= i < |slices| && slices[i] == s;
      assert Covers(slices[i], tid, state, ns / 1000);
    }
    if Shows(slices, tid, state, ns / 1000) {
      var i :| 0 <= i < |slices| && Covers(slices[i], tid, state, ns / 1000);
      var s := slices[i];
      var x := Emitted(1000 * s.ts, 1000 * (s.ts + s.dur), s.name, 0x1001 + s.tid);
      assert s in slices && DrawsAs(slices, s, x);
      ExportedIff(slices, x);
    }
  }

  /** From the scheduler's events to the picture, for every trace that drops no begun interval. */
  lemma ExportIsTrue(recs: seq<Rec>, end: nat, tid: nat, state: State, ns: nat)
    requires Chronicle(recs) && LastTime(recs) <= end
    ensures ExportShows(Exported(Timeline(recs, end)), tid, state, ns)
      <==> ns / 1000 < end && WasIn(recs, tid, state, ns / 1000)
  {
    hide ExportShows, Exported, Shows, Timeline;
    ExportShowsStates(Timeline(recs, end), tid, state, ns);
    TimelineIsTrue(recs, end, tid, state, ns / 1000);
  }
}
