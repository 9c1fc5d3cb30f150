/**
 Reconstruction of task timelines from scheduler events (`TaskStateTracker`). Functions on
 `Tracker` specify one call; the class is proved against them; the theorems say that the
 slices show, at every instant, exactly the state the scheduler events had set.
 */
module XtraceTasks {
  import opened Options

  datatype State = RUNNING | READY | BLOCKED

  datatype Label = Task(state: State) | Isr(vector: nat)

  /** One complete event of the timeline: [ts, ts + dur) on the row of task `tid`. */
  datatype Slice = Slice(name: Label, tid: nat, ts: nat, dur: nat)

  datatype Kind = KERNEL_START | TASK_SWITCH | TASK_BLOCK | TASK_READY | TASK_TIMEOUT | TASK_EXIT | ISR_ENTER
    | ISR_EXIT | OTHER

  datatype Rec = Rec(kind: Kind, ts: nat, params: seq<nat>)

  datatype Open = Open(state: State, start: nat)
  datatype Interrupt = Interrupt(tid: nat, vector: nat, start: nat)

  /** Fields of the tracker; `order` is the insertion order of the dictionary `open`. */
  datatype Tracker = Tracker(running: Option<nat>, open: map<nat, Open>, order: seq<nat>, slices: seq<Slice>,
                             isr: seq<Interrupt>)

  const INITIAL := Tracker(None, map[], [], [], [])

  function Without(order: seq<nat>, tid: nat): seq<nat> {
    if order == [] then [] else if order[0] == tid then order[1..] else [order[0]] + Without(order[1..], tid)
  }

  // ----- One event -------------------------------------------------------------------

  function End(t: Tracker, tid: nat, ts: nat): Tracker {
    if tid !in t.open then t
    else
      var o := t.open[tid];
      var closed := t.(open := t.open - {tid}, order := Without(t.order, tid));
      if ts > o.start then closed.(slices := t.slices + [Slice(Task(o.state), tid, o.start, ts - o.start)]) else closed
  }

  function Begin(t: Tracker, tid: nat, state: State, ts: nat): Tracker {
    t.(open := t.open[tid := Open(state, ts)], order := if tid in t.open then t.order else t.order + [tid])
  }

  function StateOf(t: Tracker, tid: nat): Option<State> {
    if tid in t.open then Some(t.open[tid].state) else None
  }

  function Param(rec: Rec, i: nat): Option<nat> {
    if i < |rec.params| then Some(rec.params[i]) else None
  }

  function SwitchOut(t: Tracker, prev: Option<nat>, ts: nat): Tracker {
    if prev.Some? && StateOf(t, prev.value) == Some(RUNNING) then Begin(End(t, prev.value, ts), prev.value, READY, ts)
    else t
  }

  function SwitchIn(t: Tracker, next: Option<nat>, ts: nat): Tracker {
    if next.Some? then Begin(End(t, next.value, ts), next.value, RUNNING, ts).(running := next) else t
  }

  function Process(t: Tracker, rec: Rec): Tracker {
    match rec.kind
    case KERNEL_START =>
      var first := if rec.params != [] then rec.params[0] else 0;
      Begin(t, first, RUNNING, rec.ts).(running := Some(first))
    case TASK_SWITCH =>
      SwitchIn(SwitchOut(t, Param(rec, 0), rec.ts), Param(rec, 1), rec.ts)
    case TASK_BLOCK =>
      var task := if rec.params != [] then Some(rec.params[0]) else t.running;
      if task.None? then t
      else
        var u := Begin(End(t, task.value, rec.ts), task.value, BLOCKED, rec.ts);
        if t.running == task then u.(running := None) else u
    case TASK_READY =>
      if rec.params != [] then Begin(End(t, rec.params[0], rec.ts), rec.params[0], READY, rec.ts) else t
    case TASK_TIMEOUT =>
      if rec.params != [] then Begin(End(t, rec.params[0], rec.ts), rec.params[0], READY, rec.ts) else t
    case TASK_EXIT => if rec.params != [] then End(t, rec.params[0], rec.ts) else t
    case ISR_ENTER =>
      if t.running.None? then t
      else t.(isr := t.isr + [Interrupt(t.running.value, if rec.params != [] then rec.params[0] else 0, rec.ts)])
    case ISR_EXIT =>
      if t.isr == [] then t
      else
        var top := t.isr[|t.isr| - 1];
        var popped := t.(isr := t.isr[..|t.isr| - 1]);
        if rec.ts > top.start then
          popped.(slices := t.slices + [Slice(Isr(top.vector), top.tid, top.start, rec.ts - top.start)])
        else popped
    case OTHER => t
  }

  function EndAll(t: Tracker, tids: seq<nat>, ts: nat): Tracker
    decreases |tids|
  {
    if tids == [] then t else EndAll(End(t, tids[0], ts), tids[1..], ts)
  }

  function Finalize(t: Tracker, ts: nat): Tracker {
    EndAll(t, t.order, ts)
  }

  function Run(t: Tracker, recs: seq<Rec>): Tracker
    decreases |recs|
  {
    if recs == [] then t else Process(Run(t, recs[..|recs| - 1]), recs[|recs| - 1])
  }

  // ----- The tracker -----------------------------------------------------------------

  class TaskStateTracker {
    var running: Option<nat>
    var open: map<nat, Open>
    var order: seq<nat>
    var slices: seq<Slice>
    var isrStack: seq<Interrupt>

    ghost function Abstract(): Tracker
      reads this
    {
      Tracker(running, open, order, slices, isrStack)
    }

    constructor ()
      ensures Abstract() == INITIAL
    {
      running, open, order, slices, isrStack := None, map[], [], [], [];
    }

    method BeginState(tid: nat, state: State, ts: nat)
      modifies this
      ensures Abstract() == Begin(old(Abstract()), tid, state, ts)
    {
      if tid !in open {
        order := order + [tid];
      }
      open := open[tid := Open(state, ts)];
    }

    method EndState(tid: nat, ts: nat)
      modifies this
      ensures Abstract() == End(old(Abstract()), tid, ts)
    {
      if tid !in open {
        return;
      }
      var o := open[tid];
      open := open - {tid};
      order := Without(order, tid);
      var dur := if ts - o.start > 0 then ts - o.start else 0;
      if dur > 0 {
        slices := slices + [Slice(Task(o.state), tid, o.start, dur)];
      }
    }

    method ProcessRecord(rec: Rec)
      modifies this
      ensures Abstract() == Process(old(Abstract()), rec)
    {
      hide Begin, End;
      var ts := rec.ts;
      match rec.kind {
        case KERNEL_START =>
          var first := if rec.params != [] then rec.params[0] else 0;
          BeginState(first, RUNNING, ts);
          running := Some(first);
        case TASK_SWITCH =>
          var prev := if |rec.params| > 0 then Some(rec.params[0]) else None;
          var next := if |rec.params| > 1 then Some(rec.params[1]) else None;
          if prev.Some? {
            if prev.value in open && open[prev.value].state == RUNNING {
              EndState(prev.value, ts);
              BeginState(prev.value, READY, ts);
            }
          }
          if next.Some? {
            EndState(next.value, ts);
            BeginState(next.value, RUNNING, ts);
            running := next;
          }
        case TASK_BLOCK =>
          var task := if rec.params != [] then Some(rec.params[0]) else running;
          if task.Some? {
            ghost var before := running;
            EndState(task.value, ts);
            BeginState(task.value, BLOCKED, ts);
            EndBeginKeepRunning(old(Abstract()), task.value, BLOCKED, ts);
            if running == task {
              running := None;
            }
          }
        case TASK_READY =>
          if rec.params != [] {
            EndState(rec.params[0], ts);
            BeginState(rec.params[0], READY, ts);
          }
        case TASK_TIMEOUT =>
          if rec.params != [] {
            EndState(rec.params[0], ts);
            BeginState(rec.params[0], READY, ts);
          }
        case TASK_EXIT =>
          if rec.params != [] {
            EndState(rec.params[0], ts);
          }
        case ISR_ENTER =>
          if running.Some? {
            var vector := if rec.params != [] then rec.params[0] else 0;
            isrStack := isrStack + [Interrupt(running.value, vector, ts)];
          }
        case ISR_EXIT =>
          if isrStack != [] {
            var top := isrStack[|isrStack| - 1];
            isrStack := isrStack[..|isrStack| - 1];
            var dur := if ts - top.start > 0 then ts - top.start else 0;
            if dur > 0 {
              slices := slices + [Slice(Isr(top.vector), top.tid, top.start, dur)];
            }
          }
        case OTHER =>
      }
    }

    /** `finalize`: closes what is open, in dictionary order. */
    method FinalizeAt(ts: nat)
      modifies this
      ensures Abstract() == Finalize(old(Abstract()), ts)
    {
      hide End;
      var tids := order;
      assert tids[0..] == tids;
      for i := 0 to |tids|
        invariant EndAll(Abstract(), tids[i..], ts) == Finalize(old(Abstract()), ts)
      {
        assert tids[i..][1..] == tids[i + 1..];
        EndState(tids[i], ts);
      }
    }
  }

  lemma EndBeginKeepRunning(t: Tracker, tid: nat, state: State, ts: nat)
    ensures Begin(End(t, tid, ts), tid, state, ts).running == t.running
  {
  }

  // ----- What the events say, without times or slices ---------------------------------

  /** The scheduler as the events describe it: who runs, and the state of every live task. */
  datatype Scheduler = Scheduler(running: Option<nat>, states: map<nat, State>)

  function First(rec: Rec): nat {
    if rec.params != [] then rec.params[0] else 0
  }

  function Advance(s: Scheduler, rec: Rec): Scheduler {
    match rec.kind
    case KERNEL_START => Scheduler(Some(First(rec)), s.states[First(rec) := RUNNING])
    case TASK_SWITCH =>
      var prev, next := Param(rec, 0), Param(rec, 1);
      var out := if prev.Some? && prev.value in s.states && s.states[prev.value] == RUNNING
                 then s.states[prev.value := READY] else s.states;
      if next.Some? then Scheduler(next, out[next.value := RUNNING]) else Scheduler(s.running, out)
    case TASK_BLOCK =>
      var task := if rec.params != [] then Some(rec.params[0]) else s.running;
      if task.None? then s
      else Scheduler(if s.running == task then None else s.running, s.states[task.value := BLOCKED])
    case TASK_READY => if rec.params != [] then s.(states := s.states[rec.params[0] := READY]) else s
    case TASK_TIMEOUT => if rec.params != [] then s.(states := s.states[rec.params[0] := READY]) else s
    case TASK_EXIT => if rec.params != [] then s.(states := s.states - {rec.params[0]}) else s
    case ISR_ENTER => s
    case ISR_EXIT => s
    case OTHER => s
  }

  function Scheduled(recs: seq<Rec>): Scheduler
    decreases |recs|
  {
    if recs == [] then Scheduler(None, map[]) else Advance(Scheduled(recs[..|recs| - 1]), recs[|recs| - 1])
  }

  function View(t: Tracker): Scheduler {
    Scheduler(t.running, map tid | tid in t.open :: t.open[tid].state)
  }

  lemma ViewOfEnd(t: Tracker, tid: nat, ts: nat)
    ensures View(End(t, tid, ts)) == View(t).(states := View(t).states - {tid})
  {
  }

  lemma ViewOfBegin(t: Tracker, tid: nat, state: State, ts: nat)
    ensures View(Begin(t, tid, state, ts)) == View(t).(states := View(t).states[tid := state])
  {
  }

  lemma ViewOfMove(t: Tracker, tid: nat, state: State, ts: nat)
    ensures View(Begin(End(t, tid, ts), tid, state, ts)) == View(t).(states := View(t).states[tid := state])
  {
    hide Begin, End, View;
    ViewOfEnd(t, tid, ts);
    ViewOfBegin(End(t, tid, ts), tid, state, ts);
    assert (View(t).states - {tid})[tid := state] == View(t).states[tid := state];
  }

  lemma ViewOfRunning(t: Tracker, running: Option<nat>)
    ensures View(t.(running := running)) == View(t).(running := running) && View(t).running == t.running
    ensures forall tid :: StateOf(t, tid) == if tid in View(t).states then Some(View(t).states[tid]) else None
  {
  }

  /** The tracker's own fields follow the scheduler of the events, one event at a time. */
  lemma ViewOfProcess(t: Tracker, rec: Rec)
    ensures View(Process(t, rec)) == Advance(View(t), rec)
  {
    hide Begin, End, StateOf;
    ViewOfRunning(t, None);
    match rec.kind {
      case KERNEL_START =>
        ViewOfBegin(t, First(rec), RUNNING, rec.ts);
        ViewOfRunning(Begin(t, First(rec), RUNNING, rec.ts), Some(First(rec)));
      case TASK_SWITCH =>
        var prev, next := Param(rec, 0), Param(rec, 1);
        if prev.Some? {
          ViewOfMove(t, prev.value, READY, rec.ts);
        }
        var u := SwitchOut(t, prev, rec.ts);
        if next.Some? {
          ViewOfMove(u, next.value, RUNNING, rec.ts);
          ViewOfRunning(Begin(End(u, next.value, rec.ts), next.value, RUNNING, rec.ts), next);
        }
      case TASK_BLOCK =>
        var task := if rec.params != [] then Some(rec.params[0]) else t.running;
        if task.Some? {
          ViewOfMove(t, task.value, BLOCKED, rec.ts);
          ViewOfRunning(Begin(End(t, task.value, rec.ts), task.value, BLOCKED, rec.ts), None);
        }
      case TASK_READY => if rec.params != [] { ViewOfMove(t, rec.params[0], READY, rec.ts); }
      case TASK_TIMEOUT => if rec.params != [] { ViewOfMove(t, rec.params[0], READY, rec.ts); }
      case TASK_EXIT => if rec.params != [] { ViewOfEnd(t, rec.params[0], rec.ts); }
      case ISR_ENTER =>
      case ISR_EXIT =>
      case OTHER =>
    }
  }

  lemma {:induction false} ViewOfRun(recs: seq<Rec>)
    ensures View(Run(INITIAL, recs)) == Scheduled(recs)
    decreases |recs|
  {
    hide Process, Advance;
    if recs == [] {
      assert View(INITIAL).states == map[];
    } else {
      ViewOfRun(recs[..|recs| - 1]);
      ViewOfProcess(Run(INITIAL, recs[..|recs| - 1]), recs[|recs| - 1]);
    }
  }

  // ----- One task runs at a time -----------------------------------------------------

  /** At most one task is RUNNING, and it is the one called running. */
  ghost predicate OneRuns(s: Scheduler) {
    forall tid :: tid in s.states && s.states[tid] == RUNNING ==> s.running == Some(tid)
  }

  /**
   What an event must not do for one task to run at a time: start the kernel beside a
   running task, or switch to a task without taking the processor from the one running.
   */
  ghost predicate HandsOver(s: Scheduler, rec: Rec) {
    forall tid :: tid in s.states && s.states[tid] == RUNNING ==>
      && (rec.kind == KERNEL_START ==> tid == First(rec))
      && (rec.kind == TASK_SWITCH && |rec.params| > 1 ==> tid == rec.params[0] || tid == rec.params[1])
  }

  /** One event keeps a single running task exactly when it hands the processor over. */
  lemma OneRunsStep(s: Scheduler, rec: Rec)
    requires OneRuns(s)
    ensures OneRuns(Advance(s, rec)) <==> HandsOver(s, rec)
  {
    var u := Advance(s, rec);
    if !HandsOver(s, rec) {
      var tid :| tid in s.states && s.states[tid] == RUNNING && !(
        && (rec.kind == KERNEL_START ==> tid == First(rec))
        && (rec.kind == TASK_SWITCH && |rec.params| > 1 ==> tid == rec.params[0] || tid == rec.params[1]));
      assert tid in u.states && u.states[tid] == RUNNING && u.running != Some(tid);
    }
  }

  // ----- The timeline at an instant --------------------------------------------------

  ghost predicate Covers(s: Slice, tid: nat, state: State, at: nat) {
    s.tid == tid && s.name == Task(state) && s.ts <= at < s.ts + s.dur
  }

  /** Some slice shows the task in this state at this instant. */
  ghost predicate Shows(slices: seq<Slice>, tid: nat, state: State, at: nat) {
    exists i :: 0 <= i < |slices| && Covers(slices[i], tid, state, at)
  }

  /** As `Shows`, counting the open interval of the task up to `now`. */
  ghost predicate Holds(t: Tracker, now: nat, tid: nat, state: State, at: nat) {
    Shows(t.slices, tid, state, at) || (tid in t.open && t.open[tid].state == state && t.open[tid].start <= at < now)
  }

  /** Nothing recorded lies after `now`, and `order` lists the open tasks once each. */
  ghost predicate UpTo(t: Tracker, now: nat) {
    && (forall tid :: tid in t.open ==> t.open[tid].start <= now)
    && (forall i :: 0 <= i < |t.slices| && t.slices[i].name.Task? ==> t.slices[i].ts + t.slices[i].dur <= now)
    && (forall tid :: tid in t.open <==> tid in t.order)
    && (forall i, j :: 0 <= i < j < |t.order| ==> t.order[i] != t.order[j])
  }

  lemma {:induction false} WithoutFacts(order: seq<nat>, tid: nat)
    requires forall i, j :: 0 <= i < j < |order| ==> order[i] != order[j]
    ensures var w := Without(order, tid);
      && (forall x :: x in w <==> x in order && x != tid)
      && (forall i, j :: 0 <= i < j < |w| ==> w[i] != w[j])
  {
    if order != [] {
      var rest := order[1..];
      WithoutFacts(rest, tid);
      assert forall k :: 0 <= k < |rest| ==> rest[k] == order[k + 1];
      assert order[0] !in rest;
      assert forall x :: x in order <==> x == order[0] || x in rest;
    }
  }

  lemma ShowsSnoc(slices: seq<Slice>, s: Slice, tid: nat, state: State, at: nat)
    ensures Shows(slices + [s], tid, state, at) <==> Shows(slices, tid, state, at) || Covers(s, tid, state, at)
  {
    var all := slices + [s];
    assert all[|slices|] == s;
    if Shows(slices, tid, state, at) {
      var i :| 0 <= i < |slices| && Covers(slices[i], tid, state, at);
      assert all[i] == slices[i];
    }
    if Shows(all, tid, state, at) {
      var i :| 0 <= i < |all| && Covers(all[i], tid, state, at);
      assert i < |slices| ==> all[i] == slices[i];
    }
  }

  /** Closing an interval moves it from the open ones to the slices, instant by instant. */
  lemma EndHolds(t: Tracker, tid: nat, ts: nat)
    requires UpTo(t, ts)
    ensures UpTo(End(t, tid, ts), ts) && tid !in End(t, tid, ts).open
    ensures forall id: nat, state: State, at: nat :: at < ts ==>
      (Holds(End(t, tid, ts), ts, id, state, at) <==> Holds(t, ts, id, state, at))
  {
    hide Shows, Covers, Without;
    WithoutFacts(t.order, tid);
    var u := End(t, tid, ts);
    forall id: nat, state: State, at: nat | at < ts
      ensures Holds(u, ts, id, state, at) <==> Holds(t, ts, id, state, at)
    {
      if tid in t.open {
        var s := Slice(Task(t.open[tid].state), tid, t.open[tid].start, ts - t.open[tid].start);
        ShowsSnoc(t.slices, s, id, state, at);
        CoversMeaning(s, id, state, at);
      }
    }
  }

  lemma CoversMeaning(s: Slice, tid: nat, state: State, at: nat)
    ensures Covers(s, tid, state, at) <==> s.tid == tid && s.name == Task(state) && s.ts <= at < s.ts + s.dur
  {
  }

  /** What `u` holds of the time before now, `t` holds too. */
  ghost predicate Adds(t: Tracker, u: Tracker, now: nat) {
    forall id: nat, state: State, at: nat :: at < now && Holds(u, now, id, state, at) ==> Holds(t, now, id, state, at)
  }

  /** Opening an interval adds nothing before now, and loses nothing unless it drops an open interval. */
  lemma BeginHolds(t: Tracker, tid: nat, state0: State, ts: nat)
    requires UpTo(t, ts)
    ensures UpTo(Begin(t, tid, state0, ts), ts) && Adds(t, Begin(t, tid, state0, ts), ts)
    ensures (tid in t.open ==> t.open[tid].start == ts) ==> Adds(Begin(t, tid, state0, ts), t, ts)
  {
    hide Shows;
  }

  lemma MoveHolds(t: Tracker, tid: nat, state0: State, ts: nat)
    requires UpTo(t, ts)
    ensures var u := Begin(End(t, tid, ts), tid, state0, ts);
      UpTo(u, ts) && Adds(t, u, ts) && Adds(u, t, ts)
  {
    hide Begin, End, UpTo, Holds;
    EndHolds(t, tid, ts);
    BeginHolds(End(t, tid, ts), tid, state0, ts);
  }

  lemma RunningIrrelevant(t: Tracker, running: Option<nat>, isr: seq<Interrupt>, now: nat)
    ensures UpTo(t.(running := running, isr := isr), now) <==> UpTo(t, now)
    ensures forall id: nat, state: State, at: nat ::
      Holds(t.(running := running, isr := isr), now, id, state, at) <==> Holds(t, now, id, state, at)
  {
  }

  /** The kernel start event opens a task's first interval; it may not drop one that has begun. */
  ghost predicate KeepsHistory(t: Tracker, rec: Rec) {
    rec.kind == KERNEL_START && First(rec) in t.open ==> t.open[First(rec)].start == rec.ts
  }

  /** No event adds to the time before it, and none but a restarting kernel start loses any of it. */
  lemma ProcessHolds(t: Tracker, rec: Rec)
    requires UpTo(t, rec.ts)
    ensures UpTo(Process(t, rec), rec.ts) && Adds(t, Process(t, rec), rec.ts)
    ensures KeepsHistory(t, rec) ==> Adds(Process(t, rec), t, rec.ts)
  {
    hide Begin, End, UpTo, Holds;
    var ts := rec.ts;
    match rec.kind {
      case KERNEL_START =>
        BeginHolds(t, First(rec), RUNNING, ts);
        var u := Begin(t, First(rec), RUNNING, ts);
        RunningIrrelevant(u, Some(First(rec)), u.isr, ts);
      case TASK_SWITCH =>
        var prev, next := Param(rec, 0), Param(rec, 1);
        if prev.Some? {
          MoveHolds(t, prev.value, READY, ts);
        }
        var u := SwitchOut(t, prev, ts);
        if next.Some? {
          MoveHolds(u, next.value, RUNNING, ts);
          var v := Begin(End(u, next.value, ts), next.value, RUNNING, ts);
          RunningIrrelevant(v, next, v.isr, ts);
        }
      case TASK_BLOCK =>
        var task := if rec.params != [] then Some(rec.params[0]) else t.running;
        if task.Some? {
          MoveHolds(t, task.value, BLOCKED, ts);
          var u := Begin(End(t, task.value, ts), task.value, BLOCKED, ts);
          RunningIrrelevant(u, None, u.isr, ts);
        }
      case TASK_READY => if rec.params != [] { MoveHolds(t, rec.params[0], READY, ts); }
      case TASK_TIMEOUT => if rec.params != [] { MoveHolds(t, rec.params[0], READY, ts); }
      case TASK_EXIT => if rec.params != [] { EndHolds(t, rec.params[0], ts); }
      case ISR_ENTER =>
        if t.running.Some? {
          RunningIrrelevant(t, t.running, Process(t, rec).isr, ts);
        }
      case ISR_EXIT =>
        if t.isr != [] {
          IsrSliceHolds(t, rec);
        }
      case OTHER =>
    }
  }

  lemma IsrSliceHolds(t: Tracker, rec: Rec)
    requires UpTo(t, rec.ts) && rec.kind == ISR_EXIT && t.isr != []
    ensures UpTo(Process(t, rec), rec.ts)
    ensures forall id: nat, state: State, at: nat ::
      Holds(Process(t, rec), rec.ts, id, state, at) <==> Holds(t, rec.ts, id, state, at)
  {
    hide Shows;
    var top := t.isr[|t.isr| - 1];
    var s := Slice(Isr(top.vector), top.tid, top.start, if rec.ts > top.start then rec.ts - top.start else 0);
    forall id: nat, state: State, at: nat
      ensures Holds(Process(t, rec), rec.ts, id, state, at) <==> Holds(t, rec.ts, id, state, at)
    {
      ShowsSnoc(t.slices, s, id, state, at);
    }
  }

  // ----- Whole traces ----------------------------------------------------------------

  ghost predicate InTimeOrder(recs: seq<Rec>)
    decreases |recs|
  {
    recs == [] || (InTimeOrder(recs[..|recs| - 1]) && LastTime(recs[..|recs| - 1]) <= recs[|recs| - 1].ts)
  }

  /** A trace in time order whose kernel start events drop no interval that has begun. */
  ghost predicate Chronicle(recs: seq<Rec>)
    decreases |recs|
  {
    && InTimeOrder(recs)
    && (recs == [] || (Chronicle(recs[..|recs| - 1])
                       && KeepsHistory(Run(INITIAL, recs[..|recs| - 1]), recs[|recs| - 1])))
  }

  function LastTime(recs: seq<Rec>): nat {
    if recs == [] then 0 else recs[|recs| - 1].ts
  }

  /** The events up to and including instant `at`, of a trace in time order. */
  function Past(recs: seq<Rec>, at: nat): seq<Rec>
    decreases |recs|
  {
    if recs == [] || recs[|recs| - 1].ts <= at then recs else Past(recs[..|recs| - 1], at)
  }

  lemma {:induction false} RunUpTo(recs: seq<Rec>, now: nat)
    requires InTimeOrder(recs) && LastTime(recs) <= now
    ensures UpTo(Run(INITIAL, recs), now)
    decreases |recs|
  {
    hide Process, KeepsHistory;
    if recs != [] {
      RunUpTo(recs[..|recs| - 1], recs[|recs| - 1].ts);
      ProcessHolds(Run(INITIAL, recs[..|recs| - 1]), recs[|recs| - 1]);
    }
  }

  /** What the tracker holds of an instant was so then; all of it is held when no start drops any. */
  lemma {:induction false} HistoryOfRun(recs: seq<Rec>, now: nat, tid: nat, state: State, at: nat)
    requires InTimeOrder(recs) && LastTime(recs) <= now && at < now
    ensures Holds(Run(INITIAL, recs), now, tid, state, at) ==> StateOf(Run(INITIAL, Past(recs, at)), tid) == Some(state)
    ensures Chronicle(recs) && StateOf(Run(INITIAL, Past(recs, at)), tid) == Some(state) ==>
      Holds(Run(INITIAL, recs), now, tid, state, at)
    decreases |recs|
  {
    hide Process, KeepsHistory;
    var t := Run(INITIAL, recs);
    RunUpTo(recs, LastTime(recs));
    if recs != [] && at < recs[|recs| - 1].ts {
      var front, last := recs[..|recs| - 1], recs[|recs| - 1];
      HistoryOfRun(front, last.ts, tid, state, at);
      RunUpTo(front, last.ts);
      ProcessHolds(Run(INITIAL, front), last);
      assert Holds(t, now, tid, state, at) <==> Holds(t, last.ts, tid, state, at);
    }
  }

  lemma {:induction false} EndAllHolds(t: Tracker, tids: seq<nat>, end: nat)
    requires UpTo(t, end) && tids == t.order
    ensures var u := EndAll(t, tids, end);
      u.open == map[] && forall id: nat, state: State, at: nat ::
        at < end ==> (Shows(u.slices, id, state, at) <==> Holds(t, end, id, state, at))
    decreases |tids|
  {
    hide End, Shows;
    if tids != [] {
      EndHolds(t, tids[0], end);
      EndFront(t, end);
      EndAllHolds(End(t, tids[0], end), tids[1..], end);
    }
  }

  lemma EndFront(t: Tracker, end: nat)
    requires UpTo(t, end) && t.order != []
    ensures End(t, t.order[0], end).order == t.order[1..]
  {
  }

  lemma {:induction false} EndAllBounded(t: Tracker, tids: seq<nat>, end: nat)
    requires UpTo(t, end)
    ensures UpTo(EndAll(t, tids, end), end)
    decreases |tids|
  {
    hide End, UpTo;
    if tids != [] {
      EndHolds(t, tids[0], end);
      EndAllBounded(End(t, tids[0], end), tids[1..], end);
    }
  }

  /** The finished timeline of a trace. */
  function Timeline(recs: seq<Rec>, end: nat): seq<Slice> {
    Finalize(Run(INITIAL, recs), end).slices
  }

  /** The task's state at an instant, as the events up to it have left it. */
  ghost predicate WasIn(recs: seq<Rec>, tid: nat, state: State, at: nat) {
    tid in Scheduled(Past(recs, at)).states && Scheduled(Past(recs, at)).states[tid] == state
  }

  /** In time order nothing is shown that was not so, and nothing from the end on. */
  lemma ShownWasSo(recs: seq<Rec>, end: nat, tid: nat, state: State, at: nat)
    requires InTimeOrder(recs) && LastTime(recs) <= end
    ensures Shows(Timeline(recs, end), tid, state, at) ==> at < end && WasIn(recs, tid, state, at)
    ensures Chronicle(recs) && at < end && WasIn(recs, tid, state, at) ==> Shows(Timeline(recs, end), tid, state, at)
    ensures at < end ==>
      (Shows(Timeline(recs, end), tid, state, at) <==> Holds(Run(INITIAL, recs), end, tid, state, at))
  {
    hide EndAll, Process, KeepsHistory, Scheduled, Run;
    var t := Run(INITIAL, recs);
    RunUpTo(recs, end);
    EndAllHolds(t, t.order, end);
    EndAllBounded(t, t.order, end);
    if at < end {
      HistoryOfRun(recs, end, tid, state, at);
      ViewOfRun(Past(recs, at));
      ViewOfRunning(Run(INITIAL, Past(recs, at)), None);
    }
  }

  /**
   The slices are the trace, instant by instant: a task is shown in a state at an instant
   exactly when that is the state the events up to that instant have put it in, and
   nothing is shown from the end on.
   */
  lemma TimelineIsTrue(recs: seq<Rec>, end: nat, tid: nat, state: State, at: nat)
    requires Chronicle(recs) && LastTime(recs) <= end
    ensures Shows(Timeline(recs, end), tid, state, at) <==> at < end && WasIn(recs, tid, state, at)
  {
    hide Timeline, Chronicle, Shows, WasIn, Holds, Run;
    ChronicleInOrder(recs);
    ShownWasSo(recs, end, tid, state, at);
  }

  lemma ChronicleInOrder(recs: seq<Rec>)
    requires Chronicle(recs)
    ensures InTimeOrder(recs)
  {
  }

  // ----- Rows in order, one running task ---------------------------------------------

  function EndOf(s: Slice): nat { s.ts + s.dur }

  /** State slices of one task follow each other in time; none is empty. */
  ghost predicate RowsInOrder(slices: seq<Slice>) {
    && (forall i :: 0 <= i < |slices| ==> slices[i].dur > 0)
    && (forall i, j ::
        0 <= i < j < |slices| && slices[i].name.Task? && slices[j].name.Task? && slices[i].tid == slices[j].tid ==>
          EndOf(slices[i]) <= slices[j].ts)
  }

  /** The same, with the open interval of each task last on its row. */
  ghost predicate Ordered(t: Tracker) {
    && RowsInOrder(t.slices)
    && (forall i :: 0 <= i < |t.slices| && t.slices[i].name.Task? && t.slices[i].tid in t.open ==>
          EndOf(t.slices[i]) <= t.open[t.slices[i].tid].start)
  }

  lemma EndOrdered(t: Tracker, tid: nat, ts: nat)
    requires Ordered(t)
    ensures Ordered(End(t, tid, ts))
  {
  }

  lemma BeginOrdered(t: Tracker, tid: nat, state: State, ts: nat)
    requires Ordered(t) && UpTo(t, ts)
    ensures Ordered(Begin(t, tid, state, ts))
  {
  }

  lemma MoveOrdered(t: Tracker, tid: nat, state: State, ts: nat)
    requires Ordered(t) && UpTo(t, ts)
    ensures Ordered(Begin(End(t, tid, ts), tid, state, ts)) && UpTo(Begin(End(t, tid, ts), tid, state, ts), ts)
  {
    hide Begin, End, UpTo, Ordered;
    EndOrdered(t, tid, ts);
    EndHolds(t, tid, ts);
    BeginOrdered(End(t, tid, ts), tid, state, ts);
    BeginHolds(End(t, tid, ts), tid, state, ts);
  }

  lemma ProcessOrdered(t: Tracker, rec: Rec)
    requires Ordered(t) && UpTo(t, rec.ts)
    ensures Ordered(Process(t, rec))
  {
    hide Begin, End, UpTo, RowsInOrder;
    var ts := rec.ts;
    match rec.kind {
      case KERNEL_START => BeginOrdered(t, First(rec), RUNNING, ts);
      case TASK_SWITCH =>
        var prev, next := Param(rec, 0), Param(rec, 1);
        if prev.Some? {
          MoveOrdered(t, prev.value, READY, ts);
        }
        if next.Some? {
          MoveOrdered(SwitchOut(t, prev, ts), next.value, RUNNING, ts);
        }
      case TASK_BLOCK =>
        var task := if rec.params != [] then Some(rec.params[0]) else t.running;
        if task.Some? {
          MoveOrdered(t, task.value, BLOCKED, ts);
        }
      case TASK_READY => if rec.params != [] { MoveOrdered(t, rec.params[0], READY, ts); }
      case TASK_TIMEOUT => if rec.params != [] { MoveOrdered(t, rec.params[0], READY, ts); }
      case TASK_EXIT => if rec.params != [] { EndOrdered(t, rec.params[0], ts); }
      case ISR_ENTER =>
      case ISR_EXIT => IsrOrdered(t, rec);
      case OTHER =>
    }
  }

  lemma IsrOrdered(t: Tracker, rec: Rec)
    requires Ordered(t) && rec.kind == ISR_EXIT
    ensures Ordered(Process(t, rec))
  {
  }

  lemma {:induction false} RunOrdered(recs: seq<Rec>)
    requires InTimeOrder(recs)
    ensures Ordered(Run(INITIAL, recs))
    decreases |recs|
  {
    hide Process, KeepsHistory, Ordered, UpTo;
    if recs == [] {
      InitialOrdered();
    } else {
      var front, last := recs[..|recs| - 1], recs[|recs| - 1];
      RunOrdered(front);
      RunUpTo(front, last.ts);
      ProcessOrdered(Run(INITIAL, front), last);
    }
  }

  lemma InitialOrdered()
    ensures Ordered(INITIAL)
  {
  }

  lemma {:induction false} EndAllOrdered(t: Tracker, tids: seq<nat>, end: nat)
    requires Ordered(t)
    ensures Ordered(EndAll(t, tids, end))
    decreases |tids|
  {
    hide End, Ordered;
    if tids != [] {
      EndOrdered(t, tids[0], end);
      EndAllOrdered(End(t, tids[0], end), tids[1..], end);
    }
  }

  /** In time order rows never overlap themselves, whatever the events say. */
  lemma TimelineRowsInOrder(recs: seq<Rec>, end: nat)
    requires InTimeOrder(recs)
    ensures RowsInOrder(Timeline(recs, end))
  {
    hide EndAll, Run, RowsInOrder;
    RunOrdered(recs);
    EndAllOrdered(Run(INITIAL, recs), Run(INITIAL, recs).order, end);
  }

  /** A trace each of whose events hands the processor over. */
  ghost predicate AllHandOver(recs: seq<Rec>)
    decreases |recs|
  {
    recs == [] || (AllHandOver(recs[..|recs| - 1]) && HandsOver(Scheduled(recs[..|recs| - 1]), recs[|recs| - 1]))
  }

  lemma {:induction false} OneRunsAlways(recs: seq<Rec>, at: nat)
    requires AllHandOver(recs)
    ensures OneRuns(Scheduled(Past(recs, at)))
    decreases |recs|
  {
    hide Advance, OneRuns, HandsOver;
    if recs == [] {
      NobodyRuns();
    } else {
      var front := recs[..|recs| - 1];
      if recs[|recs| - 1].ts <= at {
        OneRunsNow(front);
        OneRunsStep(Scheduled(front), recs[|recs| - 1]);
      } else {
        OneRunsAlways(front, at);
      }
    }
  }

  lemma {:induction false} OneRunsNow(recs: seq<Rec>)
    requires AllHandOver(recs)
    ensures OneRuns(Scheduled(recs))
    decreases |recs|
  {
    hide Advance, OneRuns, HandsOver;
    if recs == [] {
      NobodyRuns();
    } else {
      OneRunsNow(recs[..|recs| - 1]);
      OneRunsStep(Scheduled(recs[..|recs| - 1]), recs[|recs| - 1]);
    }
  }

  lemma NobodyRuns()
    ensures OneRuns(Scheduled([]))
  {
  }

  /**
   When every event hands the processor over, RUNNING slices are disjoint: those of one
   task because rows are in order, those of two tasks because an instant in both would
   have both running.
   */
  lemma RunningSlicesDisjoint(recs: seq<Rec>, end: nat, i: nat, j: nat)
    requires InTimeOrder(recs) && AllHandOver(recs) && LastTime(recs) <= end
    requires i < j < |Timeline(recs, end)|
    requires Timeline(recs, end)[i].name == Timeline(recs, end)[j].name == Task(RUNNING)
    ensures var a, b := Timeline(recs, end)[i], Timeline(recs, end)[j]; EndOf(a) <= b.ts || EndOf(b) <= a.ts
  {
    hide Timeline, Scheduled, InTimeOrder, AllHandOver, Holds, Run, Chronicle;
    TimelineRowsInOrder(recs, end);
    var all := Timeline(recs, end);
    var a, b := all[i], all[j];
    var at := if a.ts <= b.ts then b.ts else a.ts;
    if a.tid != b.tid && at < EndOf(a) && at < EndOf(b) {
      assert Covers(a, a.tid, RUNNING, at) && Covers(b, b.tid, RUNNING, at);
      assert Shows(all, a.tid, RUNNING, at) && Shows(all, b.tid, RUNNING, at);
      ShownWasSo(recs, end, a.tid, RUNNING, at);
      ShownWasSo(recs, end, b.tid, RUNNING, at);
      OneRunsAlways(recs, at);
      assert false;
    }
  }

  // ----- Kernel start events that restart a task --------------------------------------

  /** Such an event erases the interval of the task it restarts. */
  lemma RestartStep(t: Tracker, rec: Rec)
    requires Ordered(t) && UpTo(t, rec.ts) && !KeepsHistory(t, rec)
    ensures First(rec) in t.open
    ensures var o := t.open[First(rec)];
      o.start < rec.ts && Holds(t, rec.ts, First(rec), o.state, o.start)
        && !Holds(Process(t, rec), rec.ts, First(rec), o.state, o.start)
  {
  }

  /** Outside chronicles there is an instant at which a task was in a state no longer held. */
  lemma {:induction false} Erased(recs: seq<Rec>, now: nat) returns (tid: nat, state: State, at: nat)
    requires InTimeOrder(recs) && !Chronicle(recs) && LastTime(recs) <= now
    ensures at < LastTime(recs) && StateOf(Run(INITIAL, Past(recs, at)), tid) == Some(state)
    ensures !Holds(Run(INITIAL, recs), now, tid, state, at)
    decreases |recs|
  {
    hide Process, KeepsHistory, Ordered, UpTo;
    var front, last := recs[..|recs| - 1], recs[|recs| - 1];
    RunUpTo(front, last.ts);
    if Chronicle(front) {
      RunOrdered(front);
      RestartStep(Run(INITIAL, front), last);
      tid := First(last);
      state, at := Run(INITIAL, front).open[tid].state, Run(INITIAL, front).open[tid].start;
      HistoryOfRun(front, last.ts, tid, state, at);
    } else {
      tid, state, at := Erased(front, last.ts);
      ProcessHolds(Run(INITIAL, front), last);
    }
    assert Holds(Run(INITIAL, recs), now, tid, state, at) <==> Holds(Run(INITIAL, recs), last.ts, tid, state, at);
  }

  /** The timeline tells the whole truth about every task, state and instant. */
  ghost predicate ShowsAll(recs: seq<Rec>, end: nat) {
    forall tid: nat, state: State, at: nat ::
      Shows(Timeline(recs, end), tid, state, at) <==> at < end && WasIn(recs, tid, state, at)
  }

  /** Among traces in time order the timeline is true of exactly the chronicles. */
  lemma TimelineTrueIff(recs: seq<Rec>, end: nat)
    requires InTimeOrder(recs) && LastTime(recs) <= end
    ensures ShowsAll(recs, end) <==> Chronicle(recs)
  {
    hide Timeline, InTimeOrder, Chronicle, Shows, Holds, Run, Scheduled;
    if Chronicle(recs) {
      forall tid: nat, state: State, at: nat
        ensures Shows(Timeline(recs, end), tid, state, at) <==> at < end && WasIn(recs, tid, state, at) {
        TimelineIsTrue(recs, end, tid, state, at);
      }
    } else {
      var tid, state, at := Erased(recs, end);
      ShownWasSo(recs, end, tid, state, at);
      ViewOfRun(Past(recs, at));
      ViewOfRunning(Run(INITIAL, Past(recs, at)), None);
      assert WasIn(recs, tid, state, at) && !Shows(Timeline(recs, end), tid, state, at);
    }
  }

  /** A kernel started at 0 and again at 5 with the same task: the first five ticks are gone. */
  const RESTARTED := [Rec(KERNEL_START, 0, [1]), Rec(KERNEL_START, 5, [1])]

  lemma RestartErases()
    ensures InTimeOrder(RESTARTED) && Timeline(RESTARTED, 10) == [Slice(Task(RUNNING), 1, 5, 5)]
    ensures WasIn(RESTARTED, 1, RUNNING, 0) && !Shows(Timeline(RESTARTED, 10), 1, RUNNING, 0)
  {
    var one := [RESTARTED[0]];
    assert RESTARTED[..1] == one && one[..0] == [];
    var t := Tracker(Some(1), map[1 := Open(RUNNING, 0)], [1], [], []);
    assert Run(INITIAL, []) == INITIAL;
    assert Run(INITIAL, one) == t;
    var u := Tracker(Some(1), map[1 := Open(RUNNING, 5)], [1], [], []);
    assert Run(INITIAL, RESTARTED) == u;
    assert EndAll(u, [1], 10) == End(u, 1, 10);
    assert Past(RESTARTED, 0) == Past(one, 0) == one;
    assert Scheduled([]) == Scheduler(None, map[]);
  }

  // ----- Interrupts ------------------------------------------------------------------

  /** The earlier of two interrupts in the list ended first, and lies inside the later or before it. */
  predicate NestedOrBefore(x: Slice, y: Slice) {
    EndOf(x) <= EndOf(y) && (y.ts <= x.ts || EndOf(x) <= y.ts)
  }

  ghost predicate InterruptsNest(slices: seq<Slice>) {
    forall i, j ::
      0 <= i < j < |slices| && slices[i].name.Isr? && slices[j].name.Isr? ==> NestedOrBefore(slices[i], slices[j])
  }

  /** The same, with the interrupts not yet ended around or after those that are. */
  ghost predicate InterruptsUpTo(t: Tracker, now: nat) {
    && InterruptsNest(t.slices)
    && (forall i :: 0 <= i < |t.slices| && t.slices[i].name.Isr? ==> EndOf(t.slices[i]) <= now)
    && (forall e :: 0 <= e < |t.isr| ==> t.isr[e].start <= now)
    && (forall d, e :: 0 <= d < e < |t.isr| ==> t.isr[d].start <= t.isr[e].start)
    && (forall i, e :: 0 <= i < |t.slices| && t.slices[i].name.Isr? && 0 <= e < |t.isr| ==>
          t.isr[e].start <= t.slices[i].ts || EndOf(t.slices[i]) <= t.isr[e].start)
  }

  lemma EndInterrupts(t: Tracker, tid: nat, ts: nat, now: nat)
    requires InterruptsUpTo(t, now)
    ensures InterruptsUpTo(End(t, tid, ts), now) && End(t, tid, ts).isr == t.isr
    ensures forall s :: s in End(t, tid, ts).slices && s.name.Isr? ==> s in t.slices
  {
  }

  lemma BeginInterrupts(t: Tracker, tid: nat, state: State, ts: nat)
    ensures Begin(t, tid, state, ts).isr == t.isr && Begin(t, tid, state, ts).slices == t.slices
  {
  }

  lemma MoveInterrupts(t: Tracker, tid: nat, state: State, ts: nat)
    requires InterruptsUpTo(t, ts)
    ensures var u := Begin(End(t, tid, ts), tid, state, ts);
      InterruptsUpTo(u, ts) && u.isr == t.isr && forall s :: s in u.slices && s.name.Isr? ==> s in t.slices
  {
    hide Begin, End, InterruptsNest;
    EndInterrupts(t, tid, ts, ts);
    BeginInterrupts(End(t, tid, ts), tid, state, ts);
  }

  /** Where an interrupt slice or stack entry comes from: the event it was entered by, or before. */
  ghost predicate FromBefore(t: Tracker, rec: Rec, u: Tracker) {
    && (forall e ::
        e in u.isr ==> e in t.isr || (rec.kind == ISR_ENTER && t.running == Some(e.tid) && e.start == rec.ts))
    && (forall s ::
        s in u.slices && s.name.Isr? ==> s in t.slices || exists e :: e in t.isr && e.tid == s.tid && e.start == s.ts)
  }

  lemma ProcessInterrupts(t: Tracker, rec: Rec)
    requires InterruptsUpTo(t, rec.ts)
    ensures InterruptsUpTo(Process(t, rec), rec.ts) && FromBefore(t, rec, Process(t, rec))
  {
    hide Begin, End, InterruptsUpTo;
    var ts := rec.ts;
    match rec.kind {
      case KERNEL_START =>
        BeginInterrupts(t, First(rec), RUNNING, ts);
        SameInterrupts(t, Process(t, rec), ts);
      case TASK_SWITCH =>
        var prev, next := Param(rec, 0), Param(rec, 1);
        if prev.Some? {
          MoveInterrupts(t, prev.value, READY, ts);
        }
        var u := SwitchOut(t, prev, ts);
        if next.Some? {
          MoveInterrupts(u, next.value, RUNNING, ts);
          SameInterrupts(Begin(End(u, next.value, ts), next.value, RUNNING, ts), Process(t, rec), ts);
        }
      case TASK_BLOCK =>
        var task := if rec.params != [] then Some(rec.params[0]) else t.running;
        if task.Some? {
          MoveInterrupts(t, task.value, BLOCKED, ts);
          SameInterrupts(Begin(End(t, task.value, ts), task.value, BLOCKED, ts), Process(t, rec), ts);
        }
      case TASK_READY => if rec.params != [] { MoveInterrupts(t, rec.params[0], READY, ts); }
      case TASK_TIMEOUT => if rec.params != [] { MoveInterrupts(t, rec.params[0], READY, ts); }
      case TASK_EXIT => if rec.params != [] { EndInterrupts(t, rec.params[0], ts, ts); }
      case ISR_ENTER => EnterInterrupts(t, rec);
      case ISR_EXIT => ExitInterrupts(t, rec);
      case OTHER =>
    }
  }

  lemma SameInterrupts(t: Tracker, u: Tracker, now: nat)
    requires t.slices == u.slices && t.isr == u.isr
    ensures InterruptsUpTo(u, now) <==> InterruptsUpTo(t, now)
  {
  }

  lemma EnterInterrupts(t: Tracker, rec: Rec)
    requires InterruptsUpTo(t, rec.ts) && rec.kind == ISR_ENTER
    ensures InterruptsUpTo(Process(t, rec), rec.ts) && FromBefore(t, rec, Process(t, rec))
  {
  }

  lemma ExitInterrupts(t: Tracker, rec: Rec)
    requires InterruptsUpTo(t, rec.ts) && rec.kind == ISR_EXIT
    ensures InterruptsUpTo(Process(t, rec), rec.ts) && FromBefore(t, rec, Process(t, rec))
  {
    if t.isr != [] {
      var u, top := Process(t, rec), t.isr[|t.isr| - 1];
      assert top in t.isr && forall e :: 0 <= e < |u.isr| ==> u.isr[e] == t.isr[e];
      assert u.slices != t.slices ==>
        u.slices == t.slices + [Slice(Isr(top.vector), top.tid, top.start, rec.ts - top.start)];
      hide Process;
    }
  }

  lemma InterruptsLater(t: Tracker, now: nat, later: nat)
    requires InterruptsUpTo(t, now) && now <= later
    ensures InterruptsUpTo(t, later)
  {
  }

  /** Some interrupt entry event at this instant found this task running. */
  ghost predicate EnteredOn(recs: seq<Rec>, tid: nat, ts: nat) {
    exists i: nat ::
      i < |recs| && recs[i].kind == ISR_ENTER && recs[i].ts == ts && Scheduled(recs[..i]).running == Some(tid)
  }

  ghost predicate AllEntered(recs: seq<Rec>, t: Tracker) {
    && (forall e :: e in t.isr ==> EnteredOn(recs, e.tid, e.start))
    && (forall s :: s in t.slices && s.name.Isr? ==> EnteredOn(recs, s.tid, s.ts))
  }

  lemma EnteredLater(front: seq<Rec>, last: Rec)
    ensures forall tid: nat, ts: nat :: EnteredOn(front, tid, ts) ==> EnteredOn(front + [last], tid, ts)
  {
    hide Scheduled;
    forall tid: nat, ts: nat | EnteredOn(front, tid, ts) ensures EnteredOn(front + [last], tid, ts) {
      var i: nat :| i < |front| && front[i].kind == ISR_ENTER && front[i].ts == ts
        && Scheduled(front[..i]).running == Some(tid);
      assert (front + [last])[i] == front[i] && (front + [last])[..i] == front[..i];
    }
  }

  lemma EnteredNow(front: seq<Rec>, last: Rec, tid: nat)
    requires last.kind == ISR_ENTER && Scheduled(front).running == Some(tid)
    ensures EnteredOn(front + [last], tid, last.ts)
  {
    hide Scheduled;
    assert (front + [last])[|front|] == last && (front + [last])[..|front|] == front;
  }

  lemma {:induction false} RunInterrupts(recs: seq<Rec>)
    requires InTimeOrder(recs)
    ensures InterruptsUpTo(Run(INITIAL, recs), LastTime(recs)) && AllEntered(recs, Run(INITIAL, recs))
    decreases |recs|
  {
    hide Process, InterruptsUpTo, Scheduled, EnteredOn;
    if recs == [] {
      NoInterrupts();
    } else {
      var front, last := recs[..|recs| - 1], recs[|recs| - 1];
      var t := Run(INITIAL, front);
      assert recs == front + [last];
      RunInterrupts(front);
      InterruptsLater(t, LastTime(front), last.ts);
      ProcessInterrupts(t, last);
      ViewOfRun(front);
      ViewOfRunning(t, None);
      EnteredLater(front, last);
      if last.kind == ISR_ENTER && t.running.Some? {
        EnteredNow(front, last, t.running.value);
      }
    }
  }

  lemma NoInterrupts()
    ensures InterruptsUpTo(INITIAL, 0)
  {
  }

  lemma {:induction false} EndAllInterrupts(t: Tracker, tids: seq<nat>, end: nat, now: nat)
    requires InterruptsUpTo(t, now)
    ensures InterruptsUpTo(EndAll(t, tids, end), now)
    ensures forall s :: s in EndAll(t, tids, end).slices && s.name.Isr? ==> s in t.slices
    decreases |tids|
  {
    hide End, InterruptsUpTo;
    if tids != [] {
      EndInterrupts(t, tids[0], end, now);
      EndAllInterrupts(End(t, tids[0], end), tids[1..], end, now);
    }
  }

  /**
   Interrupts of a timeline are nested or apart and end in list order, by the last event;
   each starts at an entry event that found the task it is charged to running.
   */
  lemma TimelineInterrupts(recs: seq<Rec>, end: nat)
    requires InTimeOrder(recs)
    ensures InterruptsNest(Timeline(recs, end))
    ensures forall s :: s in Timeline(recs, end) && s.name.Isr? ==>
      EnteredOn(recs, s.tid, s.ts) && EndOf(s) <= LastTime(recs)
  {
    hide EndAll, Run, InterruptsNest, EnteredOn, NestedOrBefore;
    RunInterrupts(recs);
    EndAllInterrupts(Run(INITIAL, recs), Run(INITIAL, recs).order, end, LastTime(recs));
  }

  /**
   An interrupt is drawn inside a RUNNING slice of the task it is charged to exactly when
   the events up to its first instant have left that task running.
   */
  lemma InterruptInsideRunning(recs: seq<Rec>, end: nat, isr: Slice)
    requires Chronicle(recs) && LastTime(recs) <= end && isr in Timeline(recs, end) && isr.name.Isr?
    ensures Shows(Timeline(recs, end), isr.tid, RUNNING, isr.ts)
      <==> isr.ts < end && WasIn(recs, isr.tid, RUNNING, isr.ts)
  {
    TimelineIsTrue(recs, end, isr.tid, RUNNING, isr.ts);
  }
}
