/**
 Interrupts in a task timeline: which are drawn, on which row, from when to when. The answer
 is given by matching entry and exit events as brackets, without the tracker.
 */
module XtraceInterrupts {
  import opened Options
  import opened XtraceTasks

  // ----- Brackets --------------------------------------------------------------------

  /** An interrupt entry that finds a task running. */
  predicate Counts(recs: seq<Rec>, i: nat) {
    i < |recs| && recs[i].kind == ISR_ENTER && Scheduled(recs[..i]).running.Some?
  }

  /** Entries that count less exits, from event `a` to before event `b`. */
  function Level(recs: seq<Rec>, a: nat, b: nat): int
    requires b <= |recs|
    decreases b
  {
    if a >= b then 0
    else Level(recs, a, b - 1) + if Counts(recs, b - 1) then 1 else if recs[b - 1].kind == ISR_EXIT then -1 else 0
  }

  /** From event `a` to before event `b` no exit comes without its entry. */
  ghost predicate NeverBelow(recs: seq<Rec>, a: nat, b: nat)
    requires b <= |recs|
  {
    forall k: nat :: a <= k <= b ==> Level(recs, a, k) >= 0
  }

  /** Event `j` leaves the interrupt entered by event `i`: between them entries and exits are paired. */
  ghost predicate Brackets(recs: seq<Rec>, i: nat, j: nat) {
    && i < j < |recs| && Counts(recs, i) && recs[j].kind == ISR_EXIT
    && Level(recs, i + 1, j) == 0 && NeverBelow(recs, i + 1, j)
  }

  /** The interrupt as it is to be drawn: the task that was running, the vector, from entry to exit. */
  function SliceOf(recs: seq<Rec>, i: nat, j: nat): Slice
    requires Counts(recs, i) && j < |recs|
  {
    var vector := if recs[i].params != [] then recs[i].params[0] else 0;
    var dur := if recs[j].ts > recs[i].ts then recs[j].ts - recs[i].ts else 0;
    Slice(Isr(vector), Scheduled(recs[..i]).running.value, recs[i].ts, dur)
  }

  /** The entry that an exit behind `k` events leaves, when `depth` later exits take the nearer ones. */
  function Opener(recs: seq<Rec>, k: nat, depth: nat): (i: Option<nat>)
    requires k <= |recs|
    ensures i.Some? ==> i.value < k && Counts(recs, i.value)
    decreases k
  {
    if k == 0 then None
    else if Counts(recs, k - 1) then if depth == 0 then Some(k - 1) else Opener(recs, k - 1, depth - 1)
    else if recs[k - 1].kind == ISR_EXIT then Opener(recs, k - 1, depth + 1)
    else Opener(recs, k - 1, depth)
  }

  lemma {:induction false} OpenerMeaning(recs: seq<Rec>, k: nat, depth: nat, i: nat)
    requires k <= |recs|
    ensures Opener(recs, k, depth) == Some(i)
      <==> i < k && Counts(recs, i) && Level(recs, i + 1, k) == depth && NeverBelow(recs, i + 1, k)
    decreases k
  {
    hide Counts;
    if k > 0 {
      EnterIsNoExit(recs, k - 1);
      if Counts(recs, k - 1) {
        if depth > 0 {
          OpenerMeaning(recs, k - 1, depth - 1, i);
        } else if i < k - 1 {
          assert Level(recs, i + 1, k) == Level(recs, i + 1, k - 1) + 1;
        }
      } else if recs[k - 1].kind == ISR_EXIT {
        OpenerMeaning(recs, k - 1, depth + 1, i);
      } else {
        OpenerMeaning(recs, k - 1, depth, i);
      }
    }
  }

  lemma EnterIsNoExit(recs: seq<Rec>, i: nat)
    ensures Counts(recs, i) ==> i < |recs| && recs[i].kind != ISR_EXIT
  {
  }

  /** The interrupts of a trace in the order of their exits; empty ones are left out. */
  function Drawn(recs: seq<Rec>, n: nat): seq<Slice>
    requires n <= |recs|
    decreases n
  {
    if n == 0 then []
    else Drawn(recs, n - 1) + DrawnAt(recs, n - 1)
  }

  function DrawnAt(recs: seq<Rec>, j: nat): seq<Slice>
    requires j < |recs|
  {
    var i := if recs[j].kind == ISR_EXIT then Opener(recs, j, 0) else None;
    if i.Some? && recs[j].ts > recs[i.value].ts then [SliceOf(recs, i.value, j)] else []
  }

  // ----- The tracker's stack ------------------------------------------------------------

  function IsrsOf(slices: seq<Slice>): seq<Slice> {
    if slices == [] then []
    else IsrsOf(slices[..|slices| - 1]) + if slices[|slices| - 1].name.Isr? then [slices[|slices| - 1]] else []
  }

  lemma IsrsSnoc(slices: seq<Slice>, s: Slice)
    ensures IsrsOf(slices + [s]) == IsrsOf(slices) + if s.name.Isr? then [s] else []
  {
    assert (slices + [s])[..|slices|] == slices;
  }

  /** Events on tasks change neither the interrupts drawn nor those open. */
  ghost predicate SameIsrs(t: Tracker, u: Tracker) {
    t.isr == u.isr && IsrsOf(t.slices) == IsrsOf(u.slices)
  }

  lemma EndIsrs(t: Tracker, tid: nat, ts: nat)
    ensures SameIsrs(t, End(t, tid, ts))
  {
    if tid in t.open && ts > t.open[tid].start {
      IsrsSnoc(t.slices, Slice(Task(t.open[tid].state), tid, t.open[tid].start, ts - t.open[tid].start));
    }
  }

  lemma MoveIsrs(t: Tracker, tid: nat, state: State, ts: nat)
    ensures SameIsrs(t, Begin(t, tid, state, ts)) && SameIsrs(t, Begin(End(t, tid, ts), tid, state, ts))
  {
    EndIsrs(t, tid, ts);
    hide End;
  }

  lemma TaskIsrs(t: Tracker, rec: Rec)
    requires rec.kind != ISR_ENTER && rec.kind != ISR_EXIT
    ensures SameIsrs(t, Process(t, rec))
  {
    hide Begin, End, IsrsOf;
    var ts := rec.ts;
    match rec.kind {
      case KERNEL_START => MoveIsrs(t, First(rec), RUNNING, ts);
      case TASK_SWITCH =>
        var prev, next := Param(rec, 0), Param(rec, 1);
        if prev.Some? {
          MoveIsrs(t, prev.value, READY, ts);
        }
        if next.Some? {
          MoveIsrs(SwitchOut(t, prev, ts), next.value, RUNNING, ts);
        }
      case TASK_BLOCK =>
        var task := if rec.params != [] then Some(rec.params[0]) else t.running;
        if task.Some? {
          MoveIsrs(t, task.value, BLOCKED, ts);
        }
      case TASK_READY => if rec.params != [] { MoveIsrs(t, rec.params[0], READY, ts); }
      case TASK_TIMEOUT => if rec.params != [] { MoveIsrs(t, rec.params[0], READY, ts); }
      case TASK_EXIT => if rec.params != [] { EndIsrs(t, rec.params[0], ts); }
      case OTHER =>
    }
  }

  lemma {:induction false} EndAllIsrs(t: Tracker, tids: seq<nat>, ts: nat)
    ensures SameIsrs(t, EndAll(t, tids, ts))
    decreases |tids|
  {
    hide End, IsrsOf;
    if tids != [] {
      EndIsrs(t, tids[0], ts);
      EndAllIsrs(End(t, tids[0], ts), tids[1..], ts);
    }
  }

  /** The open interrupt of an entry. */
  function Entered(recs: seq<Rec>, i: nat): Interrupt
    requires Counts(recs, i)
  {
    Interrupt(Scheduled(recs[..i]).running.value, if recs[i].params != [] then recs[i].params[0] else 0, recs[i].ts)
  }

  /** The entry `d` places below the top of the stack is the one the exits would find. */
  ghost predicate StackAt(recs: seq<Rec>, k: nat, isr: seq<Interrupt>, d: nat)
    requires k <= |recs|
  {
    if d < |isr|
    then Opener(recs, k, d).Some? && isr[|isr| - 1 - d] == Entered(recs, Opener(recs, k, d).value)
    else Opener(recs, k, d).None?
  }

  /** The tracker after `k` events: its stack holds the entries not yet left, and its list the interrupts drawn. */
  ghost predicate StackAgrees(recs: seq<Rec>, k: nat, t: Tracker)
    requires k <= |recs|
  {
    IsrsOf(t.slices) == Drawn(recs, k) && forall d: nat :: StackAt(recs, k, t.isr, d)
  }

  lemma {:induction false} StackOfRun(recs: seq<Rec>, k: nat)
    requires k <= |recs|
    ensures StackAgrees(recs, k, Run(INITIAL, recs[..k]))
    decreases k
  {
    hide Process, StackAgrees, Run;
    if k == 0 {
      NothingOpen(recs);
    } else {
      StackOfRun(recs, k - 1);
      RunSnoc(recs, k - 1);
      var t := Run(INITIAL, recs[..k - 1]);
      ViewOfRun(recs[..k - 1]);
      RunningAsScheduled(recs[..k - 1]);
      StackStep(recs, k - 1, t);
    }
  }

  lemma NothingOpen(recs: seq<Rec>)
    ensures StackAgrees(recs, 0, Run(INITIAL, recs[..0]))
  {
    assert recs[..0] == [];
  }

  lemma RunSnoc(recs: seq<Rec>, k: nat)
    requires k < |recs|
    ensures Run(INITIAL, recs[..k + 1]) == Process(Run(INITIAL, recs[..k]), recs[k])
  {
    assert recs[..k + 1][..k] == recs[..k];
  }

  lemma RunningAsScheduled(recs: seq<Rec>)
    ensures Run(INITIAL, recs).running == Scheduled(recs).running
  {
    ViewOfRun(recs);
  }

  lemma StackStep(recs: seq<Rec>, k: nat, t: Tracker)
    requires k < |recs| && StackAgrees(recs, k, t) && t.running == Scheduled(recs[..k]).running
    ensures StackAgrees(recs, k + 1, Process(t, recs[k]))
  {
    hide Scheduled, IsrsOf;
    var rec := recs[k];
    if rec.kind == ISR_ENTER {
      StackEnter(recs, k, t);
    } else if rec.kind == ISR_EXIT {
      StackExit(recs, k, t);
    } else {
      hide Process;
      TaskIsrs(t, rec);
      assert Drawn(recs, k + 1) == Drawn(recs, k) + [];
      var next: nat := k + 1;
      forall d: nat ensures StackAt(recs, next, Process(t, rec).isr, d) {
        assert StackAt(recs, k, t.isr, d);
      }
    }
  }

  lemma StackEnter(recs: seq<Rec>, k: nat, t: Tracker)
    requires k < |recs| && StackAgrees(recs, k, t) && recs[k].kind == ISR_ENTER
    requires t.running == Scheduled(recs[..k]).running
    ensures StackAgrees(recs, k + 1, Process(t, recs[k]))
  {
    hide Scheduled, IsrsOf;
    var u, next: nat := Process(t, recs[k]), k + 1;
    assert Drawn(recs, next) == Drawn(recs, k) + [];
    assert IsrsOf(u.slices) == Drawn(recs, next);
    forall d: nat ensures StackAt(recs, next, u.isr, d) {
      if t.running.None? {
        assert StackAt(recs, k, t.isr, d);
      } else {
        assert u.isr == t.isr + [Entered(recs, k)];
        hide Process;
        StackPushed(recs, k, t.isr, d);
      }
    }
  }

  lemma StackPushed(recs: seq<Rec>, k: nat, isr: seq<Interrupt>, d: nat)
    requires k < |recs| && Counts(recs, k) && forall e: nat :: StackAt(recs, k, isr, e)
    ensures StackAt(recs, k + 1, isr + [Entered(recs, k)], d)
  {
    hide Scheduled;
    if d > 0 {
      assert StackAt(recs, k, isr, d - 1);
    }
  }

  lemma StackExit(recs: seq<Rec>, k: nat, t: Tracker)
    requires k < |recs| && StackAgrees(recs, k, t) && recs[k].kind == ISR_EXIT
    ensures StackAgrees(recs, k + 1, Process(t, recs[k]))
  {
    hide Scheduled, IsrsOf;
    var u, rec, next: nat := Process(t, recs[k]), recs[k], k + 1;
    forall d: nat ensures StackAt(recs, next, u.isr, d) {
      assert StackAt(recs, k, t.isr, d + 1);
    }
    assert StackAt(recs, k, t.isr, 0);
    if t.isr == [] {
      assert Drawn(recs, k + 1) == Drawn(recs, k) + [];
    } else {
      var i, top := Opener(recs, k, 0).value, t.isr[|t.isr| - 1];
      assert top == Entered(recs, i);
      if rec.ts > top.start {
        IsrsSnoc(t.slices, SliceOf(recs, i, k));
      } else {
        assert Drawn(recs, k + 1) == Drawn(recs, k) + [];
      }
    }
  }

  /** For every trace the interrupts of the timeline are those its brackets draw, in the order of their exits. */
  lemma TimelineDraws(recs: seq<Rec>, end: nat)
    ensures IsrsOf(Timeline(recs, end)) == Drawn(recs, |recs|)
  {
    hide Run, EndAll, Drawn, IsrsOf;
    StackOfRun(recs, |recs|);
    assert recs[..|recs|] == recs;
    EndAllIsrs(Run(INITIAL, recs), Run(INITIAL, recs).order, end);
  }

  lemma {:induction false} DrawnMembers(recs: seq<Rec>, n: nat, s: Slice)
    requires n <= |recs|
    ensures s in Drawn(recs, n) <==> exists j: nat :: j < n && s in DrawnAt(recs, j)
    decreases n
  {
    hide DrawnAt;
    if n > 0 {
      DrawnMembers(recs, n - 1, s);
      if s in DrawnAt(recs, n - 1) {
        assert n - 1 < n;
      }
    }
  }

  lemma {:induction false} IsrsMembers(slices: seq<Slice>, s: Slice)
    ensures s in IsrsOf(slices) <==> s in slices && s.name.Isr?
    decreases |slices|
  {
    if slices != [] {
      IsrsMembers(slices[..|slices| - 1], s);
      assert slices == slices[..|slices| - 1] + [slices[|slices| - 1]];
    }
  }

  /** Two events that are brackets and do not fall together draw this interrupt. */
  ghost predicate Pairs(recs: seq<Rec>, i: nat, j: nat, s: Slice) {
    Brackets(recs, i, j) && recs[i].ts < recs[j].ts && s == SliceOf(recs, i, j)
  }

  lemma DrawnByPair(recs: seq<Rec>, j: nat, s: Slice)
    requires j < |recs|
    ensures s in DrawnAt(recs, j) <==> exists i: nat :: Pairs(recs, i, j, s)
  {
    hide Counts, Level, NeverBelow, SliceOf;
    if s in DrawnAt(recs, j) {
      OpenerMeaning(recs, j, 0, Opener(recs, j, 0).value);
      assert Pairs(recs, Opener(recs, j, 0).value, j, s);
    }
    if i: nat :| Pairs(recs, i, j, s) {
      OpenerMeaning(recs, j, 0, i);
    }
  }

  /** An interrupt is in the timeline exactly when some entry and exit that are brackets draw it. */
  lemma DrawnIff(recs: seq<Rec>, end: nat, s: Slice)
    ensures s in Timeline(recs, end) && s.name.Isr? <==> exists i: nat, j: nat :: j < |recs| && Pairs(recs, i, j, s)
  {
    hide Timeline, IsrsOf, Drawn, DrawnAt, Pairs;
    TimelineDraws(recs, end);
    IsrsMembers(Timeline(recs, end), s);
    DrawnMembers(recs, |recs|, s);
    if j: nat :| j < |recs| && s in DrawnAt(recs, j) {
      DrawnByPair(recs, j, s);
    }
    if i: nat, j: nat :| j < |recs| && Pairs(recs, i, j, s) {
      DrawnByPair(recs, j, s);
    }
  }
}
