/**
 The rolling CPU load of every task at every context switch (`cpu_load_counters`). The
 method keeps one never-rewinding index per task; the specification adds up, for every
 RUNNING slice of the task, the length of its intersection with the window.
 */
module XtraceCpuLoad {
  import opened Options
  import opened XtraceTasks

  datatype Interval = Interval(start: real, end: real)

  /** A counter sample: the load of task `tid` at time `ts`, in percent before rounding. */
  datatype Sample = Sample(tid: nat, ts: real, percent: real)

  // ----- Specification ---------------------------------------------------------------

  function Max(a: real, b: real): real { if a >= b then a else b }
  function Min(a: real, b: real): real { if a <= b then a else b }

  /** Length of the part of the interval inside [from, to]. */
  function Overlap(iv: Interval, from: real, to: real): real {
    Max(0.0, Min(iv.end, to) - Max(iv.start, from))
  }

  function SumOverlap(ivs: seq<Interval>, from: real, to: real): real {
    if ivs == [] then 0.0 else Overlap(ivs[0], from, to) + SumOverlap(ivs[1..], from, to)
  }

  function ToInterval(s: Slice): Interval {
    Interval(s.ts as real, s.ts as real + s.dur as real)
  }

  function IsRunning(s: Slice): bool { s.name == Task(RUNNING) }

  function RunningOnly(slices: seq<Slice>): seq<Slice> {
    if slices == [] then [] else (if IsRunning(slices[0]) then [slices[0]] else []) + RunningOnly(slices[1..])
  }

  /** The intervals of one task, in the order of the slices. */
  function RowOf(slices: seq<Slice>, tid: nat): seq<Interval> {
    if slices == [] then []
    else (if slices[0].tid == tid then [ToInterval(slices[0])] else []) + RowOf(slices[1..], tid)
  }

  /** Load of a task in the window of width `window` ending at `ts`. */
  function Load(running: seq<Slice>, tid: nat, ts: real, window: real): real {
    if window > 0.0 then SumOverlap(RowOf(running, tid), ts - window, ts) / window * 100.0 else 0.0
  }

  function SamplesAt(running: seq<Slice>, tids: seq<nat>, ts: real, window: real): seq<Sample> {
    if tids == [] then []
    else [Sample(tids[0], ts, Load(running, tids[0], ts, window))] + SamplesAt(running, tids[1..], ts, window)
  }

  function Samples(running: seq<Slice>, times: seq<nat>, tids: seq<nat>, window: real): seq<Sample> {
    if times == [] then []
    else SamplesAt(running, tids, times[0] as real, window) + Samples(running, times[1..], tids, window)
  }

  // ----- What is to be shown, slice by slice -------------------------------------------

  /** How long the slice keeps the processor for the task between two times. */
  function Busy(s: Slice, tid: nat, from: real, to: real): real {
    var start := if s.ts as real <= from then from else s.ts as real;
    var end := if (s.ts + s.dur) as real <= to then (s.ts + s.dur) as real else to;
    if s.tid == tid && s.name == Task(RUNNING) && start <= end then end - start else 0.0
  }

  function BusySum(slices: seq<Slice>, tid: nat, from: real, to: real): real {
    if slices == [] then 0.0 else Busy(slices[0], tid, from, to) + BusySum(slices[1..], tid, from, to)
  }

  /** A slice of the list, named RUNNING, starts then. */
  ghost predicate StartsRunning(slices: seq<Slice>, ts: nat) {
    exists i :: 0 <= i < |slices| && slices[i].name == Task(RUNNING) && slices[i].ts == ts
  }

  /** The task has such a slice. */
  ghost predicate EverRuns(slices: seq<Slice>, tid: nat) {
    exists i :: 0 <= i < |slices| && slices[i].name == Task(RUNNING) && slices[i].tid == tid
  }

  /** A sample that is to be shown: at a start, for a task that runs at all, with its share of the window before. */
  ghost predicate ToShow(slices: seq<Slice>, window: real, x: Sample) {
    && (exists ts: nat :: StartsRunning(slices, ts) && x.ts == ts as real) && EverRuns(slices, x.tid)
    && x.percent == if window > 0.0 then BusySum(slices, x.tid, x.ts - window, x.ts) / window * 100.0 else 0.0
  }

  ghost predicate Earlier(a: Sample, b: Sample) {
    a.ts < b.ts || (a.ts == b.ts && a.tid < b.tid)
  }

  ghost predicate EachEarlier(samples: seq<Sample>) {
    forall i, j :: 0 <= i < j < |samples| ==> Earlier(samples[i], samples[j])
  }

  /** All of these samples and no others, each once, by time and then by task. */
  ghost predicate LoadsOf(slices: seq<Slice>, window: real, samples: seq<Sample>) {
    EachEarlier(samples) && forall x :: x in samples <==> ToShow(slices, window, x)
  }

  lemma {:induction false} RunningMeans(slices: seq<Slice>)
    ensures forall ts: nat :: SomeStartsAt(RunningOnly(slices), ts) <==> StartsRunning(slices, ts)
    ensures forall tid: nat :: SomeRunsAs(RunningOnly(slices), tid) <==> EverRuns(slices, tid)
  {
    if slices != [] {
      var s, rest := slices[0], slices[1..];
      var tail, all := RunningOnly(rest), RunningOnly(slices);
      RunningMeans(rest);
      assert all == (if s.name == Task(RUNNING) then [s] else []) + tail;
      assert slices == [s] + rest;
      hide RunningOnly;
      forall ts: nat ensures SomeStartsAt(all, ts) <==> StartsRunning(slices, ts) {
        StartsHead(s, rest, tail, ts);
      }
      forall tid: nat ensures SomeRunsAs(all, tid) <==> EverRuns(slices, tid) {
        RunsHead(s, rest, tail, tid);
      }
    }
  }

  lemma StartsHead(s: Slice, rest: seq<Slice>, tail: seq<Slice>, ts: nat)
    requires SomeStartsAt(tail, ts) <==> StartsRunning(rest, ts)
    ensures var all := (if s.name == Task(RUNNING) then [s] else []) + tail;
      SomeStartsAt(all, ts) <==> StartsRunning([s] + rest, ts)
  {
    var all, slices := (if s.name == Task(RUNNING) then [s] else []) + tail, [s] + rest;
    var d := |all| - |tail|;
    if i :| 0 <= i < |tail| && tail[i].ts == ts {
      assert all[i + d].ts == ts;
    }
    if i :| 0 <= i < |rest| && rest[i].name == Task(RUNNING) && rest[i].ts == ts {
      assert slices[i + 1] == rest[i];
    }
    if i :| 0 <= i < |all| && all[i].ts == ts {
      assert i >= d ==> tail[i - d] == all[i];
      assert slices[0] == s;
    }
    if i :| 0 <= i < |slices| && slices[i].name == Task(RUNNING) && slices[i].ts == ts {
      assert i > 0 ==> rest[i - 1] == slices[i];
      assert d == 1 ==> all[0] == s;
    }
  }

  lemma RunsHead(s: Slice, rest: seq<Slice>, tail: seq<Slice>, tid: nat)
    requires SomeRunsAs(tail, tid) <==> EverRuns(rest, tid)
    ensures var all := (if s.name == Task(RUNNING) then [s] else []) + tail;
      SomeRunsAs(all, tid) <==> EverRuns([s] + rest, tid)
  {
    var all, slices := (if s.name == Task(RUNNING) then [s] else []) + tail, [s] + rest;
    var d := |all| - |tail|;
    if i :| 0 <= i < |tail| && tail[i].tid == tid {
      assert all[i + d].tid == tid;
    }
    if i :| 0 <= i < |rest| && rest[i].name == Task(RUNNING) && rest[i].tid == tid {
      assert slices[i + 1] == rest[i];
    }
    if i :| 0 <= i < |all| && all[i].tid == tid {
      assert i >= d ==> tail[i - d] == all[i];
      assert slices[0] == s;
    }
    if i :| 0 <= i < |slices| && slices[i].name == Task(RUNNING) && slices[i].tid == tid {
      assert i > 0 ==> rest[i - 1] == slices[i];
      assert d == 1 ==> all[0] == s;
    }
  }

  /** The overlap the counters add up is the time the slices keep the processor. */
  lemma {:induction false} OverlapIsBusy(slices: seq<Slice>, tid: nat, from: real, to: real)
    ensures SumOverlap(RowOf(RunningOnly(slices), tid), from, to) == BusySum(slices, tid, from, to)
  {
    hide Overlap, Busy;
    if slices != [] {
      var s, rest := slices[0], slices[1..];
      OverlapIsBusy(rest, tid, from, to);
      BusyOne(s, tid, from, to);
      var tail := RunningOnly(rest);
      var row := RowOf(tail, tid);
      assert ([s] + tail)[1..] == tail && ([ToInterval(s)] + row)[1..] == row && [] + tail == tail && [] + row == row;
    }
  }

  lemma BusyOne(s: Slice, tid: nat, from: real, to: real)
    ensures Busy(s, tid, from, to)
      == if s.name == Task(RUNNING) && s.tid == tid then Overlap(ToInterval(s), from, to) else 0.0
    ensures IsRunning(s) <==> s.name == Task(RUNNING)
  {
  }

  lemma {:induction false} SamplesAtMeans(running: seq<Slice>, tids: seq<nat>, ts: real, window: real)
    requires Ascending(tids)
    ensures var row := SamplesAt(running, tids, ts, window);
      && |row| == |tids|
      && forall i :: 0 <= i < |row| ==> row[i] == Sample(tids[i], ts, Load(running, tids[i], ts, window))
  {
    hide Load;
    if tids != [] {
      AscendingRest(tids);
      SamplesAtMeans(running, tids[1..], ts, window);
    }
  }

  /** One sample of the list. */
  ghost predicate Listed(running: seq<Slice>, times: seq<nat>, tids: seq<nat>, window: real, x: Sample) {
    && x.tid in tids && (exists ts: nat :: ts in times && x.ts == ts as real)
    && x.percent == Load(running, x.tid, x.ts, window)
  }

  lemma {:induction false} SamplesMean(running: seq<Slice>, times: seq<nat>, tids: seq<nat>, window: real)
    requires Ascending(times) && Ascending(tids)
    ensures var all := Samples(running, times, tids, window);
      && EachEarlier(all)
      && (forall x :: x in all <==> Listed(running, times, tids, window, x))
    decreases |times|
  {
    hide Load, SamplesAt;
    if times != [] {
      var first, rest := times[0], times[1..];
      AscendingRest(times);
      SamplesMean(running, rest, tids, window);
      SamplesAtMeans(running, tids, first as real, window);
      var row, tail := SamplesAt(running, tids, first as real, window), Samples(running, rest, tids, window);
      assert Samples(running, times, tids, window) == row + tail;
      assert EachEarlier(row) by {
        forall i, j | 0 <= i < j < |row| ensures Earlier(row[i], row[j]) {
          assert tids[i] < tids[j];
        }
      }
      forall x | x in row ensures x.ts == first as real {
        var i :| 0 <= i < |row| && row[i] == x;
      }
      forall x | x in tail ensures (first as real) < x.ts {
        assert Listed(running, rest, tids, window, x);
        var ts: nat :| ts in rest && x.ts == ts as real;
      }
      RowThenTail(row, tail, first as real);
      forall x ensures x in row + tail <==> Listed(running, times, tids, window, x) {
        if x in row {
          var i :| 0 <= i < |row| && row[i] == x;
          assert tids[i] in tids && first in times;
        }
        if x in tail {
          assert Listed(running, rest, tids, window, x);
        }
        if Listed(running, times, tids, window, x) {
          var ts: nat :| ts in times && x.ts == ts as real;
          if ts == first {
            var i :| 0 <= i < |tids| && tids[i] == x.tid;
            assert row[i] == x;
          } else {
            assert ts in rest;
            assert Listed(running, rest, tids, window, x);
          }
        }
      }
    }
  }

  lemma RowThenTail(row: seq<Sample>, tail: seq<Sample>, ts: real)
    requires EachEarlier(row) && EachEarlier(tail)
    requires (forall x :: x in row ==> x.ts == ts) && (forall x :: x in tail ==> ts < x.ts)
    ensures EachEarlier(row + tail)
  {
    forall i, j | 0 <= i < j < |row + tail| ensures Earlier((row + tail)[i], (row + tail)[j]) {
      if i < |row| <= j {
        assert row[i] in row && tail[j - |row|] in tail;
      }
    }
  }

  lemma SamplesAreLoads(slices: seq<Slice>, window: real)
    ensures var running := RunningOnly(slices);
      LoadsOf(slices, window, Samples(running, SwitchTimes(running), TaskIds(running), window))
  {
    hide SwitchTimes, TaskIds, RunningOnly, Samples, SumOverlap, RowOf, BusySum;
    var running := RunningOnly(slices);
    SwitchTimesFacts(running);
    TaskIdsFacts(running);
    SamplesMean(running, SwitchTimes(running), TaskIds(running), window);
    RunningMeans(slices);
    forall x ensures Listed(running, SwitchTimes(running), TaskIds(running), window, x) <==> ToShow(slices, window, x) {
      OverlapIsBusy(slices, x.tid, x.ts - window, x.ts);
    }
  }

  // ----- Sorting ---------------------------------------------------------------------

  /** Tuples compare by start, then by end. */
  predicate Before(a: Interval, b: Interval) {
    a.start < b.start || (a.start == b.start && a.end <= b.end)
  }

  ghost predicate Sorted(ivs: seq<Interval>) {
    forall i, j :: 0 <= i < j < |ivs| ==> Before(ivs[i], ivs[j])
  }

  function InsertInterval(ivs: seq<Interval>, iv: Interval): seq<Interval> {
    if ivs == [] || Before(iv, ivs[0]) then [iv] + ivs else [ivs[0]] + InsertInterval(ivs[1..], iv)
  }

  function SortIntervals(ivs: seq<Interval>): seq<Interval> {
    if ivs == [] then [] else InsertInterval(SortIntervals(ivs[1..]), ivs[0])
  }

  lemma {:induction false} InsertSum(ivs: seq<Interval>, iv: Interval, from: real, to: real)
    ensures SumOverlap(InsertInterval(ivs, iv), from, to) == SumOverlap(ivs, from, to) + Overlap(iv, from, to)
  {
    hide Overlap, Before;
    if ivs == [] {
    } else if Before(iv, ivs[0]) {
      assert ([iv] + ivs)[1..] == ivs;
    } else {
      InsertSum(ivs[1..], iv, from, to);
    }
  }

  lemma {:induction false} InsertSorted(ivs: seq<Interval>, iv: Interval)
    ensures multiset(InsertInterval(ivs, iv)) == multiset(ivs) + multiset{iv}
    ensures Sorted(ivs) ==> Sorted(InsertInterval(ivs, iv))
  {
    if ivs != [] && !Before(iv, ivs[0]) {
      var tail := InsertInterval(ivs[1..], iv);
      InsertSorted(ivs[1..], iv);
      assert ivs == [ivs[0]] + ivs[1..];
      hide Before, InsertInterval;
      if Sorted(ivs) {
        forall x | x in tail ensures Before(ivs[0], x) {
          assert x in multiset(tail);
        }
      }
    }
  }

  /** Sorting changes neither the intervals nor any overlap sum. */
  lemma {:induction false} SortKeeps(ivs: seq<Interval>, from: real, to: real)
    ensures Sorted(SortIntervals(ivs)) && multiset(SortIntervals(ivs)) == multiset(ivs)
    ensures SumOverlap(SortIntervals(ivs), from, to) == SumOverlap(ivs, from, to)
  {
    hide Overlap, InsertInterval;
    if ivs != [] {
      SortKeeps(ivs[1..], from, to);
      InsertSum(SortIntervals(ivs[1..]), ivs[0], from, to);
      InsertSorted(SortIntervals(ivs[1..]), ivs[0]);
      assert ivs == [ivs[0]] + ivs[1..];
    }
  }

  // ----- The amortised scan ----------------------------------------------------------

  lemma {:induction false} SumOfNothing(ivs: seq<Interval>, from: real, to: real)
    requires forall iv :: iv in ivs ==> Overlap(iv, from, to) == 0.0
    ensures SumOverlap(ivs, from, to) == 0.0
  {
    hide Overlap;
    if ivs != [] {
      SumOfNothing(ivs[1..], from, to);
    }
  }

  lemma {:induction false} SumAppend(a: seq<Interval>, b: seq<Interval>, from: real, to: real)
    ensures SumOverlap(a + b, from, to) == SumOverlap(a, from, to) + SumOverlap(b, from, to)
  {
    hide Overlap;
    if a == [] {
      assert a + b == b;
    } else {
      assert (a + b)[1..] == a[1..] + b;
      SumAppend(a[1..], b, from, to);
    }
  }

  /** Everything below the index ends before the window. */
  ghost predicate Passed(ivs: seq<Interval>, idx: nat, from: real) {
    idx <= |ivs| && forall i :: 0 <= i < idx ==> ivs[i].end <= from
  }

  /**
   One task at one switch time: the index moves past intervals that ended before the
   window, and the sum stops at the first interval that starts at or after `ts`.
   */
  method ScanRow(ivs: seq<Interval>, idx0: nat, ts: real, winStart: real) returns (idx: nat, overlap: real)
    requires Sorted(ivs) && Passed(ivs, idx0, winStart)
    ensures idx0 <= idx && Passed(ivs, idx, winStart)
    ensures overlap == SumOverlap(ivs, winStart, ts)
  {
    hide SumOverlap;
    idx, overlap := idx0, 0.0;
    while idx < |ivs| && ivs[idx].end <= winStart
      invariant idx0 <= idx && Passed(ivs, idx, winStart)
    {
      idx := idx + 1;
    }
    PassedSum(ivs, idx, winStart, ts);
    hide Passed, Sorted;
    var i := idx;
    while i < |ivs|
      invariant idx <= i <= |ivs|
      invariant overlap + SumOverlap(ivs[i..], winStart, ts) == SumOverlap(ivs, winStart, ts)
    {
      var start, end := ivs[i].start, ivs[i].end;
      SumStep(ivs, i, winStart, ts);
      if start >= ts {
        LaterSum(ivs, i, winStart, ts);
        return;
      }
      var oS := Max(start, winStart);
      var oE := Min(end, ts);
      if oE > oS {
        overlap := overlap + (oE - oS);
      }
      i := i + 1;
    }
    SumOfNothing(ivs[i..], winStart, ts);
  }

  lemma SumStep(ivs: seq<Interval>, i: nat, from: real, to: real)
    requires i < |ivs|
    ensures SumOverlap(ivs[i..], from, to) == Overlap(ivs[i], from, to) + SumOverlap(ivs[i + 1..], from, to)
  {
    assert ivs[i..][1..] == ivs[i + 1..];
  }

  lemma PassedSum(ivs: seq<Interval>, idx: nat, from: real, to: real)
    requires Passed(ivs, idx, from)
    ensures SumOverlap(ivs[idx..], from, to) == SumOverlap(ivs, from, to)
  {
    hide SumOverlap;
    SumOfNothing(ivs[..idx], from, to);
    assert ivs[..idx] + ivs[idx..] == ivs;
    SumAppend(ivs[..idx], ivs[idx..], from, to);
  }

  lemma LaterSum(ivs: seq<Interval>, i: nat, from: real, to: real)
    requires i < |ivs| && Sorted(ivs) && ivs[i].start >= to
    ensures SumOverlap(ivs[i..], from, to) == 0.0
  {
    hide SumOverlap;
    forall iv | iv in ivs[i..] ensures Overlap(iv, from, to) == 0.0 {
      var j :| 0 <= j < |ivs[i..]| && ivs[i..][j] == iv;
      assert iv == ivs[i + j] && (j > 0 ==> Before(ivs[i], ivs[i + j]));
    }
    SumOfNothing(ivs[i..], from, to);
  }

  /** Running slices grouped by task, each row sorted. */
  method GroupByTask(running: seq<Slice>) returns (byTask: map<nat, seq<Interval>>)
    ensures forall tid: nat :: tid in byTask <==> SomeRunsAs(running, tid)
    ensures forall tid :: tid in byTask ==> byTask[tid] == SortIntervals(RowOf(running, tid))
  {
    var rows: map<nat, seq<Interval>> := map[];
    for i := 0 to |running|
      invariant forall tid: nat :: tid in rows <==> SomeRunsAs(running[..i], tid)
      invariant forall tid :: tid in rows ==> rows[tid] == RowOf(running[..i], tid)
    {
      var s := running[i];
      RunsAsSnoc(running, i);
      forall tid: nat
        ensures RowOf(running[..i + 1], tid) == RowOf(running[..i], tid) + if s.tid == tid then [ToInterval(s)] else []
      {
        assert running[..i + 1] == running[..i] + [s];
        RowSnoc(running[..i], s, tid);
      }
      if s.tid !in rows {
        RowMissing(running[..i], s.tid);
        rows := rows[s.tid := []];
      }
      rows := rows[s.tid := rows[s.tid] + [ToInterval(s)]];
    }
    assert running[..|running|] == running;
    byTask := map tid | tid in rows :: SortIntervals(rows[tid]);
  }

  lemma RunsAsSnoc(running: seq<Slice>, i: nat)
    requires i < |running|
    ensures forall tid: nat ::
      SomeRunsAs(running[..i + 1], tid) <==> SomeRunsAs(running[..i], tid) || tid == running[i].tid
  {
    var a, b := running[..i], running[..i + 1];
    assert b == a + [running[i]];
    forall tid: nat ensures SomeRunsAs(b, tid) <==> SomeRunsAs(a, tid) || tid == running[i].tid {
      if j :| 0 <= j < |a| && a[j].tid == tid {
        assert b[j].tid == tid;
      }
      assert b[i] == running[i];
    }
  }

  lemma {:induction false} RowSnoc(slices: seq<Slice>, s: Slice, tid: nat)
    ensures RowOf(slices + [s], tid) == RowOf(slices, tid) + if s.tid == tid then [ToInterval(s)] else []
  {
    if slices != [] {
      assert (slices + [s])[1..] == slices[1..] + [s];
      RowSnoc(slices[1..], s, tid);
    }
  }

  lemma {:induction false} RowMissing(slices: seq<Slice>, tid: nat)
    requires !SomeRunsAs(slices, tid)
    ensures RowOf(slices, tid) == []
  {
    if slices != [] {
      assert forall k :: 0 <= k < |slices[1..]| ==> slices[1..][k] == slices[k + 1];
      RowMissing(slices[1..], tid);
    }
  }

  /** `sorted` of the set of start times: each once, ascending. */
  function SwitchTimes(running: seq<Slice>): seq<nat> {
    if running == [] then [] else InsertNew(SwitchTimes(running[1..]), running[0].ts)
  }

  function TaskIds(running: seq<Slice>): seq<nat> {
    if running == [] then [] else InsertNew(TaskIds(running[1..]), running[0].tid)
  }

  function InsertNew(s: seq<nat>, x: nat): seq<nat> {
    if s == [] || x < s[0] then [x] + s else if x == s[0] then s else [s[0]] + InsertNew(s[1..], x)
  }

  ghost predicate Ascending(s: seq<nat>) {
    forall i, j :: 0 <= i < j < |s| ==> s[i] < s[j]
  }

  lemma {:induction false} InsertNewFacts(s: seq<nat>, x: nat)
    requires Ascending(s)
    ensures Ascending(InsertNew(s, x)) && forall y :: y in InsertNew(s, x) <==> y in s || y == x
  {
    if s == [] || x < s[0] {
      AscendingFront(x, s);
    } else {
      var rest := s[1..];
      AscendingRest(s);
      if x > s[0] {
        InsertNewFacts(rest, x);
        hide Ascending;
        AscendingFront(s[0], InsertNew(rest, x));
      }
    }
  }

  lemma AscendingRest(s: seq<nat>)
    requires Ascending(s) && s != []
    ensures Ascending(s[1..]) && (forall y: nat :: y in s[1..] ==> s[0] < y)
    ensures forall y: nat :: y in s <==> y == s[0] || y in s[1..]
  {
    forall k | 0 <= k < |s| - 1 ensures s[1..][k] == s[k + 1] && s[0] < s[k + 1] {
    }
  }

  lemma AscendingFront(x: nat, s: seq<nat>)
    requires Ascending(s) && (s == [] || x < s[0] || forall y: nat :: y in s ==> x < y)
    ensures Ascending([x] + s) && forall y: nat :: y in [x] + s <==> y in s || y == x
  {
    forall k | 0 <= k < |s| ensures x < s[k] && ([x] + s)[k + 1] == s[k] {
      assert s[k] in s && (k > 0 ==> s[0] < s[k]);
    }
  }

  ghost predicate SomeStartsAt(running: seq<Slice>, x: nat) {
    exists i :: 0 <= i < |running| && running[i].ts == x
  }

  ghost predicate SomeRunsAs(running: seq<Slice>, tid: nat) {
    exists i :: 0 <= i < |running| && running[i].tid == tid
  }

  lemma {:induction false} SwitchTimesFacts(running: seq<Slice>)
    ensures Ascending(SwitchTimes(running))
    ensures forall x: nat :: x in SwitchTimes(running) <==> SomeStartsAt(running, x)
  {
    if running != [] {
      var rest := running[1..];
      SwitchTimesFacts(rest);
      InsertNewFacts(SwitchTimes(rest), running[0].ts);
      forall x: nat ensures SomeStartsAt(running, x) <==> x == running[0].ts || SomeStartsAt(rest, x) {
        if i :| 0 < i < |running| && running[i].ts == x {
          assert rest[i - 1].ts == x;
        }
      }
    }
  }

  lemma {:induction false} TaskIdsFacts(running: seq<Slice>)
    ensures Ascending(TaskIds(running))
    ensures forall x: nat :: x in TaskIds(running) <==> SomeRunsAs(running, x)
  {
    if running != [] {
      var rest := running[1..];
      TaskIdsFacts(rest);
      InsertNewFacts(TaskIds(rest), running[0].tid);
      forall x: nat ensures SomeRunsAs(running, x) <==> x == running[0].tid || SomeRunsAs(rest, x) {
        if i :| 0 < i < |running| && running[i].tid == x {
          assert rest[i - 1].tid == x;
        }
      }
    }
  }

  /** `cpu_load_counters`: one sample per switch time and task, equal to the plain sum. */
  method CpuLoadCounters(slices: seq<Slice>, window: real) returns (samples: seq<Sample>)
    ensures var running := RunningOnly(slices);
      samples == Samples(running, SwitchTimes(running), TaskIds(running), window)
    ensures LoadsOf(slices, window, samples)
  {
    hide LoadsOf;
    SamplesAreLoads(slices, window);
    var running := RunningOnly(slices);
    var byTask := GroupByTask(running);
    var switchTimes, taskIds := SwitchTimes(running), TaskIds(running);
    SwitchTimesFacts(running);
    TaskIdsFacts(running);
    hide SwitchTimes, TaskIds, SortIntervals, RowOf, SamplesAt, RunningOnly;
    var indices: map<nat, nat> := map tid | tid in byTask :: 0;
    samples := [];
    assert switchTimes[0..] == switchTimes;
    ghost var from := if switchTimes == [] then 0.0 else switchTimes[0] as real - window;
    for k := 0 to |switchTimes|
      invariant k < |switchTimes| ==> from <= switchTimes[k] as real - window
      invariant AllPassed(byTask, indices, from)
      invariant samples + Samples(running, switchTimes[k..], taskIds, window)
        == Samples(running, switchTimes, taskIds, window)
    {
      var ts := switchTimes[k] as real;
      SamplesStep(samples, running, switchTimes, k, taskIds, window);
      PassedLater(byTask, indices, from, ts - window);
      from := ts - window;
      var row;
      row, indices := SamplesOfTime(running, byTask, indices, taskIds, ts, window);
      samples := samples + row;
    }
    assert switchTimes[|switchTimes|..] == [];
  }

  lemma SamplesStep(done: seq<Sample>, running: seq<Slice>, times: seq<nat>, k: nat, tids: seq<nat>, window: real)
    requires k < |times|
    ensures done + Samples(running, times[k..], tids, window)
      == done + SamplesAt(running, tids, times[k] as real, window) + Samples(running, times[k + 1..], tids, window)
  {
    hide SamplesAt;
    assert times[k..][1..] == times[k + 1..];
    var a, b := SamplesAt(running, tids, times[k] as real, window), Samples(running, times[k + 1..], tids, window);
    assert done + (a + b) == done + a + b;
  }

  lemma SamplesAtStep(done: seq<Sample>, running: seq<Slice>, tids: seq<nat>, i: nat, ts: real, window: real)
    requires i < |tids|
    ensures done + SamplesAt(running, tids[i..], ts, window)
      == done + [Sample(tids[i], ts, Load(running, tids[i], ts, window))]
        + SamplesAt(running, tids[i + 1..], ts, window)
  {
    hide Load;
    assert tids[i..][1..] == tids[i + 1..];
    var a, b :=
      [Sample(tids[i], ts, Load(running, tids[i], ts, window))], SamplesAt(running, tids[i + 1..], ts, window);
    assert done + (a + b) == done + a + b;
  }

  /** Every task's index has passed only intervals that ended by `from`. */
  ghost predicate AllPassed(byTask: map<nat, seq<Interval>>, indices: map<nat, nat>, from: real) {
    indices.Keys == byTask.Keys && forall tid :: tid in byTask ==> Passed(byTask[tid], indices[tid], from)
  }

  lemma PassedLater(byTask: map<nat, seq<Interval>>, indices: map<nat, nat>, from: real, later: real)
    requires AllPassed(byTask, indices, from) && from <= later
    ensures AllPassed(byTask, indices, later)
  {
  }

  /** The inner loop over tasks at one switch time. */
  method SamplesOfTime(running: seq<Slice>, byTask: map<nat, seq<Interval>>, indices0: map<nat, nat>, tids: seq<nat>,
                       ts: real, window: real)
    returns (row: seq<Sample>, indices: map<nat, nat>)
    requires forall x :: x in tids <==> x in byTask
    requires forall tid :: tid in byTask ==> byTask[tid] == SortIntervals(RowOf(running, tid))
    requires AllPassed(byTask, indices0, ts - window)
    ensures row == SamplesAt(running, tids, ts, window)
    ensures AllPassed(byTask, indices, ts - window)
  {
    hide Passed, SumOverlap, RowOf, SortIntervals, SamplesAt, Sorted;
    var winStart := ts - window;
    row, indices := [], indices0;
    assert tids[0..] == tids;
    for i := 0 to |tids|
      invariant AllPassed(byTask, indices, winStart)
      invariant row + SamplesAt(running, tids[i..], ts, window) == SamplesAt(running, tids, ts, window)
    {
      var tid := tids[i];
      SortKeeps(RowOf(running, tid), winStart, ts);
      SamplesAtStep(row, running, tids, i, ts, window);
      var idx, overlap := ScanRow(byTask[tid], indices[tid], ts, winStart);
      indices := indices[tid := idx];
      var pct := if window > 0.0 then overlap / window * 100.0 else 0.0;
      row := row + [Sample(tid, ts, pct)];
    }
    NoSamples(running, ts, window);
    assert tids[|tids|..] == [];
  }

  lemma NoSamples(running: seq<Slice>, ts: real, window: real)
    ensures SamplesAt(running, [], ts, window) == []
  {
  }

  // ----- All tasks together ----------------------------------------------------------

  ghost predicate Disjoint(a: Interval, b: Interval) {
    a.end <= b.start || b.end <= a.start
  }

  ghost predicate PairwiseDisjoint(ivs: seq<Interval>) {
    && (forall i :: 0 <= i < |ivs| ==> ivs[i].start <= ivs[i].end)
    && (forall i, j :: 0 <= i < j < |ivs| ==> Disjoint(ivs[i], ivs[j]))
  }

  lemma SplitWindow(r: Interval, from: real, s: real, e: real, to: real)
    requires from <= s <= e <= to && r.start <= r.end && (r.end <= s || e <= r.start)
    ensures Overlap(r, from, to) == Overlap(r, from, s) + Overlap(r, e, to)
  {
  }

  lemma {:induction false} SplitSum(ivs: seq<Interval>, from: real, s: real, e: real, to: real)
    requires from <= s <= e <= to
    requires forall i :: 0 <= i < |ivs| ==> ivs[i].start <= ivs[i].end && (ivs[i].end <= s || e <= ivs[i].start)
    ensures SumOverlap(ivs, from, to) == SumOverlap(ivs, from, s) + SumOverlap(ivs, e, to)
  {
    hide Overlap;
    if ivs != [] {
      SplitWindow(ivs[0], from, s, e, to);
      SplitSum(ivs[1..], from, s, e, to);
    }
  }

  /** Disjoint intervals cannot fill a window more than once. */
  lemma {:induction false} DisjointSum(ivs: seq<Interval>, from: real, to: real)
    requires from <= to && PairwiseDisjoint(ivs)
    ensures SumOverlap(ivs, from, to) <= to - from
    decreases |ivs|
  {
    if ivs != [] {
      var iv, rest := ivs[0], ivs[1..];
      var s, e := Max(iv.start, from), Min(iv.end, to);
      assert forall k :: 0 <= k < |rest| ==> rest[k] == ivs[k + 1] && Disjoint(iv, ivs[k + 1]);
      if s < e {
        SplitSum(rest, from, s, e, to);
        DisjointSum(rest, from, s);
        DisjointSum(rest, e, to);
      } else {
        DisjointSum(rest, from, to);
      }
    }
  }

  function AllIntervals(running: seq<Slice>): seq<Interval> {
    seq(|running|, i requires 0 <= i < |running| => ToInterval(running[i]))
  }

  /** Overlap of all rows of the listed tasks. */
  function RowsSum(running: seq<Slice>, tids: seq<nat>, from: real, to: real): real {
    if tids == [] then 0.0 else SumOverlap(RowOf(running, tids[0]), from, to) + RowsSum(running, tids[1..], from, to)
  }

  lemma {:induction false} OneMoreSlice(s: Slice, rest: seq<Slice>, tids: seq<nat>, from: real, to: real)
    requires Ascending(tids)
    ensures RowsSum([s] + rest, tids, from, to)
      == RowsSum(rest, tids, from, to) + if s.tid in tids then Overlap(ToInterval(s), from, to) else 0.0
  {
    hide Overlap, ToInterval;
    if tids != [] {
      var running, more := [s] + rest, tids[1..];
      assert running[1..] == rest;
      assert forall k :: 0 <= k < |more| ==> tids[0] < more[k];
      assert s.tid in tids <==> s.tid == tids[0] || s.tid in more;
      var row := RowOf(rest, tids[0]);
      assert ([ToInterval(s)] + row)[1..] == row && [] + row == row;
      OneMoreSlice(s, rest, more, from, to);
    }
  }

  lemma {:induction false} RowsCoverAll(running: seq<Slice>, tids: seq<nat>, from: real, to: real)
    requires Ascending(tids) && forall s :: s in running ==> s.tid in tids
    ensures RowsSum(running, tids, from, to) == SumOverlap(AllIntervals(running), from, to)
  {
    hide Overlap, ToInterval, RowOf;
    if running == [] {
      EmptyRows(tids, from, to);
    } else {
      var s, rest := running[0], running[1..];
      assert [s] + rest == running;
      RowsCoverAll(rest, tids, from, to);
      OneMoreSlice(s, rest, tids, from, to);
      assert AllIntervals(running)[1..] == AllIntervals(rest);
    }
  }

  lemma {:induction false} EmptyRows(tids: seq<nat>, from: real, to: real)
    ensures RowsSum([], tids, from, to) == 0.0
  {
    if tids != [] {
      EmptyRows(tids[1..], from, to);
    }
  }

  function TotalPercent(running: seq<Slice>, tids: seq<nat>, ts: real, window: real): real {
    if tids == [] then 0.0 else Load(running, tids[0], ts, window) + TotalPercent(running, tids[1..], ts, window)
  }

  lemma {:induction false} TotalIsRowsSum(running: seq<Slice>, tids: seq<nat>, ts: real, window: real)
    requires window > 0.0
    ensures TotalPercent(running, tids, ts, window) == RowsSum(running, tids, ts - window, ts) / window * 100.0
  {
    hide SumOverlap, RowOf;
    if tids != [] {
      TotalIsRowsSum(running, tids[1..], ts, window);
      var a, b := SumOverlap(RowOf(running, tids[0]), ts - window, ts), RowsSum(running, tids[1..], ts - window, ts);
      assert (a + b) / window == a / window + b / window;
    }
  }

  /** The tasks together never show more than 100 percent when their slices are disjoint. */
  lemma LoadsWithinHundred(running: seq<Slice>, ts: real, window: real)
    requires window > 0.0 && PairwiseDisjoint(AllIntervals(running))
    ensures TotalPercent(running, TaskIds(running), ts, window) <= 100.0
  {
    hide TaskIds;
    var tids := TaskIds(running);
    TaskIdsFacts(running);
    TotalIsRowsSum(running, tids, ts, window);
    forall s | s in running ensures s.tid in tids {
      var i :| 0 <= i < |running| && running[i] == s;
      assert SomeRunsAs(running, s.tid);
    }
    RowsCoverAll(running, tids, ts - window, ts);
    DisjointSum(AllIntervals(running), ts - window, ts);
    AtMostOne(RowsSum(running, tids, ts - window, ts), window);
  }

  lemma AtMostOne(sum: real, window: real)
    requires window > 0.0 && sum <= window
    ensures sum / window * 100.0 <= 100.0
  {
  }

  /** RUNNING slices of the timeline do not overlap each other. */
  ghost predicate RunningApart(slices: seq<Slice>) {
    forall i, j :: 0 <= i < j < |slices| && IsRunning(slices[i]) && IsRunning(slices[j]) ==>
      Disjoint(ToInterval(slices[i]), ToInterval(slices[j]))
  }

  lemma OneMoreApart(s: Slice, tail: seq<Slice>)
    requires PairwiseDisjoint(AllIntervals(tail))
    requires forall k :: 0 <= k < |tail| ==> Disjoint(ToInterval(s), ToInterval(tail[k]))
    ensures PairwiseDisjoint(AllIntervals([s] + tail))
  {
    var all, some := AllIntervals([s] + tail), AllIntervals(tail);
    assert all[0] == ToInterval(s) && forall k :: 0 < k < |all| ==> all[k] == some[k - 1];
    assert forall k :: 0 <= k < |some| ==> some[k] == ToInterval(tail[k]);
    hide Disjoint;
  }

  lemma {:induction false} RunningOnlyApart(slices: seq<Slice>)
    requires RunningApart(slices)
    ensures PairwiseDisjoint(AllIntervals(RunningOnly(slices)))
    ensures forall s :: s in RunningOnly(slices) ==> s in slices && IsRunning(s)
  {
    hide Disjoint;
    if slices != [] {
      var rest := slices[1..];
      assert forall k :: 0 <= k < |rest| ==> rest[k] == slices[k + 1];
      RunningOnlyApart(rest);
      var tail := RunningOnly(rest);
      if IsRunning(slices[0]) {
        forall k | 0 <= k < |tail| ensures Disjoint(ToInterval(slices[0]), ToInterval(tail[k])) {
          assert tail[k] in tail;
          var j :| 0 <= j < |rest| && rest[j] == tail[k];
          assert rest[j] == slices[j + 1];
        }
        assert RunningOnly(slices) == [slices[0]] + tail;
        hide RunningOnly, ToInterval, IsRunning;
        OneMoreApart(slices[0], tail);
      } else {
        assert RunningOnly(slices) == tail;
      }
    }
  }

  /**
   From scheduler events to the load display: for every trace in time order whose events
   hand the processor over, all tasks together never exceed 100 percent in any window.
   */
  lemma TraceLoadsWithinHundred(recs: seq<Rec>, end: nat, ts: real, window: real)
    requires InTimeOrder(recs) && AllHandOver(recs) && LastTime(recs) <= end && window > 0.0
    ensures var running := RunningOnly(Timeline(recs, end));
      TotalPercent(running, TaskIds(running), ts, window) <= 100.0
  {
    hide Timeline, InTimeOrder, AllHandOver, TaskIds, TotalPercent, RunningOnly, PairwiseDisjoint;
    var slices := Timeline(recs, end);
    forall i, j | 0 <= i < j < |slices| && IsRunning(slices[i]) && IsRunning(slices[j])
      ensures Disjoint(ToInterval(slices[i]), ToInterval(slices[j])) {
      RunningSlicesDisjoint(recs, end, i, j);
    }
    RunningOnlyApart(slices);
    LoadsWithinHundred(RunningOnly(slices), ts, window);
  }

  // ----- The load as time ----------------------------------------------------------------

  /** The microseconds between two times at which the timeline shows the task RUNNING. */
  ghost function Instants(slices: seq<Slice>, tid: nat, from: int, to: nat): set<nat> {
    set x: nat | from <= x < to && Shows(slices, tid, RUNNING, x)
  }

  ghost function Span(a: nat, b: nat): (s: set<nat>)
    ensures (forall x: nat :: x in s <==> a <= x < b) && |s| == if a <= b then b - a else 0
    decreases b
  {
    if a < b then Span(a, b - 1) + {b - 1} else {}
  }

  /** One slice keeps the processor for as many microseconds as it covers. */
  lemma BusyIsSpan(s: Slice, tid: nat, from: int, to: nat)
    requires from <= to && s.tid == tid && s.name == Task(RUNNING)
    ensures var start, end := if s.ts <= from then from else s.ts, if s.ts + s.dur <= to then s.ts + s.dur else to;
      Busy(s, tid, from as real, to as real) == |Span(start, end)| as real
  {
  }

  lemma ShowsHead(slices: seq<Slice>, tid: nat, at: nat)
    requires slices != []
    ensures Shows(slices, tid, RUNNING, at)
      <==> Covers(slices[0], tid, RUNNING, at) || Shows(slices[1..], tid, RUNNING, at)
  {
    var rest := slices[1..];
    if i :| 0 <= i < |rest| && Covers(rest[i], tid, RUNNING, at) {
      assert Covers(slices[i + 1], tid, RUNNING, at);
    }
    if i :| 0 < i < |slices| && Covers(slices[i], tid, RUNNING, at) {
      assert Covers(rest[i - 1], tid, RUNNING, at);
    }
  }

  lemma NotTwice(slices: seq<Slice>, tid: nat, at: nat)
    requires RowsInOrder(slices) && slices != [] && Covers(slices[0], tid, RUNNING, at)
    ensures !Shows(slices[1..], tid, RUNNING, at)
  {
    var rest := slices[1..];
    forall i | 0 <= i < |rest| ensures !Covers(rest[i], tid, RUNNING, at) {
      assert rest[i] == slices[i + 1];
    }
  }

  lemma {:induction false} BusyIsInstants(slices: seq<Slice>, tid: nat, from: int, to: nat)
    requires RowsInOrder(slices) && from <= to
    ensures BusySum(slices, tid, from as real, to as real) == |Instants(slices, tid, from, to)| as real
    decreases |slices|
  {
    hide RowsInOrder, Busy, Shows;
    if slices == [] {
      NothingShown(tid);
      assert Instants(slices, tid, from, to) == {};
    } else {
      var s, rest := slices[0], slices[1..];
      RowsRest(slices);
      BusyIsInstants(rest, tid, from, to);
      var mine := set x: nat | from <= x < to && Covers(s, tid, RUNNING, x);
      forall x: nat
        ensures Shows(slices, tid, RUNNING, x) <==> Covers(s, tid, RUNNING, x) || Shows(rest, tid, RUNNING, x)
      {
        ShowsHead(slices, tid, x);
      }
      forall x: nat | Covers(s, tid, RUNNING, x) ensures !Shows(rest, tid, RUNNING, x) {
        NotTwice(slices, tid, x);
      }
      assert Instants(slices, tid, from, to) == mine + Instants(rest, tid, from, to);
      assert mine !! Instants(rest, tid, from, to);
      if s.tid == tid && s.name == Task(RUNNING) {
        BusyIsSpan(s, tid, from, to);
        var span := Span(if s.ts <= from then from else s.ts, if s.ts + s.dur <= to then s.ts + s.dur else to);
        assert forall x: nat :: x in mine <==> x in span;
        assert mine == span;
      } else {
        NotBusy(s, tid, from as real, to as real);
        assert mine == {};
      }
    }
  }

  lemma NotBusy(s: Slice, tid: nat, from: real, to: real)
    requires s.tid != tid || s.name != Task(RUNNING)
    ensures Busy(s, tid, from, to) == 0.0
  {
  }

  lemma NothingShown(tid: nat)
    ensures forall x: nat :: !Shows([], tid, RUNNING, x)
  {
  }

  lemma RowsRest(slices: seq<Slice>)
    requires RowsInOrder(slices) && slices != []
    ensures RowsInOrder(slices[1..])
  {
    var rest := slices[1..];
    assert forall k :: 0 <= k < |rest| ==> rest[k] == slices[k + 1];
  }

  /**
   What a sample means: for every trace that drops no begun interval, and a window of whole
   microseconds, the share of those microseconds at which the events had the task running.
   */
  lemma SampleIsTime(recs: seq<Rec>, end: nat, window: nat, tid: nat, ts: nat, x: Sample)
    requires Chronicle(recs) && LastTime(recs) <= end && window > 0 && ts <= end
    requires ToShow(Timeline(recs, end), window as real, x) && x.tid == tid && x.ts == ts as real
    ensures x.percent * window as real
      == 100.0 * |set at: nat | ts - window <= at < ts && WasIn(recs, tid, RUNNING, at)| as real
  {
    hide Timeline, Chronicle, Shows, WasIn, RowsInOrder, BusySum, StartsRunning, EverRuns;
    var slices := Timeline(recs, end);
    ChronicleInOrder(recs);
    TimelineRowsInOrder(recs, end);
    BusyIsInstants(slices, tid, ts - window, ts);
    forall at: nat | at < ts ensures Shows(slices, tid, RUNNING, at) <==> WasIn(recs, tid, RUNNING, at) {
      TimelineIsTrue(recs, end, tid, RUNNING, at);
    }
    assert Instants(slices, tid, ts - window, ts)
      == set at: nat | ts - window <= at < ts && WasIn(recs, tid, RUNNING, at);
    assert (ts - window) as real == x.ts - window as real;
  }
}
