/**
 Slice events of the Perfetto exporter: interrupts clipped to the RUNNING slice they start
 in, begin and end events put in one list and sorted by time and by an order among equal
 times.
 */
module XtracePerfetto {
  import opened Options
  import opened XtraceTasks
  import opened XtraceCpuLoad

  // ----- Clipping --------------------------------------------------------------------

  /** A slice ready to emit, in nanoseconds, on the track `uuid`. */
  datatype Emitted = Emitted(ts: nat, end: nat, name: Label, uuid: nat)

  function Ns(us: nat): nat { us * 1000 }
  function TaskUuid(tid: nat): nat { 0x1001 + tid }

  /** The state slices of one task, in list order. */
  function StateRow(slices: seq<Slice>, tid: nat): seq<Slice> {
    if slices == [] then []
    else (if slices[0].tid == tid && slices[0].name.Task? then [slices[0]] else []) + StateRow(slices[1..], tid)
  }

  /** The interrupts charged to one task, in list order. */
  function IsrRow(slices: seq<Slice>, tid: nat): seq<Slice> {
    if slices == [] then []
    else (if slices[0].tid == tid && slices[0].name.Isr? then [slices[0]] else []) + IsrRow(slices[1..], tid)
  }

  function ToEmitted(s: Slice): Emitted {
    Emitted(Ns(s.ts), Ns(EndOf(s)), s.name, TaskUuid(s.tid))
  }

  predicate Contains(s: Slice, isr: Slice) {
    s.name == Task(RUNNING) && Ns(s.ts) <= Ns(isr.ts) <= Ns(EndOf(s))
  }

  /** The first RUNNING slice that contains the start of the interrupt, if any. */
  function Containing(states: seq<Slice>, isr: Slice): Option<Slice> {
    if states == [] then None else if Contains(states[0], isr) then Some(states[0]) else Containing(states[1..], isr)
  }

  function ClippedEnd(states: seq<Slice>, isr: Slice): nat {
    match Containing(states, isr)
    case None => Ns(EndOf(isr))
    case Some(c) => if Ns(EndOf(isr)) <= Ns(EndOf(c)) then Ns(EndOf(isr)) else Ns(EndOf(c))
  }

  /** One interrupt after clipping; an empty one is left out. */
  function ClipIsr(states: seq<Slice>, isr: Slice): seq<Emitted> {
    if ClippedEnd(states, isr) <= Ns(isr.ts) then []
    else [Emitted(Ns(isr.ts), ClippedEnd(states, isr), isr.name, TaskUuid(isr.tid))]
  }

  function EmitStates(states: seq<Slice>): seq<Emitted> {
    if states == [] then [] else [ToEmitted(states[0])] + EmitStates(states[1..])
  }

  function EmitIsrs(states: seq<Slice>, isrs: seq<Slice>): seq<Emitted> {
    if isrs == [] then [] else ClipIsr(states, isrs[0]) + EmitIsrs(states, isrs[1..])
  }

  function ClipTask(slices: seq<Slice>, tid: nat): seq<Emitted> {
    EmitStates(StateRow(slices, tid)) + EmitIsrs(StateRow(slices, tid), IsrRow(slices, tid))
  }

  function ClipTasks(slices: seq<Slice>, tids: seq<nat>): seq<Emitted> {
    if tids == [] then [] else ClipTask(slices, tids[0]) + ClipTasks(slices, tids[1..])
  }

  method FindContaining(states: seq<Slice>, isr: Slice) returns (c: Option<Slice>)
    ensures c == Containing(states, isr)
  {
    assert states[0..] == states;
    for i := 0 to |states|
      invariant Containing(states[i..], isr) == Containing(states, isr)
    {
      if Contains(states[i], isr) {
        return Some(states[i]);
      }
      assert states[i..][1..] == states[i + 1..];
    }
    return None;
  }

  /** `_clip_isr_to_running`. */
  method ClipIsrToRunning(slices: seq<Slice>) returns (result: seq<Emitted>)
    ensures result == ClipTasks(slices, TaskIds(slices))
  {
    hide TaskIds, ClipTask, StateRow, IsrRow;
    var tids := TaskIds(slices);
    result := [];
    assert tids[0..] == tids;
    for k := 0 to |tids|
      invariant result + ClipTasks(slices, tids[k..]) == ClipTasks(slices, tids)
    {
      assert tids[k..][1..] == tids[k + 1..];
      var row := ClipOneTask(slices, tids[k]);
      assert result + (row + ClipTasks(slices, tids[k + 1..])) == (result + row) + ClipTasks(slices, tids[k + 1..]);
      result := result + row;
    }
    assert tids[|tids|..] == [];
  }

  /** The body of the loop over tasks. */
  method ClipOneTask(slices: seq<Slice>, tid: nat) returns (row: seq<Emitted>)
    ensures row == ClipTask(slices, tid)
  {
    hide StateRow, IsrRow, Containing, Ns, EmitIsrs;
    var states, isrs := StateRow(slices, tid), IsrRow(slices, tid);
    row := [];
    assert states[0..] == states;
    for i := 0 to |states|
      invariant row + EmitStates(states[i..]) == EmitStates(states)
    {
      assert states[i..][1..] == states[i + 1..];
      row := row + [ToEmitted(states[i])];
    }
    NoStates();
    ghost var all := EmitStates(states) + EmitIsrs(states, isrs);
    assert isrs[0..] == isrs && states[|states|..] == [];
    for i := 0 to |isrs|
      invariant row + EmitIsrs(states, isrs[i..]) == all
    {
      var isr := isrs[i];
      assert isrs[i..][1..] == isrs[i + 1..];
      var isrTs := Ns(isr.ts);
      var isrEnd := Ns(EndOf(isr));
      var containing := FindContaining(states, isr);
      if containing.Some? {
        isrEnd := if isrEnd <= Ns(EndOf(containing.value)) then isrEnd else Ns(EndOf(containing.value));
      }
      IsrStep(row, states, isrs, i);
      if isrEnd <= isrTs {
        continue;
      }
      row := row + [Emitted(isrTs, isrEnd, isr.name, TaskUuid(isr.tid))];
    }
    assert isrs[|isrs|..] == [];
    NoIsrs(states);
  }

  lemma NoStates()
    ensures EmitStates([]) == []
  {
  }

  lemma NoIsrs(states: seq<Slice>)
    ensures EmitIsrs(states, []) == []
  {
  }

  lemma IsrStep(row: seq<Emitted>, states: seq<Slice>, isrs: seq<Slice>, i: nat)
    requires i < |isrs|
    ensures row + EmitIsrs(states, isrs[i..]) == row + ClipIsr(states, isrs[i]) + EmitIsrs(states, isrs[i + 1..])
    ensures ClipIsr(states, isrs[i]) == [] ==> row + ClipIsr(states, isrs[i]) == row
  {
    hide ClipIsr;
    assert isrs[i..][1..] == isrs[i + 1..];
    var a, b := ClipIsr(states, isrs[i]), EmitIsrs(states, isrs[i + 1..]);
    assert row + (a + b) == row + a + b;
  }

  // ----- Events and their order ------------------------------------------------------

  datatype What = BeginSlice(id: nat) | EndSlice(id: nat) | Point

  /**
   A timed event. `no` is its place in the list before sorting; `id` is the slice it
   belongs to. Neither is in the file: they say which begin and end belong together.
   */
  datatype Event = Event(ts: nat, order: int, no: nat, uuid: nat, what: What)

  function BeginOf(em: seq<Emitted>, k: nat): Event
    requires k < |em|
  {
    Event(em[k].ts, if em[k].name.Isr? then 1 else 0, 2 * k, em[k].uuid, BeginSlice(k))
  }

  function EndEventOf(em: seq<Emitted>, k: nat): Event
    requires k < |em|
  {
    Event(em[k].end, if em[k].name.Isr? then -1 else 0, 2 * k + 1, em[k].uuid, EndSlice(k))
  }

  /** Sort key of the exporter: time, then order. */
  predicate KeyAtMost(a: Event, b: Event) {
    a.ts < b.ts || (a.ts == b.ts && a.order <= b.order)
  }

  /** The order a stable sort leaves: by key, equal keys as they were. */
  predicate Less(a: Event, b: Event) {
    a.ts < b.ts || (a.ts == b.ts && (a.order < b.order || (a.order == b.order && a.no < b.no)))
  }

  /** A stable sort by key. */
  function InsertEvent(s: seq<Event>, e: Event): seq<Event> {
    if s == [] || KeyAtMost(e, s[0]) then [e] + s else [s[0]] + InsertEvent(s[1..], e)
  }

  function SortEvents(s: seq<Event>): seq<Event> {
    if s == [] then [] else InsertEvent(SortEvents(s[1..]), s[0])
  }

  ghost predicate Numbered(s: seq<Event>) {
    forall i, j :: 0 <= i < j < |s| ==> s[i].no < s[j].no
  }

  ghost predicate InOrder(s: seq<Event>) {
    forall i, j :: 0 <= i < j < |s| ==> Less(s[i], s[j])
  }

  lemma {:induction false} InsertInOrder(s: seq<Event>, e: Event)
    requires InOrder(s) && forall x :: x in s ==> e.no < x.no
    ensures InOrder(InsertEvent(s, e)) && forall x :: x in InsertEvent(s, e) <==> x in s || x == e
  {
    if s == [] {
    } else if KeyAtMost(e, s[0]) {
      forall x | x in s ensures Less(e, x) {
        assert s[0] in s && (x == s[0] || Less(s[0], x));
      }
    } else {
      var rest := s[1..];
      assert forall k :: 0 <= k < |rest| ==> rest[k] == s[k + 1];
      assert forall x :: x in s <==> x == s[0] || x in rest;
      InsertInOrder(rest, e);
      assert s[0] in s && Less(s[0], e);
      forall x | x in InsertEvent(rest, e) ensures Less(s[0], x) {
      }
    }
  }

  lemma {:induction false} SortInOrder(s: seq<Event>)
    requires Numbered(s)
    ensures InOrder(SortEvents(s)) && forall x :: x in SortEvents(s) <==> x in s
  {
    if s != [] {
      var rest := s[1..];
      assert forall k :: 0 <= k < |rest| ==> rest[k] == s[k + 1];
      assert forall x :: x in s <==> x == s[0] || x in rest;
      SortInOrder(rest);
      InsertInOrder(SortEvents(rest), s[0]);
    }
  }

  /** Slice events in the order they are appended: begin and end of each slice in turn. */
  function SliceEvents(em: seq<Emitted>): (s: seq<Event>)
    ensures |s| == 2 * |em|
  {
    seq(2 * |em|, i requires 0 <= i < 2 * |em| => if i % 2 == 0 then BeginOf(em, i / 2) else EndEventOf(em, i / 2))
  }

  /** The event list of the exporter, sorted; `others` are appended after the slice events. */
  method EmitSorted(em: seq<Emitted>, others: seq<Event>) returns (events: seq<Event>)
    ensures events == SortEvents(SliceEvents(em) + others)
  {
    events := [];
    for k := 0 to |em|
      invariant |events| == 2 * k
      invariant forall j :: 0 <= j < k ==> events[2 * j] == BeginOf(em, j) && events[2 * j + 1] == EndEventOf(em, j)
    {
      var isIsr := em[k].name.Isr?;
      var beginOrder := if isIsr then 1 else 0;
      var endOrder := if isIsr then -1 else 0;
      events := events + [Event(em[k].ts, beginOrder, 2 * k, em[k].uuid, BeginSlice(k))];
      events := events + [Event(em[k].end, endOrder, 2 * k + 1, em[k].uuid, EndSlice(k))];
    }
    forall i | 0 <= i < |events| ensures events[i] == SliceEvents(em)[i] {
      assert i == 2 * (i / 2) + i % 2;
    }
    assert events == SliceEvents(em);
    events := SortEvents(events + others);
  }

  // ----- Rows of one task ------------------------------------------------------------

  ghost predicate Chained(states: seq<Slice>) {
    && (forall i :: 0 <= i < |states| ==> states[i].dur > 0 && states[i].name.Task?)
    && (forall i, j :: 0 <= i < j < |states| ==> EndOf(states[i]) <= states[j].ts)
  }

  lemma {:induction false} StateRowMembers(slices: seq<Slice>, tid: nat)
    ensures forall s :: s in StateRow(slices, tid) <==> s in slices && s.tid == tid && s.name.Task?
  {
    if slices != [] {
      assert forall s :: s in slices <==> s == slices[0] || s in slices[1..];
      StateRowMembers(slices[1..], tid);
    }
  }

  lemma RowsInOrderRest(slices: seq<Slice>)
    requires RowsInOrder(slices) && slices != []
    ensures RowsInOrder(slices[1..]) && slices[0].dur > 0
    ensures forall s :: s in slices[1..] && s.tid == slices[0].tid && s.name.Task? && slices[0].name.Task? ==>
      EndOf(slices[0]) <= s.ts
  {
    var rest := slices[1..];
    forall k | 0 <= k < |rest| ensures rest[k] == slices[k + 1] {
    }
  }

  lemma ChainedOneMore(first: Slice, row: seq<Slice>)
    requires Chained(row) && first.name.Task? && first.dur > 0 && forall s :: s in row ==> EndOf(first) <= s.ts
    ensures Chained([first] + row)
  {
    forall k | 0 < k < |[first] + row| ensures ([first] + row)[k] == row[k - 1] && row[k - 1] in row {
    }
  }

  lemma {:induction false} StateRowFacts(slices: seq<Slice>, tid: nat)
    requires RowsInOrder(slices)
    ensures Chained(StateRow(slices, tid))
    ensures forall s :: s in StateRow(slices, tid) <==> s in slices && s.tid == tid && s.name.Task?
  {
    hide RowsInOrder;
    StateRowMembers(slices, tid);
    if slices != [] {
      hide Chained, EndOf;
      RowsInOrderRest(slices);
      StateRowFacts(slices[1..], tid);
      if slices[0].tid == tid && slices[0].name.Task? {
        ChainedOneMore(slices[0], StateRow(slices[1..], tid));
      } else {
        assert StateRow(slices, tid) == StateRow(slices[1..], tid);
      }
    }
  }

  lemma {:induction false} IsrRowFacts(slices: seq<Slice>, tid: nat)
    ensures forall s :: s in IsrRow(slices, tid) <==> s in slices && s.tid == tid && s.name.Isr?
  {
    if slices != [] {
      assert forall s :: s in slices <==> s == slices[0] || s in slices[1..];
      IsrRowFacts(slices[1..], tid);
    }
  }

  lemma {:induction false} EmitStatesFacts(states: seq<Slice>)
    ensures |EmitStates(states)| == |states|
    ensures forall i :: 0 <= i < |states| ==> EmitStates(states)[i] == ToEmitted(states[i])
  {
    if states != [] {
      EmitStatesFacts(states[1..]);
    }
  }

  lemma {:induction false} EmitIsrsFacts(states: seq<Slice>, isrs: seq<Slice>)
    ensures forall x :: x in EmitIsrs(states, isrs) ==> exists isr :: isr in isrs && ClipIsr(states, isr) == [x]
  {
    hide ClipIsr;
    if isrs != [] {
      EmitIsrsFacts(states, isrs[1..]);
      var head := ClipIsr(states, isrs[0]);
      ClipIsrSize(states, isrs[0]);
      forall x | x in EmitIsrs(states, isrs) ensures exists isr :: isr in isrs && ClipIsr(states, isr) == [x] {
        if x in head {
          assert isrs[0] in isrs && head == [x];
        } else {
          var isr :| isr in isrs[1..] && ClipIsr(states, isr) == [x];
          assert isr in isrs;
        }
      }
    }
  }

  lemma ClipIsrSize(states: seq<Slice>, isr: Slice)
    ensures |ClipIsr(states, isr)| <= 1
  {
  }

  lemma {:induction false} ContainingFacts(states: seq<Slice>, isr: Slice)
    ensures Containing(states, isr).Some? <==> exists s :: s in states && Contains(s, isr)
    ensures Containing(states, isr).Some? ==>
      Containing(states, isr).value in states && Contains(Containing(states, isr).value, isr)
  {
    hide Contains;
    if states != [] {
      assert forall s :: s in states <==> s == states[0] || s in states[1..];
      ContainingFacts(states[1..], isr);
    }
  }

  lemma {:induction false} FirstContaining(states: seq<Slice>, isr: Slice, s: Slice)
    requires Chained(states) && s in states && s.name == Task(RUNNING) && EndOf(s) == isr.ts
    ensures Containing(states, isr) == Some(s)
  {
    var rest := states[1..];
    assert forall k :: 0 <= k < |rest| ==> rest[k] == states[k + 1];
    if s != states[0] {
      FirstContaining(rest, isr, s);
      var i :| 0 <= i < |rest| && rest[i] == s;
      assert EndOf(states[0]) <= states[i + 1].ts;
    }
  }

  /**
   An interrupt disappears from the export exactly when some RUNNING slice of its task
   ends at the very instant it starts, even if the task goes on running from there.
   */
  lemma InterruptLost(slices: seq<Slice>, isr: Slice)
    requires RowsInOrder(slices) && isr.dur > 0
    ensures ClipIsr(StateRow(slices, isr.tid), isr) == []
      <==> exists s :: s in slices && s.tid == isr.tid && s.name == Task(RUNNING) && EndOf(s) == isr.ts
  {
    hide StateRow, Containing, RowsInOrder, Chained;
    var states := StateRow(slices, isr.tid);
    StateRowFacts(slices, isr.tid);
    ContainingFacts(states, isr);
    if s :| s in slices && s.tid == isr.tid && s.name == Task(RUNNING) && EndOf(s) == isr.ts {
      FirstContaining(states, isr, s);
    }
    if ClipIsr(states, isr) == [] {
      var c := Containing(states, isr).value;
      assert c in slices && EndOf(c) == isr.ts;
    }
  }
}
