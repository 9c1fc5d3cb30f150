/**
 The pending-request table of the USB/IP server: sixteen slots that together behave as one
 map from sequence number to request, and an expiry search that survives clock wrap.
 */
module XusbipUrb {
  import opened Bytes

  const MAX_PENDING_URBS: nat := 16
  const URB_TIMEOUT_MS: u32 := 5000

  datatype SlotState = Free | Submitted | PendingUnlink

  /** A submit command. */
  datatype Request = Request(seqnum: u32, devid: u32, direction: u32, ep: u32, transferFlags: u32, length: u32,
                             setup: seq<byte>)

  datatype Entry = Entry(state: SlotState, request: Request, timeoutMs: u32, submitTimeMs: u32)

  datatype Status = Ok | NoUrbSlot | InvalidArgument | InvalidState | UrbNotFound

  const NO_REQUEST: Request := Request(0, 0, 0, 0, 0, 0, [0, 0, 0, 0, 0, 0, 0, 0])
  const CLEARED: Entry := Entry(Free, NO_REQUEST, 0, 0)

  // ----- The map the table stands for ------------------------------------------------

  /** What is known of a pending request. */
  datatype Pending = Pending(request: Request, unlinking: bool, timeoutMs: u32, submitTimeMs: u32)

  function RecordOf(e: Entry): Pending {
    Pending(e.request, e.state == PendingUnlink, e.timeoutMs, e.submitTimeMs)
  }

  ghost function PendingMap(entries: seq<Entry>): map<u32, Pending> {
    if entries == [] then map[]
    else
      var m, e := PendingMap(entries[..|entries| - 1]), entries[|entries| - 1];
      if e.state == Free then m else m[e.request.seqnum := RecordOf(e)]
  }

  /** No two pending requests carry the same sequence number. */
  ghost predicate UniqueSeqnums(entries: seq<Entry>) {
    forall i, j :: 0 <= i < j < |entries| && entries[i].state != Free && entries[j].state != Free ==>
      entries[i].request.seqnum != entries[j].request.seqnum
  }

  ghost predicate Holds(entries: seq<Entry>, s: u32, i: int) {
    0 <= i < |entries| && entries[i].state != Free && entries[i].request.seqnum == s
  }

  function Used(entries: seq<Entry>): nat {
    if entries == [] then 0 else Used(entries[..|entries| - 1]) + if entries[|entries| - 1].state == Free then 0 else 1
  }

  /** The map's keys and records are those of the slots in use. */
  ghost predicate Describes(m: map<u32, Pending>, entries: seq<Entry>) {
    && (forall s: u32 :: s in m ==> exists i :: Holds(entries, s, i) && m[s] == RecordOf(entries[i]))
    && (forall s: u32, i :: Holds(entries, s, i) ==> s in m && m[s] == RecordOf(entries[i]))
  }

  lemma {:induction false} MapDescribes(entries: seq<Entry>)
    requires UniqueSeqnums(entries)
    ensures Describes(PendingMap(entries), entries)
  {
    if entries != [] {
      var n := |entries| - 1;
      MapDescribes(entries[..n]);
      DescribesSnoc(PendingMap(entries[..n]), entries);
    }
  }

  lemma DescribesSnoc(m: map<u32, Pending>, entries: seq<Entry>)
    requires entries != [] && UniqueSeqnums(entries) && Describes(m, entries[..|entries| - 1])
    ensures var e := entries[|entries| - 1];
      && (e.state != Free ==> e.request.seqnum !in m)
      && Describes(if e.state == Free then m else m[e.request.seqnum := RecordOf(e)], entries)
  {
    hide RecordOf, UniqueSeqnums;
    var n := |entries| - 1;
    var init, e := entries[..n], entries[n];
    LastIsFresh(entries);
    forall s: u32, i | 0 <= i < n ensures Holds(init, s, i) <==> Holds(entries, s, i) {
    }
    assert e.state != Free ==> Holds(entries, e.request.seqnum, n);
  }

  lemma LastIsFresh(entries: seq<Entry>)
    requires entries != [] && UniqueSeqnums(entries)
    ensures var n := |entries| - 1;
      entries[n].state != Free ==> forall i :: !Holds(entries[..n], entries[n].request.seqnum, i)
  {
  }

  /** The map holds exactly the slots in use, one entry each. */
  lemma {:induction false} MapMeaning(entries: seq<Entry>)
    requires UniqueSeqnums(entries)
    ensures Describes(PendingMap(entries), entries) && |PendingMap(entries)| == Used(entries)
  {
    MapDescribes(entries);
    if entries != [] {
      var n := |entries| - 1;
      MapMeaning(entries[..n]);
      DescribesSnoc(PendingMap(entries[..n]), entries);
      var e, m0, m := entries[n], PendingMap(entries[..n]), PendingMap(entries);
      assert e.state != Free ==> m.Keys == m0.Keys + {e.request.seqnum};
      CountKeys(m0);
      CountKeys(m);
    }
  }

  lemma CountKeys(m: map<u32, Pending>)
    ensures |m| == |m.Keys|
  {
  }

  lemma {:induction false} UsedAll(entries: seq<Entry>)
    ensures Used(entries) <= |entries|
    ensures Used(entries) == |entries| <==> forall i :: 0 <= i < |entries| ==> entries[i].state != Free
  {
    if entries != [] {
      UsedAll(entries[..|entries| - 1]);
    }
  }

  // ----- The operations on values ----------------------------------------------------

  /** The first slot that satisfies a test; the number of slots if there is none. */
  function FirstFree(entries: seq<Entry>): (i: nat)
    ensures i <= |entries| && (i < |entries| ==> entries[i].state == Free)
    ensures forall j :: 0 <= j < i ==> entries[j].state != Free
  {
    if entries == [] || entries[0].state == Free then 0 else 1 + FirstFree(entries[1..])
  }

  function SlotOf(entries: seq<Entry>, seqnum: u32): (i: nat)
    ensures i <= |entries| && (i < |entries| ==> Holds(entries, seqnum, i))
    ensures forall j :: 0 <= j < i ==> !Holds(entries, seqnum, j)
  {
    if entries == [] then 0
    else if entries[0].state != Free && entries[0].request.seqnum == seqnum then 0
    else
      var i := SlotOf(entries[1..], seqnum);
      assert forall j :: 0 < j <= i ==> (Holds(entries, seqnum, j) <==> Holds(entries[1..], seqnum, j - 1));
      1 + i
  }

  function LinkedSlotOf(entries: seq<Entry>, seqnum: u32): (i: nat)
    ensures i <= |entries| && (i < |entries| ==> entries[i].state == Submitted && entries[i].request.seqnum == seqnum)
    ensures forall j :: 0 <= j < i ==> !(entries[j].state == Submitted && entries[j].request.seqnum == seqnum)
  {
    if entries == [] || (entries[0].state == Submitted && entries[0].request.seqnum == seqnum) then 0
    else 1 + LinkedSlotOf(entries[1..], seqnum)
  }

  function SubmitEntries(entries: seq<Entry>, request: Request, now: u32): (seq<Entry>, Status) {
    var i := FirstFree(entries);
    if i == |entries| then (entries, NoUrbSlot)
    else (entries[i := Entry(Submitted, request, URB_TIMEOUT_MS, now)], Ok)
  }

  function CompleteEntries(entries: seq<Entry>, slot: nat): (seq<Entry>, Status) {
    if slot >= |entries| then (entries, InvalidArgument)
    else if entries[slot].state == Free then (entries, InvalidState)
    else (entries[slot := entries[slot].(state := Free)], Ok)
  }

  function UnlinkEntries(entries: seq<Entry>, seqnum: u32): (seq<Entry>, Status) {
    var i := LinkedSlotOf(entries, seqnum);
    if i == |entries| then (entries, UrbNotFound) else (entries[i := entries[i].(state := PendingUnlink)], Ok)
  }

  function FreeEntries(entries: seq<Entry>, slot: nat): (seq<Entry>, Status) {
    if slot >= |entries| then (entries, InvalidArgument) else (entries[slot := CLEARED], Ok)
  }

  // ----- The table -------------------------------------------------------------------

  class Table {
    const entries: array<Entry>

    /** `xUSBIP_URB_Table_Init` */
    constructor ()
      ensures fresh(entries) && entries.Length == MAX_PENDING_URBS && entries[..] == seq(MAX_PENDING_URBS, _ => CLEARED)
    {
      entries := new Entry[MAX_PENDING_URBS](_ => CLEARED);
    }

    /** `xUSBIP_URB_Submit` */
    method Submit(request: Request, now: u32) returns (status: Status, slot: nat)
      requires entries.Length == MAX_PENDING_URBS
      modifies entries
      ensures (entries[..], status) == SubmitEntries(old(entries[..]), request, now)
      ensures slot == FirstFree(old(entries[..]))
    {
      for i := 0 to MAX_PENDING_URBS
        invariant entries[..] == old(entries[..])
        invariant FirstFree(entries[..]) == i + FirstFree(entries[i..])
      {
        assert entries[i..][0] == entries[i] && entries[i..][1..] == entries[i + 1..];
        if entries[i].state == Free {
          ghost var before := entries[..];
          entries[i] := Entry(Submitted, request, URB_TIMEOUT_MS, now);
          assert entries[..] == before[i := entries[i]];
          return Ok, i;
        }
      }
      return NoUrbSlot, MAX_PENDING_URBS;
    }

    /** `xUSBIP_URB_Complete` */
    method Complete(slot: u32) returns (status: Status)
      requires entries.Length == MAX_PENDING_URBS
      modifies entries
      ensures (entries[..], status) == CompleteEntries(old(entries[..]), slot)
    {
      if slot >= MAX_PENDING_URBS {
        return InvalidArgument;
      }
      if entries[slot].state == Free {
        return InvalidState;
      }
      entries[slot] := entries[slot].(state := Free);
      return Ok;
    }

    /** `xUSBIP_URB_Find_By_Seqnum` */
    method FindBySeqnum(seqnum: u32) returns (status: Status, slot: nat)
      requires entries.Length == MAX_PENDING_URBS
      ensures slot == SlotOf(entries[..], seqnum) && status == if slot < MAX_PENDING_URBS then Ok else UrbNotFound
    {
      for i := 0 to MAX_PENDING_URBS
        invariant SlotOf(entries[..], seqnum) == i + SlotOf(entries[i..], seqnum)
      {
        assert entries[i..][0] == entries[i] && entries[i..][1..] == entries[i + 1..];
        if entries[i].state != Free && entries[i].request.seqnum == seqnum {
          return Ok, i;
        }
      }
      return UrbNotFound, MAX_PENDING_URBS;
    }

    /** `xUSBIP_URB_Request_Unlink` */
    method RequestUnlink(seqnum: u32) returns (status: Status)
      requires entries.Length == MAX_PENDING_URBS
      modifies entries
      ensures (entries[..], status) == UnlinkEntries(old(entries[..]), seqnum)
    {
      for i := 0 to MAX_PENDING_URBS
        invariant entries[..] == old(entries[..])
        invariant LinkedSlotOf(entries[..], seqnum) == i + LinkedSlotOf(entries[i..], seqnum)
      {
        assert entries[i..][0] == entries[i] && entries[i..][1..] == entries[i + 1..];
        if entries[i].state == Submitted && entries[i].request.seqnum == seqnum {
          ghost var before := entries[..];
          entries[i] := entries[i].(state := PendingUnlink);
          assert entries[..] == before[i := entries[i]];
          return Ok;
        }
      }
      return UrbNotFound;
    }

    /** `xUSBIP_URB_Free` */
    method Release(slot: u32) returns (status: Status)
      requires entries.Length == MAX_PENDING_URBS
      modifies entries
      ensures (entries[..], status) == FreeEntries(old(entries[..]), slot)
    {
      if slot >= MAX_PENDING_URBS {
        return InvalidArgument;
      }
      entries[slot] := CLEARED;
      return Ok;
    }

    /** `xUSBIP_URB_Find_Expired`: the first of the oldest expired entries. */
    method FindExpired(now: u32) returns (status: Status, slot: nat)
      requires entries.Length == MAX_PENDING_URBS
      ensures status == Ok <==> exists i :: 0 <= i < MAX_PENDING_URBS && Expired(entries[i], now)
      ensures status == Ok ==> slot < MAX_PENDING_URBS && Expired(entries[slot], now)
      ensures status == Ok ==> forall i :: 0 <= i < MAX_PENDING_URBS && Expired(entries[i], now) ==>
        Age(entries[i], now) <= Age(entries[slot], now) && (i < slot ==> Age(entries[i], now) < Age(entries[slot], now))
      ensures status in {Ok, UrbNotFound}
    {
      slot := 0;
      var oldestAge: u32, found := 0, false;
      for i := 0 to MAX_PENDING_URBS
        invariant found <==> exists j :: 0 <= j < i && Expired(entries[j], now)
        invariant found ==> slot < i && Expired(entries[slot], now) && oldestAge == Age(entries[slot], now)
        invariant found ==> forall j :: 0 <= j < i && Expired(entries[j], now) ==>
          Age(entries[j], now) <= oldestAge && (j < slot ==> Age(entries[j], now) < oldestAge)
      {
        if entries[i].state == Free {
          continue;
        }
        if entries[i].timeoutMs == 0 {
          continue;
        }
        var age: u32 := (now - entries[i].submitTimeMs) % TWO32;
        if age >= entries[i].timeoutMs {
          assert Expired(entries[i], now);
          if !found || age > oldestAge {
            slot := i;
            oldestAge := age;
            found := true;
          }
        }
      }
      status := if found then Ok else UrbNotFound;
    }
  }

  // ----- Refinement ------------------------------------------------------------------

  lemma SubmitMap(entries: seq<Entry>, request: Request, now: u32)
    requires UniqueSeqnums(entries) && request.seqnum !in PendingMap(entries)
    ensures var (after, status) := SubmitEntries(entries, request, now);
      && UniqueSeqnums(after) && (status == Ok <==> |PendingMap(entries)| < |entries|)
      && PendingMap(after)
        == if status == Ok then PendingMap(entries)[request.seqnum := Pending(request, false, URB_TIMEOUT_MS, now)]
           else PendingMap(entries)
  {
    hide PendingMap, Used, UniqueSeqnums;
    var i := FirstFree(entries);
    MapMeaning(entries);
    UsedAll(entries);
    if i < |entries| {
      OccupyMap(entries, i, Entry(Submitted, request, URB_TIMEOUT_MS, now));
    }
  }

  /** A free slot taken for a new number adds it to the map. */
  lemma OccupyMap(entries: seq<Entry>, i: nat, e: Entry)
    requires UniqueSeqnums(entries) && i < |entries| && entries[i].state == Free && e.state != Free
    requires e.request.seqnum !in PendingMap(entries)
    ensures UniqueSeqnums(entries[i := e])
    ensures PendingMap(entries[i := e]) == PendingMap(entries)[e.request.seqnum := RecordOf(e)]
  {
    hide PendingMap, Used, RecordOf;
    MapMeaning(entries);
    var n, after := e.request.seqnum, entries[i := e];
    var m := PendingMap(entries);
    var target := m[n := RecordOf(e)];
    forall j | 0 <= j < |entries| && entries[j].state != Free ensures entries[j].request.seqnum != n {
      assert Holds(entries, entries[j].request.seqnum, j);
    }
    forall s: u32, j | Holds(after, s, j) ensures s in target && target[s] == RecordOf(after[j]) {
      assert j != i ==> Holds(entries, s, j);
    }
    forall s: u32 | s in target ensures exists j :: Holds(after, s, j) {
      if s == n {
        assert Holds(after, s, i);
      } else {
        var j :| Holds(entries, s, j) && m[s] == RecordOf(entries[j]);
        assert Holds(after, s, j);
      }
    }
    SameMap(after, target);
  }

  /** A map with the slots' keys and records is the map of the table. */
  lemma SameMap(entries: seq<Entry>, m: map<u32, Pending>)
    requires UniqueSeqnums(entries)
    requires forall s: u32, i :: Holds(entries, s, i) ==> s in m && m[s] == RecordOf(entries[i])
    requires forall s: u32 :: s in m ==> exists i :: Holds(entries, s, i)
    ensures PendingMap(entries) == m
  {
    hide PendingMap, Used;
    MapMeaning(entries);
    forall s: u32 ensures s in PendingMap(entries) <==> s in m {
    }
    assert PendingMap(entries).Keys == m.Keys;
  }

  ghost function Without(m: map<u32, Pending>, s: u32): map<u32, Pending> {
    map k: u32 | k in m && k != s :: m[k]
  }

  /** A slot given up takes its request out of the map; nothing else changes. */
  lemma VacateMap(entries: seq<Entry>, slot: nat, e: Entry)
    requires UniqueSeqnums(entries) && slot < |entries| && e.state == Free
    ensures var after := entries[slot := e];
      && UniqueSeqnums(after)
      && PendingMap(after)
        == if entries[slot].state == Free then PendingMap(entries)
           else Without(PendingMap(entries), entries[slot].request.seqnum)
  {
    hide PendingMap, Used;
    MapMeaning(entries);
    var after, m := entries[slot := e], PendingMap(entries);
    var rest := if entries[slot].state == Free then m else Without(m, entries[slot].request.seqnum);
    forall s: u32, i | Holds(after, s, i) ensures s in rest && rest[s] == RecordOf(after[i]) {
      assert Holds(entries, s, i);
      assert i != slot;
    }
    forall s: u32 | s in rest ensures exists i :: Holds(after, s, i) {
      var i :| Holds(entries, s, i) && m[s] == RecordOf(entries[i]);
      assert i != slot;
      assert Holds(after, s, i);
    }
    SameMap(after, rest);
  }

  /** Unlinking marks the request with that number, if there is one not yet marked. */
  lemma UnlinkMap(entries: seq<Entry>, seqnum: u32)
    requires UniqueSeqnums(entries)
    ensures var (after, status) := UnlinkEntries(entries, seqnum);
      var m := PendingMap(entries);
      && UniqueSeqnums(after) && (status == Ok <==> seqnum in m && !m[seqnum].unlinking)
      && PendingMap(after) == if status == Ok then m[seqnum := m[seqnum].(unlinking := true)] else m
  {
    hide PendingMap, Used;
    MapMeaning(entries);
    var i, m := LinkedSlotOf(entries, seqnum), PendingMap(entries);
    if i < |entries| {
      assert Holds(entries, seqnum, i);
      var after := entries[i := entries[i].(state := PendingUnlink)];
      var marked := m[seqnum := m[seqnum].(unlinking := true)];
      forall s: u32, j | Holds(after, s, j) ensures s in marked && marked[s] == RecordOf(after[j]) {
        assert Holds(entries, s, j);
      }
      forall s: u32 | s in marked ensures exists j :: Holds(after, s, j) {
        var j :| Holds(entries, s, j) && m[s] == RecordOf(entries[j]);
        assert Holds(after, s, j);
      }
      SameMap(after, marked);
    }
  }

  /** Looking a number up finds its slot exactly when the map has it. */
  lemma FindMap(entries: seq<Entry>, seqnum: u32)
    requires UniqueSeqnums(entries)
    ensures var i, m := SlotOf(entries, seqnum), PendingMap(entries);
      (i < |entries| <==> seqnum in m) && (i < |entries| ==> m[seqnum] == RecordOf(entries[i]))
  {
    hide PendingMap, Used;
    MapMeaning(entries);
  }

  datatype Step = Submit(request: Request, now: u32) | Complete(slot: u32) | Unlink(seqnum: u32) | Release(slot: u32)
    | Find(seqnum: u32)

  /** What a call returns; the slot means something only for a successful submit or find. */
  datatype Outcome = Outcome(status: Status, slot: nat)

  ghost function Next(entries: seq<Entry>, step: Step): seq<Entry> {
    match step
    case Submit(request, now) => SubmitEntries(entries, request, now).0
    case Complete(slot) => CompleteEntries(entries, slot).0
    case Unlink(seqnum) => UnlinkEntries(entries, seqnum).0
    case Release(slot) => FreeEntries(entries, slot).0
    case Find(_) => entries
  }

  ghost function Result(entries: seq<Entry>, step: Step): Outcome {
    match step
    case Submit(request, now) => Outcome(SubmitEntries(entries, request, now).1, FirstFree(entries))
    case Complete(slot) => Outcome(CompleteEntries(entries, slot).1, 0)
    case Unlink(seqnum) => Outcome(UnlinkEntries(entries, seqnum).1, 0)
    case Release(slot) => Outcome(FreeEntries(entries, slot).1, 0)
    case Find(seqnum) =>
      Outcome(if SlotOf(entries, seqnum) < |entries| then Ok else UrbNotFound, SlotOf(entries, seqnum))
  }

  /** The abstract table: requests by number, and the number each slot in use was given. */
  datatype Registry = Registry(pending: map<u32, Pending>, slots: map<nat, u32>, capacity: nat)

  ghost function SlotMap(entries: seq<Entry>): map<nat, u32> {
    map i: nat | i < |entries| && entries[i].state != Free :: entries[i].request.seqnum
  }

  ghost function RegistryOf(entries: seq<Entry>): Registry {
    Registry(PendingMap(entries), SlotMap(entries), |entries|)
  }

  /** What the abstract table lets a call return. */
  ghost predicate Allowed(a: Registry, step: Step, out: Outcome) {
    match step
    case Submit(_, _) =>
      && out.status == (if |a.pending| < a.capacity then Ok else NoUrbSlot)
      && (out.status == Ok ==>
            out.slot < a.capacity && out.slot !in a.slots && forall i: nat :: i < out.slot ==> i in a.slots)
    case Complete(slot) =>
      out.status == if slot >= a.capacity then InvalidArgument else if slot in a.slots then Ok else InvalidState
    case Release(slot) => out.status == if slot >= a.capacity then InvalidArgument else Ok
    case Unlink(seqnum) => out.status == if seqnum in a.pending && !a.pending[seqnum].unlinking then Ok else UrbNotFound
    case Find(seqnum) =>
      && out.status == (if seqnum in a.pending then Ok else UrbNotFound)
      && (out.status == Ok ==> out.slot in a.slots && a.slots[out.slot] == seqnum)
  }

  ghost function Vacated(a: Registry, slot: nat): Registry {
    if slot in a.slots then
      a.(pending := Without(a.pending, a.slots[slot]), slots := map i: nat | i in a.slots && i != slot :: a.slots[i])
    else a
  }

  /** What the call then leaves. */
  ghost function NextRegistry(a: Registry, step: Step, out: Outcome): Registry
    requires Allowed(a, step, out)
  {
    match step
    case Submit(request, now) =>
      if out.status == Ok then
        a.(pending := a.pending[request.seqnum := Pending(request, false, URB_TIMEOUT_MS, now)],
           slots := a.slots[out.slot := request.seqnum])
      else a
    case Unlink(seqnum) =>
      if out.status == Ok then a.(pending := a.pending[seqnum := a.pending[seqnum].(unlinking := true)]) else a
    case Find(_) => a
    case _ => Vacated(a, step.slot)
  }

  /** A number a submit uses is not pending, unless the table is full anyway. */
  ghost predicate FreshSubmit(m: map<u32, Pending>, capacity: nat, step: Step) {
    step.Submit? && |m| < capacity ==> step.request.seqnum !in m
  }

  lemma SameSlots(entries: seq<Entry>, m: map<nat, u32>)
    requires forall i: nat :: i in m <==> i < |entries| && entries[i].state != Free
    requires forall i: nat :: i in m ==> m[i] == entries[i].request.seqnum
    ensures SlotMap(entries) == m
  {
    assert SlotMap(entries).Keys == m.Keys;
  }

  lemma SubmitRefines(entries: seq<Entry>, request: Request, now: u32)
    requires UniqueSeqnums(entries) && FreshSubmit(PendingMap(entries), |entries|, Submit(request, now))
    ensures var a, step := RegistryOf(entries), Submit(request, now);
      var out := Result(entries, step);
      && Allowed(a, step, out) && UniqueSeqnums(Next(entries, step))
      && RegistryOf(Next(entries, step)) == NextRegistry(a, step, out)
  {
    hide PendingMap, UniqueSeqnums;
    CountSlots(entries);
    if FirstFree(entries) < |entries| {
      SubmitMap(entries, request, now);
      SameSlots(SubmitEntries(entries, request, now).0, SlotMap(entries)[FirstFree(entries) := request.seqnum]);
    }
  }

  lemma UnlinkRefines(entries: seq<Entry>, seqnum: u32)
    requires UniqueSeqnums(entries)
    ensures var a, step := RegistryOf(entries), Unlink(seqnum);
      var out := Result(entries, step);
      && Allowed(a, step, out) && UniqueSeqnums(Next(entries, step))
      && RegistryOf(Next(entries, step)) == NextRegistry(a, step, out)
  {
    hide PendingMap, UniqueSeqnums;
    UnlinkMap(entries, seqnum);
    SameSlots(UnlinkEntries(entries, seqnum).0, SlotMap(entries));
  }

  lemma StepRefines(entries: seq<Entry>, step: Step)
    requires UniqueSeqnums(entries) && FreshSubmit(PendingMap(entries), |entries|, step)
    ensures var a, out := RegistryOf(entries), Result(entries, step);
      && Allowed(a, step, out) && UniqueSeqnums(Next(entries, step))
      && RegistryOf(Next(entries, step)) == NextRegistry(a, step, out)
  {
    hide PendingMap, UniqueSeqnums, UnlinkEntries, SubmitEntries;
    match step
    case Submit(request, now) => SubmitRefines(entries, request, now);
    case Unlink(seqnum) => UnlinkRefines(entries, seqnum);
    case Find(seqnum) => FindMap(entries, seqnum);
    case Complete(slot) =>
      if slot < |entries| && entries[slot].state != Free {
        VacateSlot(entries, slot, entries[slot].(state := Free));
      }
    case Release(slot) =>
      if slot < |entries| {
        VacateSlot(entries, slot, CLEARED);
      }
  }

  lemma CountSlots(entries: seq<Entry>)
    requires UniqueSeqnums(entries)
    ensures |PendingMap(entries)| < |entries| <==> FirstFree(entries) < |entries|
  {
    hide PendingMap, Used, UniqueSeqnums;
    MapMeaning(entries);
    UsedAll(entries);
  }

  lemma VacateSlot(entries: seq<Entry>, slot: nat, e: Entry)
    requires UniqueSeqnums(entries) && slot < |entries| && e.state == Free
    ensures UniqueSeqnums(entries[slot := e]) && RegistryOf(entries[slot := e]) == Vacated(RegistryOf(entries), slot)
  {
    hide PendingMap, UniqueSeqnums;
    VacateMap(entries, slot, e);
    SameSlots(entries[slot := e], Vacated(RegistryOf(entries), slot).slots);
  }

  ghost function Run(entries: seq<Entry>, steps: seq<Step>): seq<Entry>
    decreases |steps|
  {
    if steps == [] then entries else Run(Next(entries, steps[0]), steps[1..])
  }

  ghost function Results(entries: seq<Entry>, steps: seq<Step>): (outs: seq<Outcome>)
    ensures |outs| == |steps|
    decreases |steps|
  {
    if steps == [] then [] else [Result(entries, steps[0])] + Results(Next(entries, steps[0]), steps[1..])
  }

  /** A run of the abstract table that returns these outcomes; every submit uses a fresh number. */
  ghost predicate FreshRun(a: Registry, steps: seq<Step>, outs: seq<Outcome>)
    requires |outs| == |steps|
    decreases |steps|
  {
    steps == [] ||
    (FreshSubmit(a.pending, a.capacity, steps[0]) &&
     (Allowed(a, steps[0], outs[0]) ==> FreshRun(NextRegistry(a, steps[0], outs[0]), steps[1..], outs[1..])))
  }

  ghost predicate RegistryRun(a: Registry, steps: seq<Step>, outs: seq<Outcome>, after: Registry)
    requires |outs| == |steps|
    decreases |steps|
  {
    if steps == [] then after == a
    else Allowed(a, steps[0], outs[0]) && RegistryRun(NextRegistry(a, steps[0], outs[0]), steps[1..], outs[1..], after)
  }

  /** Every run of the table, statuses and slots included, is a run of the abstract table. */
  lemma {:induction false} RunRefines(entries: seq<Entry>, steps: seq<Step>)
    requires UniqueSeqnums(entries) && FreshRun(RegistryOf(entries), steps, Results(entries, steps))
    ensures RegistryRun(RegistryOf(entries), steps, Results(entries, steps), RegistryOf(Run(entries, steps)))
    ensures UniqueSeqnums(Run(entries, steps))
    decreases |steps|
  {
    hide RegistryOf, UniqueSeqnums, Next, NextRegistry, Allowed, Result, FreshSubmit;
    if steps != [] {
      var outs := Results(entries, steps);
      assert outs[0] == Result(entries, steps[0]) && outs[1..] == Results(Next(entries, steps[0]), steps[1..]);
      StepOfRun(entries, steps[0]);
      RunRefines(Next(entries, steps[0]), steps[1..]);
    }
  }

  lemma StepOfRun(entries: seq<Entry>, step: Step)
    requires UniqueSeqnums(entries) && FreshSubmit(RegistryOf(entries).pending, RegistryOf(entries).capacity, step)
    ensures var a, out := RegistryOf(entries), Result(entries, step);
      && Allowed(a, step, out) && UniqueSeqnums(Next(entries, step))
      && RegistryOf(Next(entries, step)) == NextRegistry(a, step, out)
  {
    hide PendingMap, UniqueSeqnums, Next, NextRegistry, Allowed, Result;
    StepRefines(entries, step);
  }

  // ----- Numbers used twice ----------------------------------------------------------

  /**
   A submit that finds a slot keeps the numbers unique exactly when its number is not
   pending.
   */
  lemma SubmitKeepsUnique(entries: seq<Entry>, request: Request, now: u32)
    requires UniqueSeqnums(entries) && SubmitEntries(entries, request, now).1 == Ok
    ensures UniqueSeqnums(SubmitEntries(entries, request, now).0) <==> request.seqnum !in PendingMap(entries)
  {
    hide PendingMap, Used;
    MapMeaning(entries);
    var after, n := SubmitEntries(entries, request, now).0, request.seqnum;
    if n in PendingMap(entries) {
      var i :| Holds(entries, n, i) && PendingMap(entries)[n] == RecordOf(entries[i]);
      var j := FirstFree(entries);
      assert after[i].request.seqnum == n == after[j].request.seqnum && after[i].state != Free;
      assert after[j].state != Free && i != j;
    } else {
      SubmitMap(entries, request, now);
    }
  }

  /** Every state of the run keeps the numbers apart. */
  ghost predicate AlwaysUnique(entries: seq<Entry>, steps: seq<Step>)
    decreases |steps|
  {
    UniqueSeqnums(entries) && (steps == [] || AlwaysUnique(Next(entries, steps[0]), steps[1..]))
  }

  ghost predicate AlwaysFresh(entries: seq<Entry>, steps: seq<Step>)
    decreases |steps|
  {
    steps == [] || (FreshSubmit(PendingMap(entries), |entries|, steps[0])
                    && AlwaysFresh(Next(entries, steps[0]), steps[1..]))
  }

  /** So a run keeps them apart exactly when every submit checks its number first. */
  lemma {:induction false} UniqueIffFresh(entries: seq<Entry>, steps: seq<Step>)
    requires UniqueSeqnums(entries)
    ensures AlwaysUnique(entries, steps) <==> AlwaysFresh(entries, steps)
    decreases |steps|
  {
    hide PendingMap, UniqueSeqnums;
    if steps != [] {
      var step := steps[0];
      if FreshSubmit(PendingMap(entries), |entries|, step) {
        StepRefines(entries, step);
        UniqueIffFresh(Next(entries, step), steps[1..]);
      } else {
        CountSlots(entries);
        SubmitKeepsUnique(entries, step.request, step.now);
      }
    }
  }

  /**
   What happens otherwise, on any table: find answers with the lower of the two slots, and
   unlink marks the older request only if it is lower and not marked yet.
   */
  lemma DuplicateHidesRequest(entries: seq<Entry>, request: Request, now: u32)
    requires UniqueSeqnums(entries) && request.seqnum in PendingMap(entries)
    requires SubmitEntries(entries, request, now).1 == Ok
    ensures var n, older, newer := request.seqnum, SlotOf(entries, request.seqnum), FirstFree(entries);
      var after := SubmitEntries(entries, request, now).0;
      && older < |entries| && older != newer
      && SlotOf(after, n) == (if older < newer then older else newer)
      && LinkedSlotOf(after, n) == (if older < newer && entries[older].state == Submitted then older else newer)
  {
    hide PendingMap, SlotOf, LinkedSlotOf, UniqueSeqnums;
    FindMap(entries, request.seqnum);
    var n, older, newer := request.seqnum, SlotOf(entries, request.seqnum), FirstFree(entries);
    var after := SubmitEntries(entries, request, now).0;
    OneHolder(entries, n, older);
    forall k ensures Holds(after, n, k) <==> k == older || k == newer {
      assert k != newer ==> (Holds(after, n, k) <==> Holds(entries, n, k));
    }
    FirstOfTwo(after, n, older, newer);
    LinkedOfTwo(after, n, older, newer);
  }

  lemma FirstOfTwo(entries: seq<Entry>, n: u32, a: nat, b: nat)
    requires forall k :: Holds(entries, n, k) <==> k == a || k == b
    ensures SlotOf(entries, n) == if a < b then a else b
  {
    hide SlotOf;
    var i := SlotOf(entries, n);
    assert Holds(entries, n, a) && Holds(entries, n, b);
  }

  lemma LinkedOfTwo(entries: seq<Entry>, n: u32, a: nat, b: nat)
    requires forall k :: Holds(entries, n, k) <==> k == a || k == b
    requires b < |entries| && entries[b].state == Submitted
    ensures a < |entries| && LinkedSlotOf(entries, n) == if a < b && entries[a].state == Submitted then a else b
  {
    hide LinkedSlotOf;
    var i := LinkedSlotOf(entries, n);
    assert Holds(entries, n, a) && Holds(entries, n, b);
    assert i < |entries| ==> Holds(entries, n, i);
  }

  lemma OneHolder(entries: seq<Entry>, n: u32, i: nat)
    requires UniqueSeqnums(entries) && Holds(entries, n, i)
    ensures forall k :: Holds(entries, n, k) <==> k == i
  {
  }

  // ----- Expiry ----------------------------------------------------------------------

  function Age(e: Entry, now: u32): u32 {
    (now - e.submitTimeMs) % TWO32
  }

  ghost predicate Expired(e: Entry, now: u32) {
    e.state != Free && e.timeoutMs != 0 && Age(e, now) >= e.timeoutMs
  }

  /** Across any clock wrap the age is the true elapsed time exactly when that is below 2^32 ms. */
  lemma AgeIsElapsed(e: Entry, submitted: nat, now: nat)
    requires e.submitTimeMs == submitted % TWO32 && submitted <= now
    ensures Age(e, now % TWO32) == now - submitted <==> now - submitted < TWO32
  {
    var d := now - submitted;
    var qn, qs := now / TWO32, submitted / TWO32;
    var diff := now % TWO32 - submitted % TWO32;
    assert now == qn * TWO32 + now % TWO32 && submitted == qs * TWO32 + submitted % TWO32;
    assert diff == d - (qn - qs) * TWO32;
    assert -TWO32 < diff < TWO32;
    assert diff % TWO32 == if diff >= 0 then diff else diff + TWO32;
  }

  /** The true submit times of the pending entries, none 2^32 ms ago or more. */
  ghost predicate YoungEnough(entries: seq<Entry>, times: seq<nat>, now: nat) {
    |times| == |entries| &&
    forall i :: 0 <= i < |entries| && entries[i].state != Free ==>
      entries[i].submitTimeMs == times[i] % TWO32 && times[i] <= now < times[i] + TWO32
  }

  /**
   What the expiry search returns, in true time: some request has outlived its timeout,
   and none that has was submitted earlier.
   */
  lemma OldestInTrueTime(entries: seq<Entry>, times: seq<nat>, now: nat, slot: nat)
    requires YoungEnough(entries, times, now) && slot < |entries| && Expired(entries[slot], now % TWO32)
    requires forall i :: 0 <= i < |entries| && Expired(entries[i], now % TWO32) ==>
      Age(entries[i], now % TWO32) <= Age(entries[slot], now % TWO32)
    ensures now - times[slot] >= entries[slot].timeoutMs > 0
    ensures forall i :: 0 <= i < |entries| && entries[i].state != Free && entries[i].timeoutMs != 0 ==>
      now - times[i] >= entries[i].timeoutMs ==> times[slot] <= times[i]
  {
    forall i | 0 <= i < |entries| && entries[i].state != Free ensures Age(entries[i], now % TWO32) == now - times[i] {
      AgeIsElapsed(entries[i], times[i], now);
    }
  }
}
