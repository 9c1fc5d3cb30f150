/**
 What a viewer makes of the exported slice events. It rebuilds the slices of a track with a
 stack: an end event closes the slice begun last. The theorems say, for every timeline, when
 each end event of a track closes its own slice.
 */
module XtraceNesting {
  import opened Options
  import opened XtraceTasks
  import opened XtraceCpuLoad
  import opened XtracePerfetto

  // ----- The viewer's stack ----------------------------------------------------------

  /** Slices of a track still open after these events: an end closes the last one begun. */
  function StackAfter(s: seq<Event>, uuid: nat): seq<nat>
    decreases |s|
  {
    if s == [] then []
    else
      var before, e := StackAfter(s[..|s| - 1], uuid), s[|s| - 1];
      if e.uuid != uuid then before
      else
        match e.what
        case BeginSlice(id) => before + [id]
        case EndSlice(_) => if before == [] then [] else before[..|before| - 1]
        case Point => before
  }

  function Stack(s: seq<Event>, uuid: nat, p: nat): seq<nat>
    requires p <= |s|
  {
    StackAfter(s[..p], uuid)
  }

  lemma StackStep(s: seq<Event>, uuid: nat, p: nat)
    requires p < |s|
    ensures var t, e := Stack(s, uuid, p), s[p];
      Stack(s, uuid, p + 1)
        == if e.uuid != uuid || e.what.Point? then t
           else if e.what.BeginSlice? then t + [e.what.id]
           else if t == [] then [] else t[..|t| - 1]
  {
    assert s[..p + 1][..p] == s[..p];
  }

  predicate OnTrack(em: seq<Emitted>, uuid: nat, k: nat) {
    k < |em| && em[k].uuid == uuid
  }

  /**
   A sorted event list that holds the events of `em`, with no empty slice on this track and
   no other begin or end there.
   */
  ghost predicate Schedules(em: seq<Emitted>, uuid: nat, s: seq<Event>) {
    && InOrder(s)
    && (forall k: nat :: k < |em| ==> BeginOf(em, k) in s && EndEventOf(em, k) in s)
    && (forall k: nat :: OnTrack(em, uuid, k) ==> em[k].ts < em[k].end)
    && (forall e :: e in s && e.uuid == uuid && !e.what.Point? ==>
          e.what.id < |em| && e == if e.what.BeginSlice? then BeginOf(em, e.what.id) else EndEventOf(em, e.what.id))
  }

  ghost function Pos(s: seq<Event>, x: Event): (p: nat)
    requires x in s
    ensures p < |s| && s[p] == x
  {
    var p: nat :| p < |s| && s[p] == x;
    p
  }

  lemma PosLess(s: seq<Event>, x: Event, y: Event)
    requires InOrder(s) && x in s && y in s
    ensures Pos(s, x) < Pos(s, y) <==> Less(x, y)
  {
    var p, q := Pos(s, x), Pos(s, y);
    if p < q {
      assert Less(s[p], s[q]);
    } else if q < p {
      assert Less(s[q], s[p]);
    }
  }

  lemma Unrepeated(s: seq<Event>, p: nat, q: nat)
    requires InOrder(s) && p < |s| && q < |s| && p != q
    ensures s[p] != s[q]
  {
    assert if p < q then Less(s[p], s[q]) else Less(s[q], s[p]);
  }

  lemma PosOf(s: seq<Event>, p: nat)
    requires InOrder(s) && p < |s|
    ensures Pos(s, s[p]) == p
  {
    if Pos(s, s[p]) != p {
      Unrepeated(s, p, Pos(s, s[p]));
    }
  }

  /** Where a slice begins and ends in the event list. */
  ghost function BeginAt(em: seq<Emitted>, s: seq<Event>, k: nat): (p: nat)
    requires k < |em| && BeginOf(em, k) in s
    ensures p < |s| && s[p] == BeginOf(em, k)
  {
    Pos(s, BeginOf(em, k))
  }

  ghost function EndAt(em: seq<Emitted>, s: seq<Event>, k: nat): (p: nat)
    requires k < |em| && EndEventOf(em, k) in s
    ensures p < |s| && s[p] == EndEventOf(em, k)
  {
    Pos(s, EndEventOf(em, k))
  }

  lemma BeginsThenEnds(em: seq<Emitted>, uuid: nat, s: seq<Event>, k: nat)
    requires Schedules(em, uuid, s) && OnTrack(em, uuid, k)
    ensures BeginAt(em, s, k) < EndAt(em, s, k)
  {
    PosLess(s, BeginOf(em, k), EndEventOf(em, k));
  }

  /** An event of the track is the begin or the end of its slice, at the place of that. */
  lemma EventOf(em: seq<Emitted>, uuid: nat, s: seq<Event>, p: nat)
    requires Schedules(em, uuid, s) && p < |s| && s[p].uuid == uuid && !s[p].what.Point?
    ensures OnTrack(em, uuid, s[p].what.id)
    ensures p == if s[p].what.BeginSlice? then BeginAt(em, s, s[p].what.id) else EndAt(em, s, s[p].what.id)
  {
    assert s[p] in s;
    PosOf(s, p);
  }

  /** The slices of the track begun but not ended before place `p`. */
  ghost function OpenAt(em: seq<Emitted>, uuid: nat, s: seq<Event>, p: nat): set<nat>
    requires Schedules(em, uuid, s)
  {
    set k: nat | k < |em| && OnTrack(em, uuid, k) && BeginAt(em, s, k) < p <= EndAt(em, s, k)
  }

  lemma OpenStep(em: seq<Emitted>, uuid: nat, s: seq<Event>, p: nat)
    requires Schedules(em, uuid, s) && p < |s|
    ensures s[p].uuid != uuid || s[p].what.Point? ==> OpenAt(em, uuid, s, p + 1) == OpenAt(em, uuid, s, p)
    ensures s[p].uuid == uuid && s[p].what.BeginSlice? ==>
      s[p].what.id !in OpenAt(em, uuid, s, p) && OpenAt(em, uuid, s, p + 1) == OpenAt(em, uuid, s, p) + {s[p].what.id}
    ensures s[p].uuid == uuid && s[p].what.EndSlice? ==>
      s[p].what.id in OpenAt(em, uuid, s, p) && OpenAt(em, uuid, s, p + 1) == OpenAt(em, uuid, s, p) - {s[p].what.id}
  {
    if s[p].uuid == uuid && !s[p].what.Point? {
      EventOf(em, uuid, s, p);
      BeginsThenEnds(em, uuid, s, s[p].what.id);
    }
    hide InOrder, Less, Pos;
    forall k: nat | OnTrack(em, uuid, k)
      ensures BeginAt(em, s, k) == p ==> s[p].uuid == uuid && s[p].what == BeginSlice(k)
      ensures EndAt(em, s, k) == p ==> s[p].uuid == uuid && s[p].what == EndSlice(k) {
    }
    hide Schedules, BeginAt, EndAt;
  }

  lemma NothingOpen(em: seq<Emitted>, uuid: nat, s: seq<Event>)
    requires Schedules(em, uuid, s)
    ensures OpenAt(em, uuid, s, 0) == {} && StackAfter([], uuid) == []
  {
  }

  /** The stack is as high as the number of open slices, and holds only slices begun. */
  lemma {:induction false} StackHeight(em: seq<Emitted>, uuid: nat, s: seq<Event>, p: nat)
    requires Schedules(em, uuid, s) && p <= |s|
    ensures |Stack(s, uuid, p)| == |OpenAt(em, uuid, s, p)|
    ensures forall i :: 0 <= i < |Stack(s, uuid, p)| ==>
      OnTrack(em, uuid, Stack(s, uuid, p)[i]) && BeginAt(em, s, Stack(s, uuid, p)[i]) < p
  {
    hide Schedules, BeginAt, EndAt, StackAfter;
    StackIds(em, uuid, s, p);
    if p == 0 {
      assert s[..0] == [];
      NothingOpen(em, uuid, s);
    } else {
      hide OpenAt, Stack, OnTrack;
      StackHeight(em, uuid, s, p - 1);
      OpenStep(em, uuid, s, p - 1);
      StackStep(s, uuid, p - 1);
    }
  }

  /** On the stack are slices of the track that have begun. */
  lemma {:induction false} StackIds(em: seq<Emitted>, uuid: nat, s: seq<Event>, p: nat)
    requires Schedules(em, uuid, s) && p <= |s|
    ensures forall i :: 0 <= i < |Stack(s, uuid, p)| ==>
      OnTrack(em, uuid, Stack(s, uuid, p)[i]) && BeginAt(em, s, Stack(s, uuid, p)[i]) < p
  {
    hide Schedules, BeginAt, EndAt, StackAfter;
    if p == 0 {
      assert s[..0] == [];
      NothingOpen(em, uuid, s);
    } else {
      hide Stack, OnTrack;
      StackIds(em, uuid, s, p - 1);
      StackStep(s, uuid, p - 1);
      if s[p - 1].uuid == uuid && !s[p - 1].what.Point? {
        EventOf(em, uuid, s, p - 1);
      }
    }
  }

  /** From just after place `b` through `q` the stack stays higher than it was at `b`. */
  ghost predicate Above(s: seq<Event>, uuid: nat, b: nat, q: nat)
    requires b <= q <= |s|
  {
    forall r: nat :: b < r <= q ==> |Stack(s, uuid, r)| > |Stack(s, uuid, b)|
  }

  /** `c` is on the stack, once, at height `h`. */
  ghost predicate Holding(t: seq<nat>, h: nat, c: nat) {
    |t| > h && forall i :: 0 <= i < |t| ==> (t[i] == c <==> i == h)
  }

  lemma Push(t: seq<nat>, h: nat, c: nat, id: nat)
    requires id != c
    ensures Holding(t, h, c) ==> Holding(t + [id], h, c)
    ensures c !in t ==> c !in t + [id]
  {
  }

  lemma Pop(t: seq<nat>, h: nat, c: nat)
    requires t != []
    ensures Holding(t, h, c) ==> if |t| > h + 1 then Holding(t[..|t| - 1], h, c) else |t| == h + 1 && c !in t[..|t| - 1]
    ensures c !in t ==> c !in t[..|t| - 1]
  {
  }

  lemma Pushed(t: seq<nat>, c: nat)
    requires c !in t
    ensures Holding(t + [c], |t|, c)
  {
  }

  /** A slice is on the stack, once and where it was put, until the stack falls that low again. */
  lemma {:induction false} Follow(em: seq<Emitted>, uuid: nat, s: seq<Event>, c: nat, q: nat)
    requires Schedules(em, uuid, s) && OnTrack(em, uuid, c) && BeginAt(em, s, c) < q <= |s|
    ensures var b, t := BeginAt(em, s, c), Stack(s, uuid, q);
      if Above(s, uuid, b, q) then Holding(t, |Stack(s, uuid, b)|, c) else c !in t
    decreases q
  {
    hide Pos, Stack, Holding;
    var b := BeginAt(em, s, c);
    var h, t := |Stack(s, uuid, b)|, Stack(s, uuid, q - 1);
    StackStep(s, uuid, q - 1);
    assert s[b].what == BeginSlice(c) && s[b].uuid == uuid;
    hide Schedules, BeginAt, OnTrack, BeginOf, EndEventOf;
    AboveStep(s, uuid, b, q);
    if q == b + 1 {
      StackHeight(em, uuid, s, b);
      Pushed(t, c);
    } else {
      hide Above;
      Follow(em, uuid, s, c, q - 1);
      if s[q - 1].uuid == uuid && !s[q - 1].what.Point? {
        EventOf(em, uuid, s, q - 1);
        if s[q - 1].what.BeginSlice? {
          Push(t, h, c, s[q - 1].what.id);
        } else if t != [] {
          Pop(t, h, c);
        }
      }
      HoldingSize(t, h, c);
    }
  }

  lemma HoldingSize(t: seq<nat>, h: nat, c: nat)
    ensures Holding(t, h, c) ==> |t| > h && t[h] == c && (t[|t| - 1] == c <==> |t| == h + 1)
  {
  }

  lemma AboveStep(s: seq<Event>, uuid: nat, b: nat, q: nat)
    requires b < q <= |s|
    ensures Above(s, uuid, b, q) <==> Above(s, uuid, b, q - 1) && |Stack(s, uuid, q)| > |Stack(s, uuid, b)|
  {
    hide Stack;
  }

  /** The end event of slice `c` finds its own slice on top of the stack. */
  ghost predicate EndIsOwn(em: seq<Emitted>, uuid: nat, s: seq<Event>, c: nat)
    requires Schedules(em, uuid, s) && OnTrack(em, uuid, c)
  {
    var t := Stack(s, uuid, EndAt(em, s, c));
    t != [] && t[|t| - 1] == c
  }

  /** It does exactly when the stack is one higher then than before its begin, and no lower between. */
  lemma OwnByHeight(em: seq<Emitted>, uuid: nat, s: seq<Event>, c: nat)
    requires Schedules(em, uuid, s) && OnTrack(em, uuid, c)
    ensures BeginAt(em, s, c) < EndAt(em, s, c)
    ensures var b, e := BeginAt(em, s, c), EndAt(em, s, c);
      EndIsOwn(em, uuid, s, c) <==> Above(s, uuid, b, e) && |Stack(s, uuid, e)| == |Stack(s, uuid, b)| + 1
  {
    BeginsThenEnds(em, uuid, s, c);
    var b, t := BeginAt(em, s, c), Stack(s, uuid, EndAt(em, s, c));
    Follow(em, uuid, s, c, EndAt(em, s, c));
    hide Schedules, Stack, BeginAt, EndAt, Above, Holding;
    HoldingSize(t, |Stack(s, uuid, b)|, c);
  }

  /** Slice `k` begins inside slice `j` and ends after it. */
  ghost predicate Interleave(em: seq<Emitted>, s: seq<Event>, j: nat, k: nat)
    requires j < |em| && BeginOf(em, j) in s && EndEventOf(em, j) in s
    requires k < |em| && BeginOf(em, k) in s && EndEventOf(em, k) in s
  {
    BeginAt(em, s, j) < BeginAt(em, s, k) < EndAt(em, s, j) < EndAt(em, s, k)
  }

  /** Of two interleaved slices one end at least closes another slice. */
  lemma InterleavedBreak(em: seq<Emitted>, uuid: nat, s: seq<Event>, j: nat, k: nat)
    requires Schedules(em, uuid, s) && OnTrack(em, uuid, j) && OnTrack(em, uuid, k) && Interleave(em, s, j, k)
    ensures !EndIsOwn(em, uuid, s, j) || !EndIsOwn(em, uuid, s, k)
  {
    OwnByHeight(em, uuid, s, j);
    OwnByHeight(em, uuid, s, k);
    var e := EndAt(em, s, j);
    StackStep(s, uuid, e);
    hide Schedules, Stack, BeginAt, EndAt;
    assert Above(s, uuid, BeginAt(em, s, j), e) ==>
      |Stack(s, uuid, BeginAt(em, s, k))| > |Stack(s, uuid, BeginAt(em, s, j))|;
    assert Above(s, uuid, BeginAt(em, s, k), EndAt(em, s, k)) ==>
      |Stack(s, uuid, e + 1)| > |Stack(s, uuid, BeginAt(em, s, k))|;
  }

  lemma SmallerSet(a: set<nat>, b: set<nat>)
    requires a <= b
    ensures |a| <= |b|
  {
    assert b == a + (b - a);
  }

  /** A slice interleaved with none on its track gets its own end. */
  lemma NestedOwn(em: seq<Emitted>, uuid: nat, s: seq<Event>, c: nat)
    requires Schedules(em, uuid, s) && OnTrack(em, uuid, c)
    requires forall k: nat :: OnTrack(em, uuid, k) ==> !Interleave(em, s, k, c) && !Interleave(em, s, c, k)
    ensures EndIsOwn(em, uuid, s, c)
  {
    hide Schedules, OpenAt, BeginAt, EndAt, Stack, Interleave, EndIsOwn;
    OwnByHeight(em, uuid, s, c);
    var b, e := BeginAt(em, s, c), EndAt(em, s, c);
    StackHeight(em, uuid, s, b);
    StackHeight(em, uuid, s, e);
    var low := OpenAt(em, uuid, s, b);
    OpenThroughout(em, uuid, s, c);
    forall r: nat | b < r <= e ensures |Stack(s, uuid, r)| > |Stack(s, uuid, b)| {
      StackHeight(em, uuid, s, r);
      SmallerSet(low + {c}, OpenAt(em, uuid, s, r));
    }
  }

  /** What is open at its begin stays open to its end, and with it makes up all that is open then. */
  lemma OpenThroughout(em: seq<Emitted>, uuid: nat, s: seq<Event>, c: nat)
    requires Schedules(em, uuid, s) && OnTrack(em, uuid, c)
    requires forall k: nat :: OnTrack(em, uuid, k) ==> !Interleave(em, s, k, c) && !Interleave(em, s, c, k)
    ensures var b, e := BeginAt(em, s, c), EndAt(em, s, c);
      && c !in OpenAt(em, uuid, s, b) && OpenAt(em, uuid, s, e) == OpenAt(em, uuid, s, b) + {c}
      && forall r: nat :: b < r <= e ==> OpenAt(em, uuid, s, b) + {c} <= OpenAt(em, uuid, s, r)
  {
    DistinctEvents(em, uuid, s, c);
    forall k: nat | OnTrack(em, uuid, k) ensures BeginAt(em, s, k) < EndAt(em, s, k) {
      BeginsThenEnds(em, uuid, s, k);
    }
    hide Schedules, BeginAt, EndAt, Pos;
  }

  /** No two slices share a begin or an end event. */
  lemma DistinctEvents(em: seq<Emitted>, uuid: nat, s: seq<Event>, c: nat)
    requires Schedules(em, uuid, s) && OnTrack(em, uuid, c)
    ensures forall k: nat :: OnTrack(em, uuid, k) && k != c ==>
      && BeginAt(em, s, k) != BeginAt(em, s, c) && EndAt(em, s, k) != EndAt(em, s, c)
      && BeginAt(em, s, k) != EndAt(em, s, c) && EndAt(em, s, k) != BeginAt(em, s, c)
    ensures BeginAt(em, s, c) < EndAt(em, s, c)
  {
    BeginsThenEnds(em, uuid, s, c);
    hide InOrder, Less, Pos;
  }

  // ----- States and interrupts of a track ---------------------------------------------

  predicate IsState(em: seq<Emitted>, uuid: nat, k: nat) {
    OnTrack(em, uuid, k) && em[k].name.Task?
  }

  predicate IsIsr(em: seq<Emitted>, uuid: nat, k: nat) {
    OnTrack(em, uuid, k) && em[k].name.Isr?
  }

  /** The interrupt runs over a boundary of the state: out of its end or in through its begin. */
  predicate Crosses(isr: Emitted, state: Emitted) {
    || state.ts <= isr.ts < state.end < isr.end
    || isr.ts < state.ts < isr.end <= state.end
  }

  /** Of two slices of a track in list order: states follow each other, interrupts nest or are apart. */
  predicate TidyPair(x: Emitted, y: Emitted) {
    && (x.name.Task? && y.name.Task? ==> x.end <= y.ts)
    && (x.name.Isr? && y.name.Isr? ==> (y.ts <= x.ts && x.end <= y.end) || x.end <= y.ts || y.end <= x.ts)
  }

  ghost predicate Tidy(em: seq<Emitted>, uuid: nat) {
    && (forall k: nat :: OnTrack(em, uuid, k) ==> em[k].ts < em[k].end)
    && (forall j: nat, k: nat :: j < k && OnTrack(em, uuid, j) && OnTrack(em, uuid, k) ==> TidyPair(em[j], em[k]))
  }

  lemma InterleaveIff(em: seq<Emitted>, uuid: nat, s: seq<Event>, j: nat, k: nat)
    requires Schedules(em, uuid, s) && j < |em| && k < |em|
    ensures Interleave(em, s, j, k)
      <==> (Less(BeginOf(em, j), BeginOf(em, k)) && Less(BeginOf(em, k), EndEventOf(em, j))
            && Less(EndEventOf(em, j), EndEventOf(em, k)))
  {
    hide InOrder, Less;
    PosLess(s, BeginOf(em, j), BeginOf(em, k));
    PosLess(s, BeginOf(em, k), EndEventOf(em, j));
    PosLess(s, EndEventOf(em, j), EndEventOf(em, k));
  }

  /** States never interleave with each other; an interrupt does with a state when it crosses it. */
  lemma StateInterleaves(em: seq<Emitted>, uuid: nat, s: seq<Event>, c: nat, k: nat)
    requires Tidy(em, uuid) && Schedules(em, uuid, s) && IsState(em, uuid, c) && OnTrack(em, uuid, k)
    ensures IsState(em, uuid, k) ==> !Interleave(em, s, k, c) && !Interleave(em, s, c, k)
    ensures IsIsr(em, uuid, k) ==> (Crosses(em[k], em[c]) <==> Interleave(em, s, k, c) || Interleave(em, s, c, k))
  {
    InterleaveIff(em, uuid, s, c, k);
    InterleaveIff(em, uuid, s, k, c);
    hide Schedules, Interleave;
    if c < k {
      assert TidyPair(em[c], em[k]);
    } else if k < c {
      assert TidyPair(em[k], em[c]);
    }
  }

  /** Two interrupts interleave exactly when they start together; the first in the list is the inner one. */
  lemma IsrInterleaves(em: seq<Emitted>, uuid: nat, s: seq<Event>, j: nat, k: nat)
    requires Tidy(em, uuid) && Schedules(em, uuid, s) && IsIsr(em, uuid, j) && IsIsr(em, uuid, k)
    ensures Interleave(em, s, j, k) <==> j < k && em[j].ts == em[k].ts
  {
    InterleaveIff(em, uuid, s, j, k);
    hide Schedules, Interleave;
    if j < k {
      assert TidyPair(em[j], em[k]);
    } else if k < j {
      assert TidyPair(em[k], em[j]);
    }
  }

  /** An interrupt that ends inside a state it did not start in takes that state off the stack. */
  lemma CrossingInBreaks(em: seq<Emitted>, uuid: nat, s: seq<Event>, j: nat, c: nat)
    requires Tidy(em, uuid) && Schedules(em, uuid, s) && IsIsr(em, uuid, j) && IsState(em, uuid, c)
    requires Interleave(em, s, j, c)
    ensures !EndIsOwn(em, uuid, s, c)
  {
    hide Tidy, Schedules, BeginAt, EndAt, Stack, BeginOf, EndEventOf;
    var b, q := BeginAt(em, s, c), EndAt(em, s, j) + 1;
    var low, high := OpenAt(em, uuid, s, b), OpenAt(em, uuid, s, q);
    forall k: nat | k in high && k != c ensures k in low && k != j {
      StillOpen(em, uuid, s, j, c, k);
    }
    assert j in low && c !in low;
    OwnByHeight(em, uuid, s, c);
    StackHeight(em, uuid, s, b);
    StackHeight(em, uuid, s, q);
    hide OpenAt, EndIsOwn;
    Swapped(low, high, j, c);
  }

  lemma Swapped(low: set<nat>, high: set<nat>, j: nat, c: nat)
    requires j in low && c !in low && forall k: nat :: k in high && k != c ==> k in low && k != j
    ensures |high| <= |low|
  {
    SmallerSet(high, low - {j} + {c});
  }

  lemma StillOpen(em: seq<Emitted>, uuid: nat, s: seq<Event>, j: nat, c: nat, k: nat)
    requires Tidy(em, uuid) && Schedules(em, uuid, s) && IsIsr(em, uuid, j) && IsState(em, uuid, c)
    requires Interleave(em, s, j, c)
    requires k in OpenAt(em, uuid, s, EndAt(em, s, j) + 1) && k != c
    ensures k in OpenAt(em, uuid, s, BeginAt(em, s, c)) && k != j
  {
    StateInterleaves(em, uuid, s, c, k);
    DistinctEvents(em, uuid, s, c);
    DistinctEvents(em, uuid, s, j);
    BeginsThenEnds(em, uuid, s, k);
    if IsState(em, uuid, k) {
      StatesApart(em, uuid, s, c, k);
    } else {
      IsrInterleaves(em, uuid, s, j, k);
      PosLess(s, BeginOf(em, j), BeginOf(em, c));
      PosLess(s, BeginOf(em, c), BeginOf(em, k));
      hide Schedules, Tidy, Pos, OpenAt;
    }
  }

  lemma StatesApart(em: seq<Emitted>, uuid: nat, s: seq<Event>, c: nat, k: nat)
    requires Tidy(em, uuid) && Schedules(em, uuid, s) && IsState(em, uuid, c) && IsState(em, uuid, k) && c != k
    ensures EndAt(em, s, c) < BeginAt(em, s, k) || EndAt(em, s, k) < BeginAt(em, s, c)
  {
    PosLess(s, EndEventOf(em, c), BeginOf(em, k));
    PosLess(s, EndEventOf(em, k), BeginOf(em, c));
    hide Schedules, Pos;
    if c < k {
      assert TidyPair(em[c], em[k]);
    } else {
      assert TidyPair(em[k], em[c]);
    }
  }

  /** An interrupt that starts inside a state and outlasts it is what that state's end closes. */
  lemma CrossingOutBreaks(em: seq<Emitted>, uuid: nat, s: seq<Event>, j: nat, c: nat)
    requires Tidy(em, uuid) && Schedules(em, uuid, s) && IsIsr(em, uuid, j) && IsState(em, uuid, c)
    requires Interleave(em, s, c, j)
    requires forall k: nat :: IsIsr(em, uuid, k) ==> !Interleave(em, s, k, c)
    ensures !EndIsOwn(em, uuid, s, c)
  {
    hide Schedules, Stack, BeginOf, EndEventOf, EndIsOwn, BeginAt, EndAt, Crosses;
    var b, e := BeginAt(em, s, c), EndAt(em, s, c);
    var low, high := OpenAt(em, uuid, s, b), OpenAt(em, uuid, s, e);
    DistinctEvents(em, uuid, s, c);
    forall k: nat | k in low ensures k in high {
      StateInterleaves(em, uuid, s, c, k);
    }
    assert j in high && c in high && j != c && c !in low && j !in low;
    hide OpenAt, Tidy, Interleave;
    OwnByHeight(em, uuid, s, c);
    StackHeight(em, uuid, s, b);
    StackHeight(em, uuid, s, e);
    TwoMore(low, high, j, c);
  }

  lemma TwoMore(low: set<nat>, high: set<nat>, j: nat, c: nat)
    requires low <= high && j in high && c in high && j != c && c !in low && j !in low
    ensures |high| >= |low| + 2
  {
    SmallerSet(low + {c} + {j}, high);
  }

  /** The end of a state closes that state exactly when no interrupt of its track crosses it. */
  lemma StateEndIsOwn(em: seq<Emitted>, uuid: nat, s: seq<Event>, c: nat)
    requires Tidy(em, uuid) && Schedules(em, uuid, s) && IsState(em, uuid, c)
    ensures EndIsOwn(em, uuid, s, c) <==> forall j: nat :: IsIsr(em, uuid, j) ==> !Crosses(em[j], em[c])
  {
    forall k: nat | OnTrack(em, uuid, k)
      ensures IsState(em, uuid, k) ==> !Interleave(em, s, k, c) && !Interleave(em, s, c, k)
      ensures IsIsr(em, uuid, k) ==> (Crosses(em[k], em[c]) <==> Interleave(em, s, k, c) || Interleave(em, s, c, k))
    {
      StateInterleaves(em, uuid, s, c, k);
    }
    hide Schedules, Tidy, Interleave, Crosses, EndIsOwn;
    if forall j: nat :: IsIsr(em, uuid, j) ==> !Crosses(em[j], em[c]) {
      NestedOwn(em, uuid, s, c);
    } else if j: nat :| IsIsr(em, uuid, j) && Interleave(em, s, j, c) {
      CrossingInBreaks(em, uuid, s, j, c);
    } else {
      var j: nat :| IsIsr(em, uuid, j) && Crosses(em[j], em[c]);
      CrossingOutBreaks(em, uuid, s, j, c);
    }
  }

  /** Every state's end closes that state. */
  ghost predicate StatesOwn(em: seq<Emitted>, uuid: nat, s: seq<Event>)
    requires Schedules(em, uuid, s)
  {
    forall c: nat :: IsState(em, uuid, c) ==> EndIsOwn(em, uuid, s, c)
  }

  /** Every end of the track closes its own slice. */
  ghost predicate AllOwn(em: seq<Emitted>, uuid: nat, s: seq<Event>)
    requires Schedules(em, uuid, s)
  {
    forall k: nat :: OnTrack(em, uuid, k) ==> EndIsOwn(em, uuid, s, k)
  }

  /** Every interrupt's end closes an interrupt. */
  ghost predicate IsrsCloseIsrs(em: seq<Emitted>, uuid: nat, s: seq<Event>)
    requires Schedules(em, uuid, s)
  {
    forall j: nat :: IsIsr(em, uuid, j) ==>
      var t := Stack(s, uuid, EndAt(em, s, j)); t != [] && IsIsr(em, uuid, t[|t| - 1])
  }

  ghost predicate NoCrossing(em: seq<Emitted>, uuid: nat) {
    forall j: nat, c: nat :: IsIsr(em, uuid, j) && IsState(em, uuid, c) ==> !Crosses(em[j], em[c])
  }

  ghost predicate StartsDiffer(em: seq<Emitted>, uuid: nat) {
    forall j: nat, k: nat :: j < k && IsIsr(em, uuid, j) && IsIsr(em, uuid, k) ==> em[j].ts != em[k].ts
  }

  lemma StatesOwnIff(em: seq<Emitted>, uuid: nat, s: seq<Event>)
    requires Tidy(em, uuid) && Schedules(em, uuid, s)
    ensures StatesOwn(em, uuid, s) <==> NoCrossing(em, uuid)
  {
    forall c: nat | IsState(em, uuid, c)
      ensures EndIsOwn(em, uuid, s, c) <==> forall j: nat :: IsIsr(em, uuid, j) ==> !Crosses(em[j], em[c]) {
      StateEndIsOwn(em, uuid, s, c);
    }
    hide Tidy, Schedules, EndIsOwn, Crosses;
  }

  lemma AllOwnIff(em: seq<Emitted>, uuid: nat, s: seq<Event>)
    requires Tidy(em, uuid) && Schedules(em, uuid, s)
    ensures AllOwn(em, uuid, s) <==> NoCrossing(em, uuid) && StartsDiffer(em, uuid)
  {
    StatesOwnIff(em, uuid, s);
    hide Tidy, Schedules, EndIsOwn, Crosses, Interleave;
    if !StartsDiffer(em, uuid) {
      var j: nat, k: nat :| j < k && IsIsr(em, uuid, j) && IsIsr(em, uuid, k) && em[j].ts == em[k].ts;
      IsrInterleaves(em, uuid, s, j, k);
      InterleavedBreak(em, uuid, s, j, k);
    } else if NoCrossing(em, uuid) {
      forall c: nat | IsIsr(em, uuid, c) ensures EndIsOwn(em, uuid, s, c) {
        forall k: nat | OnTrack(em, uuid, k) ensures !Interleave(em, s, k, c) && !Interleave(em, s, c, k) {
          if IsState(em, uuid, k) {
            StateInterleaves(em, uuid, s, k, c);
          } else {
            IsrInterleaves(em, uuid, s, k, c);
            IsrInterleaves(em, uuid, s, c, k);
          }
        }
        NestedOwn(em, uuid, s, c);
      }
      forall c: nat | OnTrack(em, uuid, c) ensures EndIsOwn(em, uuid, s, c) {
        assert IsState(em, uuid, c) || IsIsr(em, uuid, c);
      }
    }
  }

  /** While `x` is the last slice on the stack, only its own end may come before that end. */
  lemma TopEndsNext(em: seq<Emitted>, uuid: nat, s: seq<Event>, x: nat, j: nat)
    requires Schedules(em, uuid, s) && OnTrack(em, uuid, x) && OnTrack(em, uuid, j) && j != x
    requires EndIsOwn(em, uuid, s, x)
    ensures var t := Stack(s, uuid, EndAt(em, s, j)); t == [] || t[|t| - 1] != x
  {
    var b, d, e := BeginAt(em, s, x), EndAt(em, s, x), EndAt(em, s, j);
    var t := Stack(s, uuid, e);
    assert s[d].uuid == s[e].uuid == uuid && s[d].what == EndSlice(x) && s[e].what == EndSlice(j);
    OwnByHeight(em, uuid, s, x);
    DistinctEvents(em, uuid, s, x);
    hide Schedules, Stack, BeginAt, EndAt, Holding, EndIsOwn, BeginOf, EndEventOf;
    StackHeight(em, uuid, s, e);
    StackStep(s, uuid, d);
    StackStep(s, uuid, e);
    if b < e {
      Follow(em, uuid, s, x, e);
      HoldingSize(t, |Stack(s, uuid, b)|, x);
    }
  }

  lemma IsrsClose(em: seq<Emitted>, uuid: nat, s: seq<Event>)
    requires Schedules(em, uuid, s) && StatesOwn(em, uuid, s)
    ensures IsrsCloseIsrs(em, uuid, s)
  {
    hide Stack, EndIsOwn, BeginAt, EndAt, InOrder;
    forall j: nat | IsIsr(em, uuid, j)
      ensures var t := Stack(s, uuid, EndAt(em, s, j)); t != [] && IsIsr(em, uuid, t[|t| - 1]) {
      var e := EndAt(em, s, j);
      var t := Stack(s, uuid, e);
      StackHeight(em, uuid, s, e);
      OpenStep(em, uuid, s, e);
      assert j in OpenAt(em, uuid, s, e);
      assert t != [];
      var x := t[|t| - 1];
      if IsState(em, uuid, x) {
        TopEndsNext(em, uuid, s, x, j);
      }
    }
  }

  lemma NothingLeft(em: seq<Emitted>, uuid: nat, s: seq<Event>)
    requires Schedules(em, uuid, s)
    ensures Stack(s, uuid, |s|) == []
  {
    hide Stack;
    StackHeight(em, uuid, s, |s|);
    assert OpenAt(em, uuid, s, |s|) == {};
  }

  // ----- From the timeline to the tracks ----------------------------------------------

  lemma {:induction false} EarliestContaining(states: seq<Slice>, isr: Slice, c: Slice)
    requires Chained(states) && c in states && Contains(c, isr)
    ensures Containing(states, isr).Some? && EndOf(Containing(states, isr).value) <= EndOf(c)
  {
    var rest := states[1..];
    assert forall k :: 0 <= k < |rest| ==> rest[k] == states[k + 1];
    if c in rest {
      if !Contains(states[0], isr) {
        EarliestContaining(rest, isr, c);
      } else {
        var k :| 0 <= k < |rest| && rest[k] == c;
        assert EndOf(states[0]) <= states[k + 1].ts;
      }
    }
  }

  /** Clipping keeps interrupts nested or apart. */
  lemma ClippedPair(states: seq<Slice>, first: Slice, second: Slice, x: Emitted, y: Emitted)
    requires Chained(states) && NestedOrBefore(first, second) && first.name.Isr?
    requires ClipIsr(states, first) == [x] && ClipIsr(states, second) == [y]
    ensures TidyPair(x, y)
  {
    ContainingFacts(states, second);
    if Containing(states, second).Some? {
      var c := Containing(states, second).value;
      if second.ts <= first.ts <= EndOf(c) {
        EarliestContaining(states, first, c);
      }
    }
    hide Containing;
  }

  ghost predicate PairsTidy(b: seq<Emitted>) {
    forall j: nat, k: nat :: j < k < |b| ==> TidyPair(b[j], b[k])
  }

  lemma {:induction false} EmitIsrsTidy(states: seq<Slice>, isrs: seq<Slice>)
    requires Chained(states) && InterruptsNest(isrs) && forall s :: s in isrs ==> s.name.Isr?
    ensures PairsTidy(EmitIsrs(states, isrs))
  {
    hide ClipIsr, TidyPair, NestedOrBefore;
    if isrs != [] {
      hide PairsTidy;
      var rest := isrs[1..];
      assert forall k :: 0 <= k < |rest| ==> rest[k] == isrs[k + 1];
      EmitIsrsTidy(states, rest);
      EmitIsrsFacts(states, rest);
      ClipIsrSize(states, isrs[0]);
      var head, tail := ClipIsr(states, isrs[0]), EmitIsrs(states, rest);
      if head != [] {
        forall k: nat | k < |tail| ensures TidyPair(head[0], tail[k]) {
          var isr :| isr in rest && ClipIsr(states, isr) == [tail[k]];
          var i :| 0 <= i < |rest| && rest[i] == isr;
          assert isrs[0].name.Isr? && isrs[i + 1].name.Isr? && NestedOrBefore(isrs[0], isrs[i + 1]);
          assert head == [head[0]];
          ClippedPair(states, isrs[0], isr, head[0], tail[k]);
        }
      }
      TidyOneMore(head, tail);
    }
  }

  lemma TidyOneMore(head: seq<Emitted>, tail: seq<Emitted>)
    requires |head| <= 1 && forall k: nat :: head != [] && k < |tail| ==> TidyPair(head[0], tail[k])
    requires PairsTidy(tail)
    ensures PairsTidy(head + tail)
  {
    hide TidyPair;
    if head == [] {
      assert head + tail == tail;
    }
  }

  lemma {:induction false} IsrRowNests(slices: seq<Slice>, tid: nat)
    requires InterruptsNest(slices)
    ensures InterruptsNest(IsrRow(slices, tid))
  {
    hide NestedOrBefore;
    if slices != [] {
      var rest := slices[1..];
      assert forall k :: 0 <= k < |rest| ==> rest[k] == slices[k + 1];
      IsrRowNests(rest, tid);
      IsrRowFacts(rest, tid);
      var tail := IsrRow(rest, tid);
      forall k | slices[0].name.Isr? && 0 <= k < |tail| ensures NestedOrBefore(slices[0], tail[k]) {
        assert tail[k] in tail;
        var i :| 0 <= i < |rest| && rest[i] == tail[k];
        assert rest[i] == slices[i + 1];
      }
    }
  }

  lemma ClipTaskTidy(slices: seq<Slice>, tid: nat)
    requires RowsInOrder(slices) && InterruptsNest(slices)
    ensures Tidy(ClipTask(slices, tid), TaskUuid(tid))
    ensures forall x :: x in ClipTask(slices, tid) ==> x.uuid == TaskUuid(tid)
  {
    hide StateRow, IsrRow, EmitStates, EmitIsrs, RowsInOrder, InterruptsNest, Containing, Contains;
    var states, isrs := StateRow(slices, tid), IsrRow(slices, tid);
    var a, b := EmitStates(states), EmitIsrs(states, isrs);
    StateRowFacts(slices, tid);
    IsrRowFacts(slices, tid);
    IsrRowNests(slices, tid);
    EmitStatesFacts(states);
    EmitIsrsFacts(states, isrs);
    EmitIsrsTidy(states, isrs);
    forall k: nat | k < |a| ensures a[k].name.Task? && a[k].ts < a[k].end && a[k].uuid == TaskUuid(tid) {
      assert states[k] in states;
    }
    forall k: nat | k < |b| ensures b[k].name.Isr? && b[k].ts < b[k].end && b[k].uuid == TaskUuid(tid) {
      assert b[k] in b;
      var isr :| isr in isrs && ClipIsr(states, isr) == [b[k]];
    }
    hide ClipIsr;
    forall j: nat, k: nat | j < k < |a| ensures TidyPair(a[j], a[k]) {
    }
    forall j: nat, k: nat | j < k < |a + b| ensures TidyPair((a + b)[j], (a + b)[k]) {
      if j >= |a| {
        assert TidyPair(b[j - |a|], b[k - |a|]);
      } else if k >= |a| {
        assert a[j].name.Task? && b[k - |a|].name.Isr?;
      }
    }
  }

  lemma TidyAppend(a: seq<Emitted>, b: seq<Emitted>, uuid: nat)
    requires Tidy(a, uuid) && forall x :: x in b ==> x.uuid != uuid
    ensures Tidy(a + b, uuid)
  {
    hide TidyPair;
    forall k: nat | |a| <= k < |a + b| ensures (a + b)[k].uuid != uuid {
      assert (a + b)[k] in b;
    }
  }

  lemma TidyPrepend(a: seq<Emitted>, b: seq<Emitted>, uuid: nat)
    requires Tidy(b, uuid) && forall x :: x in a ==> x.uuid != uuid
    ensures Tidy(a + b, uuid)
  {
    hide TidyPair;
    forall k: nat | k < |a| ensures (a + b)[k].uuid != uuid {
      assert (a + b)[k] in a;
    }
    forall k: nat | OnTrack(a + b, uuid, k) ensures k >= |a| && OnTrack(b, uuid, k - |a|) && (a + b)[k] == b[k - |a|] {
    }
  }

  lemma {:induction false} ClipTasksTidy(slices: seq<Slice>, tids: seq<nat>, tid: nat)
    requires RowsInOrder(slices) && InterruptsNest(slices) && Ascending(tids)
    ensures Tidy(ClipTasks(slices, tids), TaskUuid(tid))
    ensures forall x ::
      x in ClipTasks(slices, tids) && x.uuid == TaskUuid(tid) <==> tid in tids && x in ClipTask(slices, tid)
  {
    hide ClipTask, Tidy, RowsInOrder, InterruptsNest;
    if tids == [] {
      NothingTidy(TaskUuid(tid));
    } else {
      var first, rest := tids[0], tids[1..];
      assert forall k :: 0 <= k < |rest| ==> first < rest[k];
      assert tid in tids <==> tid == first || tid in rest;
      ClipTasksTidy(slices, rest, tid);
      ClipTaskTidy(slices, first);
      ClipTaskTidy(slices, tid);
      if tid == first {
        TidyAppend(ClipTask(slices, first), ClipTasks(slices, rest), TaskUuid(tid));
      } else {
        TidyPrepend(ClipTask(slices, first), ClipTasks(slices, rest), TaskUuid(tid));
      }
    }
  }

  lemma NothingTidy(uuid: nat)
    ensures Tidy([], uuid)
  {
  }

  // ----- Interrupts that cross a state ------------------------------------------------

  predicate RunsOver(isr: Slice, state: Slice) {
    || state.ts <= isr.ts < EndOf(state) < EndOf(isr)
    || isr.ts < state.ts < EndOf(isr) <= EndOf(state)
  }

  /** An interrupt no RUNNING slice of its task clips, running over a boundary of one of that task's states. */
  ghost predicate InterruptCrosses(slices: seq<Slice>, isr: Slice) {
    && (forall s :: s in slices && s.tid == isr.tid ==> !Contains(s, isr))
    && (exists s :: s in slices && s.tid == isr.tid && s.name.Task? && RunsOver(isr, s))
  }

  ghost predicate NoneCross(slices: seq<Slice>, tid: nat) {
    forall isr :: isr in slices && isr.name.Isr? && isr.tid == tid ==> !InterruptCrosses(slices, isr)
  }

  /** A clipped interrupt lies inside one state and so crosses none; one not clipped keeps its times. */
  lemma ClippedCrosses(states: seq<Slice>, isr: Slice, x: Emitted, c: Slice)
    requires Chained(states) && ClipIsr(states, isr) == [x] && c in states
    ensures Containing(states, isr).Some? ==> !Crosses(x, ToEmitted(c))
    ensures Containing(states, isr).None? ==> (Crosses(x, ToEmitted(c)) <==> RunsOver(isr, c))
  {
    ContainingFacts(states, isr);
    if Containing(states, isr).Some? {
      var i :| 0 <= i < |states| && states[i] == c;
      var k :| 0 <= k < |states| && states[k] == Containing(states, isr).value;
      assert i < k ==> EndOf(states[i]) <= states[k].ts;
      assert k < i ==> EndOf(states[k]) <= states[i].ts;
    }
    hide Containing;
  }

  lemma {:induction false} EmitIsrsAll(states: seq<Slice>, isrs: seq<Slice>)
    ensures forall isr, x :: isr in isrs && ClipIsr(states, isr) == [x] ==> x in EmitIsrs(states, isrs)
  {
    hide ClipIsr;
    if isrs != [] {
      assert forall s :: s in isrs <==> s == isrs[0] || s in isrs[1..];
      EmitIsrsAll(states, isrs[1..]);
    }
  }

  ghost predicate ShowsState(slices: seq<Slice>, tid: nat, x: Emitted) {
    exists s :: s in slices && s.tid == tid && s.name.Task? && ToEmitted(s) == x
  }

  ghost predicate ShowsIsr(slices: seq<Slice>, tid: nat, x: Emitted) {
    exists isr :: isr in slices && isr.tid == tid && isr.name.Isr? && ClipIsr(StateRow(slices, tid), isr) == [x]
  }

  /** The emitted slices of a task, read back as slices of the timeline. */
  lemma ClipTaskMembers(slices: seq<Slice>, tid: nat)
    requires RowsInOrder(slices)
    ensures forall x :: (x in ClipTask(slices, tid) && x.name.Task? <==> ShowsState(slices, tid, x))
    ensures forall x :: (x in ClipTask(slices, tid) && x.name.Isr? <==> ShowsIsr(slices, tid, x))
  {
    hide StateRow, IsrRow, EmitStates, EmitIsrs, RowsInOrder, Containing;
    var states, isrs := StateRow(slices, tid), IsrRow(slices, tid);
    StateRowFacts(slices, tid);
    IsrRowFacts(slices, tid);
    EmitStatesFacts(states);
    EmitIsrsFacts(states, isrs);
    EmitIsrsAll(states, isrs);
    forall isr, x | isr in isrs && ClipIsr(states, isr) == [x] ensures x.name.Isr? {
    }
    hide ClipIsr;
    forall x | x in EmitStates(states) ensures exists s :: s in states && ToEmitted(s) == x {
      var i :| 0 <= i < |states| && EmitStates(states)[i] == x;
      assert states[i] in states;
    }
    forall s | s in states ensures ToEmitted(s) in EmitStates(states) {
      var i :| 0 <= i < |states| && states[i] == s;
      assert EmitStates(states)[i] == ToEmitted(s);
    }
  }

  lemma EmittedCrossing(slices: seq<Slice>, tid: nat, x: Emitted, y: Emitted)
    requires RowsInOrder(slices) && ShowsIsr(slices, tid, x) && ShowsState(slices, tid, y) && Crosses(x, y)
    ensures !NoneCross(slices, tid)
  {
    hide RowsInOrder, StateRow, ClipIsr, Crosses, Containing, Contains, RunsOver, ToEmitted;
    var states := StateRow(slices, tid);
    StateRowFacts(slices, tid);
    var isr :| isr in slices && isr.tid == tid && isr.name.Isr? && ClipIsr(states, isr) == [x];
    var s :| s in slices && s.tid == tid && s.name.Task? && ToEmitted(s) == y;
    ClippedCrosses(states, isr, x, s);
    ContainingFacts(states, isr);
    RunningOnlyContains(isr);
    assert InterruptCrosses(slices, isr);
  }

  lemma RunningOnlyContains(isr: Slice)
    ensures forall s :: Contains(s, isr) ==> s.name.Task?
  {
  }

  lemma CrossingEmitted(slices: seq<Slice>, tid: nat, isr: Slice) returns (x: Emitted, y: Emitted)
    requires RowsInOrder(slices) && isr in slices && isr.name.Isr? && isr.tid == tid && InterruptCrosses(slices, isr)
    ensures ShowsIsr(slices, tid, x) && ShowsState(slices, tid, y) && Crosses(x, y)
  {
    hide StateRow, ClipIsr, Crosses, Containing, Contains, RunsOver, ToEmitted;
    var states := StateRow(slices, tid);
    StateRowFacts(slices, tid);
    var s :| s in slices && s.tid == tid && s.name.Task? && RunsOver(isr, s);
    ContainingFacts(states, isr);
    x, y := Emitted(Ns(isr.ts), Ns(EndOf(isr)), isr.name, TaskUuid(isr.tid)), ToEmitted(s);
    UnclippedIsr(states, isr);
    ClippedCrosses(states, isr, x, s);
  }

  lemma InTrack(em: seq<Emitted>, uuid: nat, x: Emitted) returns (k: nat)
    requires x in em && x.uuid == uuid
    ensures OnTrack(em, uuid, k) && em[k] == x
  {
    k :| k < |em| && em[k] == x;
  }

  lemma Shown(slices: seq<Slice>, tid: nat, x: Emitted)
    requires RowsInOrder(slices) && InterruptsNest(slices) && (ShowsIsr(slices, tid, x) || ShowsState(slices, tid, x))
    ensures x in ClipTasks(slices, TaskIds(slices)) && x.uuid == TaskUuid(tid)
    ensures ShowsIsr(slices, tid, x) ==> x.name.Isr?
    ensures ShowsState(slices, tid, x) ==> x.name.Task?
  {
    hide ClipTask, ClipTasks, TaskIds, Tidy, RowsInOrder, InterruptsNest, StateRow, ClipIsr, ToEmitted;
    var s :| s in slices && s.tid == tid;
    TidInTids(slices, s);
    TaskIdsFacts(slices);
    ClipTasksTidy(slices, TaskIds(slices), tid);
    ClipTaskTidy(slices, tid);
    ClipTaskMembers(slices, tid);
  }

  /** Crossings among the emitted slices of a track are those among the slices of the timeline. */
  lemma CrossingsKept(slices: seq<Slice>, tid: nat)
    requires RowsInOrder(slices) && InterruptsNest(slices)
    ensures NoCrossing(ClipTasks(slices, TaskIds(slices)), TaskUuid(tid)) <==> NoneCross(slices, tid)
  {
    hide ClipTask, ClipTasks, TaskIds, Tidy, RowsInOrder, InterruptsNest, Crosses, ShowsState, ShowsIsr;
    hide InterruptCrosses;
    var tids, em, uuid := TaskIds(slices), ClipTasks(slices, TaskIds(slices)), TaskUuid(tid);
    TaskIdsFacts(slices);
    ClipTasksTidy(slices, tids, tid);
    ClipTaskMembers(slices, tid);
    if !NoCrossing(em, uuid) {
      var j: nat, c: nat :| IsIsr(em, uuid, j) && IsState(em, uuid, c) && Crosses(em[j], em[c]);
      assert em[j] in em && em[c] in em;
      EmittedCrossing(slices, tid, em[j], em[c]);
    }
    if !NoneCross(slices, tid) {
      var isr :| isr in slices && isr.name.Isr? && isr.tid == tid && InterruptCrosses(slices, isr);
      var x, y := CrossingEmitted(slices, tid, isr);
      Shown(slices, tid, x);
      Shown(slices, tid, y);
      var j := InTrack(em, uuid, x);
      var c := InTrack(em, uuid, y);
      assert IsIsr(em, uuid, j) && IsState(em, uuid, c) && Crosses(em[j], em[c]);
    }
  }

  lemma UnclippedIsr(states: seq<Slice>, isr: Slice)
    requires Containing(states, isr).None? && isr.dur > 0
    ensures ClipIsr(states, isr) == [Emitted(Ns(isr.ts), Ns(EndOf(isr)), isr.name, TaskUuid(isr.tid))]
  {
  }

  lemma TidInTids(slices: seq<Slice>, s: Slice)
    requires s in slices
    ensures s.tid in TaskIds(slices)
  {
    TaskIdsFacts(slices);
    var i :| 0 <= i < |slices| && slices[i] == s;
    assert SomeRunsAs(slices, s.tid);
  }

  // ----- Whole timelines and traces ---------------------------------------------------

  /** Other events of the export: numbered after the slice events, no slices on this track. */
  ghost predicate Beside(em: seq<Emitted>, others: seq<Event>, uuid: nat) {
    && Numbered(others)
    && (forall e :: e in others ==> e.no >= 2 * |em| && (e.uuid == uuid ==> e.what.Point?))
  }

  lemma SliceEventAt(em: seq<Emitted>, i: nat)
    requires i < 2 * |em|
    ensures SliceEvents(em)[i].no == i
    ensures SliceEvents(em)[i] == if i % 2 == 0 then BeginOf(em, i / 2) else EndEventOf(em, i / 2)
  {
  }

  lemma AllNumbered(em: seq<Emitted>, others: seq<Event>, uuid: nat)
    requires Beside(em, others, uuid)
    ensures Numbered(SliceEvents(em) + others)
  {
    hide SliceEvents;
    var slices := SliceEvents(em);
    var all := slices + others;
    forall i | 0 <= i < |all|
      ensures if i < |slices| then all[i].no == i else all[i] in others && all[i].no >= |slices|
    {
      if i < |slices| {
        SliceEventAt(em, i);
      }
    }
  }

  lemma SortSchedules(em: seq<Emitted>, others: seq<Event>, uuid: nat)
    requires Beside(em, others, uuid) && Tidy(em, uuid)
    ensures Schedules(em, uuid, SortEvents(SliceEvents(em) + others))
  {
    hide SortEvents, SliceEvents, TidyPair;
    AllNumbered(em, others, uuid);
    var slices := SliceEvents(em);
    var all := slices + others;
    SortInOrder(all);
    forall k: nat | k < |em| ensures BeginOf(em, k) in all && EndEventOf(em, k) in all {
      SliceEventAt(em, 2 * k);
      SliceEventAt(em, 2 * k + 1);
      assert all[2 * k] == BeginOf(em, k) && all[2 * k + 1] == EndEventOf(em, k);
    }
    forall e | e in all && e.uuid == uuid && !e.what.Point?
      ensures e.what.id < |em| && e == if e.what.BeginSlice? then BeginOf(em, e.what.id) else EndEventOf(em, e.what.id)
    {
      assert e !in others;
      assert e in slices;
      var i :| 0 <= i < |slices| && slices[i] == e;
      SliceEventAt(em, i);
    }
  }

  /** The exported slices of a timeline, and the sorted event list they are written as. */
  function Exported(slices: seq<Slice>): seq<Emitted> {
    ClipTasks(slices, TaskIds(slices))
  }

  function ExportedEvents(slices: seq<Slice>, others: seq<Event>): seq<Event> {
    SortEvents(SliceEvents(Exported(slices)) + others)
  }

  lemma TimelineSchedules(recs: seq<Rec>, end: nat, others: seq<Event>, tid: nat)
    requires InTimeOrder(recs) && Beside(Exported(Timeline(recs, end)), others, TaskUuid(tid))
    ensures RowsInOrder(Timeline(recs, end)) && InterruptsNest(Timeline(recs, end))
    ensures Tidy(Exported(Timeline(recs, end)), TaskUuid(tid))
    ensures Schedules(Exported(Timeline(recs, end)), TaskUuid(tid), ExportedEvents(Timeline(recs, end), others))
  {
    hide InTimeOrder, Timeline, ClipTasks, TaskIds, Tidy, Schedules, SortEvents, SliceEvents, Beside, RowsInOrder;
    hide InterruptsNest, EnteredOn;
    var slices := Timeline(recs, end);
    TimelineRowsInOrder(recs, end);
    TimelineInterrupts(recs, end);
    TaskIdsFacts(slices);
    ClipTasksTidy(slices, TaskIds(slices), tid);
    SortSchedules(Exported(slices), others, TaskUuid(tid));
  }

  /**
   For every trace in time order: on a task's track every state's end closes that state
   exactly when no interrupt of that task crosses one of its states; then every interrupt's
   end closes an interrupt. Every end closes its own slice exactly when besides no two
   exported interrupts of the track start at the same time. Nothing stays open.
   */
  lemma TraceNests(recs: seq<Rec>, end: nat, others: seq<Event>, tid: nat)
    requires InTimeOrder(recs) && Beside(Exported(Timeline(recs, end)), others, TaskUuid(tid))
    ensures Schedules(Exported(Timeline(recs, end)), TaskUuid(tid), ExportedEvents(Timeline(recs, end), others))
    ensures var slices := Timeline(recs, end);
      var em, uuid, s := Exported(slices), TaskUuid(tid), ExportedEvents(slices, others);
      && (StatesOwn(em, uuid, s) <==> NoneCross(slices, tid))
      && (NoneCross(slices, tid) ==> IsrsCloseIsrs(em, uuid, s))
      && (AllOwn(em, uuid, s) <==> NoneCross(slices, tid) && StartsDiffer(em, uuid))
      && Stack(s, uuid, |s|) == []
  {
    hide Timeline, ClipTasks, TaskIds, Tidy, Schedules, SortEvents, SliceEvents, Beside, RowsInOrder;
    hide InterruptsNest, Stack;
    hide StatesOwn, AllOwn, IsrsCloseIsrs, NoneCross, NoCrossing, StartsDiffer, InTimeOrder;
    var slices := Timeline(recs, end);
    var em, uuid, s := Exported(slices), TaskUuid(tid), ExportedEvents(slices, others);
    TimelineSchedules(recs, end, others, tid);
    CrossingsKept(slices, tid);
    StatesOwnIff(em, uuid, s);
    AllOwnIff(em, uuid, s);
    NothingLeft(em, uuid, s);
    if NoneCross(slices, tid) {
      IsrsClose(em, uuid, s);
    }
  }

  /** Every interrupt is entered at an instant whose events leave the task it is charged to RUNNING. */
  ghost predicate EnteredWhileRunning(recs: seq<Rec>, tid: nat) {
    forall ts: nat :: EnteredOn(recs, tid, ts) ==> WasIn(recs, tid, RUNNING, ts)
  }

  /** From scheduler events to the drawing: such a trace nests. */
  lemma RunningEntriesNest(recs: seq<Rec>, end: nat, others: seq<Event>, tid: nat)
    requires Chronicle(recs) && LastTime(recs) <= end && EnteredWhileRunning(recs, tid)
    requires Beside(Exported(Timeline(recs, end)), others, TaskUuid(tid))
    ensures Schedules(Exported(Timeline(recs, end)), TaskUuid(tid), ExportedEvents(Timeline(recs, end), others))
    ensures var slices := Timeline(recs, end);
      var em, uuid, s := Exported(slices), TaskUuid(tid), ExportedEvents(slices, others);
      StatesOwn(em, uuid, s) && IsrsCloseIsrs(em, uuid, s)
  {
    hide Timeline, ClipTasks, TaskIds, Schedules, SortEvents, SliceEvents, Beside, RowsInOrder, InterruptsNest;
    hide StatesOwn, IsrsCloseIsrs, AllOwn, StartsDiffer, InTimeOrder, Chronicle, EnteredOn, WasIn, Shows, Stack;
    hide RunsOver;
    ChronicleInOrder(recs);
    var slices := Timeline(recs, end);
    TimelineRowsInOrder(recs, end);
    TimelineInterrupts(recs, end);
    forall isr | isr in slices && isr.name.Isr? && isr.tid == tid ensures !InterruptCrosses(slices, isr) {
      LastsSomeTime(slices, isr);
      InterruptInsideRunning(recs, end, isr);
      ShownContains(slices, isr);
    }
    TraceNests(recs, end, others, tid);
  }

  lemma LastsSomeTime(slices: seq<Slice>, s: Slice)
    requires RowsInOrder(slices) && s in slices
    ensures s.dur > 0
  {
  }

  lemma ShownContains(slices: seq<Slice>, isr: Slice)
    requires Shows(slices, isr.tid, RUNNING, isr.ts)
    ensures exists s :: s in slices && s.tid == isr.tid && Contains(s, isr)
  {
    var i :| 0 <= i < |slices| && Covers(slices[i], isr.tid, RUNNING, isr.ts);
    assert slices[i] in slices && Contains(slices[i], isr);
  }

  // ----- Traces whose interrupts cross ------------------------------------------------

  /** `states` are the trackers a trace goes through. */
  lemma {:induction false} RunThrough(recs: seq<Rec>, states: seq<Tracker>, k: nat)
    requires |states| == |recs| + 1 && states[0] == INITIAL && k <= |recs|
    requires forall i: nat :: i < |recs| ==> Process(states[i], recs[i]) == states[i + 1]
    ensures Run(INITIAL, recs[..k]) == states[k]
  {
    hide Process;
    if k > 0 {
      RunThrough(recs, states, k - 1);
      assert recs[..k][..k - 1] == recs[..k - 1];
    }
  }

  lemma {:induction false} Ascend(recs: seq<Rec>)
    requires forall i, j :: 0 <= i < j < |recs| ==> recs[i].ts <= recs[j].ts
    ensures InTimeOrder(recs)
    decreases |recs|
  {
    if recs != [] {
      Ascend(recs[..|recs| - 1]);
    }
  }

  lemma FinishOne(t: Tracker, a: nat, end: nat)
    requires t.order == [a]
    ensures Finalize(t, end) == End(t, a, end)
  {
    hide End;
    assert t.order[1..] == [];
    assert EndAll(End(t, a, end), [], end) == End(t, a, end);
  }

  lemma FinishTwo(t: Tracker, a: nat, b: nat, end: nat)
    requires t.order == [a, b]
    ensures Finalize(t, end) == End(End(t, a, end), b, end)
  {
    hide End;
    var u := End(t, a, end);
    assert t.order[1..] == [b] && [b][1..] == [];
    assert EndAll(t, t.order, end) == EndAll(u, [b], end);
    assert EndAll(u, [b], end) == EndAll(End(u, b, end), [], end);
  }

  /** Task 0 starts, is made ready again while it runs, is interrupted, and blocks before the interrupt ends. */
  const CROSSING: seq<Rec> :=
    [Rec(KERNEL_START, 0, [0]), Rec(TASK_READY, 0, [0]), Rec(ISR_ENTER, 5, [7]), Rec(TASK_BLOCK, 10, [0]),
     Rec(ISR_EXIT, 15, [7])]

  const CROSSED: seq<Slice> := [Slice(Task(READY), 0, 0, 10), Slice(Isr(7), 0, 5, 10), Slice(Task(BLOCKED), 0, 10, 10)]

  const CROSSING_STATES: seq<Tracker> := [
    INITIAL,
    Tracker(Some(0), map[0 := Open(RUNNING, 0)], [0], [], []),
    Tracker(Some(0), map[0 := Open(READY, 0)], [0], [], []),
    Tracker(Some(0), map[0 := Open(READY, 0)], [0], [], [Interrupt(0, 7, 5)]),
    Tracker(None, map[0 := Open(BLOCKED, 10)], [0], [Slice(Task(READY), 0, 0, 10)], [Interrupt(0, 7, 5)]),
    Tracker(None, map[0 := Open(BLOCKED, 10)], [0], [Slice(Task(READY), 0, 0, 10), Slice(Isr(7), 0, 5, 10)], [])]

  lemma CrossingStep(k: nat)
    requires k < 5
    ensures Process(CROSSING_STATES[k], CROSSING[k]) == CROSSING_STATES[k + 1]
  {
    assert Without([0], 0) == [];
  }

  lemma CrossingEnd()
    ensures Finalize(CROSSING_STATES[5], 20).slices == CROSSED
  {
    FinishOne(CROSSING_STATES[5], 0, 20);
  }

  lemma CrossingTimeline()
    ensures InTimeOrder(CROSSING) && Timeline(CROSSING, 20) == CROSSED && InterruptCrosses(CROSSED, CROSSED[1])
  {
    hide Process, Run, Finalize, InTimeOrder;
    forall k: nat | k < 5 ensures Process(CROSSING_STATES[k], CROSSING[k]) == CROSSING_STATES[k + 1] {
      CrossingStep(k);
    }
    RunThrough(CROSSING, CROSSING_STATES, 5);
    assert CROSSING[..5] == CROSSING;
    CrossingEnd();
    Ascend(CROSSING);
    assert CROSSED[0] in CROSSED && RunsOver(CROSSED[1], CROSSED[0]);
  }

  /**
   Task 2 gets the processor, is interrupted and loses it again within one microsecond: the
   interrupt is charged to a RUNNING task whose RUNNING slice is empty and left out.
   */
  const PASSING: seq<Rec> :=
    [Rec(KERNEL_START, 0, [1]), Rec(TASK_SWITCH, 5, [1, 2]), Rec(ISR_ENTER, 5, [7]), Rec(TASK_SWITCH, 5, [2, 1]),
     Rec(TASK_BLOCK, 7, [2]), Rec(ISR_EXIT, 9, [])]

  const PASSED: seq<Slice> :=
    [Slice(Task(RUNNING), 1, 0, 5), Slice(Task(READY), 2, 5, 2), Slice(Isr(7), 2, 5, 4), Slice(Task(RUNNING), 1, 5, 15),
     Slice(Task(BLOCKED), 2, 7, 13)]

  const PASSING_STATES: seq<Tracker> := [
    INITIAL,
    Tracker(Some(1), map[1 := Open(RUNNING, 0)], [1], [], []),
    Tracker(Some(2), map[1 := Open(READY, 5), 2 := Open(RUNNING, 5)], [1, 2], PASSED[..1], []),
    Tracker(Some(2), map[1 := Open(READY, 5), 2 := Open(RUNNING, 5)], [1, 2], PASSED[..1], [Interrupt(2, 7, 5)]),
    Tracker(Some(1), map[1 := Open(RUNNING, 5), 2 := Open(READY, 5)], [2, 1], PASSED[..1], [Interrupt(2, 7, 5)]),
    Tracker(Some(1), map[1 := Open(RUNNING, 5), 2 := Open(BLOCKED, 7)], [1, 2], PASSED[..2], [Interrupt(2, 7, 5)]),
    Tracker(Some(1), map[1 := Open(RUNNING, 5), 2 := Open(BLOCKED, 7)], [1, 2], PASSED[..3], [])]

  lemma PassingStep1()
    ensures Process(PASSING_STATES[0], PASSING[0]) == PASSING_STATES[1]
    ensures Process(PASSING_STATES[1], PASSING[1]) == PASSING_STATES[2]
  {
    assert Without([1], 1) == [];
  }

  lemma PassingStep2()
    ensures Process(PASSING_STATES[2], PASSING[2]) == PASSING_STATES[3]
    ensures Process(PASSING_STATES[5], PASSING[5]) == PASSING_STATES[6]
  {
    assert PASSED[..2] + [Slice(Isr(7), 2, 5, 4)] == PASSED[..3];
    assert Process(PASSING_STATES[5], PASSING[5]).open == PASSING_STATES[6].open;
  }

  lemma PassingStep3()
    ensures Process(PASSING_STATES[3], PASSING[3]) == PASSING_STATES[4]
  {
    assert Without([1, 2], 2) == [1] && Without([1, 2], 1) == [2];
  }

  lemma PassingStep4()
    ensures Process(PASSING_STATES[4], PASSING[4]) == PASSING_STATES[5]
  {
    assert Without([2, 1], 2) == [1];
    assert PASSED[..1] + [Slice(Task(READY), 2, 5, 2)] == PASSED[..2];
  }

  lemma PassingEnd()
    ensures Finalize(PASSING_STATES[6], 20).slices == PASSED
  {
    FinishTwo(PASSING_STATES[6], 1, 2, 20);
    assert Without([1, 2], 1) == [2];
  }

  lemma PassingTimeline()
    ensures InTimeOrder(PASSING) && Timeline(PASSING, 20) == PASSED && InterruptCrosses(PASSED, PASSED[2])
    ensures Scheduled(PASSING[..2]).running == Some(2) && 2 in Scheduled(PASSING[..2]).states
    ensures Scheduled(PASSING[..2]).states[2] == RUNNING
  {
    hide Process, Run, Finalize, InTimeOrder, Scheduled;
    PassingStep1();
    PassingStep2();
    PassingStep3();
    PassingStep4();
    RunThrough(PASSING, PASSING_STATES, 2);
    RunThrough(PASSING, PASSING_STATES, 6);
    assert PASSING[..6] == PASSING;
    ViewOfRun(PASSING[..2]);
    PassingEnd();
    Ascend(PASSING);
    assert PASSED[1] in PASSED && RunsOver(PASSED[2], PASSED[1]);
  }

  /** On both of these tracks some state's end closes another slice, whatever else is exported. */
  lemma CrossingInterruptSteals(others: seq<Event>)
    requires Beside(Exported(CROSSED), others, TaskUuid(0))
    ensures Schedules(Exported(CROSSED), TaskUuid(0), ExportedEvents(CROSSED, others))
    ensures !StatesOwn(Exported(CROSSED), TaskUuid(0), ExportedEvents(CROSSED, others))
  {
    CrossingTimeline();
    hide InTimeOrder, Timeline, Exported, ExportedEvents, Beside, Schedules, StatesOwn, AllOwn, IsrsCloseIsrs;
    hide InterruptCrosses;
    TraceNests(CROSSING, 20, others, 0);
    assert CROSSED[1] in CROSSED;
  }

  lemma PassingInterruptSteals(others: seq<Event>)
    requires Beside(Exported(PASSED), others, TaskUuid(2))
    ensures Schedules(Exported(PASSED), TaskUuid(2), ExportedEvents(PASSED, others))
    ensures !StatesOwn(Exported(PASSED), TaskUuid(2), ExportedEvents(PASSED, others))
  {
    PassingTimeline();
    hide InTimeOrder, Timeline, Exported, ExportedEvents, Beside, Schedules, StatesOwn, AllOwn, IsrsCloseIsrs;
    hide InterruptCrosses;
    TraceNests(PASSING, 20, others, 2);
    assert PASSED[2] in PASSED;
  }

  // ----- A trace that loses an interrupt, and one with two at one instant --------------

  /** Task 1 runs, is made ready again at the instant an interrupt is entered, and the interrupt ends later. */
  const LOSING: seq<Rec> :=
    [Rec(KERNEL_START, 0, [1]), Rec(TASK_READY, 5, [1]), Rec(ISR_ENTER, 5, [7]), Rec(ISR_EXIT, 7, [7])]

  const LOST: seq<Slice> := [Slice(Task(RUNNING), 1, 0, 5), Slice(Isr(7), 1, 5, 2), Slice(Task(READY), 1, 5, 15)]

  const LOSING_STATES: seq<Tracker> := [
    INITIAL,
    Tracker(Some(1), map[1 := Open(RUNNING, 0)], [1], [], []),
    Tracker(Some(1), map[1 := Open(READY, 5)], [1], LOST[..1], []),
    Tracker(Some(1), map[1 := Open(READY, 5)], [1], LOST[..1], [Interrupt(1, 7, 5)]),
    Tracker(Some(1), map[1 := Open(READY, 5)], [1], LOST[..2], [])]

  lemma LosingStep(k: nat)
    requires k < 4
    ensures Process(LOSING_STATES[k], LOSING[k]) == LOSING_STATES[k + 1]
  {
    assert Without([1], 1) == [];
    assert LOST[..1] + [Slice(Isr(7), 1, 5, 2)] == LOST[..2];
  }

  lemma LosingEnd()
    ensures Finalize(LOSING_STATES[4], 20).slices == LOST
  {
    FinishOne(LOSING_STATES[4], 1, 20);
  }

  /** The tracker draws the interrupt, and the export leaves it out. */
  lemma LosingTimeline()
    ensures InTimeOrder(LOSING) && Timeline(LOSING, 20) == LOST && LOST[1].name.Isr? && LOST[1].dur > 0
    ensures ClipIsr(StateRow(LOST, 1), LOST[1]) == []
  {
    hide Process, Run, Finalize, InTimeOrder, ClipIsr, StateRow, RowsInOrder;
    forall k: nat | k < 4 ensures Process(LOSING_STATES[k], LOSING[k]) == LOSING_STATES[k + 1] {
      LosingStep(k);
    }
    RunThrough(LOSING, LOSING_STATES, 4);
    assert LOSING[..4] == LOSING;
    LosingEnd();
    Ascend(LOSING);
    TimelineRowsInOrder(LOSING, 20);
    assert LOST[0] in LOST && EndOf(LOST[0]) == 5;
    InterruptLost(LOST, LOST[1]);
  }

  /** While task 1 runs, two interrupts are entered at one instant. */
  const TWINS: seq<Rec> :=
    [Rec(KERNEL_START, 0, [1]), Rec(ISR_ENTER, 5, [7]), Rec(ISR_ENTER, 5, [8]), Rec(ISR_EXIT, 7, [8]),
     Rec(ISR_EXIT, 9, [7])]

  const TWIN: seq<Slice> := [Slice(Isr(8), 1, 5, 2), Slice(Isr(7), 1, 5, 4), Slice(Task(RUNNING), 1, 0, 20)]

  const TWIN_STATES: seq<Tracker> := [
    INITIAL,
    Tracker(Some(1), map[1 := Open(RUNNING, 0)], [1], [], []),
    Tracker(Some(1), map[1 := Open(RUNNING, 0)], [1], [], [Interrupt(1, 7, 5)]),
    Tracker(Some(1), map[1 := Open(RUNNING, 0)], [1], [], [Interrupt(1, 7, 5), Interrupt(1, 8, 5)]),
    Tracker(Some(1), map[1 := Open(RUNNING, 0)], [1], TWIN[..1], [Interrupt(1, 7, 5)]),
    Tracker(Some(1), map[1 := Open(RUNNING, 0)], [1], TWIN[..2], [])]

  lemma TwinStep(k: nat)
    requires k < 5
    ensures Process(TWIN_STATES[k], TWINS[k]) == TWIN_STATES[k + 1]
  {
    assert TWIN[..1] + [Slice(Isr(7), 1, 5, 4)] == TWIN[..2];
    assert [Interrupt(1, 7, 5), Interrupt(1, 8, 5)][..1] == [Interrupt(1, 7, 5)] && [Interrupt(1, 7, 5)][..0] == [];
  }

  lemma TwinEnd()
    ensures Finalize(TWIN_STATES[5], 20).slices == TWIN
  {
    FinishOne(TWIN_STATES[5], 1, 20);
  }

  lemma TwinTimeline()
    ensures InTimeOrder(TWINS) && Timeline(TWINS, 20) == TWIN
  {
    hide Process, Run, Finalize, InTimeOrder;
    forall k: nat | k < 5 ensures Process(TWIN_STATES[k], TWINS[k]) == TWIN_STATES[k + 1] {
      TwinStep(k);
    }
    RunThrough(TWINS, TWIN_STATES, 5);
    assert TWINS[..5] == TWINS;
    TwinEnd();
    Ascend(TWINS);
  }

  const TWIN_EXPORT: seq<Emitted> := [
    Emitted(0, 20000, Task(RUNNING), TaskUuid(1)), Emitted(5000, 7000, Isr(8), TaskUuid(1)),
    Emitted(5000, 9000, Isr(7), TaskUuid(1))]

  lemma TwinRows()
    ensures StateRow(TWIN, 1) == [TWIN[2]] && IsrRow(TWIN, 1) == [TWIN[0], TWIN[1]]
  {
    var a, b := TWIN[1..], TWIN[2..];
    assert a[1..] == b && b[1..] == [];
    assert StateRow(b, 1) == [TWIN[2]] && StateRow(a, 1) == [TWIN[2]];
    assert IsrRow(b, 1) == [] && IsrRow(a, 1) == [TWIN[1]];
  }

  lemma TwinClipped(isr: Slice)
    requires isr == TWIN[0] || isr == TWIN[1]
    ensures ClipIsr([TWIN[2]], isr) == [Emitted(5000, Ns(EndOf(isr)), isr.name, TaskUuid(1))]
    ensures Contains(TWIN[2], isr)
  {
  }

  lemma TwinTask()
    ensures ClipTask(TWIN, 1) == TWIN_EXPORT
  {
    hide ClipIsr, StateRow, IsrRow;
    TwinRows();
    TwinClipped(TWIN[0]);
    TwinClipped(TWIN[1]);
    var isrs := [TWIN[0], TWIN[1]];
    assert [TWIN[2]][1..] == [] && isrs[1..] == [TWIN[1]] && isrs[1..][1..] == [];
    assert EmitIsrs([TWIN[2]], isrs[1..]) == ClipIsr([TWIN[2]], TWIN[1]) + EmitIsrs([TWIN[2]], []);
  }

  /** Every state's end is its own, but of the two interrupts one's end closes the other, whatever else is exported. */
  lemma TwinsSwap(others: seq<Event>)
    requires Beside(Exported(TWIN), others, TaskUuid(1))
    ensures Schedules(Exported(TWIN), TaskUuid(1), ExportedEvents(TWIN, others))
    ensures StatesOwn(Exported(TWIN), TaskUuid(1), ExportedEvents(TWIN, others))
    ensures !AllOwn(Exported(TWIN), TaskUuid(1), ExportedEvents(TWIN, others))
  {
    TwinTimeline();
    TwinStarts();
    TwinCrossNothing();
    hide InTimeOrder, Timeline, Exported, ExportedEvents, Beside, Schedules, StatesOwn, AllOwn, IsrsCloseIsrs;
    hide NoneCross, StartsDiffer;
    TraceNests(TWINS, 20, others, 1);
  }

  lemma TwinCrossNothing()
    ensures NoneCross(TWIN, 1)
  {
    TwinClipped(TWIN[0]);
    TwinClipped(TWIN[1]);
    assert TWIN[2] in TWIN;
    hide Contains, RunsOver;
  }

  lemma TwinStarts()
    ensures !StartsDiffer(Exported(TWIN), TaskUuid(1))
  {
    hide ClipTask, TaskIds;
    TwinTask();
    TwinIds();
    assert [1][1..] == [];
    assert ClipTasks(TWIN, [1]) == ClipTask(TWIN, 1) + ClipTasks(TWIN, []);
    var em := Exported(TWIN);
    assert em == TWIN_EXPORT;
    assert IsIsr(em, TaskUuid(1), 1) && IsIsr(em, TaskUuid(1), 2) && em[1].ts == em[2].ts;
  }

  lemma TwinIds()
    ensures TaskIds(TWIN) == [1]
  {
  }
}
