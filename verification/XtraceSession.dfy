/**
 Whole sessions of the trace recorder under either overrun policy: any sequence of enabled
 calls and of bytes leaving the ring. What the stream is, how losses are accounted for, and
 what the host's clock shows.
 */
module XtraceSession {
  import opened Bytes
  import opened Ring
  import opened XtraceWire
  import opened XtraceCount
  import opened XtraceRecorder

  /** What a record in the stream stands for. */
  datatype Entry = Boot(ts: u32) | Gap(delta: u32, lost: u32) | Event(delta: u32, id: u32, params: seq<u32>)

  function ToRecord(e: Entry, hz: u32): RawRecord {
    match e
    case Boot(ts) => BootRecord(ts, hz)
    case Gap(delta, lost) => GapRecord(delta, lost)
    case Event(delta, id, params) => RawRecord(id, delta, params)
  }

  function ToRecords(log: seq<Entry>, hz: u32): (rs: seq<RawRecord>)
    ensures |rs| == |log|
  {
    seq(|log|, i requires 0 <= i < |log| => ToRecord(log[i], hz))
  }

  lemma ToRecordsAppend(a: seq<Entry>, b: seq<Entry>, hz: u32)
    ensures ToRecords(a + b, hz) == ToRecords(a, hz) + ToRecords(b, hz)
  {
  }

  /** The entries one accepted call adds: the pending gap first, then the event. */
  function Added(st: State, id: u32, params: seq<u32>, ts: u32): seq<Entry> {
    var delta := Wrap(ts - st.last);
    if st.gap then [Gap(delta, st.dropped), Event(0, id, params)] else [Event(delta, id, params)]
  }

  lemma HeaderAndParams(id: nat, delta: nat, params: seq<nat>)
    ensures EncodeRecord(RawRecord(id, delta, params))
      == Header(id, delta, |EncodeParams(params)|) + EncodeParams(params)
  {
    hide Leb, EncodeParams;
    var a, b, c, d := Leb(|EncodePayload(RawRecord(id, delta, params))|), Leb(id), Leb(delta), EncodeParams(params);
    assert a + (b + c + d) == (a + b + c) + d;
  }

  /** An accepted call puts whole records at the end of the queue, in one piece. */
  lemma AcceptedBytes(cfg: Setup, st: State, id: u32, params: seq<u32>, ts: u32)
    requires Fits(cfg, st, id, |EncodeParams(params)|, ts)
    ensures Emit(cfg, st, id, params, ts, 0)
      == State(st.queue + EncodeRecords(ToRecords(Added(st, id, params, ts), cfg.hz)),
               if st.gap then 0 else st.dropped, ts, false)
  {
    hide Leb, EncodeParams, EncodeRecord, EncodeRecords, Fits, Header;
    var delta := Wrap(ts - st.last);
    var event := RawRecord(id, if st.gap then 0 else delta, params);
    HeaderAndParams(id, event.deltaTs, params);
    var h, ps := Header(id, event.deltaTs, |EncodeParams(params)|), EncodeParams(params);
    var added := ToRecords(Added(st, id, params, ts), cfg.hz);
    if st.gap {
      var g := GapRecord(delta, st.dropped);
      TwoEncoded(g, event);
      assert added == [g, event];
      assert st.queue + (EncodeRecord(g) + h) + ps == st.queue + (EncodeRecord(g) + (h + ps));
    } else {
      OneEncoded(event);
      assert added == [event];
      assert st.queue + h + ps == st.queue + (h + ps);
    }
  }

  lemma RestartRecords(cfg: Setup, id: u32, params: seq<u32>, ts: u32, total: u32)
    ensures var n := |EncodeParams(params)|;
      var head := EncodeRecord(BootRecord(ts, cfg.hz)) + EncodeRecord(GapRecord(0, total));
      var bytes := EncodeRecords(ToRecords([Boot(ts), Gap(0, total), Event(0, id, params)], cfg.hz));
      head + Header(id, 0, n) + EncodeParams(params) == bytes && |head| + RecordSize(id, 0, n) == |bytes|
  {
    hide Leb, EncodeParams, EncodeRecord, EncodeRecords, Header;
    var boot, gap, event := BootRecord(ts, cfg.hz), GapRecord(0, total), RawRecord(id, 0, params);
    assert ToRecords([Boot(ts), Gap(0, total), Event(0, id, params)], cfg.hz) == [boot, gap] + [event];
    EncodeRecordsAppend([boot, gap], [event]);
    TwoEncoded(boot, gap);
    OneEncoded(event);
    HeaderAndParams(id, 0, params);
    var head, h, ps :=
      EncodeRecord(boot) + EncodeRecord(gap), Header(id, 0, |EncodeParams(params)|), EncodeParams(params);
    assert head + h + ps == head + (h + ps);
  }

  // ----- Sessions --------------------------------------------------------------------

  /** An entry with the true time of the call that made it. */
  datatype Stamped = Stamped(entry: Entry, time: nat)

  function Entries(log: seq<Stamped>): (es: seq<Entry>)
    ensures |es| == |log|
  {
    seq(|log|, i requires 0 <= i < |log| => log[i].entry)
  }

  function StampAll(es: seq<Entry>, time: nat): (log: seq<Stamped>)
    ensures |log| == |es| && Entries(log) == es
  {
    seq(|es|, i requires 0 <= i < |es| => Stamped(es[i], time))
  }

  /** These entries as they are written. */
  function Written(cfg: Setup, log: seq<Stamped>): seq<byte> {
    EncodeRecords(ToRecords(Entries(log), cfg.hz))
  }

  lemma EntriesAppend(a: seq<Stamped>, b: seq<Stamped>)
    ensures Entries(a + b) == Entries(a) + Entries(b)
  {
  }

  lemma WrittenAppend(cfg: Setup, a: seq<Stamped>, b: seq<Stamped>)
    ensures Entries(a + b) == Entries(a) + Entries(b)
    ensures Written(cfg, a + b) == Written(cfg, a) + Written(cfg, b)
  {
    hide EncodeRecords, ToRecord;
    EntriesAppend(a, b);
    ToRecordsAppend(Entries(a), Entries(b), cfg.hz);
    EncodeRecordsAppend(ToRecords(Entries(a), cfg.hz), ToRecords(Entries(b), cfg.hz));
  }

  /**
   One step of a session: an enabled call at true time `now`, or `n` bytes leaving the ring.
   `walk` is what the count loop comes to if the ring starts inside a record, where it
   depends on what lies in memory around the ring.
   */
  datatype Op = Call(id: u32, params: seq<u32>, now: nat, walk: u32) | Drain(n: nat)

  /**
   A session seen from outside: the recorder, the bytes sent, and for the proofs the
   entries sent whole, the entries in the ring, how much of the first of these is sent,
   the bytes sent of records that were overwritten before their end, the number of calls
   made and the true time of the last record.
   */
  datatype Session = Session(st: State, sent: seq<byte>, done: seq<Stamped>, ring: seq<Stamped>, part: nat, cut: nat,
                             calls: nat, lastTrue: nat)

  function Log(s: Session): seq<Stamped> {
    s.done + s.ring
  }

  function SizeOf(cfg: Setup, x: Stamped): nat {
    |EncodeRecord(ToRecord(x.entry, cfg.hz))|
  }

  datatype Progress = Progress(done: seq<Stamped>, ring: seq<Stamped>, part: nat)

  /** Entries leave the ring as their last byte is sent. */
  function Leave(cfg: Setup, p: Progress): Progress
    decreases |p.ring|
  {
    if p.ring != [] && p.part >= SizeOf(cfg, p.ring[0])
    then Leave(cfg, Progress(p.done + [p.ring[0]], p.ring[1..], p.part - SizeOf(cfg, p.ring[0])))
    else p
  }

  predicate Accepts(cfg: Setup, s: Session, op: Op) {
    op.Call? && Fits(cfg, s.st, op.id, |EncodeParams(op.params)|, Wrap(op.now))
  }

  /** What the count loop charges for the ring: its records, when it starts with a whole one. */
  function Charge(s: Session, op: Op): u32
    requires op.Call?
  {
    if s.part == 0 then Wrap(|s.ring|) else op.walk
  }

  /** What a restart writes. */
  function Restart(s: Session, op: Op): seq<Entry>
    requires op.Call?
  {
    [Boot(Wrap(op.now)), Gap(0, Wrap(s.st.dropped + Charge(s, op))), Event(0, op.id, op.params)]
  }

  /** The call throws the ring away. */
  predicate Overwrites(cfg: Setup, s: Session, op: Op) {
    op.Call? && !Accepts(cfg, s, op) && cfg.policy.Overwrite?
      && |EncodeRecords(ToRecords(Restart(s, op), cfg.hz))| < cfg.capacity
  }

  function Step(cfg: Setup, s: Session, op: Op): Session {
    match op
    case Drain(n) =>
      var k := if n <= |s.st.queue| then n else |s.st.queue|;
      var p := Leave(cfg, Progress(s.done, s.ring, s.part + k));
      s.(sent := s.sent + s.st.queue[..k], st := s.st.(queue := s.st.queue[k..]), done := p.done, ring := p.ring,
         part := p.part)
    case Call(id, params, now, walk) =>
      var st := Emit(cfg, s.st, id, params, Wrap(now), Charge(s, op));
      if Accepts(cfg, s, op) then
        s.(st := st, ring := s.ring + StampAll(Added(s.st, id, params, Wrap(now)), now),
           calls := s.calls + 1, lastTrue := now)
      else if Overwrites(cfg, s, op) then
        s.(st := st, ring := StampAll(Restart(s, op), now), part := 0, cut := s.cut + s.part,
           calls := s.calls + 1, lastTrue := now)
      else
        s.(st := st, calls := s.calls + 1)
  }

  function Run(cfg: Setup, s: Session, ops: seq<Op>): Session
    decreases |ops|
  {
    if ops == [] then s else Run(cfg, Step(cfg, s, ops[0]), ops[1..])
  }

  /** `xTRACE_Init` at true time `now`, recording enabled. */
  function Begin(cfg: Setup, now: nat): Session {
    Session(Init(cfg, true, Wrap(now)), [], [], [Stamped(Boot(Wrap(now)), now)], 0, 0, 0, now)
  }

  lemma NotBoth(cfg: Setup, s: Session, op: Op)
    ensures Overwrites(cfg, s, op) ==> op.Call? && !Accepts(cfg, s, op)
  {
    hide Accepts;
  }

  /** What an accepted call does does not depend on the charge for an overwrite. */
  lemma AcceptsAny(cfg: Setup, st: State, id: u32, params: seq<u32>, ts: u32, charge: nat)
    requires Fits(cfg, st, id, |EncodeParams(params)|, ts)
    ensures Emit(cfg, st, id, params, ts, charge) == Emit(cfg, st, id, params, ts, 0)
  {
    hide Leb, EncodeParams, EncodeRecord, Fits, Header;
  }

  lemma AcceptStep(cfg: Setup, s: Session, op: Op)
    requires Accepts(cfg, s, op)
    ensures var added := Added(s.st, op.id, op.params, Wrap(op.now));
      Step(cfg, s, op) == s.(
        st := State(s.st.queue + EncodeRecords(ToRecords(added, cfg.hz)),
          if s.st.gap then 0 else s.st.dropped, Wrap(op.now), false),
        ring := s.ring + StampAll(added, op.now), calls := s.calls + 1, lastTrue := op.now)
  {
    AcceptedBytes(cfg, s.st, op.id, op.params, Wrap(op.now));
    AcceptsAny(cfg, s.st, op.id, op.params, Wrap(op.now), Charge(s, op));
    hide Emit, EncodeRecords, ToRecords, Added, Fits, StampAll, Wrap;
  }

  /** A call that finds no room overwrites, or is only counted. */
  lemma OverwriteRestarts(cfg: Setup, s: Session, op: Op)
    requires op.Call? && !Accepts(cfg, s, op)
    ensures Emit(cfg, s.st, op.id, op.params, Wrap(op.now), Charge(s, op))
      == if Overwrites(cfg, s, op) then State(EncodeRecords(ToRecords(Restart(s, op), cfg.hz)), 0, Wrap(op.now), false)
         else s.st.(dropped := Wrap(s.st.dropped + 1), gap := true)
  {
    hide Leb, EncodeParams, EncodeRecord, EncodeRecords, Fits, Header, ToRecords;
    if cfg.policy.Overwrite? {
      RestartRecords(cfg, op.id, op.params, Wrap(op.now), Wrap(s.st.dropped + Charge(s, op)));
    }
  }

  lemma OverwriteStep(cfg: Setup, s: Session, op: Op)
    requires Overwrites(cfg, s, op)
    ensures op.Call? && Step(cfg, s, op) == s.(
        st := State(EncodeRecords(ToRecords(Restart(s, op), cfg.hz)), 0, Wrap(op.now), false),
        ring := StampAll(Restart(s, op), op.now), part := 0, cut := s.cut + s.part,
        calls := s.calls + 1, lastTrue := op.now)
  {
    NotBoth(cfg, s, op);
    OverwriteRestarts(cfg, s, op);
    hide Emit, Accepts, Overwrites, Restart, EncodeRecords, ToRecords, StampAll, Wrap, Charge;
  }

  lemma LostStep(cfg: Setup, s: Session, op: Op)
    requires op.Call? && !Accepts(cfg, s, op) && !Overwrites(cfg, s, op)
    ensures Step(cfg, s, op) == s.(st := s.st.(dropped := Wrap(s.st.dropped + 1), gap := true), calls := s.calls + 1)
  {
    NotBoth(cfg, s, op);
    OverwriteRestarts(cfg, s, op);
    hide Emit, Accepts, Overwrites, Restart, EncodeRecords, ToRecords, StampAll, Wrap, Charge;
  }

  // ----- The stream ------------------------------------------------------------------

  /**
   The ring holds its entries but for the part already sent; the bytes sent are the entries sent,
   unless records were cut.
   */
  ghost predicate Linked(cfg: Setup, s: Session) {
    && s.part <= |Written(cfg, s.ring)| && s.st.queue == Written(cfg, s.ring)[s.part..]
    && (s.ring != [] ==> s.part < SizeOf(cfg, s.ring[0]))
    && |s.sent| == |Written(cfg, s.done)| + s.part + s.cut
    && (s.cut == 0 ==> s.sent == Written(cfg, s.done) + Written(cfg, s.ring)[..s.part])
  }

  lemma WrittenFirst(cfg: Setup, log: seq<Stamped>)
    requires log != []
    ensures Written(cfg, log) == Written(cfg, [log[0]]) + Written(cfg, log[1..])
    ensures |Written(cfg, [log[0]])| == SizeOf(cfg, log[0])
  {
    hide EncodeRecords, EncodeRecord, ToRecord;
    assert [log[0]] + log[1..] == log;
    WrittenAppend(cfg, [log[0]], log[1..]);
    assert ToRecords(Entries([log[0]]), cfg.hz) == [ToRecord(log[0].entry, cfg.hz)];
    OneEncoded(ToRecord(log[0].entry, cfg.hz));
  }

  lemma WrittenNothing(cfg: Setup)
    ensures Written(cfg, []) == []
  {
  }

  lemma SplitAhead(a: seq<byte>, b: seq<byte>, c: seq<byte>, n: nat)
    requires |b| <= n <= |b + c|
    ensures a + (b + c)[..n] == (a + b) + c[..n - |b|] && (b + c)[n..] == c[n - |b|..]
  {
  }

  /** Entries leaving the ring move the boundary, not the bytes. */
  lemma {:induction false} LeaveKeeps(cfg: Setup, p: Progress)
    requires p.part <= |Written(cfg, p.ring)|
    ensures var q := Leave(cfg, p);
      && q.done + q.ring == p.done + p.ring
      && q.part <= |Written(cfg, q.ring)| && (q.ring != [] ==> q.part < SizeOf(cfg, q.ring[0]))
      && Written(cfg, q.ring)[q.part..] == Written(cfg, p.ring)[p.part..]
      && Written(cfg, q.done) + Written(cfg, q.ring)[..q.part] == Written(cfg, p.done) + Written(cfg, p.ring)[..p.part]
    decreases |p.ring|
  {
    hide Written, SizeOf;
    if p.ring != [] && p.part >= SizeOf(cfg, p.ring[0]) {
      var x, rest := p.ring[0], p.ring[1..];
      WrittenFirst(cfg, p.ring);
      WrittenAppend(cfg, p.done, [x]);
      SplitAhead(Written(cfg, p.done), Written(cfg, [x]), Written(cfg, rest), p.part);
      LeaveKeeps(cfg, Progress(p.done + [x], rest, p.part - SizeOf(cfg, x)));
      assert p.done + [x] + rest == p.done + p.ring;
    }
  }

  lemma TakeMore(q: seq<byte>, part: nat, k: nat)
    requires part <= |q| && k <= |q[part..]|
    ensures q[..part] + q[part..][..k] == q[..part + k] && q[part..][k..] == q[part + k..]
  {
  }

  lemma LinkedDrain(cfg: Setup, s: Session, n: nat)
    requires Linked(cfg, s)
    ensures Linked(cfg, Step(cfg, s, Drain(n))) && Log(Step(cfg, s, Drain(n))) == Log(s)
  {
    hide Written, SizeOf, Leave;
    var k := if n <= |s.st.queue| then n else |s.st.queue|;
    var p := Progress(s.done, s.ring, s.part + k);
    var w := Written(cfg, s.ring);
    TakeMore(w, s.part, k);
    LeaveKeeps(cfg, p);
    var q := Leave(cfg, p);
    AddAssoc(Written(cfg, s.done), w[..s.part], s.st.queue[..k]);
    SameLength(Written(cfg, q.done), Written(cfg, q.ring)[..q.part], Written(cfg, s.done), w[..s.part + k]);
  }

  lemma DrainKeeps(cfg: Setup, s: Session, n: nat)
    ensures var t := Step(cfg, s, Drain(n));
      t.st == s.st.(queue := t.st.queue) && t.calls == s.calls && t.lastTrue == s.lastTrue && t.cut == s.cut
  {
    hide Leave;
  }

  lemma SameLength(a: seq<byte>, b: seq<byte>, c: seq<byte>, d: seq<byte>)
    requires a + b == c + d
    ensures |a| + |b| == |c| + |d|
  {
    assert |a + b| == |c + d|;
  }

  lemma LinkedAccept(cfg: Setup, s: Session, op: Op)
    requires Linked(cfg, s) && Accepts(cfg, s, op)
    ensures Linked(cfg, Step(cfg, s, op))
  {
    var added := Added(s.st, op.id, op.params, Wrap(op.now));
    hide Step, Emit, Accepts, Added, EncodeRecords, ToRecords, SizeOf, Written;
    AcceptStep(cfg, s, op);
    WrittenStamped(cfg, added, op.now);
    WrittenAppend(cfg, s.ring, StampAll(added, op.now));
    if s.ring == [] {
      WrittenNothing(cfg);
      AddedNotEmpty(s.st, op.id, op.params, Wrap(op.now));
      RecordNotEmpty(cfg, StampAll(added, op.now)[0]);
    }
    hide StampAll;
    LongerRing(Written(cfg, s.ring), EncodeRecords(ToRecords(added, cfg.hz)), s.part);
  }

  lemma AddedNotEmpty(st: State, id: u32, params: seq<u32>, ts: u32)
    ensures |Added(st, id, params, ts)| >= 1
  {
  }

  lemma WrittenStamped(cfg: Setup, es: seq<Entry>, time: nat)
    ensures Written(cfg, StampAll(es, time)) == EncodeRecords(ToRecords(es, cfg.hz))
  {
  }

  lemma LongerRing(w: seq<byte>, b: seq<byte>, part: nat)
    requires part <= |w|
    ensures (w + b)[part..] == w[part..] + b && (w + b)[..part] == w[..part]
  {
  }

  lemma LinkedOverwrite(cfg: Setup, s: Session, op: Op)
    requires Linked(cfg, s) && Overwrites(cfg, s, op)
    ensures Linked(cfg, Step(cfg, s, op))
  {
    hide Step, Accepts, Overwrites, EncodeRecords, ToRecords, SizeOf, Written;
    OverwriteStep(cfg, s, op);
    var log := StampAll(Restart(s, op), op.now);
    WrittenStamped(cfg, Restart(s, op), op.now);
    RecordNotEmpty(cfg, log[0]);
    hide Restart, StampAll;
    assert Written(cfg, log)[0..] == Written(cfg, log) && Written(cfg, log)[..0] == [];
    assert s.part == 0 ==> Written(cfg, s.ring)[..0] == [];
  }

  lemma RecordNotEmpty(cfg: Setup, x: Stamped)
    ensures SizeOf(cfg, x) >= 3
  {
    hide EncodeRecord;
  }

  lemma LinkedStep(cfg: Setup, s: Session, op: Op)
    requires Linked(cfg, s)
    ensures Linked(cfg, Step(cfg, s, op))
  {
    hide Linked, Accepts, Overwrites;
    if op.Drain? {
      LinkedDrain(cfg, s, op.n);
    } else if Accepts(cfg, s, op) {
      LinkedAccept(cfg, s, op);
    } else if Overwrites(cfg, s, op) {
      LinkedOverwrite(cfg, s, op);
    } else {
      LostStep(cfg, s, op);
      LinkedLost(cfg, s, Step(cfg, s, op));
    }
  }

  lemma LinkedLost(cfg: Setup, s: Session, t: Session)
    requires Linked(cfg, s) && t == s.(st := t.st, calls := t.calls) && t.st.queue == s.st.queue
    ensures Linked(cfg, t)
  {
    hide Written, SizeOf;
  }

  lemma {:induction false} LinkedRun(cfg: Setup, s: Session, ops: seq<Op>)
    requires Linked(cfg, s)
    ensures Linked(cfg, Run(cfg, s, ops))
    decreases |ops|
  {
    hide Step, Linked;
    if ops != [] {
      LinkedStep(cfg, s, ops[0]);
      LinkedRun(cfg, Step(cfg, s, ops[0]), ops[1..]);
    }
  }

  lemma BeginLinked(cfg: Setup, start: nat)
    ensures Linked(cfg, Begin(cfg, start))
  {
    var s := Begin(cfg, start);
    WrittenFirst(cfg, s.ring);
    WrittenNothing(cfg);
    RecordNotEmpty(cfg, s.ring[0]);
    OneEncoded(ToRecord(s.ring[0].entry, cfg.hz));
    hide EncodeRecord, EncodeRecords;
    assert ToRecords(Entries(s.ring), cfg.hz) == [ToRecord(s.ring[0].entry, cfg.hz)];
    assert Written(cfg, s.ring)[0..] == Written(cfg, s.ring);
  }

  /** The charge of a step is what the recorder counts in a ring of whole records. */
  lemma ChargeIsCount(cfg: Setup, s: Session, op: Op, buf: seq<byte>, from: nat, to: nat)
    requires Linked(cfg, s) && s.part == 0 && op.Call?
    requires from < |buf| <= 0x8000_0000 && to < |buf| && Held(buf, from, to) == s.st.queue
    ensures EndsIn(buf, to, Walker(from, 0, 0), |s.ring|)
    ensures WalkFrom(buf, to, Walker(from, 0, 0), |s.ring|) == Charge(s, op)
  {
    hide EncodeRecords, Held, EndsIn, WalkFrom, SizeOf;
    var w := Written(cfg, s.ring);
    assert w[0..] == w;
    HeldFits(buf, from, to);
    WholeRecordsCount(buf, to, Walker(from, 0, 0), ToRecords(Entries(s.ring), cfg.hz));
    WrapSmall(|s.ring|);
  }

  /** An overwrite finds the bytes sent ending at a record boundary. */
  predicate Aligned(cfg: Setup, s: Session, op: Op) {
    Overwrites(cfg, s, op) ==> s.part == 0
  }

  ghost predicate AllAligned(cfg: Setup, s: Session, ops: seq<Op>)
    decreases |ops|
  {
    ops == [] || (Aligned(cfg, s, ops[0]) && AllAligned(cfg, Step(cfg, s, ops[0]), ops[1..]))
  }

  lemma {:induction false} DropIsAligned(cfg: Setup, s: Session, ops: seq<Op>)
    requires cfg.policy.Drop?
    ensures AllAligned(cfg, s, ops)
    decreases |ops|
  {
    hide Step;
    if ops != [] {
      DropIsAligned(cfg, Step(cfg, s, ops[0]), ops[1..]);
    }
  }

  lemma CutStep(cfg: Setup, s: Session, op: Op)
    ensures Step(cfg, s, op).cut == s.cut + if Overwrites(cfg, s, op) then s.part else 0
  {
    hide Emit, Accepts, Overwrites, Leave, Added, Restart, StampAll;
    NotBoth(cfg, s, op);
  }

  lemma {:induction false} CutRun(cfg: Setup, s: Session, ops: seq<Op>)
    ensures Run(cfg, s, ops).cut >= s.cut && (Run(cfg, s, ops).cut == s.cut <==> AllAligned(cfg, s, ops))
    decreases |ops|
  {
    hide Step, Overwrites;
    if ops != [] {
      CutStep(cfg, s, ops[0]);
      CutRun(cfg, Step(cfg, s, ops[0]), ops[1..]);
    }
  }

  lemma StreamOfLinked(cfg: Setup, s: Session)
    requires Linked(cfg, s)
    ensures |s.sent + s.st.queue| == |Written(cfg, Log(s))| + s.cut
    ensures s.cut == 0 ==> s.sent + s.st.queue == Written(cfg, Log(s))
  {
    WrittenAppend(cfg, s.done, s.ring);
    hide Written, SizeOf;
    var d, w := Written(cfg, s.done), Written(cfg, s.ring);
    assert d + w[..s.part] + w[s.part..] == d + w;
  }

  /**
   For every run under either policy: what was sent and what waits in the ring are the log,
   written out record by record, exactly when every overwrite found the bytes sent ending
   at a record boundary.
   */
  lemma StreamIsLogIff(cfg: Setup, start: nat, ops: seq<Op>)
    ensures var s := Run(cfg, Begin(cfg, start), ops);
      s.sent + s.st.queue == Written(cfg, Log(s)) <==> AllAligned(cfg, Begin(cfg, start), ops)
  {
    hide Run, Linked, AllAligned, Written;
    BeginLinked(cfg, start);
    LinkedRun(cfg, Begin(cfg, start), ops);
    CutRun(cfg, Begin(cfg, start), ops);
    StreamOfLinked(cfg, Run(cfg, Begin(cfg, start), ops));
  }

  // ----- What the host reads ---------------------------------------------------------

  /** Every record of the log fits the ring. */
  ghost predicate EachFits(cfg: Setup, log: seq<Stamped>) {
    forall x :: x in log ==> SizeOf(cfg, x) < cfg.capacity
  }

  lemma {:induction false} RecordInside(rs: seq<RawRecord>, r: RawRecord)
    requires r in rs
    ensures |EncodeRecord(r)| <= |EncodeRecords(rs)|
  {
    hide EncodeRecord;
    if rs[0] != r {
      RecordInside(rs[1..], r);
    }
  }

  /** Entries that fit the ring together fit it each. */
  lemma PartsFit(cfg: Setup, es: seq<Entry>, time: nat)
    requires |EncodeRecords(ToRecords(es, cfg.hz))| < cfg.capacity
    ensures EachFits(cfg, StampAll(es, time))
  {
    hide EncodeRecord, EncodeRecords;
    var rs := ToRecords(es, cfg.hz);
    forall x | x in StampAll(es, time) ensures SizeOf(cfg, x) < cfg.capacity {
      var i :| 0 <= i < |es| && StampAll(es, time)[i] == x;
      assert rs[i] in rs;
      RecordInside(rs, rs[i]);
    }
  }

  lemma AddedFits(cfg: Setup, s: Session, op: Op)
    requires Accepts(cfg, s, op)
    ensures |EncodeRecords(ToRecords(Added(s.st, op.id, op.params, Wrap(op.now)), cfg.hz))| < cfg.capacity
  {
    hide EncodeRecords, EncodeRecord, Leb, EncodeParams, Emit, ToRecords;
    AddedSize(cfg, s.st, op.id, op.params, Wrap(op.now));
  }

  lemma AddedSize(cfg: Setup, st: State, id: u32, params: seq<u32>, ts: u32)
    ensures |EncodeRecords(ToRecords(Added(st, id, params, ts), cfg.hz))|
      <= GapSize(st, Wrap(ts - st.last)) + RecordSize(id, Wrap(ts - st.last), |EncodeParams(params)|)
  {
    hide EncodeRecords, EncodeRecord, Leb, EncodeParams, Header;
    var delta := Wrap(ts - st.last);
    var event := RawRecord(id, if st.gap then 0 else delta, params);
    HeaderAndParams(id, event.deltaTs, params);
    HeaderShrinks(id, event.deltaTs, delta, |EncodeParams(params)|);
    if st.gap {
      TwoEncoded(GapRecord(delta, st.dropped), event);
      assert ToRecords(Added(st, id, params, ts), cfg.hz) == [GapRecord(delta, st.dropped), event];
    } else {
      OneEncoded(event);
      assert ToRecords(Added(st, id, params, ts), cfg.hz) == [event];
    }
  }

  lemma FitsStep(cfg: Setup, s: Session, op: Op)
    requires EachFits(cfg, Log(s)) && Linked(cfg, s)
    ensures EachFits(cfg, Log(Step(cfg, s, op)))
  {
    hide Step, Linked, SizeOf, EncodeRecords, ToRecords, StampAll, Restart, Added;
    NotBoth(cfg, s, op);
    if op.Drain? {
      LinkedDrain(cfg, s, op.n);
    } else if Accepts(cfg, s, op) {
      AcceptStep(cfg, s, op);
      AddedFits(cfg, s, op);
      PartsFit(cfg, Added(s.st, op.id, op.params, Wrap(op.now)), op.now);
    } else if Overwrites(cfg, s, op) {
      OverwriteStep(cfg, s, op);
      PartsFit(cfg, Restart(s, op), op.now);
    } else {
      LostStep(cfg, s, op);
    }
  }

  lemma {:induction false} FitsRun(cfg: Setup, s: Session, ops: seq<Op>)
    requires EachFits(cfg, Log(s)) && Linked(cfg, s)
    ensures EachFits(cfg, Log(Run(cfg, s, ops)))
    decreases |ops|
  {
    hide Step, EachFits, Linked;
    if ops != [] {
      FitsStep(cfg, s, ops[0]);
      LinkedStep(cfg, s, ops[0]);
      FitsRun(cfg, Step(cfg, s, ops[0]), ops[1..]);
    }
  }

  lemma BeginFits(cfg: Setup, start: nat)
    requires cfg.capacity >= 16
    ensures EachFits(cfg, Log(Begin(cfg, start)))
  {
    hide EncodeRecord;
    BootFits(Wrap(start), cfg.hz);
  }

  function LogRecords(cfg: Setup, s: Session): seq<RawRecord> {
    ToRecords(Entries(Log(s)), cfg.hz)
  }

  lemma AllEncodable(cfg: Setup, s: Session)
    requires EachFits(cfg, Log(s)) && cfg.capacity <= 0x1000_0000
    ensures forall r :: r in LogRecords(cfg, s) ==> Encodable(r)
  {
    hide EncodeRecord, Encodable;
    forall r | r in LogRecords(cfg, s) ensures Encodable(r) {
      var i :| 0 <= i < |Log(s)| && LogRecords(cfg, s)[i] == r;
      assert Log(s)[i] in Log(s);
      EntryEncodable(cfg, Log(s)[i].entry);
    }
  }

  lemma EntryEncodable(cfg: Setup, e: Entry)
    requires |EncodeRecord(ToRecord(e, cfg.hz))| < cfg.capacity <= 0x1000_0000
    ensures Encodable(ToRecord(e, cfg.hz))
  {
    hide Leb, EncodePayload;
  }

  /**
   Target to host, on a ring of at most 2^28 bytes, for every run whose overwrites are
   aligned: the reader recovers from the bytes sent a prefix of the log, and all of it once
   the ring is drained.
   */
  lemma HostReadsTheLog(cfg: Setup, start: nat, ops: seq<Op>)
    requires 16 <= cfg.capacity <= 0x1000_0000 && AllAligned(cfg, Begin(cfg, start), ops)
    ensures var s := Run(cfg, Begin(cfg, start), ops);
      && Records(s.sent) <= LogRecords(cfg, s)
      && (s.st.queue == [] ==> Records(s.sent) == LogRecords(cfg, s))
  {
    hide Records, EncodeRecord, EncodeRecords, Run, Encodable, AllAligned, EachFits, Linked;
    BeginLinked(cfg, start);
    BeginFits(cfg, start);
    FitsRun(cfg, Begin(cfg, start), ops);
    StreamIsLogIff(cfg, start, ops);
    var s := Run(cfg, Begin(cfg, start), ops);
    AllEncodable(cfg, s);
    WholeRecords(LogRecords(cfg, s));
    var whole := s.sent + s.st.queue;
    assert whole[..|s.sent|] == s.sent;
    TruncationLosesOnlyTheTail(whole, |s.sent|);
    assert s.st.queue == [] ==> whole == s.sent;
  }

  // ----- Where every call went -------------------------------------------------------

  function Events(log: seq<Entry>): nat {
    if log == [] then 0 else Events(log[..|log| - 1]) + if log[|log| - 1].Event? then 1 else 0
  }

  function Lost(log: seq<Entry>): nat {
    if log == [] then 0 else Lost(log[..|log| - 1]) + if log[|log| - 1].Gap? then log[|log| - 1].lost else 0
  }

  lemma CountSnoc(log: seq<Entry>, e: Entry)
    ensures Events(log + [e]) == Events(log) + if e.Event? then 1 else 0
    ensures Lost(log + [e]) == Lost(log) + if e.Gap? then e.lost else 0
  {
    assert (log + [e])[..|log|] == log;
  }

  lemma {:induction false} CountAppend(a: seq<Entry>, b: seq<Entry>)
    ensures Events(a + b) == Events(a) + Events(b) && Lost(a + b) == Lost(a) + Lost(b)
    decreases |b|
  {
    if b == [] {
      assert a + b == a;
    } else {
      var front, last := b[..|b| - 1], b[|b| - 1];
      assert a + b == (a + front) + [last] && b == front + [last];
      CountAppend(a, front);
      CountSnoc(a + front, last);
      CountSnoc(front, last);
    }
  }

  lemma CountAdded(st: State, id: u32, params: seq<u32>, ts: u32)
    ensures Events(Added(st, id, params, ts)) == 1
    ensures Lost(Added(st, id, params, ts)) == if st.gap then st.dropped else 0
  {
    var delta := Wrap(ts - st.last);
    CountSnoc([], Event(delta, id, params));
    CountSnoc([], Gap(delta, st.dropped));
    CountSnoc([Gap(delta, st.dropped)], Event(0, id, params));
    assert [] + [Event(delta, id, params)] == [Event(delta, id, params)];
    assert [] + [Gap(delta, st.dropped)] == [Gap(delta, st.dropped)];
    assert [Gap(delta, st.dropped)] + [Event(0, id, params)] == [Gap(delta, st.dropped), Event(0, id, params)];
  }

  lemma CountRestart(boot: Entry, gap: Entry, event: Entry)
    requires boot.Boot? && gap.Gap? && event.Event?
    ensures Events([boot, gap, event]) == 1 && Lost([boot, gap, event]) == gap.lost
  {
    CountSnoc([], boot);
    CountSnoc([boot], gap);
    CountSnoc([boot, gap], event);
    assert [] + [boot] == [boot] && [boot] + [gap] == [boot, gap] && [boot, gap] + [event] == [boot, gap, event];
  }

  /** Every call is an event in the log, counted in a GAP of the log, or still in the loss counter. */
  ghost predicate Balanced(s: Session) {
    Events(Entries(Log(s))) + Lost(Entries(Log(s))) + s.st.dropped == s.calls
  }

  /**
   What keeps the balance: a call only counted must not wrap the counter, and an overwrite
   must charge the calls that the ring's events and gaps stand for.
   */
  ghost predicate Counted(cfg: Setup, s: Session, op: Op) {
    op.Call? && !Accepts(cfg, s, op) ==>
      if Overwrites(cfg, s, op)
      then Wrap(s.st.dropped + Charge(s, op)) == s.st.dropped + Events(Entries(s.ring)) + Lost(Entries(s.ring))
      else s.st.dropped < 0xFFFF_FFFF
  }

  lemma BalancedStep(cfg: Setup, s: Session, op: Op)
    requires Balanced(s) && Linked(cfg, s)
    ensures Balanced(Step(cfg, s, op)) <==> Counted(cfg, s, op)
    ensures Step(cfg, s, op).calls == s.calls + if op.Call? then 1 else 0
  {
    hide Step, Linked, Events, Lost, Entries, Accepts, Emit, EncodeRecords, ToRecords, StampAll, Added;
    NotBoth(cfg, s, op);
    EntriesAppend(s.done, s.ring);
    CountAppend(Entries(s.done), Entries(s.ring));
    if op.Drain? {
      LinkedDrain(cfg, s, op.n);
      DrainKeeps(cfg, s, op.n);
    } else if Accepts(cfg, s, op) {
      var added := Added(s.st, op.id, op.params, Wrap(op.now));
      AcceptStep(cfg, s, op);
      EntriesAppend(Log(s), StampAll(added, op.now));
      assert s.done + (s.ring + StampAll(added, op.now)) == Log(s) + StampAll(added, op.now);
      CountAppend(Entries(Log(s)), added);
      CountAdded(s.st, op.id, op.params, Wrap(op.now));
    } else if Overwrites(cfg, s, op) {
      hide Overwrites;
      OverwriteStep(cfg, s, op);
      EntriesAppend(s.done, StampAll(Restart(s, op), op.now));
      CountAppend(Entries(s.done), Restart(s, op));
      CountRestart(Restart(s, op)[0], Restart(s, op)[1], Restart(s, op)[2]);
    } else {
      LostStep(cfg, s, op);
    }
  }

  ghost predicate AllBalanced(cfg: Setup, s: Session, ops: seq<Op>)
    decreases |ops|
  {
    Balanced(s) && (ops == [] || AllBalanced(cfg, Step(cfg, s, ops[0]), ops[1..]))
  }

  ghost predicate AllCounted(cfg: Setup, s: Session, ops: seq<Op>)
    decreases |ops|
  {
    ops == [] || (Counted(cfg, s, ops[0]) && AllCounted(cfg, Step(cfg, s, ops[0]), ops[1..]))
  }

  function CallCount(ops: seq<Op>): nat {
    if ops == [] then 0 else (if ops[0].Call? then 1 else 0) + CallCount(ops[1..])
  }

  lemma {:induction false} BalancedRun(cfg: Setup, s: Session, ops: seq<Op>)
    requires Balanced(s) && Linked(cfg, s)
    ensures AllBalanced(cfg, s, ops) <==> AllCounted(cfg, s, ops)
    ensures AllBalanced(cfg, s, ops) ==>
      Balanced(Run(cfg, s, ops)) && Run(cfg, s, ops).calls == s.calls + CallCount(ops)
    decreases |ops|
  {
    hide Step, Linked, Balanced, Counted;
    if ops != [] {
      var t := Step(cfg, s, ops[0]);
      BalancedStep(cfg, s, ops[0]);
      LinkedStep(cfg, s, ops[0]);
      if Balanced(t) {
        BalancedRun(cfg, t, ops[1..]);
      } else {
        Unbalanced(cfg, t, ops[1..]);
      }
    }
  }

  lemma Unbalanced(cfg: Setup, s: Session, ops: seq<Op>)
    requires !Balanced(s)
    ensures !AllBalanced(cfg, s, ops)
  {
    hide Balanced, Step;
  }

  lemma {:induction false} DropCounts(cfg: Setup, s: Session, ops: seq<Op>)
    requires cfg.policy.Drop? && Balanced(s) && Linked(cfg, s) && s.calls + |ops| < 0x1_0000_0000
    ensures AllCounted(cfg, s, ops)
    decreases |ops|
  {
    hide Step, Linked, Accepts, Events, Lost, Entries, Charge;
    if ops != [] {
      BalancedStep(cfg, s, ops[0]);
      LinkedStep(cfg, s, ops[0]);
      DropCounts(cfg, Step(cfg, s, ops[0]), ops[1..]);
    }
  }

  lemma BeginBalanced(cfg: Setup, start: nat)
    ensures Balanced(Begin(cfg, start)) && Begin(cfg, start).calls == 0
  {
    var log := Entries(Log(Begin(cfg, start)));
    assert log == [] + [Boot(Wrap(start))];
    CountSnoc([], Boot(Wrap(start)));
  }

  /**
   No call disappears. At every point of a run, under either policy, every enabled call is
   an event of the log, is counted by one of its GAP records, or is in the loss counter,
   exactly when every call kept the balance; under the drop policy 2^32 - 1 operations do.
   */
  lemma NothingLostSilently(cfg: Setup, start: nat, ops: seq<Op>)
    ensures AllBalanced(cfg, Begin(cfg, start), ops) <==> AllCounted(cfg, Begin(cfg, start), ops)
    ensures cfg.policy.Drop? && |ops| < 0x1_0000_0000 ==> AllCounted(cfg, Begin(cfg, start), ops)
    ensures AllCounted(cfg, Begin(cfg, start), ops) ==>
      var s := Run(cfg, Begin(cfg, start), ops);
      Events(Entries(Log(s))) + Lost(Entries(Log(s))) + s.st.dropped == CallCount(ops)
  {
    hide Begin, Run, AllBalanced, AllCounted, Linked;
    BeginLinked(cfg, start);
    BeginBalanced(cfg, start);
    BalancedRun(cfg, Begin(cfg, start), ops);
    if cfg.policy.Drop? && |ops| < 0x1_0000_0000 {
      DropCounts(cfg, Begin(cfg, start), ops);
    }
  }

  // ----- The host's clock ------------------------------------------------------------

  /** Tick count the host has accumulated after reading `log`: BOOT sets it, deltas add up. */
  function HostTicks(log: seq<Entry>): nat {
    if log == [] then 0
    else
      match log[|log| - 1]
      case Boot(ts) => ts
      case Gap(delta, _) => HostTicks(log[..|log| - 1]) + delta
      case Event(delta, _, _) => HostTicks(log[..|log| - 1]) + delta
  }

  /** True time of the last restart in the log. */
  function BootTime(log: seq<Stamped>): nat {
    if log == [] then 0 else if log[|log| - 1].entry.Boot? then log[|log| - 1].time else BootTime(log[..|log| - 1])
  }

  /** The last instant up to `time` at which the 32-bit counter was zero. */
  function Epoch(time: nat): nat {
    time - Wrap(time)
  }

  /** After every record the host's clock is right up to the wrap of the counter. */
  ghost predicate ClockModulo(log: seq<Stamped>) {
    log == [] || (ClockModulo(log[..|log| - 1]) && Wrap(HostTicks(Entries(log))) == Wrap(log[|log| - 1].time))
  }

  /** After every record it is the true time, counted from the last wrap before the last restart. */
  ghost predicate ClockExact(log: seq<Stamped>) {
    log == [] || (ClockExact(log[..|log| - 1]) && HostTicks(Entries(log)) == log[|log| - 1].time - Epoch(BootTime(log)))
  }

  lemma ClockSnoc(log: seq<Stamped>, x: Stamped)
    ensures HostTicks(Entries(log + [x])) ==
      if x.entry.Boot? then x.entry.ts else HostTicks(Entries(log)) + x.entry.delta
    ensures BootTime(log + [x]) == if x.entry.Boot? then x.time else BootTime(log)
    ensures ClockModulo(log + [x]) <==> ClockModulo(log) && Wrap(HostTicks(Entries(log + [x]))) == Wrap(x.time)
    ensures ClockExact(log + [x])
      <==> ClockExact(log) && HostTicks(Entries(log + [x])) == x.time - Epoch(BootTime(log + [x]))
  {
    EntriesAppend(log, [x]);
    assert (log + [x])[..|log|] == log && (Entries(log) + [x.entry])[..|log|] == Entries(log);
    assert Entries(log + [x]) == Entries(log) + [x.entry];
  }

  lemma {:induction false} ClockPrefix(log: seq<Stamped>, n: nat)
    requires n <= |log|
    ensures ClockModulo(log) ==> ClockModulo(log[..n])
    ensures ClockExact(log) ==> ClockExact(log[..n])
    decreases |log|
  {
    if n < |log| {
      ClockPrefix(log[..|log| - 1], n);
      assert log[..|log| - 1][..n] == log[..n];
    } else {
      assert log[..n] == log;
    }
  }

  /** The recorder's own clock and the last record of the log agree. */
  ghost predicate InStep(s: Session) {
    Log(s) != [] && Log(s)[|Log(s)| - 1].time == s.lastTrue && s.st.last == Wrap(s.lastTrue)
  }

  /** Time does not run backwards. */
  predicate Ordered(s: Session, op: Op) {
    op.Call? ==> s.lastTrue <= op.now
  }

  /** Less than one wrap of the counter since the last record, when the call adds to it. */
  predicate Prompt(cfg: Setup, s: Session, op: Op) {
    Accepts(cfg, s, op) ==> op.now - s.lastTrue < 0x1_0000_0000
  }

  lemma WrapDelta(last: nat, now: nat, ticks: nat)
    requires last <= now && Wrap(ticks) == Wrap(last)
    ensures var delta := Wrap(Wrap(now) - Wrap(last));
      Wrap(ticks + delta) == Wrap(now) && (now - last < 0x1_0000_0000 ==> delta == now - last)
  {
  }

  /** One more record, or a gap and a record, at `now`. */
  lemma ClockAdded(log: seq<Stamped>, st: State, id: u32, params: seq<u32>, now: nat)
    requires log != [] && log[|log| - 1].time <= now && st.last == Wrap(log[|log| - 1].time) && ClockModulo(log)
    ensures var after := log + StampAll(Added(st, id, params, Wrap(now)), now);
      && after != [] && after[|after| - 1].time == now && ClockModulo(after)
      && (ClockExact(log) && now - log[|log| - 1].time < 0x1_0000_0000 ==> ClockExact(after))
  {
    hide HostTicks, BootTime, Epoch, Wrap, Entries, ClockModulo, ClockExact;
    var delta := Wrap(Wrap(now) - st.last);
    ClockLast(log);
    WrapDelta(log[|log| - 1].time, now, HostTicks(Entries(log)));
    if st.gap {
      var a, b := Stamped(Gap(delta, st.dropped), now), Stamped(Event(0, id, params), now);
      ClockSnoc(log, a);
      ClockSnoc(log + [a], b);
      assert StampAll(Added(st, id, params, Wrap(now)), now) == [a, b];
      assert log + [a, b] == log + [a] + [b];
    } else {
      ClockSnoc(log, Stamped(Event(delta, id, params), now));
      assert StampAll(Added(st, id, params, Wrap(now)), now) == [Stamped(Event(delta, id, params), now)];
    }
  }

  lemma ClockLast(log: seq<Stamped>)
    requires log != []
    ensures ClockModulo(log) ==> Wrap(HostTicks(Entries(log))) == Wrap(log[|log| - 1].time)
    ensures ClockExact(log) ==> HostTicks(Entries(log)) == log[|log| - 1].time - Epoch(BootTime(log))
  {
    hide HostTicks, BootTime, Epoch, Wrap, Entries;
  }

  /** A restart sets the clock, whatever it showed before. */
  lemma ClockRestart(log: seq<Stamped>, gap: Entry, event: Entry, now: nat)
    requires ClockModulo(log) && gap.Gap? && event.Event? && gap.delta == event.delta == 0
    ensures var after := log + StampAll([Boot(Wrap(now)), gap, event], now);
      && after[|after| - 1].time == now && ClockModulo(after) && (ClockExact(log) ==> ClockExact(after))
  {
    var a, b, c := Stamped(Boot(Wrap(now)), now), Stamped(gap, now), Stamped(event, now);
    ClockSnoc(log, a);
    ClockSnoc(log + [a], b);
    ClockSnoc(log + [a] + [b], c);
    assert log + StampAll([Boot(Wrap(now)), gap, event], now) == log + [a] + [b] + [c];
    hide HostTicks, BootTime;
  }

  lemma ClockStep(cfg: Setup, s: Session, op: Op)
    requires InStep(s) && ClockModulo(Log(s)) && Linked(cfg, s) && Ordered(s, op)
    ensures var t := Step(cfg, s, op);
      && InStep(t) && ClockModulo(Log(t))
      && (ClockExact(Log(s)) && Prompt(cfg, s, op) ==> ClockExact(Log(t)))
  {
    hide Step, Linked, ClockModulo, ClockExact, Accepts, Emit, EncodeRecords, ToRecords, StampAll, Added, Entries;
    NotBoth(cfg, s, op);
    if op.Drain? {
      LinkedDrain(cfg, s, op.n);
      DrainKeeps(cfg, s, op.n);
    } else if Accepts(cfg, s, op) {
      AcceptStep(cfg, s, op);
      var added := StampAll(Added(s.st, op.id, op.params, Wrap(op.now)), op.now);
      assert s.done + (s.ring + added) == Log(s) + added;
      ClockAdded(Log(s), s.st, op.id, op.params, op.now);
    } else if Overwrites(cfg, s, op) {
      OverwriteStep(cfg, s, op);
      assert Log(s)[..|s.done|] == s.done;
      ClockPrefix(Log(s), |s.done|);
      ClockRestart(s.done, Restart(s, op)[1], Restart(s, op)[2], op.now);
    } else {
      LostStep(cfg, s, op);
    }
  }

  ghost predicate AllOrdered(cfg: Setup, s: Session, ops: seq<Op>)
    decreases |ops|
  {
    ops == [] || (Ordered(s, ops[0]) && AllOrdered(cfg, Step(cfg, s, ops[0]), ops[1..]))
  }

  ghost predicate AllPrompt(cfg: Setup, s: Session, ops: seq<Op>)
    decreases |ops|
  {
    ops == [] || (Prompt(cfg, s, ops[0]) && AllPrompt(cfg, Step(cfg, s, ops[0]), ops[1..]))
  }

  lemma {:induction false} ClockRun(cfg: Setup, s: Session, ops: seq<Op>)
    requires InStep(s) && ClockModulo(Log(s)) && Linked(cfg, s) && AllOrdered(cfg, s, ops)
    ensures var t := Run(cfg, s, ops);
      InStep(t) && ClockModulo(Log(t)) && (ClockExact(Log(s)) && AllPrompt(cfg, s, ops) ==> ClockExact(Log(t)))
    decreases |ops|
  {
    hide Step, Linked, InStep, ClockModulo, ClockExact, Ordered, Prompt;
    if ops != [] {
      ClockStep(cfg, s, ops[0]);
      LinkedStep(cfg, s, ops[0]);
      ClockRun(cfg, Step(cfg, s, ops[0]), ops[1..]);
    }
  }

  lemma BeginClock(cfg: Setup, start: nat)
    ensures InStep(Begin(cfg, start)) && ClockModulo(Log(Begin(cfg, start))) && ClockExact(Log(Begin(cfg, start)))
  {
    var x := Stamped(Boot(Wrap(start)), start);
    assert Log(Begin(cfg, start)) == [] + [x];
    ClockSnoc([], x);
  }

  lemma ClockAt(log: seq<Stamped>, i: nat)
    requires i < |log|
    ensures ClockModulo(log) ==> Wrap(HostTicks(Entries(log[..i + 1]))) == Wrap(log[i].time)
    ensures ClockExact(log) ==> HostTicks(Entries(log[..i + 1])) == log[i].time - Epoch(BootTime(log[..i + 1]))
  {
    ClockPrefix(log, i + 1);
    hide HostTicks, BootTime, Entries;
  }

  /**
   The host's clock over any run in time order, under either policy: after every record it
   is right modulo the 32-bit counter, and it is the true time of that record, across any
   number of wraps and restarts, when no two records of one stretch are a full wrap apart.
   */
  lemma HostClockIsTrue(cfg: Setup, start: nat, ops: seq<Op>, i: nat)
    requires AllOrdered(cfg, Begin(cfg, start), ops) && i < |Log(Run(cfg, Begin(cfg, start), ops))|
    ensures var log := Log(Run(cfg, Begin(cfg, start), ops)); var shown := HostTicks(Entries(log[..i + 1]));
      && Wrap(shown) == Wrap(log[i].time)
      && (AllPrompt(cfg, Begin(cfg, start), ops) ==> shown == log[i].time - Epoch(BootTime(log[..i + 1])))
  {
    hide Begin, Run, Linked, AllOrdered, AllPrompt, ClockModulo, ClockExact, HostTicks, BootTime, Entries, InStep;
    BeginLinked(cfg, start);
    BeginClock(cfg, start);
    ClockRun(cfg, Begin(cfg, start), ops);
    ClockAt(Log(Run(cfg, Begin(cfg, start), ops)), i);
  }
}
