/**
 The recorder together with the memory of its ring: sessions in which an overwrite charges
 what the count loop returns on that memory, and when that loop returns at all.
 */
module XtraceMachine {
  import opened Bytes
  import opened Ring
  import opened XtraceWire
  import opened XtraceCount
  import opened XtraceRecorder
  import opened XtraceSession
  import opened XtraceOverwrite

  /** A session, the memory of the ring with the place of the next byte, and the place of the oldest. */
  datatype Machine = Machine(session: Session, mem: Memory, from: nat)

  predicate Placed(cfg: Setup, m: Machine) {
    m.from < |m.mem.buf| == cfg.capacity && m.mem.to < cfg.capacity
  }

  /** The count loop of this ring ends within `n` rounds. */
  predicate Ends(m: Machine, n: nat)
    requires m.from < |m.mem.buf|
  {
    EndsIn(m.mem.buf, m.mem.to, Walker(m.from, 0, 0), n)
  }

  /** It does end: rings of this size are counted in that many rounds or never. */
  predicate Countable(m: Machine)
    requires m.from < |m.mem.buf|
  {
    Ends(m, |m.mem.buf| * |m.mem.buf|)
  }

  /** What the loop returns, if it does. */
  function Tally(m: Machine): u32
    requires m.from < |m.mem.buf|
  {
    if Countable(m) then WalkFrom(m.mem.buf, m.mem.to, Walker(m.from, 0, 0), |m.mem.buf| * |m.mem.buf|) else 0
  }

  /** The call with the count the loop comes to. */
  function Actual(m: Machine, op: Op): Op
    requires m.from < |m.mem.buf|
  {
    if op.Call? then op.(walk := Tally(m)) else op
  }

  /** What a call puts into memory. */
  function PutBytes(cfg: Setup, s: Session, op: Op): seq<byte>
    requires op.Call?
  {
    EmitBytes(cfg, s.st, op.id, op.params, Wrap(op.now), Charge(s, op))
  }

  function Do(cfg: Setup, m: Machine, op: Op): (next: Machine)
    requires Placed(cfg, m)
    ensures Placed(cfg, next)
  {
    var s, actual := m.session, Actual(m, op);
    if op.Drain? then
      Machine(Step(cfg, s, op), m.mem, (m.from + if op.n <= |s.st.queue| then op.n else |s.st.queue|) % cfg.capacity)
    else
      Machine(Step(cfg, s, actual), Store(m.mem, PutBytes(cfg, s, actual)),
              if Overwrites(cfg, s, actual) then m.mem.to else m.from)
  }

  function DoAll(cfg: Setup, m: Machine, ops: seq<Op>): (next: Machine)
    requires Placed(cfg, m)
    ensures Placed(cfg, next)
    decreases |ops|
  {
    if ops == [] then m else DoAll(cfg, Do(cfg, m, ops[0]), ops[1..])
  }

  /** `xTRACE_Init` at true time `now` on the memory `buf`. */
  function PowerUp(cfg: Setup, buf: seq<byte>, now: nat): (m: Machine)
    requires |buf| == cfg.capacity >= 16
    ensures Placed(cfg, m)
  {
    Machine(Begin(cfg, now), Store(Memory(buf, 0), EncodeRecord(BootRecord(Wrap(now), cfg.hz))), 0)
  }

  // ----- The ring in memory is the queue of the session ---------------------------------

  ghost predicate Sound(cfg: Setup, m: Machine) {
    Placed(cfg, m) && Held(m.mem.buf, m.from, m.mem.to) == m.session.st.queue && Linked(cfg, m.session)
  }

  /** Bytes that fit are appended to what is held. */
  lemma {:induction false} HeldStore(mem: Memory, from: nat, x: seq<byte>)
    requires from < |mem.buf| && mem.to < |mem.buf| && |Held(mem.buf, from, mem.to)| + |x| < |mem.buf|
    ensures var r := Store(mem, x); Held(r.buf, from, r.to) == Held(mem.buf, from, mem.to) + x
    decreases |x|
  {
    hide Held, Next;
    if x == [] {
      StoreNothing(mem);
    } else {
      PutHeld(mem.buf, from, mem.to, x[0]);
      HeldStore(Memory(mem.buf[mem.to := x[0]], Next(mem.to, |mem.buf|)), from, x[1..]);
      AddAssoc(Held(mem.buf, from, mem.to), [x[0]], x[1..]);
      assert [x[0]] + x[1..] == x;
    }
  }

  /** The entries a call writes. */
  function Writes(cfg: Setup, s: Session, op: Op): seq<Entry> {
    if Accepts(cfg, s, op) then Added(s.st, op.id, op.params, Wrap(op.now))
    else if Overwrites(cfg, s, op) then Restart(s, op)
    else []
  }

  lemma AppendedBytes(cfg: Setup, st: State, id: u32, params: seq<u32>, ts: u32, charge: nat)
    requires Fits(cfg, st, id, |EncodeParams(params)|, ts)
    ensures EmitBytes(cfg, st, id, params, ts, charge) == EncodeRecords(ToRecords(Added(st, id, params, ts), cfg.hz))
  {
    hide Leb, EncodeParams, EncodeRecord, EncodeRecords, Fits, Header, ToRecords, Restarts;
    AcceptedBytes(cfg, st, id, params, ts);
    AcceptsAny(cfg, st, id, params, ts, charge);
    var b, ps := AppendBytes(st, id, |EncodeParams(params)|, ts), EncodeParams(params);
    AddAssoc(st.queue, b, ps);
    SameFront(st.queue, b + ps, EncodeRecords(ToRecords(Added(st, id, params, ts), cfg.hz)));
  }

  lemma RestartedBytes(cfg: Setup, s: Session, op: Op)
    requires op.Call? && !Accepts(cfg, s, op)
    ensures PutBytes(cfg, s, op) ==
      if Overwrites(cfg, s, op) then EncodeRecords(ToRecords(Restart(s, op), cfg.hz)) else []
  {
    hide Leb, EncodeParams, EncodeRecord, EncodeRecords, Fits, Header, ToRecords;
    if cfg.policy.Overwrite? {
      RestartRecords(cfg, op.id, op.params, Wrap(op.now), Wrap(s.st.dropped + Charge(s, op)));
    }
  }

  /** The bytes of a call are the records of its entries. */
  lemma PutIsWrites(cfg: Setup, s: Session, op: Op)
    requires op.Call?
    ensures PutBytes(cfg, s, op) == EncodeRecords(ToRecords(Writes(cfg, s, op), cfg.hz))
  {
    hide EmitBytes, EncodeRecords, EncodeParams, Added, Restart, Charge, Overwrites, Fits;
    if Accepts(cfg, s, op) {
      AppendedBytes(cfg, s.st, op.id, op.params, Wrap(op.now), Charge(s, op));
    } else {
      RestartedBytes(cfg, s, op);
      NothingToWrite(cfg);
    }
  }

  lemma NothingToWrite(cfg: Setup)
    ensures EncodeRecords(ToRecords([], cfg.hz)) == []
  {
  }

  /** What a call leaves in the ring, and that it fits. */
  lemma QueueAfter(cfg: Setup, s: Session, op: Op)
    requires op.Call? && |s.st.queue| < cfg.capacity
    ensures var bytes := PutBytes(cfg, s, op); var kept := if Overwrites(cfg, s, op) then [] else s.st.queue;
      Step(cfg, s, op).st.queue == kept + bytes && |kept + bytes| < cfg.capacity
  {
    hide PutBytes, EncodeRecords, ToRecords, Added, Restart, Linked, Fits, Emit, Accepts, Overwrites, StampAll;
    PutIsWrites(cfg, s, op);
    NotBoth(cfg, s, op);
    if Accepts(cfg, s, op) {
      AcceptStep(cfg, s, op);
      AcceptedRoom(cfg, s, op);
    } else if Overwrites(cfg, s, op) {
      OverwriteStep(cfg, s, op);
      RestartRoom(cfg, s, op);
      assert [] + PutBytes(cfg, s, op) == PutBytes(cfg, s, op);
    } else {
      LostStep(cfg, s, op);
      NothingToWrite(cfg);
    }
  }

  lemma AcceptedRoom(cfg: Setup, s: Session, op: Op)
    requires Accepts(cfg, s, op)
    ensures var added := Added(s.st, op.id, op.params, Wrap(op.now));
      |s.st.queue| + |EncodeRecords(ToRecords(added, cfg.hz))| < cfg.capacity
  {
    hide EncodeRecords, EncodeRecord, Leb, EncodeParams, Emit, ToRecords, Header;
    AddedSize(cfg, s.st, op.id, op.params, Wrap(op.now));
  }

  lemma RestartRoom(cfg: Setup, s: Session, op: Op)
    requires Overwrites(cfg, s, op)
    ensures |EncodeRecords(ToRecords(Restart(s, op), cfg.hz))| < cfg.capacity
  {
    hide EncodeRecords, ToRecords, Restart, Accepts;
  }

  lemma SoundDo(cfg: Setup, m: Machine, op: Op)
    requires Sound(cfg, m)
    ensures Sound(cfg, Do(cfg, m, op))
  {
    hide Held, Linked, Step, Tally, PutBytes, Overwrites, Store;
    var s, actual := m.session, Actual(m, op);
    LinkedStep(cfg, s, actual);
    HeldFits(m.mem.buf, m.from, m.mem.to);
    if op.Drain? {
      DrainHolds(cfg, m, op.n);
    } else {
      QueueAfter(cfg, s, actual);
      HeldNothing(m.mem.buf, m.mem.to, m.mem.to);
      var from := if Overwrites(cfg, s, actual) then m.mem.to else m.from;
      HeldStore(m.mem, from, PutBytes(cfg, s, actual));
    }
  }

  lemma DrainHolds(cfg: Setup, m: Machine, n: nat)
    requires Placed(cfg, m) && Held(m.mem.buf, m.from, m.mem.to) == m.session.st.queue
    ensures var next := Do(cfg, m, Drain(n)); Held(next.mem.buf, next.from, next.mem.to) == next.session.st.queue
  {
    hide Held, Leave, Tally;
    var q := m.session.st.queue;
    var k := if n <= |q| then n else |q|;
    HeldFits(m.mem.buf, m.from, m.mem.to);
    DropHeld(m.mem.buf, m.from, m.mem.to, k);
    AdvanceIsModulo(m.from, k, cfg.capacity);
  }

  lemma SoundPowerUp(cfg: Setup, buf: seq<byte>, now: nat)
    requires |buf| == cfg.capacity >= 16
    ensures Sound(cfg, PowerUp(cfg, buf, now))
  {
    hide Held, Linked, EncodeRecord, Store;
    BeginLinked(cfg, now);
    BootFits(Wrap(now), cfg.hz);
    HeldNothing(buf, 0, 0);
    HeldStore(Memory(buf, 0), 0, EncodeRecord(BootRecord(Wrap(now), cfg.hz)));
    assert [] + EncodeRecord(BootRecord(Wrap(now), cfg.hz)) == EncodeRecord(BootRecord(Wrap(now), cfg.hz));
  }

  lemma {:induction false} SoundRun(cfg: Setup, m: Machine, ops: seq<Op>)
    requires Sound(cfg, m)
    ensures Sound(cfg, DoAll(cfg, m, ops))
    decreases |ops|
  {
    hide Do, Held, Linked;
    if ops != [] {
      SoundDo(cfg, m, ops[0]);
      SoundRun(cfg, Do(cfg, m, ops[0]), ops[1..]);
    }
  }

  // ----- What an overwrite charges -------------------------------------------------------

  /** More rounds than needed change nothing. */
  lemma {:induction false} WalkSame(buf: seq<byte>, to: nat, w: Walker, n: nat, k: nat)
    requires w.pos < |buf| && EndsIn(buf, to, w, n) && EndsIn(buf, to, w, k)
    ensures WalkFrom(buf, to, w, n) == WalkFrom(buf, to, w, k)
    decreases n
  {
    hide WalkStep, WalkDone;
    if !WalkDone(buf, to, w) {
      WalkSame(buf, to, WalkStep(buf, w), n - 1, k - 1);
    }
  }

  /** A ring whose loop ends at all is countable, and the count is what the loop returns. */
  lemma TallyIsCount(m: Machine, n: nat)
    requires m.from < |m.mem.buf| && Ends(m, n)
    ensures Countable(m) && Tally(m) == WalkFrom(m.mem.buf, m.mem.to, Walker(m.from, 0, 0), n)
  {
    hide EndsIn, WalkFrom, Repeats;
    var w := Walker(m.from, 0, 0);
    EndsIff(m.mem.buf, m.mem.to, w);
    WalkSame(m.mem.buf, m.mem.to, w, |m.mem.buf| * |m.mem.buf|, n);
  }

  /** The charge of a session's step is what the loop returns on the machine's memory, whenever it returns. */
  lemma ChargeIsTally(cfg: Setup, m: Machine, op: Op)
    requires Sound(cfg, m) && cfg.capacity <= 0x8000_0000 && op.Call?
    ensures Charge(m.session, Actual(m, op)) == Tally(m)
    ensures m.session.part == 0 ==> Countable(m)
  {
    hide Held, Linked, EndsIn, WalkFrom, Tally, Countable;
    var s := m.session;
    if s.part == 0 {
      ChargeIsCount(cfg, s, Actual(m, op), m.mem.buf, m.from, m.mem.to);
      TallyIsCount(m, |s.ring|);
    }
  }

  /** The same operations with the counts the loop comes to. */
  function Filled(cfg: Setup, m: Machine, ops: seq<Op>): seq<Op>
    requires Placed(cfg, m)
    decreases |ops|
  {
    if ops == [] then [] else [Actual(m, ops[0])] + Filled(cfg, Do(cfg, m, ops[0]), ops[1..])
  }

  /** A run of the machine is a run of a session: all that holds of sessions holds of it. */
  lemma {:induction false} RunOfMachine(cfg: Setup, m: Machine, ops: seq<Op>)
    requires Placed(cfg, m)
    ensures DoAll(cfg, m, ops).session == Run(cfg, m.session, Filled(cfg, m, ops))
    decreases |ops|
  {
    hide Step, PutBytes, Tally, Overwrites;
    if ops != [] {
      var filled := Filled(cfg, m, ops);
      RunOfMachine(cfg, Do(cfg, m, ops[0]), ops[1..]);
      assert filled[0] == Actual(m, ops[0]) && filled[1..] == Filled(cfg, Do(cfg, m, ops[0]), ops[1..]);
    }
  }

  // ----- When every call returns ------------------------------------------------------------

  /** The values an entry is written as, its length aside, are harmless as lengths. */
  ghost predicate HarmlessEntry(cfg: Setup, e: Entry) {
    match e
    case Boot(ts) => Harmless(cfg.capacity, ts) && Harmless(cfg.capacity, cfg.hz)
    case Gap(delta, lost) => Harmless(cfg.capacity, delta) && Harmless(cfg.capacity, lost)
    case Event(delta, id, params) =>
      && Harmless(cfg.capacity, delta) && Harmless(cfg.capacity, id)
      && forall v :: v in params ==> Harmless(cfg.capacity, v)
  }

  /** What the call writes is harmless. */
  ghost predicate Calm(cfg: Setup, m: Machine, op: Op)
    requires Placed(cfg, m)
  {
    op.Call? ==> forall e :: e in Writes(cfg, m.session, Actual(m, op)) ==> HarmlessEntry(cfg, e)
  }

  ghost predicate AllCalm(cfg: Setup, m: Machine, ops: seq<Op>)
    requires Placed(cfg, m)
    decreases |ops|
  {
    ops == [] || (Calm(cfg, m, ops[0]) && AllCalm(cfg, Do(cfg, m, ops[0]), ops[1..]))
  }

  /** The call runs the count loop. */
  predicate Counting(cfg: Setup, s: Session, op: Op) {
    op.Call? && cfg.policy.Overwrite? && !Accepts(cfg, s, op)
  }

  /** Every call returns, after at most one round of the loop for each byte of the ring. */
  ghost predicate AllReturn(cfg: Setup, m: Machine, ops: seq<Op>)
    requires Placed(cfg, m)
    decreases |ops|
  {
    ops == [] || ((Counting(cfg, m.session, ops[0]) ==> Ends(m, cfg.capacity))
                  && AllReturn(cfg, Do(cfg, m, ops[0]), ops[1..]))
  }

  ghost predicate TameMachine(cfg: Setup, m: Machine) {
    Placed(cfg, m) && 16 <= cfg.capacity <= 0x8000_0000 && Tame(Oldest(m.mem))
  }

  /** The length of a record that fits the ring is harmless. */
  lemma LengthHarmless(r: RawRecord, capacity: nat)
    requires |EncodeRecord(r)| < capacity <= 0x8000_0000
    ensures Harmless(capacity, |EncodePayload(r)|)
  {
    hide Leb, EncodePayload, EncodeRecord;
    RecordParts(r);
    var n := |EncodePayload(r)|;
    if n >= 0x1000_0000 {
      FiveBytes(n);
    }
  }

  lemma EntryValues(cfg: Setup, e: Entry, v: nat)
    requires HarmlessEntry(cfg, e) && |EncodeRecord(ToRecord(e, cfg.hz))| < cfg.capacity <= 0x8000_0000
    requires v in ValuesOf(ToRecord(e, cfg.hz))
    ensures Harmless(cfg.capacity, v)
  {
    LengthHarmless(ToRecord(e, cfg.hz), cfg.capacity);
    hide EncodePayload, EncodeRecord, Harmless;
    var r := ToRecord(e, cfg.hz);
    assert v == |EncodePayload(r)| || v == r.eventId || v == r.deltaTs || v in r.params;
    SmallIds(cfg.capacity);
  }

  lemma SmallIds(capacity: nat)
    requires capacity <= 0x8000_0000
    ensures Harmless(capacity, EV_BOOT) && Harmless(capacity, EV_GAP)
  {
  }

  /** Harmless entries keep memory tame. */
  lemma TameEntries(cfg: Setup, s: seq<byte>, es: seq<Entry>)
    requires Tame(s) && |s| == cfg.capacity <= 0x8000_0000 && |EncodeRecords(ToRecords(es, cfg.hz))| < cfg.capacity
    requires forall e :: e in es ==> HarmlessEntry(cfg, e)
    ensures Tame(Pushed(s, EncodeRecords(ToRecords(es, cfg.hz))))
  {
    hide EncodeRecord, EncodeRecords, Tame, Harmless, HarmlessEntry, Pushed, ToRecord, ValuesOf;
    var rs := ToRecords(es, cfg.hz);
    forall r, v | r in rs && v in ValuesOf(r) ensures Harmless(|s|, v) {
      var i :| 0 <= i < |es| && rs[i] == r;
      assert es[i] in es;
      RecordInside(rs, r);
      EntryValues(cfg, es[i], v);
    }
    TameRecords(s, rs);
  }

  lemma TameDo(cfg: Setup, m: Machine, op: Op)
    requires Sound(cfg, m) && TameMachine(cfg, m) && Calm(cfg, m, op)
    ensures TameMachine(cfg, Do(cfg, m, op))
  {
    hide EncodeRecords, ToRecords, Tame, HarmlessEntry, Pushed, Writes, PutBytes, Step, Linked, Overwrites, Held;
    hide Oldest, Store, Tally;
    if op.Call? {
      var s, actual := m.session, Actual(m, op);
      HeldFits(m.mem.buf, m.from, m.mem.to);
      QueueAfter(cfg, s, actual);
      PutIsWrites(cfg, s, actual);
      StorePushes(m.mem, PutBytes(cfg, s, actual));
      TameEntries(cfg, Oldest(m.mem), Writes(cfg, s, actual));
    }
  }

  /** On tame memory the loop ends wherever it starts. */
  lemma TameEnds(cfg: Setup, m: Machine)
    requires TameMachine(cfg, m)
    ensures Ends(m, cfg.capacity)
  {
    hide Tame, AllForward, Oldest, EndsIn;
    TameForward(m.mem.buf, m.mem.to);
    ForwardEnds(m.mem.buf, m.mem.to, Walker(m.from, 0, 0));
  }

  lemma {:induction false} CalmReturns(cfg: Setup, m: Machine, ops: seq<Op>)
    requires Sound(cfg, m) && TameMachine(cfg, m) && AllCalm(cfg, m, ops)
    ensures AllReturn(cfg, m, ops)
    decreases |ops|
  {
    hide Do, Linked, Held, Tame, Oldest, Ends, Calm, Counting;
    if ops != [] {
      TameEnds(cfg, m);
      SoundDo(cfg, m, ops[0]);
      TameDo(cfg, m, ops[0]);
      CalmReturns(cfg, Do(cfg, m, ops[0]), ops[1..]);
    }
  }

  lemma TamePowerUp(cfg: Setup, buf: seq<byte>, now: nat)
    requires |buf| == cfg.capacity && 16 <= cfg.capacity <= 0x8000_0000 && HarmlessEntry(cfg, Boot(Wrap(now)))
    requires forall i :: 0 <= i < |buf| ==> buf[i] == 0
    ensures TameMachine(cfg, PowerUp(cfg, buf, now))
  {
    hide EncodeRecord, EncodeRecords, Tame, HarmlessEntry, Pushed, Store;
    var boot := BootRecord(Wrap(now), cfg.hz);
    ClearedIsTame(buf);
    assert Oldest(Memory(buf, 0)) == buf;
    StorePushes(Memory(buf, 0), EncodeRecord(boot));
    BootFits(Wrap(now), cfg.hz);
    assert ToRecords([Boot(Wrap(now))], cfg.hz) == [boot];
    OneEncoded(boot);
    TameEntries(cfg, buf, [Boot(Wrap(now))]);
  }

  /**
   On a ring of at most 2^31 bytes in cleared memory no call hangs, wherever flushes have cut
   the records, as long as every id, time, count and parameter written is harmless.
   */
  lemma NoCallHangs(cfg: Setup, buf: seq<byte>, start: nat, ops: seq<Op>)
    requires |buf| == cfg.capacity && 16 <= cfg.capacity <= 0x8000_0000
    requires forall i :: 0 <= i < |buf| ==> buf[i] == 0
    requires HarmlessEntry(cfg, Boot(Wrap(start))) && AllCalm(cfg, PowerUp(cfg, buf, start), ops)
    ensures AllReturn(cfg, PowerUp(cfg, buf, start), ops)
  {
    hide PowerUp, AllCalm, AllReturn, Sound, TameMachine, HarmlessEntry;
    SoundPowerUp(cfg, buf, start);
    TamePowerUp(cfg, buf, start);
    CalmReturns(cfg, PowerUp(cfg, buf, start), ops);
  }

  // ----- A run that hangs for every harmful value ------------------------------------------

  function Zeros(n: nat): (s: seq<byte>)
    ensures |s| == n && forall i :: 0 <= i < n ==> s[i] == 0
  {
    seq(n, _ => 0)
  }

  /** Parameters whose bytes are zeros and then a length that leads back over them. */
  function BackParams(back: nat): (ps: seq<u32>)
    requires back <= 0xFFFF_FFFB
    ensures |ps| == back + 1
  {
    seq(back, _ => 0) + [0xFFFF_FFFB - back]
  }

  lemma {:induction false} ZeroParams(ps: seq<nat>, v: nat)
    requires forall p :: p in ps ==> p == 0
    ensures EncodeParams(ps + [v]) == Zeros(|ps|) + Leb(v)
    decreases |ps|
  {
    OneByte(0);
    hide Leb;
    if ps == [] {
      assert ([] + [v])[1..] == [];
    } else {
      assert forall p :: p in ps[1..] ==> p in ps;
      ZeroParams(ps[1..], v);
      assert ps[0] in ps && (ps + [v])[0] == 0;
      assert (ps + [v])[1..] == ps[1..] + [v];
      AddAssoc([0], Zeros(|ps| - 1), Leb(v));
      assert [0] + Zeros(|ps| - 1) == Zeros(|ps|);
    }
  }

  lemma {:induction false} ParamsTakeRoom(ps: seq<nat>)
    ensures |EncodeParams(ps)| >= |ps|
    decreases |ps|
  {
    hide Leb;
    if ps != [] {
      PrefixStart(ps[0]);
      ParamsTakeRoom(ps[1..]);
    }
  }

  function Hanging(capacity: nat): Setup { Setup(capacity, 1, Overwrite) }

  /** One event, and a flush that takes all but the bytes of its parameters. */
  function HangingOps(back: nat): seq<Op>
    requires back <= 0xFFFF_FFFB
  {
    [Call(32, BackParams(back), 0, 0), Drain(4 + |Header(32, 0, back + 5)|)]
  }

  /** A call too long for the ring as it is. */
  function LongCall(capacity: nat): Op { Call(32, seq(capacity, _ => 0), 0, 0) }

  lemma HangingBytes(back: nat)
    requires back + 5 < 0x8000_0000
    ensures EncodeParams(BackParams(back)) == Zeros(back) + Leb(0xFFFF_FFFB - back) && |Leb(0xFFFF_FFFB - back)| == 5
    ensures |EncodeRecord(BootRecord(0, 1))| == 4
  {
    FiveBytes(0xFFFF_FFFB - back);
    ZeroParams(seq(back, _ => 0), 0xFFFF_FFFB - back);
    OneByte(0);
    OneByte(1);
    OneByte(3);
    RecordBytes(BootRecord(0, 1));
  }

  /** After the event the ring holds the BOOT record and the event. */
  lemma HangingCall(capacity: nat, back: nat)
    requires capacity <= 0x8000_0000 && 4 + RecordSize(32, 0, back + 5) < capacity
    ensures var s := Step(Hanging(capacity), Begin(Hanging(capacity), 0), HangingOps(back)[0]);
      s.st.queue == EncodeRecord(BootRecord(0, 1)) + (Header(32, 0, back + 5) + EncodeParams(BackParams(back)))
  {
    hide Leb, EncodeParams, EncodeRecord, EncodeRecords, Header;
    HangingBytes(back);
    var cfg, op, ps := Hanging(capacity), HangingOps(back)[0], BackParams(back);
    var s := Begin(cfg, 0);
    assert s.st == State(EncodeRecord(BootRecord(0, 1)), 0, 0, false);
    assert Accepts(cfg, s, op);
    AcceptStep(cfg, s, op);
    assert Added(s.st, 32, ps, 0) == [Event(0, 32, ps)];
    assert ToRecords([Event(0, 32, ps)], 1) == [RawRecord(32, 0, ps)];
    OneEncoded(RawRecord(32, 0, ps));
    HeaderAndParams(32, 0, ps);
  }

  lemma DoTwice(cfg: Setup, m: Machine, a: Op, b: Op)
    requires Placed(cfg, m)
    ensures DoAll(cfg, m, [a, b]) == Do(cfg, Do(cfg, m, a), b)
  {
    hide Do;
    var n, ops := Do(cfg, m, a), [a, b];
    assert DoAll(cfg, m, ops) == DoAll(cfg, n, ops[1..]) && ops[1..] == [b];
    assert DoAll(cfg, n, ops[1..]) == DoAll(cfg, Do(cfg, n, b), ops[1..][1..]) && ops[1..][1..] == [];
  }

  lemma DoThrice(cfg: Setup, m: Machine, ops: seq<Op>)
    requires Placed(cfg, m) && |ops| == 3
    ensures DoAll(cfg, m, ops) == Do(cfg, Do(cfg, Do(cfg, m, ops[0]), ops[1]), ops[2])
  {
    hide Do;
    var n := Do(cfg, m, ops[0]);
    DoTwice(cfg, n, ops[1], ops[2]);
    assert ops[1..] == [ops[1], ops[2]];
    assert DoAll(cfg, m, ops) == DoAll(cfg, n, ops[1..]);
  }

  /** The ring that is left: zeros and the length that leads back. */
  lemma HangingRing(capacity: nat, back: nat)
    requires 16 <= capacity <= 0x8000_0000 && 4 + RecordSize(32, 0, back + 5) < capacity
    ensures var m := DoAll(Hanging(capacity), PowerUp(Hanging(capacity), Zeros(capacity), 0), HangingOps(back));
      LeadsBack(m.mem.buf, m.from, m.mem.to, back)
  {
    hide Leb, EncodeParams, EncodeRecord, Header, Held, Do, PowerUp, BackParams, LeadsBack, Zeros, Linked;
    var cfg, ops := Hanging(capacity), HangingOps(back);
    var m := PowerUp(cfg, Zeros(capacity), 0);
    SoundPowerUp(cfg, Zeros(capacity), 0);
    HangingFirst(capacity, back);
    SoundDo(cfg, m, ops[0]);
    var n := Do(cfg, m, ops[0]);
    HangingBytes(back);
    var head, ps := EncodeRecord(BootRecord(0, 1)) + Header(32, 0, back + 5), EncodeParams(BackParams(back));
    DrainMoves(cfg, n, head, ps);
    SoundDo(cfg, n, ops[1]);
    DoTwice(cfg, m, ops[0], ops[1]);
    var r := Do(cfg, n, ops[1]);
    FromHeld(r.mem.buf, r.from, r.mem.to, back);
  }

  lemma DrainMoves(cfg: Setup, m: Machine, a: seq<byte>, b: seq<byte>)
    requires Placed(cfg, m) && m.from == 0 && m.session.st.queue == a + b && |a| < cfg.capacity
    ensures Do(cfg, m, Drain(|a|)).from == |a| && Do(cfg, m, Drain(|a|)).session.st.queue == b
  {
    hide Leave, Tally;
    RemainderOf(|a|, cfg.capacity, 0, |a|);
  }

  /** The machine after the event. */
  lemma HangingFirst(capacity: nat, back: nat)
    requires 16 <= capacity <= 0x8000_0000 && 4 + RecordSize(32, 0, back + 5) < capacity
    ensures var n := Do(Hanging(capacity), PowerUp(Hanging(capacity), Zeros(capacity), 0), HangingOps(back)[0]);
      var head := EncodeRecord(BootRecord(0, 1)) + Header(32, 0, back + 5);
      n.from == 0 && n.session.st.queue == head + EncodeParams(BackParams(back))
  {
    hide Leb, EncodeParams, EncodeRecord, Header, Step, PowerUp, Do, Begin, BackParams;
    AcceptsHanging(capacity, back);
    HangingCall(capacity, back);
    AddAssoc(EncodeRecord(BootRecord(0, 1)), Header(32, 0, back + 5), EncodeParams(BackParams(back)));
  }

  lemma AcceptsHanging(capacity: nat, back: nat)
    requires 16 <= capacity <= 0x8000_0000 && 4 + RecordSize(32, 0, back + 5) < capacity
    ensures var cfg, m := Hanging(capacity), PowerUp(Hanging(capacity), Zeros(capacity), 0);
      && Do(cfg, m, HangingOps(back)[0]).from == 0
      && Do(cfg, m, HangingOps(back)[0]).session == Step(cfg, Begin(cfg, 0), HangingOps(back)[0])
  {
    hide Leb, EncodeParams, EncodeRecord, EncodeRecords, Header, Store, Tally, PutBytes, StampAll;
    HangingBytes(back);
    var cfg, m, op := Hanging(capacity), PowerUp(Hanging(capacity), Zeros(capacity), 0), HangingOps(back)[0];
    assert m.session.st == State(EncodeRecord(BootRecord(0, 1)), 0, 0, false);
    assert Accepts(cfg, m.session, op) && Accepts(cfg, m.session, Actual(m, op));
    AcceptStep(cfg, m.session, op);
    AcceptStep(cfg, m.session, Actual(m, op));
  }

  lemma FromHeld(buf: seq<byte>, from: nat, to: nat, back: nat)
    requires from < |buf| <= 0x8000_0000 && to < |buf| && from + back + 5 < |buf| && |Leb(0xFFFF_FFFB - back)| == 5
    requires Held(buf, from, to) == Zeros(back) + Leb(0xFFFF_FFFB - back)
    ensures LeadsBack(buf, from, to, back)
  {
    hide Leb, Zeros;
    var q := Held(buf, from, to);
    assert buf[from..to] == q;
    assert q[back..] == Leb(0xFFFF_FFFB - back) && buf[from + back..to] == q[back..];
    forall i | from <= i < from + back ensures buf[i] == 0 {
      assert buf[i] == q[i - from] == Zeros(back)[i - from];
    }
  }

  /**
   And the limit is sharp in runs: for every ring and every such value that fits it behind
   a BOOT record, an event that carries it and a flush that stops inside it leave a ring on
   which the next call that must overwrite never returns.
   */
  lemma HangingRun(capacity: nat, back: nat)
    requires 16 <= capacity <= 0x8000_0000 && 4 + RecordSize(32, 0, back + 5) < capacity
    ensures BackParams(back)[back] == 0xFFFF_FFFB - back
    ensures var m := DoAll(Hanging(capacity), PowerUp(Hanging(capacity), Zeros(capacity), 0), HangingOps(back));
      Counting(Hanging(capacity), m.session, LongCall(capacity)) && forall n: nat :: !Ends(m, n)
  {
    HangingRing(capacity, back);
    hide LeadsBack, EncodeParams, EndsIn, DoAll, Header, RecordSize, PowerUp, HangingOps, Zeros, Counting;
    var m := DoAll(Hanging(capacity), PowerUp(Hanging(capacity), Zeros(capacity), 0), HangingOps(back));
    NeverEnds(m, back);
    ParamsTakeRoom(LongCall(capacity).params);
    TooLong(Hanging(capacity), m.session, LongCall(capacity));
  }

  lemma NeverEnds(m: Machine, back: nat)
    requires LeadsBack(m.mem.buf, m.from, m.mem.to, back)
    ensures forall n: nat :: !Ends(m, n)
  {
    hide EndsIn;
    forall n: nat ensures !Ends(m, n) {
      LeadsBackForever(m.mem.buf, m.from, m.mem.to, back, 0, 0, n);
    }
  }

  lemma TooLong(cfg: Setup, s: Session, op: Op)
    requires op.Call? && cfg.policy.Overwrite? && |EncodeParams(op.params)| >= cfg.capacity
    ensures Counting(cfg, s, op)
  {
    hide EncodeParams, Header;
  }

  // ----- A run that the host misreads, with the counts of the loop ----------------------------

  /** The smallest ring after its first event. */
  lemma FilledMachine()
    ensures var m := Do(SMALL, PowerUp(SMALL, Zeros(16), 0), Emitting(0)); m.session == FILLED && m.from == 0
  {
    hide Step, Accepts, EncodeRecord, Store, Tally, PutBytes, Begin;
    var m := PowerUp(SMALL, Zeros(16), 0);
    FirstFits(Tally(m));
    FirstEvent(Tally(m));
    NotBoth(SMALL, Begin(SMALL, 0), Emitting(Tally(m)));
  }

  lemma FilledMemory(buf: seq<byte>, to: nat)
    requires |buf| == 16 && to < 16 && Held(buf, 0, to) == FILLED.st.queue
    ensures to == 11 && buf[..11] == FILLED.st.queue
  {
    assert |Held(buf, 0, to)| == 11;
  }

  /** Once its first byte is sent the loop counts three records where two lie. */
  lemma MisreadTally()
    ensures var m := Do(SMALL, Do(SMALL, PowerUp(SMALL, Zeros(16), 0), Emitting(0)), Drain(1));
      Ends(m, 3) && Tally(m) == 3
  {
    hide Step, Tally, PowerUp, Held, Linked, EndsIn, WalkFrom;
    var m := PowerUp(SMALL, Zeros(16), 0);
    FilledMachine();
    SoundPowerUp(SMALL, Zeros(16), 0);
    SoundDo(SMALL, m, Emitting(0));
    var n := Do(SMALL, m, Emitting(0));
    FilledMemory(n.mem.buf, n.mem.to);
    MidRecordCount(n.mem.buf);
    TallyIsCount(Do(SMALL, n, Drain(1)), 3);
  }

  lemma FilledThrice(cfg: Setup, m: Machine, ops: seq<Op>)
    requires Placed(cfg, m) && |ops| == 3
    ensures var n := Do(cfg, m, ops[0]); var k := Do(cfg, n, ops[1]);
      Filled(cfg, m, ops) == [Actual(m, ops[0]), Actual(n, ops[1]), Actual(k, ops[2])]
  {
    hide Do, Actual;
    var n := Do(cfg, m, ops[0]);
    var k := Do(cfg, n, ops[1]);
    assert ops[1..][0] == ops[1] && ops[1..][1..][0] == ops[2] && ops[1..][1..][1..] == [];
    var last := Filled(cfg, k, ops[1..][1..]);
    assert last == [Actual(k, ops[2])] + Filled(cfg, Do(cfg, k, ops[2]), []);
    assert Filled(cfg, n, ops[1..]) == [Actual(n, ops[1])] + last;
    assert Filled(cfg, m, ops) == [Actual(m, ops[0])] + Filled(cfg, n, ops[1..]);
  }

  /** The run of `MisreadRun`, from cleared memory and with the loop's own count. */
  lemma MisreadMachine()
    ensures var m := DoAll(SMALL, PowerUp(SMALL, Zeros(16), 0), [Emitting(0), Drain(1), Emitting(0)]);
      && m.session.sent + m.session.st.queue == MISREAD && Records(MISREAD) == [RawRecord(3, 1, [0])]
      && Entries(Log(m.session)) == [Boot(0), Gap(0, 3), Event(0, 32, PARAMS)]
  {
    hide Do, Tally, Run, Begin, AllAligned, Records, Log, Entries, Store;
    var m, ops := PowerUp(SMALL, Zeros(16), 0), [Emitting(0), Drain(1), Emitting(0)];
    MisreadTally();
    FilledThrice(SMALL, m, ops);
    RunOfMachine(SMALL, m, ops);
    MisreadRun(Tally(m));
  }

  // ----- The class does the same -------------------------------------------------------------

  /** The recorder is in the machine's state, with every event enabled. */
  ghost predicate Matches(r: Recorder, m: Machine)
    reads r, r.buffer
  {
    && r.Valid() && r.isEnabled && (forall id: nat :: r.EventIsEnabled(id))
    && r.Abstract() == m.session.st && r.Mem() == m.mem && r.readPos == m.from
  }

  /** A recorder fresh from its constructor, on cleared memory, is in the machine's first state. */
  method Construct(n: nat, hz: u32, policy: Policy, ghost now: nat, ts: u32) returns (r: Recorder)
    requires 16 <= n < 0x1_0000_0000 && hz != 0 && ts == Wrap(now)
    ensures fresh(r) && fresh(r.buffer) && r.cfg == Setup(n, hz, policy)
    ensures Matches(r, PowerUp(r.cfg, Zeros(n), now))
  {
    hide Store, Held, EncodeRecord;
    var buffer := new byte[n](_ => 0);
    assert buffer[..] == Zeros(n);
    r := new Recorder(buffer, hz, policy, true, ts);
    SoundPowerUp(r.cfg, Zeros(n), now);
    SameFrom(buffer[..], r.readPos, 0, r.writePos);
  }

  lemma SameFrom(buf: seq<byte>, a: nat, b: nat, to: nat)
    requires a < |buf| && b < |buf| && to < |buf| && |Held(buf, a, to)| == |Held(buf, b, to)|
    ensures a == b
  {
  }

  /** What an accepted call does, and writes, does not depend on the charge for an overwrite. */
  lemma ChargeOnlyCounts(cfg: Setup, s: Session, op: Op, charge: nat)
    requires op.Call? && !Counting(cfg, s, op)
    ensures Emit(cfg, s.st, op.id, op.params, Wrap(op.now), charge)
      == Emit(cfg, s.st, op.id, op.params, Wrap(op.now), Charge(s, op))
    ensures EmitBytes(cfg, s.st, op.id, op.params, Wrap(op.now), charge) == PutBytes(cfg, s, op)
  {
    hide Leb, EncodeParams, EncodeRecord, EncodeRecords, Header, ToRecords, AppendBytes, Fits;
  }

  lemma StepEmits(cfg: Setup, s: Session, op: Op)
    requires op.Call?
    ensures Step(cfg, s, op).st == Emit(cfg, s.st, op.id, op.params, Wrap(op.now), Charge(s, op))
  {
    hide Emit, Accepts, Overwrites, Charge;
  }

  /** The contract of the class's call, on the machine's state, is the machine's step. */
  lemma CallAgrees(r: Recorder, m: Machine, op: Op)
    requires Matches(r, m) && Sound(r.cfg, m) && TameMachine(r.cfg, m) && op.Call?
    ensures var extra, ts := |EncodeParams(op.params)|, Wrap(op.now); var next := Do(r.cfg, m, op);
      && r.Returns(op.id, extra, ts, r.cfg.capacity)
      && Emit(r.cfg, m.session.st, op.id, op.params, ts, r.Charged(op.id, extra, ts, r.cfg.capacity)) == next.session.st
      && var bytes := EmitBytes(r.cfg, m.session.st, op.id, op.params, ts, r.Charged(op.id, extra, ts, r.cfg.capacity));
        Store(m.mem, bytes) == next.mem
  {
    hide Held, Linked, EncodeParams, EndsIn, WalkFrom, Tame, Oldest, Emit, EmitBytes, Step, Store, Tally, Countable;
    hide Charge, Fits, Overwrites;
    TameEnds(r.cfg, m);
    ChargeIsTally(r.cfg, m, op);
    TallyIsCount(m, r.cfg.capacity);
    StepEmits(r.cfg, m.session, Actual(m, op));
    if !Counting(r.cfg, m.session, op) {
      ChargeOnlyCounts(r.cfg, m.session, Actual(m, op), 0);
    }
  }

  /** One operation on the class: the call returns, and leaves the recorder where the machine is. */
  method Perform(r: Recorder, ghost m: Machine, op: Op)
    requires Matches(r, m) && Sound(r.cfg, m) && TameMachine(r.cfg, m)
    modifies r, r.buffer
    ensures Matches(r, Do(r.cfg, m, op))
  {
    hide Held, Linked, EncodeParams, Tame, Oldest, Emit, EmitBytes, Do, Store, Step;
    SoundDo(r.cfg, m, op);
    ghost var next := Do(r.cfg, m, op);
    match op
    case Drain(n) =>
      DrainState(r.cfg, m, n);
      var room := r.RingAvailable();
      var held := r.buffer.Length - 1 - room;
      r.DropOldest(if n <= held then n else held);
      SameFrom(next.mem.buf, r.readPos, next.from, next.mem.to);
    case Call(id, params, now, _) =>
      CallAgrees(r, m, op);
      r.EmitRecord(id, params, Wrap(now), r.buffer.Length);
      SameFrom(next.mem.buf, r.readPos, next.from, next.mem.to);
  }

  lemma DrainState(cfg: Setup, m: Machine, n: nat)
    requires Placed(cfg, m)
    ensures var s, next := m.session, Do(cfg, m, Drain(n));
      && next.mem == m.mem
      && next.session.st == s.st.(queue := s.st.queue[if n <= |s.st.queue| then n else |s.st.queue|..])
  {
    hide Leave, Tally;
  }

  /** Any run on the class: every call returns, and the recorder ends where the machine does. */
  method PerformAll(r: Recorder, ghost m: Machine, ops: seq<Op>)
    requires Matches(r, m) && Sound(r.cfg, m) && TameMachine(r.cfg, m) && AllCalm(r.cfg, m, ops)
    modifies r, r.buffer
    ensures Matches(r, DoAll(r.cfg, m, ops))
  {
    hide Matches, Held, Linked, Tame, Oldest, Do, Calm;
    ghost var now := m;
    assert ops[0..] == ops;
    for i := 0 to |ops|
      invariant Matches(r, now) && Sound(r.cfg, now) && TameMachine(r.cfg, now) && Placed(r.cfg, now)
      invariant AllCalm(r.cfg, now, ops[i..]) && DoAll(r.cfg, now, ops[i..]) == DoAll(r.cfg, m, ops)
    {
      assert ops[i..][1..] == ops[i + 1..];
      SoundDo(r.cfg, now, ops[i]);
      TameDo(r.cfg, now, ops[i]);
      Perform(r, now, ops[i]);
      now := Do(r.cfg, now, ops[i]);
    }
  }

  /** A whole run from power-up: every call returns, and the recorder ends where the machine does. */
  method RunFromPowerUp(cfg: Setup, ghost now: nat, ts: u32, ops: seq<Op>) returns (r: Recorder)
    requires 16 <= cfg.capacity <= 0x8000_0000 && cfg.hz != 0 && ts == Wrap(now)
    requires HarmlessEntry(cfg, Boot(ts)) && AllCalm(cfg, PowerUp(cfg, Zeros(cfg.capacity), now), ops)
    ensures r.cfg == cfg && Matches(r, DoAll(cfg, PowerUp(cfg, Zeros(cfg.capacity), now), ops))
  {
    hide Matches, Sound, TameMachine, AllCalm, HarmlessEntry, PowerUp;
    SoundPowerUp(cfg, Zeros(cfg.capacity), now);
    TamePowerUp(cfg, Zeros(cfg.capacity), now);
    r := Construct(cfg.capacity, cfg.hz, cfg.policy, now, ts);
    PerformAll(r, PowerUp(cfg, Zeros(cfg.capacity), now), ops);
  }
}
