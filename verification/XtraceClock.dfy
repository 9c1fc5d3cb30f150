/**
 Time stamps of the host decoder: tick deltas turned into microseconds one by one and
 added up, BOOT setting the clock and its frequency, TIME_SYNC setting the time.
 */
module XtraceClock {
  import opened Bytes
  import opened XtraceWire
  import opened XtraceRecorder
  import opened XtraceSession

  const US_PER_S: nat := 1_000_000

  datatype TraceRecord = TraceRecord(eventId: nat, timestamp: nat, params: seq<nat>, isGap: bool)

  /** Running time and frequency of `decode_all`. */
  datatype Clock = Clock(absTs: nat, hz: nat)

  function Param(ps: seq<nat>, i: nat): nat {
    if i < |ps| then ps[i] else 0
  }

  /** Ticks in microseconds, rounded down; raw ticks while the frequency is unknown. */
  function ToUs(ticks: nat, hz: nat): nat {
    if hz > 0 then ticks * US_PER_S / hz else ticks
  }

  function Tick(c: Clock, raw: RawRecord): Clock {
    if raw.eventId == EV_BOOT then
      var hz := if Param(raw.params, 0) > 0 then raw.params[0] else c.hz;
      Clock(ToUs(raw.deltaTs, hz), hz)
    else if raw.eventId == EV_TIME_SYNC then
      c.(absTs := BitOr(Param(raw.params, 0), Param(raw.params, 1) * Pow2(32)))
    else
      c.(absTs := c.absTs + ToUs(raw.deltaTs, c.hz))
  }

  /** What the decoder yields for one raw record: nothing for TIME_SYNC. */
  function Shown(c: Clock, raw: RawRecord): seq<TraceRecord> {
    if raw.eventId == EV_TIME_SYNC then []
    else [TraceRecord(raw.eventId, Tick(c, raw).absTs, raw.params, raw.eventId == EV_GAP)]
  }

  function Decoded(c: Clock, raws: seq<RawRecord>): seq<TraceRecord>
    decreases |raws|
  {
    if raws == [] then [] else Shown(c, raws[0]) + Decoded(Tick(c, raws[0]), raws[1..])
  }

  function ClockAfter(c: Clock, raws: seq<RawRecord>): Clock
    decreases |raws|
  {
    if raws == [] then c else ClockAfter(Tick(c, raws[0]), raws[1..])
  }

  lemma DecodedStep(done: seq<TraceRecord>, c: Clock, raws: seq<RawRecord>, i: nat)
    requires i <= |raws|
    ensures i == |raws| ==> done + Decoded(c, raws[i..]) == done
    ensures i < |raws| ==>
      done + Decoded(c, raws[i..]) == done + Shown(c, raws[i]) + Decoded(Tick(c, raws[i]), raws[i + 1..])
  {
    hide Shown, Tick;
    if i < |raws| {
      assert raws[i..][1..] == raws[i + 1..];
      var a, b := Shown(c, raws[i]), Decoded(Tick(c, raws[i]), raws[i + 1..]);
      assert done + (a + b) == done + a + b;
    }
  }

  /** `decode_all`, collecting what the generator yields. */
  method DecodeAll(raws: seq<RawRecord>, timestampHz: nat) returns (recs: seq<TraceRecord>)
    ensures recs == Decoded(Clock(0, timestampHz), raws)
  {
    hide ToUs, Decoded, BitOr, Pow2;
    var absTs: nat, hz: nat := 0, timestampHz;
    recs := [];
    assert raws[0..] == raws;
    for i := 0 to |raws|
      invariant recs + Decoded(Clock(absTs, hz), raws[i..]) == Decoded(Clock(0, timestampHz), raws)
    {
      var raw := raws[i];
      ghost var c, sofar := Clock(absTs, hz), recs;
      DecodedStep(recs, c, raws, i);
      if raw.eventId == EV_BOOT {
        var bootHz := if raw.params != [] then raw.params[0] else 0;
        if bootHz > 0 {
          hz := bootHz;
        }
        absTs := ToUs(raw.deltaTs, hz);
        recs := recs + [TraceRecord(EV_BOOT, absTs, raw.params, false)];
      } else if raw.eventId == EV_TIME_SYNC {
        var lo := if raw.params != [] then raw.params[0] else 0;
        var hi := if |raw.params| > 1 then raw.params[1] else 0;
        absTs := BitOr(lo, hi * Pow2(32));
      } else {
        absTs := absTs + ToUs(raw.deltaTs, hz);
        recs := recs + [TraceRecord(raw.eventId, absTs, raw.params, raw.eventId == EV_GAP)];
      }
      assert Clock(absTs, hz) == Tick(c, raw) && recs == sofar + Shown(c, raw);
    }
    DecodedStep(recs, Clock(absTs, hz), raws, |raws|);
  }

  /** Records that only advance the clock: everything but BOOT and TIME_SYNC. */
  predicate Advancing(raws: seq<RawRecord>) {
    forall i :: 0 <= i < |raws| ==> raws[i].eventId != EV_BOOT && raws[i].eventId != EV_TIME_SYNC
  }

  function TotalTicks(raws: seq<RawRecord>): nat {
    if raws == [] then 0 else raws[0].deltaTs + TotalTicks(raws[1..])
  }

  /** Deltas that are whole numbers of microseconds at this frequency. */
  predicate WholeUs(raws: seq<RawRecord>, hz: nat)
    requires hz > 0
  {
    forall raw :: raw in raws ==> raw.deltaTs * US_PER_S % hz == 0
  }

  lemma FloorBound(ticks: nat, hz: nat)
    requires hz > 0
    ensures 0 <= ticks * US_PER_S - ToUs(ticks, hz) * hz < hz
    ensures ToUs(ticks, hz) * hz == ticks * US_PER_S <==> ticks * US_PER_S % hz == 0
  {
    var x := ticks * US_PER_S;
    assert x == x / hz * hz + x % hz;
  }

  lemma DistributeError(a: int, b: int, hz: int)
    ensures (a + b) * hz == a * hz + b * hz
  {
  }

  /**
   Rounding every delta down loses less than one microsecond a record, never gains, and
   is exact precisely when each delta is a whole number of microseconds.
   */
  lemma {:induction false} ClockError(c: Clock, raws: seq<RawRecord>)
    requires c.hz > 0 && Advancing(raws)
    ensures var end := ClockAfter(c, raws); var lag := TotalTicks(raws) * US_PER_S - (end.absTs - c.absTs) * c.hz;
      && end.hz == c.hz && end.absTs >= c.absTs
      && 0 <= lag <= |raws| * (c.hz - 1)
      && (lag == 0 <==> WholeUs(raws, c.hz))
    decreases |raws|
  {
    hide ToUs, WholeUs;
    WholeUsStep(raws, c.hz);
    if raws != [] {
      var d := raws[0].deltaTs;
      var next := Tick(c, raws[0]);
      FloorBound(d, c.hz);
      ClockError(next, raws[1..]);
      var end := ClockAfter(next, raws[1..]);
      DistributeError(end.absTs - next.absTs, ToUs(d, c.hz), c.hz);
      DistributeError(|raws| - 1, 1, c.hz - 1);
    }
  }

  lemma WholeUsStep(raws: seq<RawRecord>, hz: nat)
    requires hz > 0
    ensures raws == [] ==> WholeUs(raws, hz)
    ensures raws != [] ==> (WholeUs(raws, hz) <==> raws[0].deltaTs * US_PER_S % hz == 0 && WholeUs(raws[1..], hz))
  {
    if raws != [] {
      assert forall raw :: raw in raws <==> raw == raws[0] || raw in raws[1..];
    }
  }

  /** The time stamp shown with a record is the clock after it. */
  lemma {:induction false} ShownTimes(c: Clock, raws: seq<RawRecord>, i: nat)
    requires Advancing(raws) && i < |raws|
    ensures |Decoded(c, raws)| == |raws| && Decoded(c, raws)[i].timestamp == ClockAfter(c, raws[..i + 1]).absTs
    decreases |raws|
  {
    hide ToUs;
    var next := Tick(c, raws[0]);
    assert raws[..i + 1][1..] == raws[1..][..i];
    if i > 0 {
      ShownTimes(next, raws[1..], i - 1);
    } else if |raws| > 1 {
      ShownTimes(next, raws[1..], 0);
    }
  }

  lemma {:induction false} ClockAppend(c: Clock, a: seq<RawRecord>, b: seq<RawRecord>)
    ensures ClockAfter(c, a + b) == ClockAfter(ClockAfter(c, a), b)
    decreases |a|
  {
    hide Tick;
    if a == [] {
      assert a + b == b;
    } else {
      assert (a + b)[1..] == a[1..] + b;
      ClockAppend(Tick(c, a[0]), a[1..], b);
    }
  }

  /** A clock setting is not shown; the clock goes on from the low and the high word of the time it carries. */
  lemma SyncSets(c: Clock, delta: nat, lo: nat, hi: nat, rest: seq<RawRecord>)
    requires c.hz > 0 && lo < TWO32 && Advancing(rest)
    ensures var raws := [RawRecord(2, delta, [lo, hi])] + rest;
      && Decoded(c, raws) == Decoded(ClockAfter(c, raws[..1]), rest)
      && Behind(Clock(lo + 0x1_0000_0000 * hi, c.hz), ClockAfter(c, raws), TotalTicks(rest), |rest|)
  {
    hide Tick, TotalTicks, Shown, ClockAfter, Decoded, Advancing, Behind;
    var sync := RawRecord(2, delta, [lo, hi]);
    SyncTick(c, delta, lo, hi);
    AfterOne(c, sync, rest);
    StaysBehind(Tick(c, sync), rest);
  }

  lemma StaysBehind(start: Clock, raws: seq<RawRecord>)
    requires start.hz > 0 && Advancing(raws)
    ensures Behind(start, ClockAfter(start, raws), TotalTicks(raws), |raws|)
  {
    hide TotalTicks, WholeUs, ClockAfter, Advancing;
    ClockError(start, raws);
  }

  /** That many ticks later, and by less than a microsecond a record too early. */
  ghost predicate Behind(start: Clock, end: Clock, ticks: nat, records: nat) {
    var lag := ticks * US_PER_S - (end.absTs - start.absTs) * start.hz;
    end.hz == start.hz && 0 <= lag && (lag <= records * (start.hz - 1))
  }

  lemma AfterOne(c: Clock, raw: RawRecord, rest: seq<RawRecord>)
    requires Shown(c, raw) == []
    ensures var raws := [raw] + rest;
      && ClockAfter(c, raws) == ClockAfter(Tick(c, raw), rest) && ClockAfter(c, raws[..1]) == Tick(c, raw)
      && Decoded(c, raws) == Decoded(Tick(c, raw), rest)
  {
    hide Tick, Shown;
    var raws := [raw] + rest;
    assert raws[1..] == rest && raws[..1] == [raw] && [raw][1..] == [];
  }

  lemma SyncTick(c: Clock, delta: nat, lo: nat, hi: nat)
    requires lo < TWO32
    ensures var sync := RawRecord(2, delta, [lo, hi]);
      Tick(c, sync) == Clock(lo + 0x1_0000_0000 * hi, c.hz) && Shown(c, sync) == []
  {
    hide BitOr, Pow2, ToUs;
    WordRange();
    OrIsSum(lo, hi, 32);
  }

  lemma WordRange()
    ensures Pow2(32) == 0x1_0000_0000
  {
    assert Pow2(4) == 16;
    hide Pow2;
    PowSum(4, 4);
    PowSum(8, 8);
    PowSum(16, 16);
  }

  /** Shown times never run backwards between BOOT and TIME_SYNC records. */
  lemma ShownTimesAscend(c: Clock, raws: seq<RawRecord>, i: nat, j: nat)
    requires c.hz > 0 && Advancing(raws) && i <= j < |raws|
    ensures |Decoded(c, raws)| == |raws|
    ensures c.absTs <= Decoded(c, raws)[i].timestamp <= Decoded(c, raws)[j].timestamp
  {
    hide ClockAfter, Decoded, TotalTicks, ToUs, WholeUs;
    ShownTimes(c, raws, i);
    ShownTimes(c, raws, j);
    ClockError(c, raws[..i + 1]);
    var mid := ClockAfter(c, raws[..i + 1]);
    ClockAppend(c, raws[..i + 1], raws[i + 1..j + 1]);
    assert raws[..j + 1] == raws[..i + 1] + raws[i + 1..j + 1];
    ClockError(mid, raws[i + 1..j + 1]);
  }

  /** A frequency that divides one million loses nothing, whatever the deltas. */
  lemma ExactFrequency(c: Clock, raws: seq<RawRecord>)
    requires c.hz > 0 && US_PER_S % c.hz == 0 && Advancing(raws)
    ensures (ClockAfter(c, raws).absTs - c.absTs) * c.hz == TotalTicks(raws) * US_PER_S
  {
    ClockError(c, raws);
    forall raw | raw in raws ensures raw.deltaTs * US_PER_S % c.hz == 0 {
      MultipleOfWhole(raw.deltaTs, c.hz);
    }
  }

  lemma {:induction false} MultipleOfWhole(ticks: nat, hz: nat)
    requires hz > 0 && US_PER_S % hz == 0
    ensures ticks * US_PER_S % hz == 0
  {
    if ticks > 0 {
      MultipleOfWhole(ticks - 1, hz);
      SumOfWhole((ticks - 1) * US_PER_S, hz);
    }
  }

  lemma SumOfWhole(x: nat, hz: nat)
    requires hz > 0 && US_PER_S % hz == 0 && x % hz == 0
    ensures (x + US_PER_S) % hz == 0
  {
    var a, b := x / hz, US_PER_S / hz;
    assert x == a * hz && US_PER_S == b * hz;
    DistributeError(a, b, hz);
    QuotientIsExact(a + b, hz);
  }

  lemma QuotientIsExact(q: nat, hz: nat)
    requires hz > 0
    ensures q * hz % hz == 0
  {
    var x := q * hz;
    var p, r := x / hz, x % hz;
    assert x == p * hz + r;
    DistributeError(q, 0 - p, hz);
    assert q - p >= 1 ==> (q - p) * hz >= hz;
    DistributeError(p, 0 - q, hz);
    assert p - q >= 1 ==> (p - q) * hz >= hz;
  }

  /** A recorded session as the decoder sees it: it starts with BOOT, and no event passes for BOOT or TIME_SYNC. */
  predicate SessionLog(log: seq<Entry>) {
    && log != [] && log[0].Boot?
    && forall i :: 0 <= i < |log| && log[i].Event? ==> log[i].id != EV_BOOT && log[i].id != EV_TIME_SYNC
  }

  lemma {:induction false} DecodedAppend(c: Clock, a: seq<RawRecord>, b: seq<RawRecord>)
    ensures Decoded(c, a + b) == Decoded(c, a) + Decoded(ClockAfter(c, a), b)
    decreases |a|
  {
    hide Tick, Shown;
    if a == [] {
      assert a + b == b;
    } else {
      assert (a + b)[1..] == a[1..] + b;
      DecodedAppend(Tick(c, a[0]), a[1..], b);
    }
  }

  /** The clock after one more record, and what is shown with it. */
  lemma DecodedSnoc(c: Clock, a: seq<RawRecord>, r: RawRecord)
    requires r.eventId != EV_TIME_SYNC
    ensures ClockAfter(c, a + [r]) == Tick(ClockAfter(c, a), r)
    ensures Decoded(c, a + [r])
      == Decoded(c, a) + [TraceRecord(r.eventId, Tick(ClockAfter(c, a), r).absTs, r.params, r.eventId == EV_GAP)]
  {
    ClockAppend(c, a, [r]);
    DecodedAppend(c, a, [r]);
    assert [r][1..] == [];
    hide Tick;
  }

  /** The decoder's clock after a session, against its tick count. */
  predicate Late(c: Clock, ticks: nat, records: nat, hz: nat) {
    c.hz == hz > 0 && 0 <= ticks * US_PER_S - c.absTs * hz <= records * (hz - 1)
  }

  lemma LateBoot(c: Clock, ts: u32, hz: u32, records: nat)
    requires hz > 0 && records > 0
    ensures Late(Tick(c, BootRecord(ts, hz)), ts, records, hz)
  {
    FloorBound(ts, hz);
    MulMonotone(hz - 1, 1, records);
    hide ToUs;
  }

  lemma LateDelta(c: Clock, ticks: nat, records: nat, hz: nat, r: RawRecord)
    requires Late(c, ticks, records, hz) && r.eventId != EV_BOOT && r.eventId != EV_TIME_SYNC
    ensures Late(Tick(c, r), ticks + r.deltaTs, records + 1, hz)
  {
    FloorBound(r.deltaTs, hz);
    hide ToUs;
    DistributeError(ticks, r.deltaTs, US_PER_S);
    DistributeError(c.absTs, ToUs(r.deltaTs, hz), hz);
    DistributeError(records, 1, hz - 1);
  }

  lemma {:induction false} SessionClock(log: seq<Entry>, hz: u32, fallbackHz: nat)
    requires SessionLog(log) && hz > 0
    ensures var raws := ToRecords(log, hz);
      && |Decoded(Clock(0, fallbackHz), raws)| == |log|
      && Late(ClockAfter(Clock(0, fallbackHz), raws), HostTicks(log), |log|, hz)
      && Decoded(Clock(0, fallbackHz), raws)[|log| - 1].timestamp == ClockAfter(Clock(0, fallbackHz), raws).absTs
    decreases |log|
  {
    var front, last := log[..|log| - 1], log[|log| - 1];
    var a, r := ToRecords(front, hz), ToRecord(last, hz);
    var c := Clock(0, fallbackHz);
    assert ToRecords(log, hz) == a + [r];
    DecodedSnoc(c, a, r);
    hide Tick, Late, Decoded, ClockAfter;
    if |log| > 1 {
      SessionClock(front, hz, fallbackHz);
    } else {
      assert a == [];
      NothingDecoded(c);
    }
    if last.Boot? {
      LateBoot(ClockAfter(c, a), last.ts, hz, |log|);
    } else {
      LateDelta(ClockAfter(c, a), HostTicks(front), |front|, hz, r);
    }
  }

  lemma NothingDecoded(c: Clock)
    ensures Decoded(c, []) == []
  {
  }

  /**
   From the target's clock to the host's display: the time stamp shown with any record of a
   recorded session, restarts included, is its tick count in microseconds, late by less than
   one microsecond for each record up to it and never early.
   */
  lemma SessionTimestamps(log: seq<Entry>, hz: u32, fallbackHz: nat, i: nat)
    requires SessionLog(log) && hz > 0 && i < |log|
    ensures var shown := Decoded(Clock(0, fallbackHz), ToRecords(log, hz));
      && |shown| == |log|
      && 0 <= HostTicks(log[..i + 1]) * US_PER_S - shown[i].timestamp * hz <= (i + 1) * (hz - 1)
  {
    hide Decoded, ClockAfter, HostTicks, ToRecords;
    var c := Clock(0, fallbackHz);
    var a, b := log[..i + 1], log[i + 1..];
    assert a + b == log;
    ToRecordsAppend(a, b, hz);
    DecodedAppend(c, ToRecords(a, hz), ToRecords(b, hz));
    SessionClock(a, hz, fallbackHz);
    SessionClock(log, hz, fallbackHz);
  }

  // ----- From the target's clock to the host's display, over runs -----------------------

  /** No call uses the number of a record that sets the decoder's clock. */
  predicate Plain(ops: seq<Op>) {
    forall op :: op in ops && op.Call? ==> op.id != EV_BOOT && op.id != EV_TIME_SYNC
  }

  lemma SessionAppend(a: seq<Entry>, b: seq<Entry>)
    requires SessionLog(a) && forall e :: e in b && e.Event? ==> e.id != EV_BOOT && e.id != EV_TIME_SYNC
    ensures SessionLog(a + b)
  {
    forall i | 0 <= i < |a + b| && (a + b)[i].Event? ensures (a + b)[i].id != EV_BOOT && (a + b)[i].id != EV_TIME_SYNC {
      assert i >= |a| ==> (a + b)[i] == b[i - |a|] && b[i - |a|] in b;
    }
  }

  lemma SessionRestart(done: seq<Entry>, rest: seq<Entry>, ring: seq<Entry>)
    requires SessionLog(done + rest) && ring != [] && ring[0].Boot?
    requires forall e :: e in ring && e.Event? ==> e.id != EV_BOOT && e.id != EV_TIME_SYNC
    ensures SessionLog(done + ring)
  {
    if done == [] {
      assert done + ring == ring;
    } else {
      assert forall i :: 0 <= i < |done| ==> done[i] == (done + rest)[i];
      SessionAppend(done, ring);
    }
  }

  lemma SessionStep(cfg: Setup, s: Session, op: Op)
    requires Linked(cfg, s) && SessionLog(Entries(Log(s))) && Plain([op])
    ensures SessionLog(Entries(Log(Step(cfg, s, op))))
  {
    hide Step, Linked, SessionLog, Accepts, EncodeRecords, ToRecords, StampAll, Entries;
    NotBoth(cfg, s, op);
    assert op in [op];
    if op.Drain? {
      LinkedDrain(cfg, s, op.n);
    } else if Accepts(cfg, s, op) {
      AcceptStep(cfg, s, op);
      var added := Added(s.st, op.id, op.params, Wrap(op.now));
      EntriesAppend(Log(s), StampAll(added, op.now));
      AddAssoc(s.done, s.ring, StampAll(added, op.now));
      SessionAppend(Entries(Log(s)), added);
    } else if Overwrites(cfg, s, op) {
      OverwriteStep(cfg, s, op);
      EntriesAppend(s.done, s.ring);
      EntriesAppend(s.done, StampAll(Restart(s, op), op.now));
      SessionRestart(Entries(s.done), Entries(s.ring), Restart(s, op));
    } else {
      LostStep(cfg, s, op);
    }
  }

  lemma {:induction false} SessionRun(cfg: Setup, s: Session, ops: seq<Op>)
    requires Linked(cfg, s) && SessionLog(Entries(Log(s))) && Plain(ops)
    ensures SessionLog(Entries(Log(Run(cfg, s, ops))))
    decreases |ops|
  {
    hide Step, Linked, SessionLog, Log, Entries;
    if ops != [] {
      assert ops[0] in ops && forall op :: op in ops[1..] ==> op in ops;
      SessionStep(cfg, s, ops[0]);
      LinkedStep(cfg, s, ops[0]);
      SessionRun(cfg, Step(cfg, s, ops[0]), ops[1..]);
    }
  }

  lemma BeginSession(cfg: Setup, start: nat)
    ensures SessionLog(Entries(Log(Begin(cfg, start))))
  {
  }

  /**
   End to end: over any run in time order, with less than a wrap of the counter between two
   records, and of calls that keep clear of the two numbers that set the decoder's clock, the
   time stamp the host shows with a record is the true time of its call, counted from the last
   wrap before the last restart: never early, and late by less than a microsecond a record.
   Once the ring is drained, that is what it shows for the bytes it got.
   */
  lemma HostShowsTrueTime(cfg: Setup, start: nat, ops: seq<Op>, fallbackHz: nat, i: nat)
    requires cfg.hz > 0 && AllOrdered(cfg, Begin(cfg, start), ops) && AllPrompt(cfg, Begin(cfg, start), ops)
    requires Plain(ops)
    requires i < |Log(Run(cfg, Begin(cfg, start), ops))|
    ensures var s := Run(cfg, Begin(cfg, start), ops);
      var log, shown := Log(s), Decoded(Clock(0, fallbackHz), LogRecords(cfg, s));
      && |shown| == |log|
      && 0 <= (log[i].time - Epoch(BootTime(log[..i + 1]))) * US_PER_S - shown[i].timestamp * cfg.hz
        <= (i + 1) * (cfg.hz - 1)
      && (16 <= cfg.capacity <= 0x1000_0000 && AllAligned(cfg, Begin(cfg, start), ops) && s.st.queue == [] ==>
            Decoded(Clock(0, fallbackHz), Records(s.sent)) == shown)
  {
    hide Begin, Run, Linked, AllOrdered, AllPrompt, AllAligned, HostTicks, BootTime, SessionLog, Decoded, Records;
    hide Plain;
    var s := Run(cfg, Begin(cfg, start), ops);
    var log := Log(s);
    BeginLinked(cfg, start);
    BeginSession(cfg, start);
    SessionRun(cfg, Begin(cfg, start), ops);
    SessionTimestamps(Entries(log), cfg.hz, fallbackHz, i);
    HostClockIsTrue(cfg, start, ops, i);
    assert Entries(log[..i + 1]) == Entries(log)[..i + 1];
    if 16 <= cfg.capacity <= 0x1000_0000 && AllAligned(cfg, Begin(cfg, start), ops) {
      HostReadsTheLog(cfg, start, ops);
    }
  }

  /** One call that passes for TIME_SYNC, five ticks after the start. */
  const SYNC_SETUP: Setup := Setup(64, 1_000_000, Drop)

  const SYNC_CALL: Op := Call(EV_TIME_SYNC, [7, 0], 5, 0)

  lemma SyncFits(st: State)
    requires st == Init(SYNC_SETUP, true, 0)
    ensures Fits(SYNC_SETUP, st, EV_TIME_SYNC, |EncodeParams([7, 0])|, 5)
  {
    BootFits(0, 1_000_000);
    assert [7, 0][1..] == [0] && [0][1..] == [];
    assert EncodeParams([0]) == [0] && EncodeParams([7, 0]) == [7, 0];
    assert Leb(5) == [5] && Leb(2) == [2] && Leb(4) == [4];
    hide Leb, EncodeParams, EncodeRecord;
  }

  /** The event's number is taken for a clock setting: at true time 5 the decoder's clock shows 7. */
  lemma ForeignSync()
    ensures var s := Step(SYNC_SETUP, Begin(SYNC_SETUP, 0), SYNC_CALL);
      && Log(s) == [Stamped(Boot(0), 0), Stamped(Event(5, EV_TIME_SYNC, [7, 0]), 5)]
      && HostTicks(Entries(Log(s))) == 5 && ClockAfter(Clock(0, 0), LogRecords(SYNC_SETUP, s)) == Clock(7, 1_000_000)
  {
    var b := Begin(SYNC_SETUP, 0);
    SyncBegin();
    SyncFits(b.st);
    SyncAdded(b.st);
    SyncClock();
    hide Step, Begin, Init, Emit, Fits, EncodeParams, EncodeRecords, ToRecords, ClockAfter, StampAll, HostTicks, Added;
    AcceptStep(SYNC_SETUP, b, SYNC_CALL);
    var log := Log(Step(SYNC_SETUP, b, SYNC_CALL));
    assert log == [Stamped(Boot(0), 0), Stamped(Event(5, EV_TIME_SYNC, [7, 0]), 5)];
    assert Entries(log) == [Boot(0), Event(5, EV_TIME_SYNC, [7, 0])];
  }

  lemma SyncBegin()
    ensures var b := Begin(SYNC_SETUP, 0);
      b.st == Init(SYNC_SETUP, true, 0) && !b.st.gap && b.st.last == 0 && b.done == []
        && b.ring == [Stamped(Boot(0), 0)]
  {
    hide EncodeRecord;
  }

  lemma SyncAdded(st: State)
    requires !st.gap && st.last == 0
    ensures var added := Added(st, EV_TIME_SYNC, [7, 0], 5);
      added == [Event(5, EV_TIME_SYNC, [7, 0])] && StampAll(added, 5) == [Stamped(Event(5, EV_TIME_SYNC, [7, 0]), 5)]
  {
  }

  lemma SyncClock()
    ensures var es := [Boot(0), Event(5, EV_TIME_SYNC, [7, 0])];
      HostTicks(es) == 5 && ClockAfter(Clock(0, 0), ToRecords(es, 1_000_000)) == Clock(7, 1_000_000)
  {
    var es := [Boot(0), Event(5, EV_TIME_SYNC, [7, 0])];
    assert es[..1] == [Boot(0)] && [Boot(0)][..0] == [];
    assert HostTicks([Boot(0)]) == 0;
    var a, b := BootRecord(0, 1_000_000), RawRecord(EV_TIME_SYNC, 5, [7, 0]);
    assert ToRecords(es, 1_000_000) == [a, b];
    SyncTicks();
    TwoTicks(Clock(0, 0), a, b);
    hide Tick, ClockAfter;
  }

  lemma SyncTicks()
    ensures Tick(Clock(0, 0), BootRecord(0, 1_000_000)) == Clock(0, 1_000_000)
    ensures Tick(Clock(0, 1_000_000), RawRecord(EV_TIME_SYNC, 5, [7, 0])) == Clock(7, 1_000_000)
  {
    assert BitOr(7, 0 * Pow2(32)) == 7;
  }

  lemma TwoTicks(c: Clock, a: RawRecord, b: RawRecord)
    ensures ClockAfter(c, [a, b]) == Tick(Tick(c, a), b)
  {
    hide Tick;
    ClockAppend(c, [a], [b]);
    assert [a][1..] == [] && [b][1..] == [] && [a] + [b] == [a, b];
    assert ClockAfter(c, [a]) == Tick(c, a);
  }
}
