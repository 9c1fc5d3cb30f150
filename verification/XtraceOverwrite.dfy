/**
 What the overwrite policy costs. A restart behind a record already partly sent can never be
 read back, and the GAP count of a restart is right only for certain contents of the ring.
 */
module XtraceOverwrite {
  import opened Bytes
  import opened XtraceWire
  import opened XtraceCanonical
  import opened XtraceCount
  import opened XtraceRecorder
  import opened XtraceSession

  // ----- A restart behind a cut record ------------------------------------------------

  predicate Periodic(s: seq<byte>, k: nat) {
    forall i :: k <= i < |s| ==> s[i] == s[i - k]
  }

  lemma {:induction false} BackTo(s: seq<byte>, k: nat, i: nat, m: nat)
    requires i < |s| && m * k <= i
    ensures Periodic(s, k) ==> s[i] == s[i - m * k]
  {
    if m > 0 {
      assert m * k == (m - 1) * k + k;
      BackTo(s, k, i, m - 1);
    }
  }

  lemma PrefixPeriodic(s: seq<byte>, part: seq<byte>)
    ensures s <= part + s ==> Periodic(s, |part|)
  {
    if s <= part + s {
      forall i | |part| <= i < |s| ensures s[i] == s[i - |part|] {
        assert s[i] == (part + s)[i];
      }
    }
  }

  /** Only the value zero is written with a zero byte. */
  lemma {:induction false} LebZero(v: nat, q: nat)
    requires q < |Leb(v)| && Leb(v)[q] == 0
    ensures v == 0 && q == 0 && |Leb(v)| == 1
  {
    if v >= 128 && q > 0 {
      LebZero(v / 128, q - 1);
    }
  }

  lemma BootBytes(ts: u32, hz: u32)
    ensures var b := EncodeRecord(BootRecord(ts, hz));
      4 <= |b| <= 12 && b == [|b| - 1, 1] + Leb(ts) + Leb(hz)
  {
    hide Leb, EncodeRecord;
    RecordBytes(BootRecord(ts, hz));
    SmallSize(ts);
    SmallSize(hz);
    OneByte(1 + |Leb(ts)| + |Leb(hz)|);
  }

  lemma GapBytes(total: u32)
    ensures EncodeRecord(GapRecord(0, total)) == [2 + |Leb(total)|, 0, 0] + Leb(total)
  {
    hide Leb, EncodeRecord;
    RecordBytes(GapRecord(0, total));
    SmallSize(total);
    OneByte(0);
    OneByte(2 + |Leb(total)|);
  }

  /** Past its first three bytes a BOOT record has no two zeros in a row. */
  lemma BootZeros(ts: u32, hz: u32, p: nat)
    requires 3 <= p && p + 1 < |EncodeRecord(BootRecord(ts, hz))|
    ensures var b := EncodeRecord(BootRecord(ts, hz)); b[p] != 0 || b[p + 1] != 0
  {
    hide Leb, EncodeRecord;
    BootBytes(ts, hz);
    var b, n := EncodeRecord(BootRecord(ts, hz)), |Leb(ts)|;
    if b[p] == 0 {
      if p - 2 < n {
        LebZero(ts, p - 2);
      } else {
        LebZero(hz, p - 2 - n);
      }
    }
  }

  /** The same three bytes, as far back as a period allows. */
  lemma FoldBack(s: seq<byte>, k: nat, n: nat) returns (a: nat)
    requires 0 < k < n && n + 2 < |s|
    ensures a < k && (Periodic(s, k) ==> s[n] == s[a] && s[n + 1] == s[a + 1] && s[n + 2] == s[a + 2])
  {
    hide Periodic;
    var m := n / k;
    a := n % k;
    assert n == m * k + a;
    BackTo(s, k, n, m);
    BackTo(s, k, n + 1, m);
    BackTo(s, k, n + 2, m);
  }

  /** BOOT and GAP in a row do not repeat with a period shorter than BOOT. */
  lemma RestartAperiodic(ts: u32, hz: u32, total: u32, tail: seq<byte>, k: nat)
    requires 0 < k < |EncodeRecord(BootRecord(ts, hz))|
    ensures !Periodic(EncodeRecord(BootRecord(ts, hz)) + EncodeRecord(GapRecord(0, total)) + tail, k)
  {
    hide EncodeRecord, Leb, Periodic;
    var boot, gap := EncodeRecord(BootRecord(ts, hz)), EncodeRecord(GapRecord(0, total));
    var s, n := boot + gap + tail, |boot|;
    BootBytes(ts, hz);
    GapBytes(total);
    assert s[n] == gap[0] >= 3 && s[n + 1] == gap[1] == 0 && s[n + 2] == gap[2] == 0;
    var a := FoldBack(s, k, n);
    assert s[1] == boot[1] == 1;
    if a >= 2 && a + 2 < n {
      BootZeros(ts, hz, a + 1);
      assert s[a + 1] == boot[a + 1] && s[a + 2] == boot[a + 2];
    }
  }

  lemma BootEncodable(ts: u32, hz: u32)
    ensures Encodable(BootRecord(ts, hz))
  {
    BootFits(ts, hz);
    hide EncodePayload, Leb;
  }

  lemma ThreeEncoded(a: RawRecord, b: RawRecord, c: RawRecord)
    ensures EncodeRecords([a, b, c]) == EncodeRecord(a) + EncodeRecord(b) + EncodeRecord(c)
  {
    hide EncodeRecord;
    assert [a, b] + [c] == [a, b, c];
    EncodeRecordsAppend([a, b], [c]);
    TwoEncoded(a, b);
    OneEncoded(c);
  }

  /** A proper part of a record does not begin with a whole one. */
  lemma PartHasNoRecord(r: RawRecord, k: nat, first: RawRecord)
    requires Encodable(r) && Encodable(first) && k < |EncodeRecord(r)|
    ensures !(EncodeRecord(first) <= EncodeRecord(r)[..k])
  {
    hide EncodeRecord, Encodable, Records;
    var part, e := EncodeRecord(r)[..k], EncodeRecord(first);
    PartRecord(r, k);
    if e <= part {
      assert part == e + part[|e|..];
      OneRecordThen(first, part[|e|..]);
    }
  }

  lemma PrefixOfSum(e: seq<byte>, rest: seq<byte>, part: seq<byte>)
    requires e + rest <= part + (e + rest) && |e| <= |part|
    ensures e <= part
  {
    assert forall i :: 0 <= i < |e| ==> e[i] == (e + rest)[i] == (part + (e + rest))[i];
  }

  /** Records behind the first part of another are never read back as they were written. */
  lemma RestartMisread(rs: seq<RawRecord>, r: RawRecord, k: nat, ts: u32, hz: u32, total: u32, event: RawRecord)
    requires Encodable(r) && 0 < k < |EncodeRecord(r)| && forall x :: x in rs ==> Encodable(x)
    ensures var fresh3 := [BootRecord(ts, hz), GapRecord(0, total), event];
      Records(EncodeRecords(rs) + (EncodeRecord(r)[..k] + EncodeRecords(fresh3))) != rs + fresh3
  {
    hide EncodeRecord, EncodeRecords, Records, Encodable, Unpadded, Periodic;
    var boot, gap := BootRecord(ts, hz), GapRecord(0, total);
    var fresh3 := [boot, gap, event];
    var part, s := EncodeRecord(r)[..k], EncodeRecords(fresh3);
    ThreeEncoded(boot, gap, event);
    RecordsThen(rs, part + s);
    SameFront(rs, Records(part + s), fresh3);
    CutUnpadded(r, k, fresh3);
    ExactRecords(part + s);
    PrefixPeriodic(s, part);
    BootEncodable(ts, hz);
    PartHasNoRecord(r, k, boot);
    if k < |EncodeRecord(boot)| {
      RestartAperiodic(ts, hz, total, EncodeRecord(event), k);
    } else if s <= part + s {
      AddAssoc(EncodeRecord(boot), EncodeRecord(gap), EncodeRecord(event));
      PrefixOfSum(EncodeRecord(boot), EncodeRecord(gap) + EncodeRecord(event), part);
    }
  }

  // ----- Every point of a run ---------------------------------------------------------

  /** The host would read the whole log from what was sent and what waits in the ring. */
  ghost predicate Readable(cfg: Setup, s: Session) {
    Records(s.sent + s.st.queue) == LogRecords(cfg, s)
  }

  ghost predicate AllReadable(cfg: Setup, s: Session, ops: seq<Op>)
    decreases |ops|
  {
    Readable(cfg, s) && (ops == [] || AllReadable(cfg, Step(cfg, s, ops[0]), ops[1..]))
  }

  lemma WholeReadable(cfg: Setup, s: Session)
    requires Linked(cfg, s) && EachFits(cfg, Log(s)) && s.cut == 0 && cfg.capacity <= 0x1000_0000
    ensures Readable(cfg, s)
  {
    hide Linked, EachFits, Encodable;
    StreamOfLinked(cfg, s);
    AllEncodable(cfg, s);
    WholeRecords(LogRecords(cfg, s));
  }

  /** An overwrite in the middle of a record is never read back. */
  lemma CutUnreadable(cfg: Setup, s: Session, op: Op)
    requires Linked(cfg, s) && EachFits(cfg, Log(s)) && s.cut == 0 && cfg.capacity <= 0x1000_0000
    requires Overwrites(cfg, s, op) && s.part > 0
    ensures !Readable(cfg, Step(cfg, s, op))
  {
    hide Step, Overwrites, EachFits, Encodable, EncodeRecord, EncodeRecords, Records;
    OverwriteStep(cfg, s, op);
    AllEncodable(cfg, s);
    WrittenNothing(cfg);
    var fresh3 := ToRecords(Restart(s, op), cfg.hz);
    var done := ToRecords(Entries(s.done), cfg.hz);
    var r := ToRecord(s.ring[0].entry, cfg.hz);
    CutParts(cfg, s);
    RestartMisread(done, r, s.part, Wrap(op.now), cfg.hz, Wrap(s.st.dropped + Charge(s, op)),
                   RawRecord(op.id, 0, op.params));
    RestartLog(cfg, s, op);
    assert fresh3 == [BootRecord(Wrap(op.now), cfg.hz), GapRecord(0, Wrap(s.st.dropped + Charge(s, op))),
                      RawRecord(op.id, 0, op.params)];
    AddAssoc(EncodeRecords(done), EncodeRecord(r)[..s.part], EncodeRecords(fresh3));
  }

  lemma RestartLog(cfg: Setup, s: Session, op: Op)
    requires op.Call?
    ensures ToRecords(Entries(s.done + StampAll(Restart(s, op), op.now)), cfg.hz)
      == ToRecords(Entries(s.done), cfg.hz) + ToRecords(Restart(s, op), cfg.hz)
  {
    hide ToRecord, Restart;
    EntriesAppend(s.done, StampAll(Restart(s, op), op.now));
    ToRecordsAppend(Entries(s.done), Restart(s, op), cfg.hz);
  }

  /** What was sent, when the last record of it is not whole. */
  lemma CutParts(cfg: Setup, s: Session)
    requires Linked(cfg, s) && s.cut == 0 && s.part > 0
    ensures s.ring != [] && s.part < |EncodeRecord(ToRecord(s.ring[0].entry, cfg.hz))|
    ensures s.sent
      == EncodeRecords(ToRecords(Entries(s.done), cfg.hz)) + EncodeRecord(ToRecord(s.ring[0].entry, cfg.hz))[..s.part]
    ensures ToRecord(s.ring[0].entry, cfg.hz) in LogRecords(cfg, s)
    ensures forall x :: x in ToRecords(Entries(s.done), cfg.hz) ==> x in LogRecords(cfg, s)
  {
    hide EncodeRecord, EncodeRecords, ToRecord;
    if s.ring == [] {
      WrittenNothing(cfg);
    }
    WrittenFirst(cfg, s.ring);
    OneEncoded(ToRecord(s.ring[0].entry, cfg.hz));
    assert ToRecords(Entries([s.ring[0]]), cfg.hz) == [ToRecord(s.ring[0].entry, cfg.hz)];
    EntriesAppend(s.done, s.ring);
    ToRecordsAppend(Entries(s.done), Entries(s.ring), cfg.hz);
    assert ToRecords(Entries(s.ring), cfg.hz)[0] == ToRecord(s.ring[0].entry, cfg.hz);
    FrontPart(Written(cfg, [s.ring[0]]), Written(cfg, s.ring[1..]), s.part);
  }

  lemma FrontPart(a: seq<byte>, b: seq<byte>, n: nat)
    requires n <= |a|
    ensures (a + b)[..n] == a[..n]
  {
  }

  lemma {:induction false} ReadableRun(cfg: Setup, s: Session, ops: seq<Op>)
    requires Linked(cfg, s) && EachFits(cfg, Log(s)) && s.cut == 0 && cfg.capacity <= 0x1000_0000
    ensures AllReadable(cfg, s, ops) <==> AllAligned(cfg, s, ops)
    decreases |ops|
  {
    hide Step, Linked, EachFits, Readable, Overwrites;
    WholeReadable(cfg, s);
    if ops != [] {
      var t := Step(cfg, s, ops[0]);
      CutStep(cfg, s, ops[0]);
      LinkedStep(cfg, s, ops[0]);
      FitsStep(cfg, s, ops[0]);
      if Aligned(cfg, s, ops[0]) {
        ReadableRun(cfg, t, ops[1..]);
      } else {
        CutUnreadable(cfg, s, ops[0]);
      }
    }
  }

  /**
   Target to host for every run under either policy, on a ring of at most 2^28 bytes: at
   every point the host reads the whole log from what was sent and what waits, exactly when
   every overwrite found the bytes sent ending at a record boundary.
   */
  lemma HostReadsIff(cfg: Setup, start: nat, ops: seq<Op>)
    requires 16 <= cfg.capacity <= 0x1000_0000
    ensures AllReadable(cfg, Begin(cfg, start), ops) <==> AllAligned(cfg, Begin(cfg, start), ops)
  {
    BeginLinked(cfg, start);
    BeginFits(cfg, start);
    hide Linked, EachFits, AllReadable, AllAligned;
    ReadableRun(cfg, Begin(cfg, start), ops);
  }

  // ----- What a restart charges -------------------------------------------------------

  /** Every waiting GAP stands for one lost call. */
  ghost predicate GapsOnce(ring: seq<Entry>) {
    forall i :: 0 <= i < |ring| && ring[i].Gap? ==> ring[i].lost == 1
  }

  /** One waiting GAP stands for two lost calls, every other for one. */
  ghost predicate OneGapTwice(ring: seq<Entry>) {
    exists g: nat :: g < |ring| && ring[g].Gap? && ring[g].lost == 2
      && forall i :: 0 <= i < |ring| && i != g && ring[i].Gap? ==> ring[i].lost == 1
  }

  /**
   The records of this ring number the calls they stand for: when BOOT has been sent, each
   waiting GAP stands for one call; when BOOT still waits, one of them stands for two.
   */
  ghost predicate ChargeIsRight(ring: seq<Entry>) {
    if ring != [] && ring[0].Boot? then OneGapTwice(ring) else GapsOnce(ring)
  }

  /** BOOT comes first if at all, and no GAP is written without a loss. */
  ghost predicate Shaped(ring: seq<Entry>) {
    && (forall i :: 0 < i < |ring| ==> !ring[i].Boot?)
    && (forall i :: 0 <= i < |ring| && ring[i].Gap? ==> ring[i].lost >= 1)
  }

  /** Losses the GAP records of a ring count beyond one each. */
  function Excess(ring: seq<Entry>): int {
    if ring == [] then 0
    else Excess(ring[..|ring| - 1]) + if ring[|ring| - 1].Gap? then ring[|ring| - 1].lost - 1 else 0
  }

  lemma {:induction false} ExcessFacts(ring: seq<Entry>)
    requires Shaped(ring)
    ensures Excess(ring) >= 0 && (Excess(ring) == 0 <==> GapsOnce(ring)) && (Excess(ring) == 1 <==> OneGapTwice(ring))
    ensures Events(ring) + Lost(ring) == |ring| + Excess(ring) - if ring != [] && ring[0].Boot? then 1 else 0
    decreases |ring|
  {
    if ring != [] {
      var front, last := ring[..|ring| - 1], ring[|ring| - 1];
      assert ring == front + [last];
      ExcessFacts(front);
      CountSnoc(front, last);
      ExcessSnoc(front, last);
      GapsSnoc(front, last);
      hide Excess, Events, Lost, GapsOnce, OneGapTwice;
    }
  }

  lemma ExcessSnoc(front: seq<Entry>, last: Entry)
    ensures Excess(front + [last]) == Excess(front) + if last.Gap? then last.lost - 1 else 0
  {
    assert (front + [last])[..|front|] == front;
  }

  lemma GapsSnoc(front: seq<Entry>, last: Entry)
    requires last.Gap? ==> last.lost >= 1
    ensures GapsOnce(front + [last]) <==> GapsOnce(front) && (last.Gap? ==> last.lost == 1)
    ensures OneGapTwice(front + [last]) <==>
      (OneGapTwice(front) && (last.Gap? ==> last.lost == 1)) || (GapsOnce(front) && last.Gap? && last.lost == 2)
  {
    var all := front + [last];
    assert forall i :: 0 <= i < |front| ==> all[i] == front[i];
    assert all[|front|] == last;
    if GapsOnce(front) && last.Gap? && last.lost == 2 {
      assert OneGapTwice(all);
    } else if OneGapTwice(front) {
      var g: nat :| g < |front| && front[g].Gap? && front[g].lost == 2
        && forall i :: 0 <= i < |front| && i != g && front[i].Gap? ==> front[i].lost == 1;
      assert all[g].Gap? && all[g].lost == 2;
    }
    if OneGapTwice(all) {
      var g: nat :| g < |all| && all[g].Gap? && all[g].lost == 2
        && forall i :: 0 <= i < |all| && i != g && all[i].Gap? ==> all[i].lost == 1;
      if g < |front| {
        assert front[g].Gap? && front[g].lost == 2;
      }
    }
  }

  /** A ring of whole records is charged for exactly the calls it stands for, or not. */
  lemma ChargeMeaning(ring: seq<Entry>)
    requires Shaped(ring)
    ensures |ring| == Events(ring) + Lost(ring) <==> ChargeIsRight(ring)
    ensures |ring| <= Events(ring) + Lost(ring) + 1
  {
    hide Excess, Events, Lost, GapsOnce, OneGapTwice, Shaped;
    ExcessFacts(ring);
  }

  /** An overwrite finds such a ring, and no loss wraps the loss counter. */
  ghost predicate Right(cfg: Setup, s: Session, op: Op) {
    && (Overwrites(cfg, s, op) ==> ChargeIsRight(Entries(s.ring)) && s.st.dropped + |s.ring| < 0x1_0000_0000)
    && (op.Call? && !Accepts(cfg, s, op) && !Overwrites(cfg, s, op) ==> s.st.dropped < 0xFFFF_FFFF)
  }

  ghost predicate AllRight(cfg: Setup, s: Session, ops: seq<Op>)
    decreases |ops|
  {
    ops == [] || (Right(cfg, s, ops[0]) && AllRight(cfg, Step(cfg, s, ops[0]), ops[1..]))
  }

  /** What holds of the ring as long as the counts are right. */
  ghost predicate Kept(s: Session) {
    Shaped(Entries(s.ring)) && (s.st.gap ==> s.st.dropped >= 1)
  }

  /** An empty ring with no gap pending has room for whatever a restart has room for. */
  lemma EmptyRingFits(cfg: Setup, st: State, id: u32, params: seq<u32>, ts: u32, total: u32)
    requires st.queue == [] && !st.gap
    requires |EncodeRecords(ToRecords([Boot(ts), Gap(0, total), Event(0, id, params)], cfg.hz))| < cfg.capacity
    ensures Fits(cfg, st, id, |EncodeParams(params)|, ts)
  {
    hide EncodeRecord, EncodeRecords, EncodeParams, Leb, Header, ToRecords;
    RestartRecords(cfg, id, params, ts, total);
    var delta, n := Wrap(ts - st.last), |EncodeParams(params)|;
    BootBytes(ts, cfg.hz);
    GapBytes(total);
    SmallSize(total);
    LongerHeader(id, delta, n);
  }

  lemma LongerHeader(id: u32, delta: u32, extra: nat)
    ensures RecordSize(id, delta, extra) <= RecordSize(id, 0, extra) + 5
  {
    hide Leb;
    SmallSize(delta);
    OneByte(0);
    LebMonotone(|Leb(id)| + |Leb(delta)| + extra, |Leb(id)| + |Leb(0)| + extra + 4);
    LebPlusFour(|Leb(id)| + |Leb(0)| + extra);
  }

  lemma {:induction false} LebPlusFour(n: nat)
    ensures |Leb(n + 4)| <= |Leb(n)| + 1
    decreases n
  {
    if n >= 128 {
      if (n + 4) / 128 == n / 128 {
      } else {
        assert (n + 4) / 128 == n / 128 + 1;
        LebPlusFour(n / 128);
        LebMonotone(n / 128 + 1, n / 128 + 4);
      }
    }
  }

  lemma KeptAccept(cfg: Setup, s: Session, op: Op)
    requires Kept(s) && Accepts(cfg, s, op)
    ensures Kept(Step(cfg, s, op))
  {
    var added := Added(s.st, op.id, op.params, Wrap(op.now));
    hide Step, Accepts, EncodeRecords, ToRecords, StampAll;
    AcceptStep(cfg, s, op);
    EntriesAppend(s.ring, StampAll(added, op.now));
    hide Entries;
    var r := Entries(s.ring);
    assert forall i :: 0 <= i < |r + added| ==> (r + added)[i] == if i < |r| then r[i] else added[i - |r|];
  }

  lemma {:induction false} LeaveSuffix(cfg: Setup, p: Progress)
    ensures |Leave(cfg, p).ring| <= |p.ring|
    ensures Leave(cfg, p).ring == p.ring[|p.ring| - |Leave(cfg, p).ring|..]
    decreases |p.ring|
  {
    hide SizeOf;
    if p.ring != [] && p.part >= SizeOf(cfg, p.ring[0]) {
      LeaveSuffix(cfg, Progress(p.done + [p.ring[0]], p.ring[1..], p.part - SizeOf(cfg, p.ring[0])));
    }
  }

  lemma KeptDrain(cfg: Setup, s: Session, n: nat)
    requires Kept(s)
    ensures Kept(Step(cfg, s, Drain(n)))
  {
    hide Leave;
    var k := if n <= |s.st.queue| then n else |s.st.queue|;
    var p := Progress(s.done, s.ring, s.part + k);
    LeaveSuffix(cfg, p);
    var d := |s.ring| - |Leave(cfg, p).ring|;
    assert forall i :: 0 <= i < |s.ring| - d ==> Entries(Leave(cfg, p).ring)[i] == Entries(s.ring)[i + d];
    DrainKeeps(cfg, s, n);
  }

  /** A restart that keeps the balance charges at least one call. */
  lemma RestartCharges(cfg: Setup, s: Session, op: Op)
    requires Kept(s) && Linked(cfg, s) && s.part == 0 && Overwrites(cfg, s, op) && ChargeIsRight(Entries(s.ring))
    requires s.st.dropped + |s.ring| < 0x1_0000_0000
    ensures Wrap(s.st.dropped + Charge(s, op)) >= 1
  {
    hide ChargeIsRight, Shaped, Emit, EncodeRecords, ToRecords, Fits, Written, SizeOf;
    if s.ring == [] && s.st.dropped == 0 {
      WrittenNothing(cfg);
      assert s.st.queue == [] && !s.st.gap;
      EmptyRingFits(cfg, s.st, op.id, op.params, Wrap(op.now), Wrap(s.st.dropped + Charge(s, op)));
      assert false;
    }
  }

  lemma KeptOverwrite(cfg: Setup, s: Session, op: Op)
    requires Overwrites(cfg, s, op) && Wrap(s.st.dropped + Charge(s, op)) >= 1
    ensures Kept(Step(cfg, s, op))
  {
    hide Step, Overwrites, EncodeRecords, ToRecords, StampAll, Charge, Entries;
    OverwriteStep(cfg, s, op);
  }

  lemma KeptLost(cfg: Setup, s: Session, op: Op)
    requires Kept(s) && op.Call? && !Accepts(cfg, s, op) && !Overwrites(cfg, s, op) && s.st.dropped < 0xFFFF_FFFF
    ensures Kept(Step(cfg, s, op))
  {
    hide Step, Overwrites, Accepts, Shaped, Entries;
    LostStep(cfg, s, op);
  }

  /** A counter that wraps is never right. */
  lemma NoWrapWhenRight(dropped: u32, n: nat, lost: nat)
    requires n <= lost + 1
    ensures Wrap(dropped + Wrap(n)) == dropped + lost <==> dropped + n < 0x1_0000_0000 && n == lost
  {
    assert Wrap(dropped + Wrap(n)) == Wrap(dropped + n);
  }

  /** At an aligned step the structural condition is the balance. */
  lemma RightIsCounted(cfg: Setup, s: Session, op: Op)
    requires Kept(s) && Linked(cfg, s) && Balanced(s) && Aligned(cfg, s, op)
    ensures Counted(cfg, s, op) <==> Right(cfg, s, op)
    ensures Counted(cfg, s, op) ==> Kept(Step(cfg, s, op))
  {
    hide Linked, Step, Shaped, ChargeIsRight, Accepts, Overwrites, Events, Lost, Entries;
    NotBoth(cfg, s, op);
    if op.Drain? {
      KeptDrain(cfg, s, op.n);
      assert !Overwrites(cfg, s, op);
    } else if Accepts(cfg, s, op) {
      KeptAccept(cfg, s, op);
    } else if Overwrites(cfg, s, op) {
      ChargeMeaning(Entries(s.ring));
      NoWrapWhenRight(s.st.dropped, |s.ring|, Events(Entries(s.ring)) + Lost(Entries(s.ring)));
      if ChargeIsRight(Entries(s.ring)) && s.st.dropped + |s.ring| < 0x1_0000_0000 {
        RestartCharges(cfg, s, op);
        KeptOverwrite(cfg, s, op);
      }
    } else {
      if s.st.dropped < 0xFFFF_FFFF {
        KeptLost(cfg, s, op);
      }
    }
  }

  lemma {:induction false} RightRun(cfg: Setup, s: Session, ops: seq<Op>)
    requires Kept(s) && Linked(cfg, s) && Balanced(s) && AllAligned(cfg, s, ops)
    ensures AllCounted(cfg, s, ops) <==> AllRight(cfg, s, ops)
    decreases |ops|
  {
    hide Step, Linked, Kept, Balanced, Counted, Right, Aligned;
    if ops != [] {
      RightIsCounted(cfg, s, ops[0]);
      BalancedStep(cfg, s, ops[0]);
      LinkedStep(cfg, s, ops[0]);
      if Counted(cfg, s, ops[0]) {
        RightRun(cfg, Step(cfg, s, ops[0]), ops[1..]);
      }
    }
  }

  lemma BeginKept(cfg: Setup, start: nat)
    ensures Kept(Begin(cfg, start))
  {
  }

  /**
   When the counts of a run are the calls lost: at every point every call is an event of the
   log, counted by a GAP of the log, or in the loss counter, exactly when every overwrite
   found in the ring either BOOT sent and every GAP standing for one call, or BOOT waiting
   and one GAP standing for two, the others for one, and no loss wrapped the counter.
   */
  lemma OverwriteCounts(cfg: Setup, start: nat, ops: seq<Op>)
    requires AllAligned(cfg, Begin(cfg, start), ops)
    ensures AllBalanced(cfg, Begin(cfg, start), ops) <==> AllRight(cfg, Begin(cfg, start), ops)
  {
    BeginKept(cfg, start);
    BeginLinked(cfg, start);
    BeginBalanced(cfg, start);
    hide Begin, Linked, Kept, Balanced, AllBalanced, AllRight, AllCounted, AllAligned;
    BalancedRun(cfg, Begin(cfg, start), ops);
    RightRun(cfg, Begin(cfg, start), ops);
  }

  // ----- Two runs ---------------------------------------------------------------------

  /** The smallest ring, one tick a second, overwriting. */
  const SMALL: Setup := Setup(16, 1, Overwrite)

  const PARAMS: seq<u32> := [1, 2, 3, 4]

  function Emitting(walk: u32): Op { Call(32, PARAMS, 0, walk) }

  lemma SmallBytes(lost: u32)
    requires lost < 128
    ensures EncodeRecord(BootRecord(0, 1)) == [3, 1, 0, 1] && EncodeRecord(GapRecord(0, lost)) == [3, 0, 0, lost]
  {
    hide EncodeRecord;
    BootBytes(0, 1);
    GapBytes(lost);
  }

  lemma EventBytes()
    ensures EncodeParams(PARAMS) == [1, 2, 3, 4] && EncodeRecord(RawRecord(32, 0, PARAMS)) == [6, 32, 0, 1, 2, 3, 4]
    ensures RecordSize(32, 0, 4) == 7
  {
    ParamBytes();
    hide EncodeParams;
    assert EncodePayload(RawRecord(32, 0, PARAMS)) == [32, 0, 1, 2, 3, 4];
  }

  lemma ParamBytes()
    ensures EncodeParams(PARAMS) == [1, 2, 3, 4]
  {
    assert PARAMS[1..] == [2, 3, 4] && [2, 3, 4][1..] == [3, 4] && [3, 4][1..] == [4] && [4][1..] == [];
    assert EncodeParams([4]) == [4] && EncodeParams([3, 4]) == [3, 4] && EncodeParams([2, 3, 4]) == [2, 3, 4];
  }

  /** The session after its first event, and what a restart would write. */
  const FILLED: Session :=
    Session(State([3, 1, 0, 1, 6, 32, 0, 1, 2, 3, 4], 0, 0, false), [], [],
            [Stamped(Boot(0), 0), Stamped(Event(0, 32, PARAMS), 0)], 0, 0, 1, 0)

  lemma FirstEvent(walk: u32)
    ensures Step(SMALL, Begin(SMALL, 0), Emitting(walk)) == FILLED
  {
    FirstFits(walk);
    hide Step, EncodeRecord, EncodeRecords, EncodeParams, Header, Leb, Accepts, Emit, Fits, StampAll, ToRecords;
    SmallBytes(0);
    EventBytes();
    var s := Begin(SMALL, 0);
    AcceptStep(SMALL, s, Emitting(walk));
    FirstAdded();
    OneEncoded(RawRecord(32, 0, PARAMS));
    assert [3, 1, 0, 1] + [6, 32, 0, 1, 2, 3, 4] == FILLED.st.queue;
  }

  lemma FirstAdded()
    ensures var added := Added(State([3, 1, 0, 1], 0, 0, false), 32, PARAMS, 0);
      && added == [Event(0, 32, PARAMS)] && ToRecords(added, 1) == [RawRecord(32, 0, PARAMS)]
      && [Stamped(Boot(0), 0)] + StampAll(added, 0) == FILLED.ring
  {
  }

  lemma FirstFits(walk: u32)
    ensures Accepts(SMALL, Begin(SMALL, 0), Emitting(walk))
  {
    hide EncodeRecord, EncodeParams, Header, Leb;
    SmallBytes(0);
    EventBytes();
  }

  /** A second event finds no room beside a ring of ten or more bytes and overwrites it. */
  lemma SecondEvent(s: Session, walk: u32)
    requires |s.st.queue| >= 10 && s.st.dropped == 0 && s.st.last == 0 && !s.st.gap && Charge(s, Emitting(walk)) < 128
    ensures Overwrites(SMALL, s, Emitting(walk))
    ensures EncodeRecords(ToRecords(Restart(s, Emitting(walk)), 1))
      == [3, 1, 0, 1] + [3, 0, 0, Charge(s, Emitting(walk))] + [6, 32, 0, 1, 2, 3, 4]
  {
    hide EncodeRecord, EncodeRecords, Leb, Header, EncodeParams;
    var n := Charge(s, Emitting(walk));
    SmallBytes(n);
    EventBytes();
    ThreeEncoded(BootRecord(0, 1), GapRecord(0, n), RawRecord(32, 0, PARAMS));
    assert ToRecords(Restart(s, Emitting(walk)), 1) == [BootRecord(0, 1), GapRecord(0, n), RawRecord(32, 0, PARAMS)];
    hide ToRecords;
  }

  /**
   Nothing is sent: the restart counts BOOT and the event as two lost calls, though only one
   was lost, so the count is wrong from the first overwrite on.
   */
  lemma MiscountedRun(walk: u32)
    ensures var ops := [Emitting(walk), Emitting(walk)]; var s := Run(SMALL, Begin(SMALL, 0), ops);
      && AllAligned(SMALL, Begin(SMALL, 0), ops) && !AllBalanced(SMALL, Begin(SMALL, 0), ops)
      && Entries(Log(s)) == [Boot(0), Gap(0, 2), Event(0, 32, PARAMS)] && s.calls == 2
  {
    hide Step, Begin, Overwrites, Right, Entries, Run, AllAligned, AllRight, AllBalanced, Accepts, Log;
    var op := Emitting(walk);
    FirstEvent(walk);
    MiscountedStep(walk);
    FirstFits(walk);
    NotBoth(SMALL, Begin(SMALL, 0), op);
    TwoSteps(SMALL, Begin(SMALL, 0), op, op);
    OverwriteCounts(SMALL, 0, [op, op]);
  }

  lemma MiscountedStep(walk: u32)
    ensures var op := Emitting(walk); var t := Step(SMALL, FILLED, op);
      && Aligned(SMALL, FILLED, op) && !Right(SMALL, FILLED, op)
      && Entries(Log(t)) == [Boot(0), Gap(0, 2), Event(0, 32, PARAMS)] && t.calls == 2
  {
    hide Step, Overwrites, EncodeRecords, ToRecords, ChargeIsRight;
    var op := Emitting(walk);
    SecondEvent(FILLED, walk);
    OverwriteStep(SMALL, FILLED, op);
    FilledIsWrong();
    assert [] + StampAll(Restart(FILLED, op), 0) == StampAll(Restart(FILLED, op), 0);
  }

  lemma FilledIsWrong()
    ensures !ChargeIsRight(Entries(FILLED.ring))
  {
    assert Entries(FILLED.ring) == [Boot(0), Event(0, 32, PARAMS)];
  }

  lemma TwoSteps(cfg: Setup, s: Session, a: Op, b: Op)
    ensures Run(cfg, s, [a, b]) == Step(cfg, Step(cfg, s, a), b)
    ensures AllAligned(cfg, s, [a, b]) <==> Aligned(cfg, s, a) && Aligned(cfg, Step(cfg, s, a), b)
    ensures AllRight(cfg, s, [a, b]) <==> Right(cfg, s, a) && Right(cfg, Step(cfg, s, a), b)
  {
    hide Step, Aligned, Right;
    assert [a, b][1..] == [b] && [b][1..] == [];
    var t := Step(cfg, s, a);
    assert Run(cfg, t, [b]) == Run(cfg, Step(cfg, t, b), []);
    assert AllAligned(cfg, t, [b]) <==> Aligned(cfg, t, b) && AllAligned(cfg, Step(cfg, t, b), []);
    assert AllRight(cfg, t, [b]) <==> Right(cfg, t, b) && AllRight(cfg, Step(cfg, t, b), []);
  }

  /** What the count loop comes to on such a ring once its first byte is sent. */
  lemma MidRecordCount(buf: seq<byte>)
    requires |buf| == 16 && buf[..11] == FILLED.st.queue
    ensures EndsIn(buf, 11, Walker(1, 0, 0), 3) && WalkFrom(buf, 11, Walker(1, 0, 0), 3) == 3
  {
    hide EndsIn, WalkFrom;
    assert buf[..11][1] == buf[1] && buf[..11][3] == buf[3] && buf[..11][5] == buf[5];
    ThreeRounds(buf);
  }

  lemma ThreeRounds(buf: seq<byte>)
    requires |buf| == 16 && buf[1] == 1 && buf[3] == 1 && buf[5] == 32
    ensures EndsIn(buf, 11, Walker(1, 0, 0), 3) && WalkFrom(buf, 11, Walker(1, 0, 0), 3) == 3
  {
    hide WalkStep, EndsIn, WalkFrom;
    CountDone(buf, 11, Walker(6, 37, 3));
    ShortStep(buf, Walker(5, 4, 2));
    CountStep(buf, 11, Walker(5, 4, 2), 1);
    ShortStep(buf, Walker(3, 2, 1));
    CountStep(buf, 11, Walker(3, 2, 1), 2);
    ShortStep(buf, Walker(1, 0, 0));
    CountStep(buf, 11, Walker(1, 0, 0), 3);
  }

  lemma CountDone(buf: seq<byte>, to: nat, w: Walker)
    requires w.pos < |buf| && WalkDone(buf, to, w)
    ensures EndsIn(buf, to, w, 0) && WalkFrom(buf, to, w, 0) == w.count
  {
    hide WalkStep;
  }

  lemma CountStep(buf: seq<byte>, to: nat, w: Walker, n: nat)
    requires w.pos < |buf| && n > 0 && !WalkDone(buf, to, w) && EndsIn(buf, to, WalkStep(buf, w), n - 1)
    ensures EndsIn(buf, to, w, n) && WalkFrom(buf, to, w, n) == WalkFrom(buf, to, WalkStep(buf, w), n - 1)
  {
    hide WalkStep, WalkDone;
  }

  /** One round over a one-byte length. */
  lemma ShortStep(buf: seq<byte>, w: Walker)
    requires |buf| == 16 && w.pos < 15 && buf[w.pos] < 128 && w.traversed < 1000 && w.count < 1000
    ensures WalkStep(buf, w) == Walker((w.pos + 1 + buf[w.pos]) % 16, w.traversed + 1 + buf[w.pos], w.count + 1)
  {
    hide WalkStep;
    var b := buf[w.pos];
    assert AddGroup(0, 0, b) == b;
    StepOf(buf, w, Prefix(w.pos + 1, b, 1));
  }

  const MISREAD: seq<byte> := [3, 3, 1, 0, 1, 3, 0, 0, 3, 6, 32, 0, 1, 2, 3, 4]

  lemma FirstByteSent()
    ensures Step(SMALL, FILLED, Drain(1))
      == FILLED.(st := FILLED.st.(queue := FILLED.st.queue[1..]), sent := [3], part := 1)
  {
    hide EncodeRecord;
    SmallBytes(0);
    assert SizeOf(SMALL, FILLED.ring[0]) == 4;
    assert FILLED.st.queue[..1] == [3];
  }

  /**
   One byte of BOOT is sent when the second event overwrites the ring. The host shows a
   record nobody wrote and stops.
   */
  lemma MisreadRun(walk: u32)
    ensures var ops := [Emitting(walk), Drain(1), Emitting(3)]; var s := Run(SMALL, Begin(SMALL, 0), ops);
      && s.sent + s.st.queue == MISREAD && Records(MISREAD) == [RawRecord(3, 1, [0])]
      && Entries(Log(s)) == [Boot(0), Gap(0, 3), Event(0, 32, PARAMS)] && !AllAligned(SMALL, Begin(SMALL, 0), ops)
  {
    hide Step, Begin, Run, AllAligned, Records, Entries, Log, Aligned;
    FirstEvent(walk);
    FirstByteSent();
    MisreadStep();
    MisreadRecords();
    TwoSteps(SMALL, FILLED, Drain(1), Emitting(3));
    FirstStep(SMALL, Begin(SMALL, 0), Emitting(walk), [Drain(1), Emitting(3)]);
    assert [Emitting(walk)] + [Drain(1), Emitting(3)] == [Emitting(walk), Drain(1), Emitting(3)];
  }

  lemma FirstStep(cfg: Setup, s: Session, a: Op, rest: seq<Op>)
    ensures Run(cfg, s, [a] + rest) == Run(cfg, Step(cfg, s, a), rest)
    ensures AllAligned(cfg, s, [a] + rest) ==> AllAligned(cfg, Step(cfg, s, a), rest)
  {
    hide Step, Aligned;
    assert ([a] + rest)[1..] == rest;
  }

  lemma MisreadStep()
    ensures var s := FILLED.(st := FILLED.st.(queue := FILLED.st.queue[1..]), sent := [3], part := 1);
      var t := Step(SMALL, s, Emitting(3));
      && !Aligned(SMALL, s, Emitting(3)) && t.sent + t.st.queue == MISREAD
      && Entries(Log(t)) == [Boot(0), Gap(0, 3), Event(0, 32, PARAMS)]
  {
    hide Step, Overwrites, EncodeRecords, ToRecords;
    var s := FILLED.(st := FILLED.st.(queue := FILLED.st.queue[1..]), sent := [3], part := 1);
    var op := Emitting(3);
    SecondEvent(s, 3);
    OverwriteStep(SMALL, s, op);
    assert [] + StampAll(Restart(s, op), 0) == StampAll(Restart(s, op), 0);
  }

  lemma MisreadRecords()
    ensures Records(MISREAD) == [RawRecord(3, 1, [0])]
  {
    var r := RawRecord(3, 1, [0]);
    RecordBytes(r);
    OneByte(0);
    OneByte(1);
    OneByte(3);
    var rest := MISREAD[4..];
    assert EncodeRecord(r) == [3, 3, 1, 0];
    assert MISREAD == EncodeRecord(r) + rest;
    MisreadEncodable();
    MisreadStops(rest);
    hide Records, EncodeRecord, Encodable;
    OneRecordThen(r, rest);
  }

  lemma MisreadEncodable()
    ensures Encodable(RawRecord(3, 1, [0]))
  {
    assert [0][1..] == [];
    assert EncodeParams([0]) == [0];
  }

  /** A payload of one byte ends before its time delta. */
  lemma MisreadStops(rest: seq<byte>)
    requires |rest| >= 2 && rest[0] == 1 && rest[1] == 3
    ensures Records(rest) == []
  {
    assert rest[1..2] == [3];
    assert DecodeVarint(rest, 0, false) == Value(1, 1) && DecodeVarint([3], 0, true) == Value(3, 1);
    assert [3][1..] == [] && DecodeVarint([], 0, true) == Eof;
    hide DecodeVarint, DecodeParams;
    assert DecodePayload([3], 2) == Truncated;
    assert DecodeRecord(rest) == Truncated;
  }
}
