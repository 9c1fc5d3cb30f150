/**
 The target side of xTrace: a byte ring filled by `Emit`, drained by `Flush`, with an
 overrun policy. `Start` and `Emit` are the specification of one call on values, and the
 class is proved against them.
 */
module XtraceRecorder {
  import opened Bytes
  import opened Ring
  import opened XtraceWire
  import opened XtraceCount

  datatype Policy = Drop | Overwrite

  /** What `xTRACE_Init` fixes for a session. */
  datatype Setup = Setup(capacity: nat, hz: u32, policy: Policy)

  /** What a call may change: bytes not yet flushed, loss counter, last time stamp, pending gap. */
  datatype State = State(queue: seq<byte>, dropped: u32, last: u32, gap: bool)

  function GapRecord(delta: u32, dropped: u32): RawRecord { RawRecord(EV_GAP, delta, [dropped]) }
  function BootRecord(ts: u32, hz: u32): RawRecord { RawRecord(EV_BOOT, ts, [hz]) }

  // ----- One call, in bytes ----------------------------------------------------------

  /** Length prefix, event id and delta of a record whose parameters take `extra` bytes. */
  function Header(id: nat, delta: nat, extra: nat): seq<byte> {
    Leb(|Leb(id)| + |Leb(delta)| + extra) + Leb(id) + Leb(delta)
  }

  function RecordSize(id: nat, delta: nat, extra: nat): nat {
    |Header(id, delta, extra)| + extra
  }

  datatype Started = Started(st: State, ok: bool)

  /** What a restart writes before the event. */
  function RestartHead(cfg: Setup, st: State, ts: u32, overwritten: nat): seq<byte> {
    EncodeRecord(BootRecord(ts, cfg.hz)) + EncodeRecord(GapRecord(0, Wrap(st.dropped + overwritten)))
  }

  /** The overwrite policy restarts the ring when BOOT, GAP and the event fit it empty. */
  predicate Restarts(cfg: Setup, st: State, id: nat, extra: nat, ts: u32, overwritten: nat) {
    cfg.policy.Overwrite? && |RestartHead(cfg, st, ts, overwritten)| + RecordSize(id, 0, extra) < cfg.capacity
  }

  /** What a call that fits writes before the parameters: the pending gap first. */
  function AppendBytes(st: State, id: nat, extra: nat, ts: u32): seq<byte> {
    var delta := Wrap(ts - st.last);
    if st.gap then EncodeRecord(GapRecord(delta, st.dropped)) + Header(id, 0, extra) else Header(id, delta, extra)
  }

  /** The bytes `emit_start` puts into the ring. */
  function StartBytes(cfg: Setup, st: State, id: nat, extra: nat, ts: u32, overwritten: nat): seq<byte> {
    if Fits(cfg, st, id, extra, ts) then AppendBytes(st, id, extra, ts)
    else if Restarts(cfg, st, id, extra, ts, overwritten) then
      RestartHead(cfg, st, ts, overwritten) + Header(id, 0, extra)
    else []
  }

  /**
   `emit_start`: everything but the parameters. `overwritten` is the record count the
   overwrite policy charges for what it throws away.
   */
  function Start(cfg: Setup, st: State, id: nat, extra: nat, ts: u32, overwritten: nat): Started {
    var bytes := StartBytes(cfg, st, id, extra, ts, overwritten);
    if Fits(cfg, st, id, extra, ts) then
      Started(State(st.queue + bytes, if st.gap then 0 else st.dropped, ts, false), true)
    else if Restarts(cfg, st, id, extra, ts, overwritten) then Started(State(bytes, 0, ts, false), true)
    else Started(st.(dropped := Wrap(st.dropped + 1), gap := true), false)
  }

  /** One `xTRACE_Emit*` call on an enabled event. */
  function Emit(cfg: Setup, st: State, id: nat, params: seq<nat>, ts: u32, overwritten: nat): State {
    var s := Start(cfg, st, id, |EncodeParams(params)|, ts, overwritten);
    if s.ok then s.st.(queue := s.st.queue + EncodeParams(params)) else s.st
  }

  /** The bytes the whole call puts into the ring. */
  function EmitBytes(cfg: Setup, st: State, id: nat, params: seq<nat>, ts: u32, overwritten: nat): seq<byte> {
    StartBytes(cfg, st, id, |EncodeParams(params)|, ts, overwritten)
    + if Start(cfg, st, id, |EncodeParams(params)|, ts, overwritten).ok then EncodeParams(params) else []
  }

  /** The session starts with a BOOT record when the recorder is enabled. */
  function Init(cfg: Setup, enabled: bool, ts: u32): State {
    State(if enabled then EncodeRecord(BootRecord(ts, cfg.hz)) else [], 0, ts, false)
  }

  /** A ring of the smallest allowed size always has room for the first BOOT record. */
  lemma BootFits(ts: u32, hz: u32)
    ensures |EncodeRecord(BootRecord(ts, hz))| <= 12
  {
    PowFacts();
    LebSize(ts, 5);
    LebSize(hz, 5);
    var r := BootRecord(ts, hz);
    assert EncodeParams(r.params) == Leb(hz) by { assert r.params[1..] == []; }
    assert |EncodePayload(r)| <= 11;
  }

  // ----- The recorder ----------------------------------------------------------------

  /** The flush transport: takes some prefix of what it is offered, or fails. */
  class Transport {
    var plan: seq<int>       // bytes taken by each coming call; a negative number is a failure
    ghost var sent: seq<byte>
    ghost var offered: seq<seq<byte>>  // the data of every call

    constructor (plan: seq<int>)
      ensures this.plan == plan && sent == [] && offered == []
    {
      this.plan, this.sent, this.offered := plan, [], [];
    }

    method Write(data: seq<byte>) returns (ok: bool, written: nat)
      modifies this
      ensures sent == old(sent) + if ok && written <= |data| then data[..written] else []
      ensures offered == old(offered) + [data]
      ensures if old(plan) == [] then plan == [] && !ok else
        plan == old(plan)[1..] && ok == (old(plan)[0] >= 0) && (ok ==> written == old(plan)[0])
    {
      offered := offered + [data];
      ok, written := false, 0;
      if plan != [] {
        ok, written := plan[0] >= 0, if plan[0] >= 0 then plan[0] else 0;
        plan := plan[1..];
      }
      sent := sent + if ok && written <= |data| then data[..written] else [];
    }
  }

  /** The pieces of memory a flush offers, one after the other, when each is taken whole. */
  ghost function Blocks(buf: seq<byte>, from: nat, to: nat): seq<seq<byte>>
    requires from < |buf| && to < |buf|
  {
    if from == to then [] else if from < to then [buf[from..to]]
    else [buf[from..]] + if to == 0 then [] else [buf[..to]]
  }

  ghost predicate TakesWhole(plan: seq<int>, blocks: seq<seq<byte>>) {
    |blocks| <= |plan| && forall i :: 0 <= i < |blocks| ==> plan[i] == |blocks[i]|
  }

  /** A write of this data takes part of it, perhaps nothing, and does not fail. */
  ghost predicate Takes(plan: seq<int>, i: nat, data: seq<byte>) {
    i < |plan| && 0 <= plan[i] <= |data|
  }

  /** None of these writes fails or takes nothing. */
  ghost predicate TakesSome(plan: seq<int>, offers: seq<seq<byte>>) {
    |offers| <= |plan| && forall i :: 0 <= i < |offers| ==> Takes(plan, i, offers[i]) && plan[i] > 0
  }

  /** A flush goes on while writes take something; it fails exactly when the last one does, and may stop at nothing. */
  ghost predicate FlushEnds(plan: seq<int>, offers: seq<seq<byte>>, ok: bool, empty: bool) {
    if offers == [] then ok && empty
    else
      var last := |offers| - 1;
      && TakesSome(plan, offers[..last])
      && (ok <==> Takes(plan, last, offers[last]))
      && (empty <==> ok && plan[last] > 0)
  }

  lemma NoOffers(plan: seq<int>, offers: seq<seq<byte>>)
    ensures TakesSome(plan, offers[|offers|..]) && plan[0..] == plan && offers[|offers|..] == []
  {
  }

  lemma OneMore(plan: seq<int>, offers: seq<seq<byte>>, more: seq<seq<byte>>)
    requires TakesSome(plan, offers) && |more| == |offers| + 1 && offers <= more
    ensures more[..|offers|] == offers
    ensures Takes(plan, |offers|, more[|offers|]) <==> Takes(plan[|offers|..], 0, more[|offers|])
    ensures Takes(plan, |offers|, more[|offers|]) ==>
      plan[|offers|..][1..] == plan[|more|..] && plan[|offers|..][0] == plan[|offers|]
      && (TakesSome(plan, more) <==> plan[|offers|] > 0)
  {
    if Takes(plan, |offers|, more[|offers|]) && plan[|offers|] > 0 {
      forall i | 0 <= i < |more| ensures Takes(plan, i, more[i]) && plan[i] > 0 {
        assert i < |offers| ==> more[i] == offers[i];
      }
    }
  }

  /** One write of a flush that is taken whole leaves the other blocks. */
  lemma BlockTaken(buf: seq<byte>, from: nat, to: nat, plan: seq<int>)
    requires from < |buf| && to < |buf| && from != to && TakesWhole(plan, Blocks(buf, from, to))
    ensures var n := if from < to then to - from else |buf| - from;
      && plan != [] && plan[0] == n
      && Blocks(buf, from, to) == [buf[from..from + n]] + Blocks(buf, Advance(from, n, |buf|), to)
      && TakesWhole(plan[1..], Blocks(buf, Advance(from, n, |buf|), to))
  {
    if from > to {
      assert Advance(from, |buf| - from, |buf|) == 0 && buf[0..to] == buf[..to];
      assert buf[from..] == buf[from..from + (|buf| - from)];
    } else {
      assert Advance(from, to - from, |buf|) == to && from + (to - from) == to;
    }
  }

  class Recorder {
    const buffer: array<byte>
    const cfg: Setup
    const isEnabled: bool
    var writePos: nat
    var readPos: nat
    var droppedCount: u32
    var lastTimestamp: u32
    var isGapPending: bool
    var enabledEvents: seq<bool>

    ghost predicate Valid()
      reads this, buffer
    {
      && cfg.capacity == buffer.Length && 16 <= buffer.Length < 0x1_0000_0000
      && writePos < buffer.Length && readPos < buffer.Length
      && |enabledEvents| == 256
    }

    ghost function Queue(): (q: seq<byte>)
      reads this, buffer
      requires Valid()
      ensures |q| < buffer.Length
    {
      Held(buffer[..], readPos, writePos)
    }

    /** The memory of the ring and the place of the next byte. */
    ghost function Mem(): Memory
      reads this, buffer
      requires Valid()
    {
      Memory(buffer[..], writePos)
    }

    ghost function Abstract(): State
      reads this, buffer
      requires Valid()
    {
      State(Queue(), droppedCount, lastTimestamp, isGapPending)
    }

    /** `xTRACE_Init` on a valid configuration; the branch that counts a lost BOOT is unreachable. */
    constructor (buffer: array<byte>, hz: u32, policy: Policy, enabled: bool, ts: u32)
      requires 16 <= buffer.Length < 0x1_0000_0000 && hz != 0
      modifies buffer
      ensures Valid() && this.buffer == buffer && cfg == Setup(buffer.Length, hz, policy) && isEnabled == enabled
      ensures Abstract() == Init(cfg, enabled, ts)
      ensures Mem() == Store(Memory(old(buffer[..]), 0), Init(cfg, enabled, ts).queue)
      ensures forall k: nat :: EventIsEnabled(k)
    {
      this.buffer, this.cfg, this.isEnabled := buffer, Setup(buffer.Length, hz, policy), enabled;
      writePos, readPos, droppedCount, lastTimestamp, isGapPending := 0, 0, 0, ts, false;
      enabledEvents := seq(256, _ => true);
      new;
      if enabled {
        BootFits(ts, hz);
        RecordBytes(BootRecord(ts, hz));
        var tsSize := LebSizeOf(ts);
        var hzSize := LebSizeOf(hz);
        var payload := 1 + tsSize + hzSize;
        var prefix := LebSizeOf(payload);
        var room := RingAvailable();
        if room < prefix + payload {
          assert false;
        }
        RingPutBoot(ts);
        assert [] + EncodeRecord(BootRecord(ts, hz)) == EncodeRecord(BootRecord(ts, hz));
      }
    }

    method RingAvailable() returns (n: nat)
      requires Valid()
      ensures n == buffer.Length - 1 - |Queue()|
    {
      if writePos >= readPos {
        return buffer.Length - (writePos - readPos) - 1;
      }
      return readPos - writePos - 1;
    }

    method RingPut(b: byte)
      requires Valid() && |Queue()| < buffer.Length - 1
      modifies this`writePos, buffer
      ensures Valid() && Queue() == old(Queue()) + [b] && Mem() == Store(old(Mem()), [b])
    {
      PutHeld(buffer[..], readPos, writePos, b);
      StoreOne(Mem(), b);
      buffer[writePos] := b;
      assert buffer[..] == old(buffer[..])[writePos := b];
      writePos := Next(writePos, buffer.Length);
    }

    method RingPutLeb(value: nat)
      requires Valid() && |Queue()| + |Leb(value)| <= buffer.Length - 1
      modifies this`writePos, buffer
      ensures Valid() && Queue() == old(Queue()) + Leb(value) && Mem() == Store(old(Mem()), Leb(value))
    {
      hide Held, Leb, Store;
      var v := value;
      var more := true;
      while more
        invariant Valid() && v >= 0
        invariant Queue() + (if more then Leb(v) else []) == old(Queue()) + Leb(value)
        invariant |Queue()| + (if more then |Leb(v)| else 0) <= buffer.Length - 1
        invariant Store(Mem(), if more then Leb(v) else []) == Store(old(Mem()), Leb(value))
        decreases v, more
      {
        LebStep(v);
        StoreAppend(Mem(), [v % 128 + if v >= 128 then 128 else 0], if v >= 128 then Leb(v / 128) else []);
        AddAssoc(Queue(), [v % 128 + if v >= 128 then 128 else 0], if v >= 128 then Leb(v / 128) else []);
        var b := v % 128;
        v := v / 128;
        if v != 0 {
          b := b + 128;
        }
        RingPut(b);
        more := v != 0;
      }
      StoreNothing(Mem());
    }

    /** The four writes shared by the records the recorder makes itself. */
    method RingPutFour(len: nat, id: byte, ts: nat, value: nat)
      requires Valid() && id < 128
      requires |Queue()| + |Leb(len)| + 1 + |Leb(ts)| + |Leb(value)| <= buffer.Length - 1
      modifies this`writePos, buffer
      ensures Valid() && Queue() == old(Queue()) + (Leb(len) + [id] + Leb(ts) + Leb(value))
      ensures Mem() == Store(old(Mem()), Leb(len) + [id] + Leb(ts) + Leb(value))
    {
      hide Leb, Held, Store;
      ghost var a, b, c, d := Leb(len), [id], Leb(ts), Leb(value);
      RingPutLeb(len);
      RingPut(id);
      assert Queue() == old(Queue()) + (a + b);
      StoreAppend(old(Mem()), a, b);
      RingPutLeb(ts);
      assert Queue() == old(Queue()) + (a + b + c);
      StoreAppend(old(Mem()), a + b, c);
      RingPutLeb(value);
      assert Queue() == old(Queue()) + (a + b + c + d);
      StoreAppend(old(Mem()), a + b + c, d);
    }

    method RingPutBoot(ts: u32)
      requires Valid() && |Queue()| + |EncodeRecord(BootRecord(ts, cfg.hz))| <= buffer.Length - 1
      modifies this`writePos, buffer
      ensures Valid() && Queue() == old(Queue()) + EncodeRecord(BootRecord(ts, cfg.hz))
      ensures Mem() == Store(old(Mem()), EncodeRecord(BootRecord(ts, cfg.hz)))
    {
      var tsSize := LebSizeOf(ts);
      var hzSize := LebSizeOf(cfg.hz);
      RecordBytes(BootRecord(ts, cfg.hz));
      RingPutFour(1 + tsSize + hzSize, 1, ts, cfg.hz);
    }

    method RingPutGap(delta: u32, dropped: u32)
      requires Valid() && |Queue()| + |EncodeRecord(GapRecord(delta, dropped))| <= buffer.Length - 1
      modifies this`writePos, buffer
      ensures Valid() && Queue() == old(Queue()) + EncodeRecord(GapRecord(delta, dropped))
      ensures Mem() == Store(old(Mem()), EncodeRecord(GapRecord(delta, dropped)))
    {
      var deltaSize := LebSizeOf(delta);
      var droppedSize := LebSizeOf(dropped);
      RecordBytes(GapRecord(delta, dropped));
      RingPutFour(1 + deltaSize + droppedSize, 0, delta, dropped);
    }

    method RingPeekByte(pos: nat) returns (b: byte)
      requires Valid() && pos < buffer.Length
      ensures b == buffer[pos]
    {
      assert pos % buffer.Length == Advance(0, pos, buffer.Length) by { AdvanceIsModulo(0, pos, buffer.Length); }
      b := buffer[pos % buffer.Length];
    }

    /** The do-while loop of `ring_record_count` over one length prefix. */
    method SkipPrefix(from: nat) returns (pos: nat, payloadLen: u32, prefixBytes: nat)
      requires Valid() && from < buffer.Length
      ensures pos < buffer.Length && Prefix(pos, payloadLen, prefixBytes) == PrefixAt(buffer[..], from, 0, 0)
    {
      hide Next;
      pos, payloadLen, prefixBytes := from, 0, 0;
      var shift, b := 0, 0;
      while prefixBytes == 0 || (b >= 128 && shift < 35)
        invariant pos < buffer.Length && prefixBytes <= 5 && shift == 7 * prefixBytes
        invariant PrefixAt(buffer[..], from, 0, 0)
               == if prefixBytes == 0 || (b >= 128 && shift < 35)
                  then PrefixAt(buffer[..], pos, payloadLen, prefixBytes)
                  else Prefix(pos, payloadLen, prefixBytes)
        decreases 5 - prefixBytes
      {
        b := RingPeekByte(pos);
        pos := Next(pos, buffer.Length);
        payloadLen := AddGroup(payloadLen, prefixBytes, b);
        prefixBytes := prefixBytes + 1;
        shift := shift + 7;
      }
    }

    /** `ring_record_count` on any ring on which its loop ends, after `n` rounds at most. */
    method RecordCount(ghost n: nat) returns (count: u32)
      requires Valid() && EndsIn(buffer[..], writePos, Walker(readPos, 0, 0), n)
      ensures count == WalkFrom(buffer[..], writePos, Walker(readPos, 0, 0), n)
    {
      hide PrefixAt, Held, Wrap, EndsIn, WalkFrom, Skip;
      var pos: nat, traversed: u32 := readPos, 0;
      count := 0;
      ghost var left := n;
      while pos != writePos && traversed < buffer.Length
        invariant pos < buffer.Length
        invariant EndsIn(buffer[..], writePos, Walker(pos, traversed, count), left)
        invariant WalkFrom(buffer[..], writePos, Walker(pos, traversed, count), left)
               == WalkFrom(buffer[..], writePos, Walker(readPos, 0, 0), n)
        decreases left
      {
        var payloadLen, prefixBytes;
        WalkOnce(buffer[..], writePos, Walker(pos, traversed, count), left);
        pos, payloadLen, prefixBytes := SkipPrefix(pos);
        pos := Skip(pos, payloadLen, buffer.Length);
        traversed := Wrap(traversed + Wrap(prefixBytes + payloadLen));
        count := Wrap(count + 1);
        left := left - 1;
      }
      WalkOnce(buffer[..], writePos, Walker(pos, traversed, count), left);
    }

    /** What the count loop returns, if it ends within `n` rounds. */
    ghost function Counted(n: nat): u32
      reads this, buffer
      requires Valid() && EndsIn(buffer[..], writePos, Walker(readPos, 0, 0), n)
    {
      WalkFrom(buffer[..], writePos, Walker(readPos, 0, 0), n)
    }

    /** A call that has to overwrite returns when the count loop ends. */
    ghost predicate Returns(id: u32, extraBytes: nat, ts: u32, n: nat)
      reads this, buffer
      requires Valid()
    {
      isEnabled && EventIsEnabled(id) && cfg.policy.Overwrite? && !Fits(cfg, Abstract(), id, extraBytes, ts) ==>
        EndsIn(buffer[..], writePos, Walker(readPos, 0, 0), n)
    }

    /** What such a call charges for the records it throws away. */
    ghost function Charged(id: u32, extraBytes: nat, ts: u32, n: nat): u32
      reads this, buffer
      requires Valid() && Returns(id, extraBytes, ts, n)
    {
      if isEnabled && EventIsEnabled(id) && cfg.policy.Overwrite? && !Fits(cfg, Abstract(), id, extraBytes, ts)
      then Counted(n) else 0
    }

    predicate EventIsEnabled(id: nat)
      requires |enabledEvents| == 256
      reads this`enabledEvents
    {
      id >= 256 || enabledEvents[id]
    }

    /** `xTRACE_Filter_Enable_Event`; events from 256 on have no bit in the mask and are always on. */
    method FilterEnableEvent(id: u32)
      requires Valid()
      modifies this`enabledEvents
      ensures Valid()
      ensures forall k: nat :: EventIsEnabled(k) <==> old(EventIsEnabled(k)) || k == id || k >= 256
    {
      if id >= 256 {
        return;
      }
      enabledEvents := enabledEvents[id := true];
    }

    /** `xTRACE_Filter_Disable_Event` */
    method FilterDisableEvent(id: u32)
      requires Valid()
      modifies this`enabledEvents
      ensures Valid()
      ensures forall k: nat :: EventIsEnabled(k) <==> old(EventIsEnabled(k)) && (k != id || k >= 256)
    {
      if id >= 256 {
        return;
      }
      enabledEvents := enabledEvents[id := false];
    }

    /** `xTRACE_Filter_Enable_All` */
    method FilterEnableAll()
      requires Valid()
      modifies this`enabledEvents
      ensures Valid() && forall k: nat :: EventIsEnabled(k)
    {
      enabledEvents := seq(256, _ => true);
    }

    /** `xTRACE_Filter_Disable_All`: GAP, BOOT and TIME_SYNC stay on. */
    method FilterDisableAll()
      requires Valid()
      modifies this`enabledEvents
      ensures Valid() && forall k: nat :: EventIsEnabled(k) <==> k < 3 || k >= 256
    {
      enabledEvents := seq(256, k => k < 3);
    }

    /** `xTRACE_Filter_Enable_Module`: the 32 events whose numbers start the same way. */
    method FilterEnableModule(base: u32)
      requires Valid()
      modifies this`enabledEvents
      ensures Valid()
      ensures forall k: nat :: EventIsEnabled(k) <==> old(EventIsEnabled(k)) || k / 32 == base / 32 || k >= 256
    {
      if base >= 256 {
        return;
      }
      var mask := enabledEvents;
      enabledEvents := seq(256, k requires 0 <= k < 256 => mask[k] || k / 32 == base / 32);
    }

    /** `xTRACE_Filter_Disable_Module`, which leaves the three core events on. */
    method FilterDisableModule(base: u32)
      requires Valid()
      modifies this`enabledEvents
      ensures Valid()
      ensures forall k: nat ::
        EventIsEnabled(k) <==> if k < 256 && k / 32 == base / 32 then k < 3 else old(EventIsEnabled(k))
    {
      if base >= 256 {
        return;
      }
      var mask := enabledEvents;
      enabledEvents := seq(256, k requires 0 <= k < 256 => if k / 32 == base / 32 then k < 3 else mask[k]);
    }

    /** The space check of `emit_start`: the pending gap record and the event itself. */
    method NeededBytes(id: nat, delta: u32, extraBytes: nat) returns (needed: nat)
      requires Valid()
      ensures needed == GapSize(Abstract(), delta) + RecordSize(id, delta, extraBytes)
    {
      hide Leb, EncodeRecord;
      var idSize := LebSizeOf(id);
      var deltaSize := LebSizeOf(delta);
      var gapSize := 0;
      if isGapPending {
        RecordBytes(GapRecord(delta, droppedCount));
        var droppedSize := LebSizeOf(droppedCount);
        var gapPrefix := LebSizeOf(1 + deltaSize + droppedSize);
        gapSize := gapPrefix + (1 + deltaSize + droppedSize);
      }
      var evtPayload := idSize + deltaSize + extraBytes;
      var evtPrefix := LebSizeOf(evtPayload);
      needed := gapSize + (evtPrefix + evtPayload);
    }

    /** The space check of the overwrite branch: BOOT, GAP and the event in an empty ring. */
    method RestartBytes(id: nat, ts: u32, totalDropped: u32, extraBytes: nat) returns (needed: nat)
      requires Valid()
      ensures needed == |EncodeRecord(BootRecord(ts, cfg.hz))| + |EncodeRecord(GapRecord(0, totalDropped))|
                        + RecordSize(id, 0, extraBytes)
    {
      ZeroSize();
      hide Leb, EncodeRecord;
      RecordBytes(BootRecord(ts, cfg.hz));
      RecordBytes(GapRecord(0, totalDropped));
      var tsSize := LebSizeOf(ts);
      var hzSize := LebSizeOf(cfg.hz);
      var bootPrefix := LebSizeOf(1 + tsSize + hzSize);
      var totalSize := LebSizeOf(totalDropped);
      var gapPrefix := LebSizeOf(1 + 1 + totalSize);
      var idSize := LebSizeOf(id);
      var evtPayload := idSize + 1 + extraBytes;
      var evtPrefix := LebSizeOf(evtPayload);
      needed := (bootPrefix + (1 + tsSize + hzSize)) + (gapPrefix + (1 + 1 + totalSize)) + (evtPrefix + evtPayload);
    }

    /** `emit_start`. */
    method EmitStart(id: u32, extraBytes: nat, ts: u32, ghost n: nat) returns (ok: bool)
      requires Valid() && Returns(id, extraBytes, ts, n)
      modifies this`writePos, this`readPos, this`droppedCount, this`lastTimestamp, this`isGapPending, buffer
      ensures Valid()
      ensures !(isEnabled && EventIsEnabled(id)) ==> !ok && Abstract() == old(Abstract())
      ensures !(isEnabled && EventIsEnabled(id)) ==> Mem() == old(Mem())
      ensures isEnabled && EventIsEnabled(id) ==>
                Started(Abstract(), ok) == Start(cfg, old(Abstract()), id, extraBytes, ts,
                                                 old(Charged(id, extraBytes, ts, n)))
      ensures isEnabled && EventIsEnabled(id) ==>
                Mem() == Store(old(Mem()), StartBytes(cfg, old(Abstract()), id, extraBytes, ts,
                                                      old(Charged(id, extraBytes, ts, n))))
      ensures ok ==> |Queue()| + extraBytes <= buffer.Length - 1
    {
      hide Leb, Held, EncodeRecord, EncodeRecords, Header, EndsIn, WalkFrom, Store, AppendBytes;
      StoreNothing(Mem());
      if !isEnabled || !EventIsEnabled(id) {
        return false;
      }
      var delta := Wrap(ts - lastTimestamp);
      var needed := NeededBytes(id, delta, extraBytes);
      var room := RingAvailable();
      if room < needed {
        if cfg.policy.Overwrite? {
          ok := StartOver(id, extraBytes, ts, n);
          return;
        }
        droppedCount := Wrap(droppedCount + 1);
        isGapPending := true;
        return false;
      }
      Append(id, delta, extraBytes, ts);
      ok := true;
    }

    /** The rest of `emit_start` when there is room: the pending gap, then the header. */
    method Append(id: u32, delta: u32, extraBytes: nat, ts: u32)
      requires Valid() && delta == Wrap(ts - lastTimestamp)
      requires |Queue()| + GapSize(Abstract(), delta) + RecordSize(id, delta, extraBytes) <= buffer.Length - 1
      modifies this`writePos, this`droppedCount, this`lastTimestamp, this`isGapPending, buffer
      ensures Valid() && |Queue()| + extraBytes <= buffer.Length - 1
      ensures Queue() == old(Queue()) + AppendBytes(old(Abstract()), id, extraBytes, ts)
      ensures Mem() == Store(old(Mem()), AppendBytes(old(Abstract()), id, extraBytes, ts))
      ensures droppedCount == (if old(isGapPending) then 0 else old(droppedCount)) && lastTimestamp == ts
      ensures !isGapPending
    {
      hide Leb, Held, EncodeRecord, Header, Store, Wrap;
      var left := delta;
      if isGapPending {
        RingPutGap(delta, droppedCount);
        droppedCount := 0;
        isGapPending := false;
        lastTimestamp := ts;
        left := 0;
        StoreAppend(old(Mem()), EncodeRecord(GapRecord(delta, old(droppedCount))), Header(id, 0, extraBytes));
      }
      HeaderShrinks(id, left, delta, extraBytes);
      PutHeader(id, left, extraBytes);
      lastTimestamp := ts;
    }

    /** Length prefix, event id and delta of the record being started. */
    method PutHeader(id: nat, delta: nat, extraBytes: nat)
      requires Valid() && |Queue()| + |Header(id, delta, extraBytes)| <= buffer.Length - 1
      modifies this`writePos, buffer
      ensures Valid() && Queue() == old(Queue()) + Header(id, delta, extraBytes)
      ensures Mem() == Store(old(Mem()), Header(id, delta, extraBytes))
    {
      hide Leb, Held, Store;
      var idSize := LebSizeOf(id);
      var deltaSize := LebSizeOf(delta);
      ghost var a, b, c := Leb(idSize + deltaSize + extraBytes), Leb(id), Leb(delta);
      RingPutLeb(idSize + deltaSize + extraBytes);
      RingPutLeb(id);
      assert Queue() == old(Queue()) + (a + b);
      StoreAppend(old(Mem()), a, b);
      RingPutLeb(delta);
      assert Queue() == old(Queue()) + (a + b + c);
      StoreAppend(old(Mem()), a + b, c);
    }

    /** The overwrite branch of `emit_start`: forget everything, restart with BOOT and GAP. */
    method StartOver(id: u32, extraBytes: nat, ts: u32, ghost n: nat) returns (ok: bool)
      requires Valid() && cfg.policy.Overwrite? && EndsIn(buffer[..], writePos, Walker(readPos, 0, 0), n)
      requires !Fits(cfg, Abstract(), id, extraBytes, ts)
      modifies this`writePos, this`readPos, this`droppedCount, this`lastTimestamp, this`isGapPending, buffer
      ensures Valid()
      ensures Started(Abstract(), ok) == Start(cfg, old(Abstract()), id, extraBytes, ts, old(Counted(n)))
      ensures Mem() == Store(old(Mem()), StartBytes(cfg, old(Abstract()), id, extraBytes, ts, old(Counted(n))))
      ensures ok ==> |Queue()| + extraBytes <= buffer.Length - 1
    {
      hide Leb, Held, EncodeRecord, EncodeRecords, Header, EndsIn, WalkFrom, Fits, Store;
      StoreNothing(Mem());
      var count := RecordCount(n);
      var totalDropped := Wrap(droppedCount + count);
      var needed := RestartBytes(id, ts, totalDropped, extraBytes);
      if needed >= buffer.Length {
        droppedCount := Wrap(droppedCount + 1);
        isGapPending := true;
        return false;
      }
      readPos := writePos;
      RingPutBoot(ts);
      RingPutGap(0, totalDropped);
      droppedCount := 0;
      isGapPending := false;
      PutHeader(id, 0, extraBytes);
      lastTimestamp := ts;
      ghost var boot, gap := EncodeRecord(BootRecord(ts, cfg.hz)), EncodeRecord(GapRecord(0, totalDropped));
      assert Queue() == boot + gap + Header(id, 0, extraBytes);
      StoreAppend(old(Mem()), boot, gap);
      StoreAppend(old(Mem()), boot + gap, Header(id, 0, extraBytes));
      ok := true;
    }

    /** The sum of sizes each `xTRACE_Emit*` passes to `emit_start`. */
    static method ParamsSize(params: seq<u32>) returns (extra: nat)
      ensures extra == |EncodeParams(params)|
    {
      hide Leb;
      extra := 0;
      assert params[0..] == params;
      for i := 0 to |params|
        invariant extra + |EncodeParams(params[i..])| == |EncodeParams(params)|
      {
        var size := LebSizeOf(params[i]);
        assert params[i..][1..] == params[i + 1..];
        extra := extra + size;
      }
    }

    /** `xTRACE_Emit0` to `Emit3` and `EmitName`: one record with any parameters. */
    method EmitRecord(id: u32, params: seq<u32>, ts: u32, ghost n: nat)
      requires Valid() && Returns(id, |EncodeParams(params)|, ts, n)
      modifies this`writePos, this`readPos, this`droppedCount, this`lastTimestamp, this`isGapPending, buffer
      ensures Valid()
      ensures Abstract() == if isEnabled && EventIsEnabled(id)
                            then Emit(cfg, old(Abstract()), id, params, ts,
                                      old(Charged(id, |EncodeParams(params)|, ts, n)))
                            else old(Abstract())
      ensures Mem() == if isEnabled && EventIsEnabled(id)
                       then Store(old(Mem()), EmitBytes(cfg, old(Abstract()), id, params, ts,
                                                        old(Charged(id, |EncodeParams(params)|, ts, n))))
                       else old(Mem())
      ensures Abstract() == old(Abstract()) && Mem() == old(Mem()) <==> !isEnabled || !EventIsEnabled(id)
    {
      hide Leb, Held, Start, StartBytes, Returns, Charged, Store, Emit, EmitBytes;
      EmitChanges(cfg, Abstract(), Mem(), id, params, ts, Charged(id, |EncodeParams(params)|, ts, n));
      EmitRest(id, params, ts, n);
    }

    /** The call itself: the prologue, then the parameters. */
    method EmitRest(id: u32, params: seq<u32>, ts: u32, ghost n: nat)
      requires Valid() && Returns(id, |EncodeParams(params)|, ts, n)
      modifies this`writePos, this`readPos, this`droppedCount, this`lastTimestamp, this`isGapPending, buffer
      ensures Valid()
      ensures Abstract() == if isEnabled && EventIsEnabled(id)
                            then Emit(cfg, old(Abstract()), id, params, ts,
                                      old(Charged(id, |EncodeParams(params)|, ts, n)))
                            else old(Abstract())
      ensures Mem() == if isEnabled && EventIsEnabled(id)
                       then Store(old(Mem()), EmitBytes(cfg, old(Abstract()), id, params, ts,
                                                        old(Charged(id, |EncodeParams(params)|, ts, n))))
                       else old(Mem())
    {
      hide Leb, Held, Start, StartBytes, Returns, Charged, Store;
      var extra := ParamsSize(params);
      assert params[0..] == params;
      var ok := EmitStart(id, extra, ts, n);
      if ok {
        ghost var started, mem := Abstract(), Mem();
        ghost var bytes :=
          StartBytes(cfg, old(Abstract()), id, extra, ts, old(Charged(id, |EncodeParams(params)|, ts, n)));
        StoreAppend(old(Mem()), bytes, EncodeParams(params));
        for i := 0 to |params|
          invariant Valid() && |Queue()| + |EncodeParams(params[i..])| <= buffer.Length - 1
          invariant Queue() + EncodeParams(params[i..]) == started.queue + EncodeParams(params)
          invariant Abstract() == started.(queue := Queue())
          invariant Store(Mem(), EncodeParams(params[i..])) == Store(mem, EncodeParams(params))
        {
          ghost var sofar := Queue();
          assert params[i..][1..] == params[i + 1..];
          assert sofar + EncodeParams(params[i..]) == (sofar + Leb(params[i])) + EncodeParams(params[i + 1..]);
          StoreAppend(Mem(), Leb(params[i]), EncodeParams(params[i + 1..]));
          RingPutLeb(params[i]);
        }
        StoreNothing(Mem());
      } else if isEnabled && EventIsEnabled(id) {
        ghost var bytes :=
          StartBytes(cfg, old(Abstract()), id, extra, ts, old(Charged(id, |EncodeParams(params)|, ts, n)));
        assert bytes + [] == bytes;
      }
    }

    /** One write of `xTRACE_Flush`. */
    method FlushWrite(transport: Transport) returns (ok: bool, written: nat)
      requires Valid() && readPos != writePos
      modifies this`readPos, transport
      ensures Valid() && transport.sent + Queue() == old(transport.sent + Queue())
      ensures old(transport.sent) <= transport.sent
      ensures if ok then |Queue()| == old(|Queue()|) - written else Queue() == old(Queue())
      ensures |transport.offered| == old(|transport.offered|) + 1 && old(transport.offered) <= transport.offered
      ensures ok <==> Takes(old(transport.plan), 0, transport.offered[|transport.offered| - 1])
      ensures ok ==> transport.plan == old(transport.plan)[1..] && written == old(transport.plan)[0]
      ensures old(TakesWhole(transport.plan, Blocks(buffer[..], readPos, writePos))) ==>
        ok && written > 0 && TakesWhole(transport.plan, Blocks(buffer[..], readPos, writePos))
      ensures old(TakesWhole(transport.plan, Blocks(buffer[..], readPos, writePos))) ==>
        transport.offered + Blocks(buffer[..], readPos, writePos)
          == old(transport.offered + Blocks(buffer[..], readPos, writePos))
    {
      hide Held, Blocks, TakesWhole, Advance;
      var contiguous := if writePos > readPos then writePos - readPos else buffer.Length - readPos;
      ghost var whole := TakesWhole(transport.plan, Blocks(buffer[..], readPos, writePos));
      ContiguousPart(buffer[..], readPos, writePos);
      if whole {
        BlockTaken(buffer[..], readPos, writePos, transport.plan);
      }
      ok, written := transport.Write(buffer[readPos..readPos + contiguous]);
      if !ok || written > contiguous {
        return false, written;
      }
      DropOldest(written);
      Exchange(old(transport.sent), old(Queue()), written);
      if whole {
        AddAssoc(old(transport.offered), [buffer[..][old(readPos)..old(readPos) + contiguous]],
                 Blocks(buffer[..], readPos, writePos));
      }
    }

    /**
     `xTRACE_Flush`: what left the ring is exactly what the transport took; a transport that
     takes every write whole is offered the blocks of the ring and empties it.
     */
    method Flush(transport: Transport) returns (ok: bool)
      requires Valid()
      modifies this`readPos, transport
      ensures Valid() && transport.sent + Queue() == old(transport.sent + Queue())
      ensures Abstract() == old(Abstract()).(queue := Queue())
      ensures old(transport.sent) <= transport.sent && old(transport.offered) <= transport.offered
      ensures FlushEnds(old(transport.plan), transport.offered[|old(transport.offered)|..], ok, Queue() == [])
      ensures old(TakesWhole(transport.plan, Blocks(buffer[..], readPos, writePos))) ==>
        ok && Queue() == [] && transport.offered == old(transport.offered + Blocks(buffer[..], readPos, writePos))
    {
      hide Held, Blocks, TakesWhole, Advance;
      ghost var whole := TakesWhole(transport.plan, Blocks(buffer[..], readPos, writePos));
      ghost var plan, before := transport.plan, |transport.offered|;
      NoBlocks(buffer[..], writePos);
      NoOffers(plan, transport.offered);
      hide TakesSome, Takes;
      while readPos != writePos
        invariant Valid() && transport.sent + Queue() == old(transport.sent + Queue())
        invariant old(transport.sent) <= transport.sent && old(transport.offered) <= transport.offered
        invariant TakesSome(plan, transport.offered[before..]) && transport.plan == plan[|transport.offered| - before..]
        invariant whole ==> TakesWhole(transport.plan, Blocks(buffer[..], readPos, writePos))
        invariant whole ==>
          transport.offered + Blocks(buffer[..], readPos, writePos)
            == old(transport.offered + Blocks(buffer[..], readPos, writePos))
        decreases |Queue()|
      {
        ghost var offers := transport.offered[before..];
        var taken, written := FlushWrite(transport);
        OneMore(plan, offers, transport.offered[before..]);
        if !taken {
          return false;
        }
        if written == 0 {
          break;
        }
      }
      return true;
    }

    method DropOldest(n: nat)
      requires Valid() && n <= |Queue()|
      modifies this`readPos
      ensures Valid() && Queue() == old(Queue())[n..] && readPos == Advance(old(readPos), n, buffer.Length)
    {
      hide Held;
      DropHeld(buffer[..], readPos, writePos, n);
      AdvanceIsModulo(readPos, n, buffer.Length);
      readPos := (readPos + n) % buffer.Length;
    }
  }

  /** Bytes that do not fill the memory move the place of the next one. */
  lemma {:induction false} StoreMoves(m: Memory, x: seq<byte>)
    requires m.to < |m.buf| && |x| <= |m.buf|
    ensures Store(m, x).to == Advance(m.to, |x|, |m.buf|)
    decreases |x|
  {
    if x != [] {
      StoreMoves(Memory(m.buf[m.to := x[0]], Next(m.to, |m.buf|)), x[1..]);
    }
  }

  /** A call of an enabled event always leaves a trace: bytes in memory, or a loss counted. */
  lemma EmitChanges(cfg: Setup, st: State, m: Memory, id: nat, params: seq<nat>, ts: u32, overwritten: nat)
    requires m.to < |m.buf| == cfg.capacity && |st.queue| < cfg.capacity
    ensures Emit(cfg, st, id, params, ts, overwritten) != st
      || Store(m, EmitBytes(cfg, st, id, params, ts, overwritten)) != m
  {
    hide Leb, EncodeRecord, Fits, Restarts, Store, AppendBytes, RestartHead;
    var extra := |EncodeParams(params)|;
    if Fits(cfg, st, id, extra, ts) {
      NotEmpty(cfg, st, id, extra, ts, overwritten);
    } else if Restarts(cfg, st, id, extra, ts, overwritten) {
      NotEmpty(cfg, st, id, extra, ts, overwritten);
      RestartFits(cfg, st, id, extra, ts, overwritten);
      StoreMoves(m, EmitBytes(cfg, st, id, params, ts, overwritten));
    }
  }

  lemma NotEmpty(cfg: Setup, st: State, id: nat, extra: nat, ts: u32, overwritten: nat)
    ensures Header(id, 0, extra) != []
    ensures Fits(cfg, st, id, extra, ts) ==> AppendBytes(st, id, extra, ts) != []
  {
    hide EncodeRecord, Fits;
    assert |Leb(id)| >= 1;
  }

  lemma RestartFits(cfg: Setup, st: State, id: nat, extra: nat, ts: u32, overwritten: nat)
    requires Restarts(cfg, st, id, extra, ts, overwritten)
    ensures |RestartHead(cfg, st, ts, overwritten) + Header(id, 0, extra)| + extra < cfg.capacity
  {
    hide EncodeRecord, Leb, Header;
  }

  lemma NoBlocks(buf: seq<byte>, to: nat)
    requires to < |buf|
    ensures Blocks(buf, to, to) == [] && Held(buf, to, to) == []
  {
  }

  lemma Exchange(sent: seq<byte>, q: seq<byte>, n: nat)
    requires n <= |q|
    ensures sent + q[..n] + q[n..] == sent + q
    ensures sent <= sent + q[..n]
  {
  }

  /** Whether the ring has room for the record and the pending gap before it. */
  predicate Fits(cfg: Setup, st: State, id: nat, extra: nat, ts: u32) {
    var delta := Wrap(ts - st.last);
    cfg.capacity - 1 - |st.queue| >= GapSize(st, delta) + RecordSize(id, delta, extra)
  }

  function GapSize(st: State, delta: u32): nat {
    if st.gap then |EncodeRecord(GapRecord(delta, st.dropped))| else 0
  }

  /** A zero delta never needs more room than the delta the check was made with. */
  lemma HeaderShrinks(id: nat, small: nat, delta: nat, extra: nat)
    requires small <= delta
    ensures |Header(id, small, extra)| <= |Header(id, delta, extra)|
  {
    LebMonotone(small, delta);
    LebMonotone(|Leb(id)| + |Leb(small)| + extra, |Leb(id)| + |Leb(delta)| + extra);
  }

  /** A record with one parameter and a one-byte id, spelled out. */
  lemma RecordBytes(r: RawRecord)
    requires r.eventId < 128 && |r.params| == 1
    ensures EncodeRecord(r)
      == Leb(1 + |Leb(r.deltaTs)| + |Leb(r.params[0])|) + [r.eventId] + Leb(r.deltaTs) + Leb(r.params[0])
  {
    assert r.params[1..] == [];
    assert EncodeParams(r.params) == Leb(r.params[0]) + [];
    assert Leb(r.eventId) == [r.eventId];
  }

  lemma ZeroSize()
    ensures |Leb(0)| == 1
  {
  }

  /** `leb128_size`. */
  method LebSizeOf(v: nat) returns (n: nat)
    ensures n == |Leb(v)|
  {
    n := 1;
    var w := v;
    while w > 127
      invariant w >= 0 && n + |Leb(w)| == |Leb(v)| + 1
    {
      w := w / 128;
      n := n + 1;
    }
  }
}
