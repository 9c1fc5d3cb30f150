/**
 The logic analyser's capture path: the ARM side polls a control block that a co-processor
 (the PRU) writes concurrently, copies the sample ring and sends it newest first. Every
 call is modelled by a class method; runs interleave those calls with PRU writes, and the
 volatile reads inside a call may return whatever the PRU left there at that moment.
 */
module XlogicCapture {
  import opened Bytes
  import opened XlogicDefs

  const MAX_SAMPLE_RATE: u32 := 333000000
  const MIN_SAMPLE_RATE: u32 := 100000
  const MAX_CHANNELS: nat := 8

  const CMD_IDLE: u32 := 0
  const CMD_ARM: u32 := 1
  const CMD_HALT: u32 := 2

  const STATUS_READY: u32 := 0
  const STATUS_RUNNING: u32 := 1
  const STATUS_DONE: u32 := 2
  const STATUS_OVERRUN: u32 := 3

  const TRIGGER_EDGE_RISING: u32 := 0

  datatype CoreState = Idle | Armed | Triggered | Capturing | Done | Error

  datatype Config = Config(sampleRate: u32, sampleCount: u32, triggerMode: TriggerMode, triggerMask: u32,
                           triggerValue: u32, triggerEdge: u32)

  /** The block both processors share. */
  datatype Control = Control(cmd: u32, status: u32, triggerChannel: u32, triggerEdge: u32, sampleCount: u32,
                             samplesCaptured: u32, overrunCount: u32)

  datatype Result = Ok | Overrun | TxFailed | InvalidState

  // ----- Reversal in place -----------------------------------------------------------

  function Reverse<T>(s: seq<T>): (r: seq<T>)
    ensures |r| == |s|
  {
    if s == [] then [] else Reverse(s[1..]) + [s[0]]
  }

  lemma {:induction false} ReverseAt<T>(s: seq<T>, i: nat)
    requires i < |s|
    ensures Reverse(s)[i] == s[|s| - 1 - i]
  {
    if i < |s| - 1 {
      ReverseAt(s[1..], i);
    }
  }

  lemma ReverseTwice<T>(s: seq<T>)
    ensures Reverse(Reverse(s)) == s
  {
    forall i | 0 <= i < |s| ensures Reverse(Reverse(s))[i] == s[i] {
      ReverseAt(Reverse(s), i);
      ReverseAt(s, |s| - 1 - i);
    }
  }

  lemma ReverseShort<T>(s: seq<T>)
    requires |s| <= 1
    ensures Reverse(s) == s
  {
  }

  /** `reverse_bytes` */
  method ReverseBytes(data: array<byte>, length: nat)
    requires length <= data.Length
    modifies data
    ensures data[..length] == Reverse(old(data[..length])) && data[length..] == old(data[length..])
  {
    hide Reverse;
    if length <= 1 {
      ReverseShort(data[..length]);
      return;
    }
    var left, right := 0, length - 1;
    while left < right
      invariant left + right == length - 1
      invariant forall k :: 0 <= k < data.Length && !(left <= k <= right) && k < length ==>
        data[k] == old(data[length - 1 - k])
      invariant forall k :: (left <= k <= right || length <= k < data.Length) ==> data[k] == old(data[k])
      decreases right - left
    {
      data[left], data[right] := data[right], data[left];
      left, right := left + 1, right - 1;
    }
    ghost var before := old(data[..length]);
    forall i | 0 <= i < length ensures data[i] == Reverse(before)[i] {
      ReverseAt(before, i);
      assert data[i] == before[length - 1 - i];
    }
  }

  // ----- The state of one capture unit -----------------------------------------------

  /** Core, PRU and transport contexts with the shared memory; `sent` is what the host received. */
  datatype View = View(state: CoreState, config: Config, buffer: seq<byte>, captured: nat, control: Control,
                       ring: seq<byte>, readOffset: nat, runRequest: bool, resetRequest: bool, sent: seq<seq<byte>>)

  /** No index ever leaves its memory. */
  ghost predicate Safe(v: View) {
    && v.captured <= |v.buffer| < TWO32 && v.readOffset <= |v.ring| < TWO32
    && (v.state == Idle ==> v.captured == 0)
  }

  function ClampSampleRate(rate: u32): u32 {
    if rate > MAX_SAMPLE_RATE then MAX_SAMPLE_RATE else if rate < MIN_SAMPLE_RATE then MIN_SAMPLE_RATE else rate
  }

  predicate ChannelSet(mask: u32, i: nat) {
    BitAnd(mask, Pow2(i)) != 0
  }

  /** Binary digit `i` of the mask is one. */
  predicate DigitSet(mask: nat, i: nat) {
    mask / Pow2(i) % 2 == 1
  }

  lemma {:induction false} ChannelIsDigit(mask: nat, i: nat)
    ensures BitAnd(mask, Pow2(i)) != 0 <==> DigitSet(mask, i)
    decreases i
  {
    hide BitAnd, Pow2;
    if mask == 0 {
      NothingSet(i);
    } else if i == 0 {
      LowestSet(mask);
    } else {
      var p := Pow2(i - 1);
      ChannelIsDigit(mask / 2, i - 1);
      AndDouble(mask, p);
      HalfOf(mask, p);
      assert Pow2(i) == 2 * p by { PowStep(i); }
    }
  }

  lemma PowStep(i: nat)
    requires i > 0
    ensures Pow2(i) == 2 * Pow2(i - 1)
  {
  }

  lemma NothingSet(i: nat)
    ensures BitAnd(0, Pow2(i)) == 0 && !DigitSet(0, i)
  {
  }

  lemma LowestSet(mask: nat)
    requires mask > 0
    ensures BitAnd(mask, Pow2(0)) == mask % 2 && (DigitSet(mask, 0) <==> mask % 2 == 1)
  {
    assert Pow2(0) == 1;
    hide Pow2;
    assert BitAnd(mask / 2, 0) == 0;
  }

  lemma AndDouble(mask: nat, p: nat)
    requires mask > 0 && p > 0
    ensures BitAnd(mask, 2 * p) == 2 * BitAnd(mask / 2, p)
  {
    assert 2 * p / 2 == p;
  }

  lemma HalfOf(mask: nat, p: nat)
    requires p > 0
    ensures mask / (2 * p) == mask / 2 / p
  {
    var q, r := mask / 2 / p, mask / 2 % p;
    assert mask / 2 == q * p + r;
    assert q * (2 * p) == 2 * (q * p);
    RemainderOf(mask, 2 * p, q, 2 * r + mask % 2);
  }

  /** The lowest of the eight channels in the mask, or 0. */
  ghost predicate IsTriggerChannel(mask: u32, channel: nat) {
    && channel < 8 && (forall i: nat :: i < channel ==> !DigitSet(mask, i))
    && (DigitSet(mask, channel) || (channel == 0 && forall i: nat :: i < 8 ==> !DigitSet(mask, i)))
  }

  method MapTriggerChannel(mask: u32) returns (channel: u32)
    ensures IsTriggerChannel(mask, channel)
  {
    for i := 0 to MAX_CHANNELS
      invariant forall k: nat :: k < i ==> !DigitSet(mask, k)
    {
      ChannelIsDigit(mask, i);
      if ChannelSet(mask, i) {
        return i;
      }
    }
    return 0;
  }

  /** Of all rates from 100 kHz to 333 MHz the one nearest to what was asked for. */
  ghost predicate Nearest(asked: u32, rate: u32) {
    && 100_000 <= rate <= 333_000_000
    && forall other: u32 :: 100_000 <= other <= 333_000_000 ==> Distance(asked, rate) <= Distance(asked, other)
  }

  function Distance(a: int, b: int): nat { if a <= b then b - a else a - b }

  /** The view after a successful arm: the block is written, its `status` is not. */
  function ArmedView(v: View, config: Config, channel: u32, edge: u32): View {
    v.(state := Armed, config := config.(sampleRate := ClampSampleRate(config.sampleRate)), captured := 0,
       readOffset := 0, control := Control(CMD_ARM, v.control.status, channel, edge, config.sampleCount, 0, 0),
       runRequest := false, resetRequest := false)
  }

  ghost predicate IsTriggerOf(config: Config, channel: u32, edge: u32) {
    if config.triggerMode != NoTrigger && config.triggerMask != 0 then
      IsTriggerChannel(config.triggerMask, channel) && edge == config.triggerEdge
    else channel == 0 && edge == TRIGGER_EDGE_RISING
  }

  function AbortedView(v: View): View {
    v.(state := Idle, captured := 0, control := v.control.(cmd := CMD_HALT), runRequest := false, resetRequest := false)
  }

  function AvailableBytes(captured: u32, readOffset: nat): nat {
    if captured <= readOffset then 0 else captured - readOffset
  }

  function Min(a: nat, b: nat): nat {
    if a < b then a else b
  }

  /** How many ring bytes one read copies, given the count it saw. */
  function ToCopy(captured: u32, readOffset: nat, space: nat, ringBytes: nat): (n: nat)
    requires readOffset <= ringBytes
    ensures n <= space && readOffset + n <= ringBytes && (n > 0 ==> readOffset + n <= captured)
    ensures n == space || readOffset + n == ringBytes || readOffset + n >= captured
  {
    var n := Min(AvailableBytes(captured, readOffset), space);
    if readOffset + n > ringBytes then ringBytes - readOffset else n
  }

  function Overwrite(s: seq<byte>, at: nat, data: seq<byte>): (r: seq<byte>)
    requires at + |data| <= |s|
    ensures |r| == |s|
  {
    s[..at] + data + s[at + |data|..]
  }

  /** One poll in state DONE that saw the count `captured` and the ring bytes `seen`. */
  function DrainedView(v: View, captured: u32, seen: seq<byte>, sendOk: bool): (View, Result)
    requires v.captured <= |v.buffer| && v.readOffset <= |v.ring|
    requires |seen| == ToCopy(captured, v.readOffset, |v.buffer| - v.captured, |v.ring|)
  {
    var count := v.captured + |seen|;
    var filled := Overwrite(v.buffer, v.captured, seen);
    var read := v.(buffer := filled, captured := count, readOffset := v.readOffset + |seen|);
    if count == 0 then (read.(state := Idle), Ok)
    else
      var reversed := read.(buffer := Reverse(filled[..count]) + filled[count..]);
      if sendOk then (reversed.(state := Idle, captured := 0, sent := v.sent + [Reverse(filled[..count])]), Ok)
      else (reversed, TxFailed)
  }

  function PollArmedView(v: View): (View, Result) {
    if v.control.status == STATUS_OVERRUN then (v.(state := Error), Overrun)
    else if v.control.status == STATUS_DONE then (v.(state := Done), Ok)
    else (v, Ok)
  }

  /** `xLOGIC_Poll`; the count and bytes matter only in state DONE. */
  function PollView(v: View, captured: u32, seen: seq<byte>, sendOk: bool): (View, Result)
    requires v.captured <= |v.buffer| && v.readOffset <= |v.ring|
    requires v.state == Done ==> |seen| == ToCopy(captured, v.readOffset, |v.buffer| - v.captured, |v.ring|)
  {
    match v.state
    case Idle => (v, Ok)
    case Done => DrainedView(v, captured, seen, sendOk)
    case Error => (v.(control := v.control.(cmd := CMD_HALT)), InvalidState)
    case _ => PollArmedView(v)
  }

  /** What a poll reads when nothing writes during the call. */
  function RingPart(v: View): (seen: seq<byte>)
    requires v.captured <= |v.buffer| && v.readOffset <= |v.ring|
    ensures |seen| == ToCopy(v.control.samplesCaptured, v.readOffset, |v.buffer| - v.captured, |v.ring|)
  {
    var n := ToCopy(v.control.samplesCaptured, v.readOffset, |v.buffer| - v.captured, |v.ring|);
    v.ring[v.readOffset..v.readOffset + n]
  }

  /** The copy loop, out of the volatile ring. */
  method CopyInto(dest: array<byte>, at: nat, ring: array<byte>, from: nat, n: nat)
    requires dest != ring && at + n <= dest.Length && from + n <= ring.Length
    modifies dest
    ensures dest[..] == Overwrite(old(dest[..]), at, ring[from..from + n])
  {
    for i := 0 to n
      invariant forall k :: at <= k < at + i ==> dest[k] == ring[from + (k - at)]
      invariant forall k :: 0 <= k < dest.Length && !(at <= k < at + i) ==> dest[k] == old(dest[k])
    {
      dest[at + i] := ring[from + i];
    }
    ghost var part, all := ring[from..from + n], Overwrite(old(dest[..]), at, ring[from..from + n]);
    forall k | 0 <= k < dest.Length ensures dest[k] == all[k] {
      assert at <= k < at + n ==> all[k] == part[k - at];
    }
  }

  // ----- The calls -------------------------------------------------------------------

  class CaptureUnit {
    var state: CoreState
    var config: Config
    const sampleBuffer: array<byte>
    var samplesCaptured: nat
    var control: Control
    const ring: array<byte>
    var readOffset: nat
    var hasRunRequest: bool
    var hasResetRequest: bool
    ghost var sent: seq<seq<byte>>

    ghost predicate Valid()
      reads this, sampleBuffer, ring
    {
      sampleBuffer != ring && Safe(Snapshot())
    }

    ghost function Snapshot(): View
      reads this, sampleBuffer, ring
    {
      View(state, config, sampleBuffer[..], samplesCaptured, control, ring[..], readOffset, hasRunRequest,
           hasResetRequest, sent)
    }

    /** `xLOGIC_PRU_Init` and `xLOGIC_Init`, on memory with whatever it holds. */
    constructor (buffer: array<byte>, memory: Control, samples: array<byte>)
      requires buffer != samples && 0 < buffer.Length < TWO32 && 0 < samples.Length < TWO32
      ensures Valid() && sampleBuffer == buffer && ring == samples
      ensures Snapshot() == View(Idle, Config(0, 0, NoTrigger, 0, 0, 0), buffer[..], 0,
                                 memory.(cmd := 0, status := 0), samples[..], 0, false, false, [])
    {
      state, config, samplesCaptured, readOffset := Idle, Config(0, 0, NoTrigger, 0, 0, 0), 0, 0;
      sampleBuffer, ring := buffer, samples;
      control := memory.(cmd := CMD_IDLE, status := STATUS_READY);
      hasRunRequest, hasResetRequest, sent := false, false, [];
    }

    /** `xLOGIC_Arm`, with `xLOGIC_PRU_Arm` */
    method Arm(requested: Config) returns (r: Result, ghost channel: u32, ghost edge: u32)
      requires Valid()
      modifies this
      ensures Valid() && IsTriggerOf(requested, channel, edge)
      ensures old(state) != Idle ==> r == InvalidState && Snapshot() == old(Snapshot())
      ensures old(state) == Idle ==> r == Ok && Snapshot() == ArmedView(old(Snapshot()), requested, channel, edge)
      ensures r == Ok ==>
        && state == Armed && samplesCaptured == 0 && readOffset == 0 && !hasRunRequest && !hasResetRequest
        && control == Control(1, old(control).status, channel, edge, requested.sampleCount, 0, 0)
        && config == requested.(sampleRate := config.sampleRate) && Nearest(requested.sampleRate, config.sampleRate)
        && sampleBuffer[..] == old(sampleBuffer[..]) && ring[..] == old(ring[..]) && sent == old(sent)
    {
      var triggerChannel, triggerEdge := 0, TRIGGER_EDGE_RISING;
      if requested.triggerMode != NoTrigger && requested.triggerMask != 0 {
        triggerChannel := MapTriggerChannel(requested.triggerMask);
        triggerEdge := requested.triggerEdge;
      }
      channel, edge := triggerChannel, triggerEdge;
      if state != Idle {
        return InvalidState, channel, edge;
      }
      config := requested.(sampleRate := ClampSampleRate(requested.sampleRate));
      samplesCaptured := 0;
      readOffset := 0;
      control := Control(CMD_ARM, control.status, triggerChannel, triggerEdge, requested.sampleCount, 0, 0);
      state := Armed;
      hasRunRequest, hasResetRequest := false, false;
      return Ok, channel, edge;
    }

    /** `xLOGIC_Abort` */
    method Abort()
      requires Valid()
      modifies this
      ensures Valid() && Snapshot() == AbortedView(old(Snapshot()))
      ensures state == Idle && samplesCaptured == 0 && control == old(control).(cmd := 2)
      ensures !hasRunRequest && !hasResetRequest && readOffset == old(readOffset) && sent == old(sent)
    {
      control := control.(cmd := CMD_HALT);
      hasRunRequest, hasResetRequest := false, false;
      state := Idle;
      samplesCaptured := 0;
    }

    /** `xLOGIC_PRU_Read_Samples` into the sample buffer after what it already holds. */
    method ReadSamples() returns (bytesRead: nat)
      requires Valid()
      modifies this`readOffset, sampleBuffer
      ensures bytesRead == |old(RingPart(Snapshot()))| && readOffset == old(readOffset) + bytesRead
      ensures sampleBuffer[..] == Overwrite(old(sampleBuffer[..]), samplesCaptured, old(RingPart(Snapshot())))
      ensures ring[..] == old(ring[..])
    {
      var space := sampleBuffer.Length - samplesCaptured;
      var available := AvailableBytes(control.samplesCaptured, readOffset);
      var toCopy := if available < space then available else space;
      if readOffset + toCopy > ring.Length {
        toCopy := ring.Length - readOffset;
      }
      assert toCopy == |RingPart(Snapshot())|;
      hide Overwrite, ToCopy, RingPart;
      CopyInto(sampleBuffer, samplesCaptured, ring, readOffset, toCopy);
      readOffset := readOffset + toCopy;
      return toCopy;
    }

    /** `xLOGIC_Transport_Send_Samples`: the buffer is reversed whether or not the send succeeds. */
    method SendSamples(sendOk: bool) returns (ok: bool)
      requires Valid()
      modifies this`sent, sampleBuffer
      ensures ring[..] == old(ring[..])
      ensures samplesCaptured == 0 ==> ok && sampleBuffer[..] == old(sampleBuffer[..]) && sent == old(sent)
      ensures samplesCaptured > 0 ==>
        && ok == sendOk
        && sampleBuffer[..] == Reverse(old(sampleBuffer[..samplesCaptured])) + old(sampleBuffer[samplesCaptured..])
        && sent == if sendOk then old(sent) + [Reverse(old(sampleBuffer[..samplesCaptured]))] else old(sent)
    {
      hide Reverse;
      if samplesCaptured == 0 {
        return true;
      }
      ReverseBytes(sampleBuffer, samplesCaptured);
      assert sampleBuffer[..] == sampleBuffer[..samplesCaptured] + sampleBuffer[samplesCaptured..];
      if sendOk {
        sent := sent + [sampleBuffer[..samplesCaptured]];
      }
      return sendOk;
    }

    /** `xLOGIC_Poll` with no PRU write during the call. */
    method Poll(sendOk: bool) returns (r: Result)
      requires Valid()
      modifies this, sampleBuffer
      ensures Valid()
      ensures var (after, result) := PollView(old(Snapshot()), old(control).samplesCaptured, old(RingPart(Snapshot())),
                                              sendOk);
        Snapshot() == after && r == result
    {
      hide Reverse, Overwrite, ToCopy;
      match state
      case Idle =>
        return Ok;
      case Done =>
        r := PollDone(sendOk);
      case Error =>
        control := control.(cmd := CMD_HALT);
        return InvalidState;
      case _ =>
        if control.status == STATUS_OVERRUN {
          state := Error;
          return Overrun;
        }
        if control.status == STATUS_DONE {
          state := Done;
        }
        return Ok;
    }

    /** `poll_done` */
    method PollDone(sendOk: bool) returns (r: Result)
      requires Valid() && state == Done
      modifies this, sampleBuffer
      ensures Valid()
      ensures var (after, result) := DrainedView(old(Snapshot()), old(control).samplesCaptured,
                                                 old(RingPart(Snapshot())), sendOk);
        Snapshot() == after && r == result
    {
      hide Reverse, Overwrite, ToCopy, RingPart;
      ghost var v, seen := Snapshot(), RingPart(Snapshot());
      var bytesRead := ReadSamples();
      samplesCaptured := samplesCaptured + bytesRead;
      ghost var filled := sampleBuffer[..];
      assert filled == Overwrite(v.buffer, v.captured, seen);
      assert filled[..samplesCaptured] == sampleBuffer[..samplesCaptured];
      assert filled[samplesCaptured..] == sampleBuffer[samplesCaptured..];
      var ok := SendSamples(sendOk);
      if !ok {
        return TxFailed;
      }
      state := Idle;
      samplesCaptured := 0;
      return Ok;
    }
  }

  // ----- Every interleaving is safe --------------------------------------------------

  /** `PruWrite`: the co-processor stores into the fields and the memory it owns. */
  datatype Step =
    | ArmCall(config: Config, channel: u32, edge: u32)
    | PollCall(captured: u32, seen: seq<byte>, sendOk: bool)
    | AbortCall
    | PruWrite(status: u32, samplesCaptured: u32, overrunCount: u32, ring: seq<byte>)

  /** A poll may see any count and any bytes; a write keeps the size of the ring. */
  ghost predicate Possible(v: View, step: Step) {
    match step
    case PollCall(captured, seen, _) =>
      v.captured <= |v.buffer| && v.readOffset <= |v.ring|
        && (v.state == Done ==> |seen| == ToCopy(captured, v.readOffset, |v.buffer| - v.captured, |v.ring|))
    case PruWrite(_, _, _, ring) => |ring| == |v.ring|
    case _ => true
  }

  ghost function Next(v: View, step: Step): View
    requires Possible(v, step)
  {
    match step
    case ArmCall(config, channel, edge) => if v.state == Idle then ArmedView(v, config, channel, edge) else v
    case PollCall(captured, seen, sendOk) => PollView(v, captured, seen, sendOk).0
    case AbortCall => AbortedView(v)
    case PruWrite(status, samplesCaptured, overrunCount, ring) =>
      v.(control := v.control.(status := status, samplesCaptured := samplesCaptured, overrunCount := overrunCount),
         ring := ring)
  }

  /** The calls of the host and the writes of the co-processor, each by what it sets. */
  lemma StepsDo(v: View, config: Config, channel: u32, edge: u32, status: u32, count: u32, overruns: u32,
                ring: seq<byte>)
    requires |ring| == |v.ring|
    ensures var after, c := Next(v, ArmCall(config, channel, edge)), v.control;
      if v.state != Idle then after == v
      else
        && after.control == Control(1, c.status, channel, edge, config.sampleCount, 0, 0)
        && after.config == config.(sampleRate := after.config.sampleRate)
        && Nearest(config.sampleRate, after.config.sampleRate)
        && after == v.(state := Armed, config := after.config, captured := 0, readOffset := 0, control := after.control,
                       runRequest := false, resetRequest := false)
    ensures Next(v, AbortCall) == v.(state := Idle, captured := 0, control := v.control.(cmd := 2),
                                     runRequest := false, resetRequest := false)
    ensures Next(v, PruWrite(status, count, overruns, ring))
      == v.(control := Control(v.control.cmd, status, v.control.triggerChannel, v.control.triggerEdge,
                               v.control.sampleCount, count, overruns), ring := ring)
  {
    if v.state == Idle {
      assert Next(v, ArmCall(config, channel, edge)) == ArmedView(v, config, channel, edge);
    }
  }

  ghost predicate Run(v: View, steps: seq<Step>, after: View)
    decreases |steps|
  {
    if steps == [] then after == v
    else Possible(v, steps[0]) && Run(Next(v, steps[0]), steps[1..], after)
  }

  lemma DrainSafe(v: View, captured: u32, seen: seq<byte>, sendOk: bool)
    requires Safe(v) && v.state == Done && |seen| == ToCopy(captured, v.readOffset, |v.buffer| - v.captured, |v.ring|)
    ensures var after := DrainedView(v, captured, seen, sendOk).0;
      Safe(after) && |after.buffer| == |v.buffer| && |after.ring| == |v.ring| && v.sent <= after.sent
  {
    hide Reverse, ToCopy, Overwrite;
  }

  lemma StepSafe(v: View, step: Step)
    requires Safe(v) && Possible(v, step)
    ensures var after := Next(v, step);
      Safe(after) && |after.buffer| == |v.buffer| && |after.ring| == |v.ring| && v.sent <= after.sent
  {
    hide ToCopy, DrainedView;
    if step.PollCall? && v.state == Done {
      DrainSafe(v, step.captured, step.seen, step.sendOk);
    }
  }

  /** Indices stay inside their memory whatever the PRU does, and memory never changes size. */
  lemma {:induction false} AlwaysSafe(v: View, steps: seq<Step>, after: View)
    requires Safe(v) && Run(v, steps, after)
    ensures Safe(after) && |after.buffer| == |v.buffer| && |after.ring| == |v.ring|
    ensures v.sent <= after.sent
    decreases |steps|
  {
    hide Safe, Next, Possible;
    if steps != [] {
      StepSafe(v, steps[0]);
      AlwaysSafe(Next(v, steps[0]), steps[1..], after);
    }
  }

  // ----- One capture, from arm to delivery -------------------------------------------

  /** What the PRU has done since the arm call. */
  datatype Phase = Stale | Running | Finished(count: u32, samples: seq<byte>)

  /**
   The PRU first replaces the old status, then samples, and after reporting DONE leaves
   count and ring alone; a poll that no sampling overlaps reads what is there. The ARM side
   only polls, whenever it likes.
   */
  ghost predicate Disciplined(phase: Phase, step: Step, v: View) {
    match step
    case PruWrite(status, _, _, _) =>
      !phase.Finished? && (status == STATUS_RUNNING || (phase.Running? && status == STATUS_DONE))
    case PollCall(captured, seen, _) =>
      && v.captured <= |v.buffer| && v.readOffset <= |v.ring|
      && (!phase.Running? ==> captured == v.control.samplesCaptured && seen == RingPart(v))
    case _ => false
  }

  /** No poll meets the state Done, or the status OVERRUN, before the PRU has finished. */
  ghost predicate Timely(phase: Phase, step: Step, v: View) {
    step.PollCall? && !phase.Finished? ==> v.state != Done && v.control.status != STATUS_OVERRUN
  }

  ghost function NextPhase(phase: Phase, step: Step): Phase {
    if step.PruWrite? then (if step.status == STATUS_DONE then Finished(step.samplesCaptured, step.ring) else Running)
    else phase
  }

  ghost predicate Capture(phase: Phase, v: View, steps: seq<Step>, endPhase: Phase, after: View)
    decreases |steps|
  {
    if steps == [] then phase == endPhase && v == after
    else
      && Disciplined(phase, steps[0], v) && Possible(v, steps[0])
      && Capture(NextPhase(phase, steps[0]), Next(v, steps[0]), steps[1..], endPhase, after)
  }

  ghost predicate AllTimely(phase: Phase, v: View, steps: seq<Step>)
    decreases |steps|
  {
    steps == [] || !Possible(v, steps[0])
    || (Timely(phase, steps[0], v) && AllTimely(NextPhase(phase, steps[0]), Next(v, steps[0]), steps[1..]))
  }

  /** The number of samples that can be delivered. */
  ghost function Deliverable(v: View, count: u32): nat {
    Min(count, Min(|v.ring|, |v.buffer|))
  }

  /** `k` reversals. */
  ghost function Flip(data: seq<byte>, k: nat): (r: seq<byte>)
    ensures |r| == |data|
  {
    if k == 0 then data else Reverse(Flip(data, k - 1))
  }

  lemma {:induction false} FlipParity(data: seq<byte>, k: nat)
    ensures Flip(data, k) == if k % 2 == 0 then data else Reverse(data)
  {
    if k > 0 {
      FlipParity(data, k - 1);
      ReverseTwice(data);
    }
  }

  /**
   Where a capture stands after `failed` failed sends: nothing sent yet, or everything the
   PRU captured, reversed once per send attempt.
   */
  ghost predicate Progress(v: View, phase: Phase, before: seq<seq<byte>>, failed: nat) {
    match phase
    case Stale => v.state in {Armed, Done} && v.captured == 0 && v.readOffset == 0 && v.sent == before && failed == 0
    case Running =>
      && v.state in {Armed, Done} && v.captured == 0 && v.readOffset == 0 && v.sent == before && failed == 0
      && v.control.status == STATUS_RUNNING
    case Finished(count, samples) =>
      && v.control.status == STATUS_DONE && v.control.samplesCaptured == count && v.ring == samples
      && var m := Deliverable(v, count);
        || (v.state in {Armed, Done} && v.captured == 0 && v.readOffset == 0 && v.sent == before && failed == 0)
        || (v.state == Done && failed > 0 && 0 < m == v.captured && v.readOffset == m && v.sent == before
            && v.buffer[..m] == Flip(samples[..m], failed))
        || (v.state == Idle && v.sent == before + Delivery(samples[..m], failed))
  }

  /** What the host receives: nothing for an empty capture, else one message. */
  ghost function Delivery(data: seq<byte>, failed: nat): seq<seq<byte>> {
    if data == [] then [] else [Flip(data, failed + 1)]
  }

  /** Sends that fail while a capture is being delivered. */
  ghost function FailedSends(v: View, step: Step): nat {
    if step.PollCall? && Possible(v, step) && PollView(v, step.captured, step.seen, step.sendOk).1 == TxFailed
    then 1
    else 0
  }

  lemma DrainProgress(v: View, phase: Phase, before: seq<seq<byte>>, failed: nat, sendOk: bool)
    requires Safe(v) && phase.Finished? && Progress(v, phase, before, failed) && v.state == Done
    ensures var (after, r) := DrainedView(v, v.control.samplesCaptured, RingPart(v), sendOk);
      Progress(after, phase, before, failed + if r == TxFailed then 1 else 0)
  {
    if failed == 0 {
      FirstDrain(v, phase, before, sendOk);
    } else {
      LaterDrain(v, phase, before, failed, sendOk);
    }
  }

  lemma HeadOf(a: seq<byte>, b: seq<byte>)
    ensures (a + b)[..|a|] == a
  {
  }

  /** What one drain does, field by field. */
  lemma DrainOutcome(v: View, captured: u32, seen: seq<byte>, sendOk: bool)
    requires Safe(v) && |seen| == ToCopy(captured, v.readOffset, |v.buffer| - v.captured, |v.ring|)
    ensures var (after, r) := DrainedView(v, captured, seen, sendOk);
      var count := v.captured + |seen|;
      var data := Reverse(Overwrite(v.buffer, v.captured, seen)[..count]);
      && after.control == v.control && after.ring == v.ring && after.readOffset == v.readOffset + |seen|
      && |after.buffer| == |v.buffer|
      && (count == 0 ==> r == Ok && after.state == Idle && after.sent == v.sent)
      && (count > 0 && sendOk ==> r == Ok && after.state == Idle && after.sent == v.sent + [data])
      && (count > 0 && !sendOk ==>
          r == TxFailed && after.state == v.state && after.captured == count && after.sent == v.sent
            && after.buffer[..count] == data)
  {
    hide Reverse, Overwrite, ToCopy;
    var filled, count := Overwrite(v.buffer, v.captured, seen), v.captured + |seen|;
    HeadOf(Reverse(filled[..count]), filled[count..]);
  }

  lemma FirstDrain(v: View, phase: Phase, before: seq<seq<byte>>, sendOk: bool)
    requires Safe(v) && phase.Finished? && Progress(v, phase, before, 0) && v.state == Done
    ensures var (after, r) := DrainedView(v, v.control.samplesCaptured, RingPart(v), sendOk);
      Progress(after, phase, before, if r == TxFailed then 1 else 0)
  {
    hide Reverse, Flip, Overwrite, DrainedView;
    var m := Deliverable(v, phase.count);
    var seen := RingPart(v);
    FirstSeen(v, phase, before);
    hide RingPart, ToCopy;
    OverwriteFront(v.buffer, seen);
    FlipUnfold(seen, 0);
    DrainOutcome(v, v.control.samplesCaptured, seen, sendOk);
  }

  lemma FirstSeen(v: View, phase: Phase, before: seq<seq<byte>>)
    requires Safe(v) && phase.Finished? && Progress(v, phase, before, 0) && v.state == Done
    ensures var m := Deliverable(v, phase.count); RingPart(v) == v.ring[..m] == phase.samples[..m]
  {
    hide Reverse, Flip;
  }

  lemma OverwriteFront(s: seq<byte>, data: seq<byte>)
    requires |data| <= |s|
    ensures Overwrite(s, 0, data)[..|data|] == data
  {
  }

  lemma LaterDrain(v: View, phase: Phase, before: seq<seq<byte>>, failed: nat, sendOk: bool)
    requires Safe(v) && phase.Finished? && Progress(v, phase, before, failed) && v.state == Done && failed > 0
    ensures var (after, r) := DrainedView(v, v.control.samplesCaptured, RingPart(v), sendOk);
      Progress(after, phase, before, failed + if r == TxFailed then 1 else 0)
  {
    var m := Deliverable(v, phase.count);
    assert RingPart(v) == [];
    assert Overwrite(v.buffer, m, []) == v.buffer;
    hide Reverse, Flip, Overwrite, RingPart, ToCopy, DrainedView;
    FlipUnfold(phase.samples[..m], failed);
    DrainOutcome(v, v.control.samplesCaptured, [], sendOk);
  }

  lemma FlipUnfold(data: seq<byte>, k: nat)
    ensures Flip(data, k + 1) == Reverse(Flip(data, k)) && Flip(data, 0) == data
  {
  }

  lemma StepProgress(v: View, phase: Phase, step: Step, before: seq<seq<byte>>, failed: nat)
    requires Safe(v) && Progress(v, phase, before, failed) && Possible(v, step)
    requires Disciplined(phase, step, v) && Timely(phase, step, v)
    ensures Progress(Next(v, step), NextPhase(phase, step), before, failed + FailedSends(v, step))
  {
    hide Reverse, Flip, DrainedView, Delivery;
    if step.PollCall? && v.state == Done {
      DrainProgress(v, phase, before, failed, step.sendOk);
    }
  }

  ghost function AllFailedSends(v: View, steps: seq<Step>): nat
    decreases |steps|
  {
    if steps == [] || !Possible(v, steps[0]) then 0
    else FailedSends(v, steps[0]) + AllFailedSends(Next(v, steps[0]), steps[1..])
  }

  lemma {:induction false} CaptureProgress(phase: Phase, v: View, steps: seq<Step>, endPhase: Phase, after: View,
                                           before: seq<seq<byte>>, failed: nat)
    requires Safe(v) && Progress(v, phase, before, failed) && Capture(phase, v, steps, endPhase, after)
    requires AllTimely(phase, v, steps)
    ensures Progress(after, endPhase, before, failed + AllFailedSends(v, steps)) && Safe(after)
    ensures |after.buffer| == |v.buffer| && |after.ring| == |v.ring|
    decreases |steps|
  {
    hide Progress, Disciplined, Timely;
    if steps != [] {
      var w := Next(v, steps[0]);
      StepProgress(v, phase, steps[0], before, failed);
      AlwaysSafe(v, [steps[0]], w) by { assert [steps[0]][1..] == []; }
      CaptureProgress(NextPhase(phase, steps[0]), w, steps[1..], endPhase, after, before,
                      failed + FailedSends(v, steps[0]));
    }
  }

  ghost predicate Delivered(v: View, phase: Phase, failed: nat, after: View) {
    && phase.Finished? && |phase.samples| == |v.ring|
    && var data := phase.samples[..Min(phase.count, Min(|v.ring|, |v.buffer|))];
      after.sent == v.sent + if data == [] then [] else if failed % 2 == 0 then [Reverse(data)] else [data]
  }

  /**
   A capture by a disciplined PRU, polled in any interleaving that meets no early Done: until
   the core is idle again the host has received nothing; then it has received the first `m`
   ring bytes exactly once, newest first precisely when an even number of sends had failed.
   */
  lemma CaptureDelivered(v: View, config: Config, channel: u32, edge: u32, steps: seq<Step>, phase: Phase, after: View)
    requires Safe(v) && v.state == Idle && Capture(Stale, ArmedView(v, config, channel, edge), steps, phase, after)
    requires AllTimely(Stale, ArmedView(v, config, channel, edge), steps)
    ensures after.state in {Armed, Done, Idle} && (after.state != Idle ==> after.sent == v.sent)
    ensures after.state == Idle ==>
      Delivered(v, phase, AllFailedSends(ArmedView(v, config, channel, edge), steps), after)
  {
    hide Reverse, Flip, Capture, AllFailedSends, AllTimely;
    var armed := ArmedView(v, config, channel, edge);
    CaptureProgress(Stale, armed, steps, phase, after, v.sent, 0);
    if after.state == Idle {
      IdleIsDelivered(v, phase, AllFailedSends(armed, steps), after);
    }
  }

  lemma IdleIsDelivered(v: View, phase: Phase, failed: nat, after: View)
    requires Progress(after, phase, v.sent, failed) && after.state == Idle
    requires |after.ring| == |v.ring| && |after.buffer| == |v.buffer|
    ensures Delivered(v, phase, failed, after)
  {
    hide Reverse, Flip;
    FlipParity(phase.samples[..Deliverable(after, phase.count)], failed + 1);
  }

  /** Two polls after the PRU has finished are enough when the send succeeds. */
  lemma DeliveredAfterTwoPolls(v: View, phase: Phase, before: seq<seq<byte>>)
    requires Safe(v) && phase.Finished? && Progress(v, phase, before, 0) && v.state == Armed
    ensures var done := PollView(v, v.control.samplesCaptured, RingPart(v), true).0;
      done.state == Done && PollView(done, done.control.samplesCaptured, RingPart(done), true).0.state == Idle
  {
    hide Reverse, Flip;
  }

  // ----- An early Done ---------------------------------------------------------------

  /** After a poll that came too early: given up, or part of a capture already taken over. */
  ghost predicate Spoiled(v: View) {
    v.state == Idle || v.state == Error || (v.state == Done && v.captured > 0 && v.readOffset > 0)
  }

  lemma SpoiledStep(v: View, phase: Phase, step: Step)
    requires Safe(v) && Disciplined(phase, step, v) && Possible(v, step) && !phase.Finished?
    ensures Spoiled(v) ==> Spoiled(Next(v, step))
    ensures Progress(v, phase, v.sent, 0) && !Timely(phase, step, v) ==> Spoiled(Next(v, step))
  {
    hide Reverse, DrainedView, ToCopy;
    if step.PollCall? && v.state == Done {
      DrainOutcome(v, step.captured, step.seen, step.sendOk);
    }
  }

  lemma {:induction false} SpoiledRun(phase: Phase, v: View, steps: seq<Step>, endPhase: Phase, after: View)
    requires Safe(v) && Capture(phase, v, steps, endPhase, after) && !endPhase.Finished?
    requires Spoiled(v) || (Progress(v, phase, v.sent, 0) && !AllTimely(phase, v, steps))
    ensures Safe(after) && Spoiled(after) && |after.buffer| == |v.buffer| && |after.ring| == |v.ring|
    decreases |steps|
  {
    hide Safe, Disciplined, Timely, Possible, Spoiled, Progress, Next;
    if steps != [] {
      var w := Next(v, steps[0]);
      NotFinished(phase, v, steps, endPhase, after);
      SpoiledStep(v, phase, steps[0]);
      StepSafe(v, steps[0]);
      if !Spoiled(v) && Timely(phase, steps[0], v) {
        StepProgress(v, phase, steps[0], v.sent, 0);
        StillNothing(v, phase, steps[0]);
      }
      SpoiledRun(NextPhase(phase, steps[0]), w, steps[1..], endPhase, after);
    }
  }

  /** A finished capture stays finished. */
  lemma {:induction false} NotFinished(phase: Phase, v: View, steps: seq<Step>, endPhase: Phase, after: View)
    requires Capture(phase, v, steps, endPhase, after) && !endPhase.Finished?
    ensures !phase.Finished?
    decreases |steps|
  {
    hide Possible, Next;
    if steps != [] {
      NotFinished(NextPhase(phase, steps[0]), Next(v, steps[0]), steps[1..], endPhase, after);
    }
  }

  lemma StillNothing(v: View, phase: Phase, step: Step)
    requires Safe(v) && !phase.Finished? && Disciplined(phase, step, v) && Possible(v, step) && Timely(phase, step, v)
    requires Progress(v, phase, v.sent, 0)
    ensures Next(v, step).sent == v.sent && FailedSends(v, step) == 0
  {
    hide DrainedView, ToCopy, Reverse;
  }

  /** The PRU finishes with one sample `c`, and the core polls once more. */
  ghost function Rest(phase: Phase, v: View, c: byte): seq<Step> {
    (if phase.Stale? then [PruWrite(STATUS_RUNNING, 0, 0, v.ring)] else [])
    + [PruWrite(STATUS_DONE, 1, 0, seq(|v.ring|, _ => c)), PollCall(1, RestPart(v, c), true)]
  }

  ghost function RestView(v: View, c: byte): View {
    v.(control := v.control.(status := STATUS_DONE, samplesCaptured := 1, overrunCount := 0),
       ring := seq(|v.ring|, _ => c))
  }

  ghost function RestPart(v: View, c: byte): seq<byte> {
    if Safe(v) then RingPart(RestView(v, c)) else []
  }

  /** What the host has then, whatever the sample was. */
  ghost function Outcome(v: View): seq<seq<byte>>
    requires Safe(v)
  {
    if v.state == Done then v.sent + [Reverse(v.buffer[..v.captured])] else v.sent
  }

  lemma RestPoll(v: View, c: byte)
    requires Safe(v) && Spoiled(v)
    ensures var (final, r) := PollView(RestView(v, c), 1, RestPart(v, c), true);
      final.sent == Outcome(v) && final.state !in {Armed, Done} && r != TxFailed
  {
    hide Reverse;
    if v.state == Done {
      assert RestPart(v, c) == [];
      assert Overwrite(v.buffer, v.captured, []) == v.buffer;
    }
  }

  lemma OneStep(phase: Phase, v: View, step: Step)
    requires Disciplined(phase, step, v) && Possible(v, step)
    ensures Capture(phase, v, [step], NextPhase(phase, step), Next(v, step))
    ensures AllTimely(phase, v, [step]) <==> Timely(phase, step, v)
    ensures AllFailedSends(v, [step]) == FailedSends(v, step)
  {
    hide Disciplined, Possible, Next, NextPhase, FailedSends, Timely;
    assert [step][1..] == [];
  }

  lemma FirstOf(phase: Phase, v: View, step: Step, steps: seq<Step>, endPhase: Phase, after: View)
    requires Disciplined(phase, step, v) && Possible(v, step)
    requires Capture(NextPhase(phase, step), Next(v, step), steps, endPhase, after)
    ensures Capture(phase, v, [step] + steps, endPhase, after)
    ensures AllTimely(phase, v, [step] + steps) <==>
      Timely(phase, step, v) && AllTimely(NextPhase(phase, step), Next(v, step), steps)
  {
    hide Disciplined, Possible, Next, NextPhase, Timely;
    assert ([step] + steps)[1..] == steps;
  }

  /** One way the rest of a spoiled capture can go. */
  lemma RestGoes(phase: Phase, v: View, c: byte) returns (final: View)
    requires Safe(v) && Spoiled(v) && !phase.Finished?
    ensures var more, last := Rest(phase, v, c), Finished(1, seq(|v.ring|, _ => c));
      Capture(phase, v, more, last, final) && AllTimely(phase, v, more)
    ensures final.sent == Outcome(v) && final.state !in {Armed, Done}
  {
    hide Capture, AllTimely, AllFailedSends, PollView, RestPart, RingPart, Spoiled;
    var samples: seq<byte> := seq(|v.ring|, _ => c);
    var run, write, poll :=
      PruWrite(STATUS_RUNNING, 0, 0, v.ring), PruWrite(STATUS_DONE, 1, 0, samples), PollCall(1, RestPart(v, c), true);
    RestPoll(v, c);
    RestSafe(v, c);
    var w := RestView(v, c);
    final := Next(w, poll);
    OneStep(Finished(1, samples), w, poll);
    FirstOf(Running, v, write, [poll], Finished(1, samples), final);
    assert [write] + [poll] == [write, poll];
    assert Rest(phase, v, c) == if phase.Stale? then [run] + [write, poll] else [write, poll];
    if phase.Stale? {
      var u := Next(v, run);
      assert Next(u, write) == w && Next(v, write) == w;
      FirstOf(Running, u, write, [poll], Finished(1, samples), final);
      FirstOf(phase, v, run, [write, poll], Finished(1, samples), final);
    }
  }

  lemma RestSafe(v: View, c: byte)
    requires Safe(v)
    ensures Safe(RestView(v, c)) && RestPart(v, c) == RingPart(RestView(v, c))
  {
  }

  /** What is still to come of this capture reaches the host in full, whatever it is. */
  ghost predicate SureToDeliver(v: View, phase: Phase, after: View) {
    forall more: seq<Step>, last: Phase, final: View ::
      Capture(phase, after, more, last, final) && AllTimely(phase, after, more) && last.Finished?
        && final.state !in {Armed, Done} ==>
        Delivered(v, last, AllFailedSends(after, more), final)
  }

  /**
   The exact condition over interleavings: while the PRU has not finished, the capture is
   sure to be delivered in full precisely when no poll so far has met the state Done or the
   status OVERRUN: a first poll in state Done has to come after the PRU has finished.
   */
  lemma DeliveryIff(v: View, config: Config, channel: u32, edge: u32, steps: seq<Step>, phase: Phase, after: View)
    requires Safe(v) && v.state == Idle && |v.ring| > 0 && |v.buffer| > 0 && !phase.Finished?
    requires Capture(Stale, ArmedView(v, config, channel, edge), steps, phase, after)
    ensures AllTimely(Stale, ArmedView(v, config, channel, edge), steps) <==> SureToDeliver(v, phase, after)
  {
    hide Reverse, Flip, Capture, AllFailedSends, AllTimely, Delivered, Rest, Safe;
    var armed := ArmedView(v, config, channel, edge);
    ArmedStarts(v, config, channel, edge);
    if AllTimely(Stale, armed, steps) {
      CaptureProgress(Stale, armed, steps, phase, after, v.sent, 0);
      forall more: seq<Step>, last: Phase, final: View
        | Capture(phase, after, more, last, final) && AllTimely(phase, after, more) && last.Finished?
          && final.state !in {Armed, Done}
        ensures Delivered(v, last, AllFailedSends(after, more), final)
      {
        CaptureProgress(phase, after, more, last, final, v.sent, 0);
        IdleIsDelivered(v, last, AllFailedSends(after, more), final);
      }
    } else {
      SpoiledRun(Stale, armed, steps, phase, after);
      NotSure(v, phase, after);
    }
  }

  lemma ArmedStarts(v: View, config: Config, channel: u32, edge: u32)
    requires Safe(v)
    ensures var armed := ArmedView(v, config, channel, edge); Safe(armed) && Progress(armed, Stale, v.sent, 0)
    ensures ArmedView(v, config, channel, edge).sent == v.sent
  {
  }

  lemma NotSure(v: View, phase: Phase, after: View)
    requires Safe(after) && Spoiled(after) && !phase.Finished? && |v.ring| > 0 && |v.buffer| > 0
    requires |after.ring| == |v.ring| && |after.buffer| == |v.buffer|
    ensures !SureToDeliver(v, phase, after)
  {
    hide Reverse, Capture, AllFailedSends, AllTimely, Rest, Outcome, Safe, Spoiled;
    var c: byte := if Outcome(after) == v.sent + [[0]] then 1 else 0;
    assert (v.sent + [[0]])[|v.sent|] == [0] && (v.sent + [[1]])[|v.sent|] == [1];
    var final := RestGoes(phase, after, c);
    var samples: seq<byte> := seq(|after.ring|, _ => c);
    assert samples[..1] == [c];
    ReverseShort([c]);
    assert !Delivered(v, Finished(1, samples), AllFailedSends(after, Rest(phase, after, c)), final);
  }

  /** A status in which no early poll can go wrong. */
  predicate Harmless(status: u32) {
    status != STATUS_DONE && status != STATUS_OVERRUN
  }

  lemma {:induction false} HarmlessIsTimely(phase: Phase, v: View, steps: seq<Step>, endPhase: Phase, after: View)
    requires Capture(phase, v, steps, endPhase, after)
    requires !phase.Finished? ==> v.state == Armed && Harmless(v.control.status)
    ensures AllTimely(phase, v, steps)
    decreases |steps|
  {
    hide RingPart, PollView;
    if steps != [] {
      HarmlessStep(phase, v, steps[0]);
      HarmlessIsTimely(NextPhase(phase, steps[0]), Next(v, steps[0]), steps[1..], endPhase, after);
    }
  }

  lemma HarmlessStep(phase: Phase, v: View, step: Step)
    requires Disciplined(phase, step, v) && Possible(v, step)
    requires !phase.Finished? ==> v.state == Armed && Harmless(v.control.status)
    ensures !NextPhase(phase, step).Finished? ==> Next(v, step).state == Armed && Harmless(Next(v, step).control.status)
  {
    hide DrainedView, ToCopy;
  }

  /**
   What a caller can check before arming: every interleaving of the capture is one that is
   delivered in full exactly when the old status is neither DONE nor OVERRUN.
   */
  lemma ArmSafeIff(v: View, config: Config, channel: u32, edge: u32)
    requires Safe(v) && v.state == Idle
    ensures var armed := ArmedView(v, config, channel, edge);
      Harmless(v.control.status) <==>
        forall steps, phase, after :: Capture(Stale, armed, steps, phase, after) ==> AllTimely(Stale, armed, steps)
  {
    var armed := ArmedView(v, config, channel, edge);
    if Harmless(v.control.status) {
      forall steps, phase, after | Capture(Stale, armed, steps, phase, after) ensures AllTimely(Stale, armed, steps) {
        HarmlessIsTimely(Stale, armed, steps, phase, after);
      }
    } else {
      EarlyPolls(armed);
    }
  }

  /** One poll meets the old OVERRUN, the second of two the old DONE. */
  lemma EarlyPolls(v: View)
    requires Safe(v) && v.state == Armed && v.control.samplesCaptured == 0 && !Harmless(v.control.status)
    ensures exists steps, phase, after :: Capture(Stale, v, steps, phase, after) && !AllTimely(Stale, v, steps)
  {
    hide Reverse, Capture, AllTimely, ToCopy, Overwrite;
    var poll := PollCall(0, RingPart(v), true);
    var w := Next(v, poll);
    OneStep(Stale, v, poll);
    if v.control.status == STATUS_DONE {
      OneStep(Stale, w, poll);
      FirstOf(Stale, v, poll, [poll], Stale, Next(w, poll));
      assert !AllTimely(Stale, v, [poll] + [poll]);
    }
  }

  /**
   The two ways it goes wrong after the last capture left DONE, which arming does not clear.
   Two polls before the PRU writes: the core is idle again, has sent nothing and left the PRU
   armed. The PRU begins between the two: the host gets the part of the ring read by then.
   */
  lemma StaleDoneEndsCapture(v: View, config: Config, channel: u32, edge: u32, sendOk: bool)
    requires Safe(v) && v.state == Idle
    ensures var armed := ArmedView(v, config, channel, edge);
      var polled := PollView(armed, 0, [], sendOk).0;
      && (polled.state == Done <==> v.control.status == STATUS_DONE)
      && (v.control.status == STATUS_DONE ==>
            var again := PollView(polled, polled.control.samplesCaptured, RingPart(polled), sendOk).0;
            again.state == Idle && again.sent == v.sent && again.control.cmd == CMD_ARM)
      && (v.control.status == STATUS_DONE ==>
            forall count: u32, ring: seq<byte> :: |ring| == |v.ring| ==>
              var begun := Next(polled, PruWrite(STATUS_RUNNING, count, 0, ring));
              var part := ring[..Min(count, Min(|ring|, |v.buffer|))];
              var again := PollView(begun, count, RingPart(begun), true).0;
              again.state == Idle && again.sent == v.sent + if part == [] then [] else [Reverse(part)])
  {
    hide Reverse;
    var polled := PollView(ArmedView(v, config, channel, edge), 0, [], sendOk).0;
    if v.control.status == STATUS_DONE {
      forall count: u32, ring: seq<byte> | |ring| == |v.ring|
        ensures var begun := Next(polled, PruWrite(STATUS_RUNNING, count, 0, ring));
          var part := ring[..Min(count, Min(|ring|, |v.buffer|))];
          var again := PollView(begun, count, RingPart(begun), true).0;
          again.state == Idle && again.sent == v.sent + if part == [] then [] else [Reverse(part)]
      {
        PartialPoll(Next(polled, PruWrite(STATUS_RUNNING, count, 0, ring)));
      }
    }
  }

  /** A poll in state Done sends what it reads. */
  lemma PartialPoll(v: View)
    requires Safe(v) && v.state == Done && v.captured == 0 && v.readOffset == 0
    ensures var part := v.ring[..Min(v.control.samplesCaptured, Min(|v.ring|, |v.buffer|))];
      var again := PollView(v, v.control.samplesCaptured, RingPart(v), true).0;
      again.state == Idle && again.sent == v.sent + if part == [] then [] else [Reverse(part)]
  {
    hide Reverse;
    var seen := RingPart(v);
    assert seen == v.ring[..Min(v.control.samplesCaptured, Min(|v.ring|, |v.buffer|))];
    assert Overwrite(v.buffer, 0, seen)[..|seen|] == seen;
    DrainOutcome(v, v.control.samplesCaptured, seen, true);
  }

  // ----- One poll, by the codes of the control block ---------------------------------------

  /** What a poll does before the capture is over, and in the error state. */
  lemma PollDoes(v: View, sendOk: bool)
    requires Safe(v) && v.state != Done
    ensures var (after, r) := PollView(v, 0, [], sendOk);
      && (v.state == Idle ==> after == v && r == Ok)
      && (v.state == Error ==> after == v.(control := v.control.(cmd := 2)) && r == InvalidState)
      && (v.state in {Armed, Triggered, Capturing} ==>
            && (v.control.status == 3 ==> after == v.(state := Error) && r == Overrun)
            && (v.control.status == 2 ==> after == v.(state := Done) && r == Ok)
            && (v.control.status != 3 && v.control.status != 2 ==> after == v && r == Ok))
  {
  }
}
