/**
 The USB-to-UART bridge: two rings and a polling pump. Every accepted byte is handed to the
 peripheral once and in order, and the ring towards the host is empty between polls; a byte
 is lost exactly when the call it was handed to fails, because it has left its ring by then.
 */
module XbridgeUart {
  import opened Bytes
  import Ring

  const QUEUE_BYTES: nat := 512
  const CHUNK: nat := 64

  datatype Result = Ok | QueueFull | WriteFailed | ReadFailed | SendFailed

  // ----- The ring --------------------------------------------------------------------

  class ByteRing {
    const bytes: array<byte>
    var head: nat
    var tail: nat

    ghost predicate Valid()
      reads this, bytes
    {
      bytes.Length == QUEUE_BYTES && head < QUEUE_BYTES && tail < QUEUE_BYTES
    }

    /** The queued bytes, oldest first. */
    ghost function Contents(): (q: seq<byte>)
      reads this, bytes
      requires Valid()
      ensures |q| < QUEUE_BYTES
    {
      Ring.Held(bytes[..], head, tail)
    }

    constructor ()
      ensures Valid() && Contents() == [] && fresh(bytes)
    {
      head, tail := 0, 0;
      bytes := new byte[QUEUE_BYTES](_ => 0);
    }

    /** `ring_available` */
    function Available(): (n: nat)
      reads this, bytes
      requires Valid()
      ensures n == |Contents()|
    {
      if tail >= head then tail - head else QUEUE_BYTES - head + tail
    }

    /** `ring_enqueue`: all of the data or none of it. */
    method Enqueue(data: array<byte>, length: nat) returns (ok: bool)
      requires Valid() && length <= data.Length && data != bytes
      modifies this`tail, bytes
      ensures Valid() && ok == (old(|Contents()|) + length < QUEUE_BYTES)
      ensures Contents() == if ok then old(Contents()) + data[..length] else old(Contents())
    {
      var used := Available();
      var freeSpace := QUEUE_BYTES - 1 - used;
      if length > freeSpace {
        return false;
      }
      for i := 0 to length
        invariant Valid() && Contents() == old(Contents()) + data[..i]
      {
        Ring.PutHeld(bytes[..], head, tail, data[i]);
        ghost var before := bytes[..];
        bytes[tail] := data[i];
        assert bytes[..] == before[tail := data[i]];
        tail := (tail + 1) % QUEUE_BYTES;
        assert data[..i] + [data[i]] == data[..i + 1];
      }
      return true;
    }

    /** `ring_dequeue`: the oldest bytes, at most `maxLen` of them. */
    method Dequeue(data: array<byte>, maxLen: nat) returns (count: nat)
      requires Valid() && maxLen <= data.Length && data != bytes
      modifies this`head, data
      ensures Valid() && count == Taken(old(Contents()), maxLen)
      ensures data[..count] == old(Contents())[..count] && Contents() == old(Contents())[count..]
    {
      hide Ring.Held;
      var avail := Available();
      count := if avail < maxLen then avail else maxLen;
      for i := 0 to count
        invariant Valid() && bytes[..] == old(bytes[..]) && tail == old(tail)
        invariant Contents() == old(Contents())[i..]
        invariant data[..i] == old(Contents())[..i]
      {
        Ring.PeekHeld(bytes[..], head, tail, 0);
        Ring.DropHeld(bytes[..], head, tail, 1);
        assert old(Contents())[i..][1..] == old(Contents())[i + 1..];
        data[i] := bytes[head];
        head := (head + 1) % QUEUE_BYTES;
      }
    }
  }

  function Taken(queue: seq<byte>, max: nat): (n: nat)
    ensures n <= max && n <= |queue|
  {
    if |queue| < max then |queue| else max
  }

  // ----- The bridge ------------------------------------------------------------------

  /** What the peripheral callbacks do during one poll; a read yields at most 64 bytes. */
  datatype Devices = Devices(writeOk: bool, rxReady: bool, readOk: bool, read: seq<byte>, sendOk: bool)

  ghost predicate WellBehaved(d: Devices) {
    |d.read| <= CHUNK
  }

  /**
   The bridge: bytes queued each way, all bytes ever handed to the UART's `write` and to the
   USB `send`, and those of them in calls that succeeded.
   */
  datatype View = View(toUart: seq<byte>, toUsb: seq<byte>, dtr: bool, toWrite: seq<byte>, toSend: seq<byte>,
                       written: seq<byte>, sent: seq<byte>)

  function ReceiveView(v: View, data: seq<byte>): (View, Result) {
    if !v.dtr then (v, Ok)
    else if |v.toUart| + |data| >= QUEUE_BYTES then (v, QueueFull)
    else (v.(toUart := v.toUart + data), Ok)
  }

  function FlushView(v: View, sendOk: bool): (View, Result) {
    var n := Taken(v.toUsb, CHUNK);
    (v.(toUsb := v.toUsb[n..], toSend := v.toSend + v.toUsb[..n],
        sent := if sendOk then v.sent + v.toUsb[..n] else v.sent),
     if n > 0 && !sendOk then SendFailed else Ok)
  }

  function PollView(v: View, d: Devices): (View, Result) {
    var n := Taken(v.toUart, CHUNK);
    var w := v.(toUart := v.toUart[n..], toWrite := v.toWrite + v.toUart[..n],
                written := if d.writeOk then v.written + v.toUart[..n] else v.written);
    if n > 0 && !d.writeOk then (w, WriteFailed)
    else if d.rxReady && !d.readOk then (w, ReadFailed)
    else if d.rxReady && d.read != [] then
      if |w.toUsb| + |d.read| >= QUEUE_BYTES then (w, QueueFull) else FlushView(w.(toUsb := w.toUsb + d.read), d.sendOk)
    else FlushView(w, d.sendOk)
  }

  class Bridge {
    const usbToUart: ByteRing
    const uartToUsb: ByteRing
    var isDtrActive: bool
    ghost var toWrite: seq<byte>
    ghost var toSend: seq<byte>
    ghost var written: seq<byte>
    ghost var sent: seq<byte>

    ghost function Footprint(): set<object> {
      {this, usbToUart, uartToUsb, usbToUart.bytes, uartToUsb.bytes}
    }

    ghost predicate Valid()
      reads Footprint()
    {
      usbToUart != uartToUsb && usbToUart.bytes != uartToUsb.bytes && usbToUart.Valid() && uartToUsb.Valid()
    }

    ghost function Snapshot(): View
      reads Footprint()
      requires Valid()
    {
      View(usbToUart.Contents(), uartToUsb.Contents(), isDtrActive, toWrite, toSend, written, sent)
    }

    /** `xBRIDGE_UART_Init` */
    constructor ()
      ensures Valid() && Snapshot() == View([], [], false, [], [], [], []) && fresh(Footprint())
    {
      usbToUart := new ByteRing();
      uartToUsb := new ByteRing();
      isDtrActive, toWrite, toSend, written, sent := false, [], [], [], [];
    }

    /** `xBRIDGE_UART_On_Control_Line_State` */
    method OnControlLineState(dtr: bool)
      requires Valid()
      modifies this`isDtrActive
      ensures Valid() && Snapshot() == old(Snapshot()).(dtr := dtr)
    {
      isDtrActive := dtr;
    }

    /** `xBRIDGE_UART_On_USB_Receive` */
    method OnUsbReceive(data: array<byte>) returns (r: Result)
      requires Valid() && data !in Footprint()
      modifies Footprint()
      ensures Valid() && (Snapshot(), r) == ReceiveView(old(Snapshot()), data[..])
      ensures r == (if old(isDtrActive) && old(|usbToUart.Contents()|) + data.Length > 511 then QueueFull else Ok)
      ensures usbToUart.Contents()
        == old(usbToUart.Contents()) + if old(isDtrActive) && r == Ok then old(data[..]) else []
    {
      if !isDtrActive {
        return Ok;
      }
      assert data[..data.Length] == data[..];
      var ok := usbToUart.Enqueue(data, data.Length);
      return if ok then Ok else QueueFull;
    }

    /** `xBRIDGE_UART_Poll` */
    method Poll(d: Devices) returns (r: Result)
      requires Valid() && WellBehaved(d)
      modifies Footprint()
      ensures Valid() && (Snapshot(), r) == PollView(old(Snapshot()), d)
    {
      hide Ring.Held;
      var txBuf := new byte[CHUNK](_ => 0);
      var txLen := usbToUart.Dequeue(txBuf, CHUNK);
      toWrite := toWrite + txBuf[..txLen];
      if d.writeOk {
        written := written + txBuf[..txLen];
      }
      if txLen > 0 && !d.writeOk {
        return WriteFailed;
      }
      if d.rxReady {
        if !d.readOk {
          return ReadFailed;
        }
        var rxBuf := new byte[CHUNK](i => if 0 <= i < |d.read| then d.read[i] else 0);
        var rxLen := |d.read|;
        assert rxBuf[..rxLen] == d.read;
        if rxLen > 0 {
          var ok := uartToUsb.Enqueue(rxBuf, rxLen);
          if !ok {
            return QueueFull;
          }
        }
      }
      r := Flush(d.sendOk);
    }

    method Flush(sendOk: bool) returns (r: Result)
      requires Valid()
      modifies this`sent, this`toSend, uartToUsb
      ensures Valid() && (Snapshot(), r) == FlushView(old(Snapshot()), sendOk)
    {
      hide Ring.Held;
      var usbTx := new byte[CHUNK](_ => 0);
      var usbTxLen := uartToUsb.Dequeue(usbTx, CHUNK);
      toSend := toSend + usbTx[..usbTxLen];
      if sendOk {
        sent := sent + usbTx[..usbTxLen];
      }
      r := if usbTxLen > 0 && !sendOk then SendFailed else Ok;
    }
  }

  /** The result of a poll, and what it moves: at most 64 bytes each way, those it read behind the rest. */
  lemma PollDoes(v: View, d: Devices)
    ensures var (after, r) := PollView(v, d);
      var n := if |v.toUart| <= 64 then |v.toUart| else 64;
      var read := if d.rxReady && d.readOk then d.read else [];
      && (r == WriteFailed <==> n > 0 && !d.writeOk)
      && (r == ReadFailed <==> r != WriteFailed && d.rxReady && !d.readOk)
      && (r == QueueFull <==> r != WriteFailed && read != [] && |v.toUsb| + |read| > 511)
      && (r == SendFailed <==> r !in {WriteFailed, ReadFailed, QueueFull} && !d.sendOk && |v.toUsb| + |read| > 0)
      && after.toUart == v.toUart[n..] && after.toWrite == v.toWrite + v.toUart[..n]
      && after.written == v.written + (if d.writeOk then v.toUart[..n] else []) && after.dtr == v.dtr
      && (r in {WriteFailed, ReadFailed, QueueFull} ==> after.toUsb == v.toUsb && after.toSend == v.toSend
                                                        && after.sent == v.sent)
      && (r in {Ok, SendFailed} ==>
            var waiting := v.toUsb + read;
            var k := if |waiting| <= 64 then |waiting| else 64;
            && after.toUsb == waiting[k..] && after.toSend == v.toSend + waiting[..k]
            && after.sent == v.sent + if d.sendOk then waiting[..k] else [])
  {
    assert v.toUsb + [] == v.toUsb && v.written + [] == v.written && v.sent + [] == v.sent;
  }

  // ----- Every run -------------------------------------------------------------------

  datatype Step = Receive(data: seq<byte>) | SetDtr(dtr: bool) | Poll(devices: Devices)

  function Next(v: View, step: Step): (View, Result) {
    match step
    case Receive(data) => ReceiveView(v, data)
    case SetDtr(dtr) => (v.(dtr := dtr), Ok)
    case Poll(devices) => PollView(v, devices)
  }

  ghost function Run(v: View, steps: seq<Step>): View
    decreases |steps|
  {
    if steps == [] then v else Run(Next(v, steps[0]).0, steps[1..])
  }

  /** A chunk is accepted, whole, when the line is active and the call succeeds. */
  function AcceptedBytes(v: View, step: Step): seq<byte> {
    if step.Receive? && v.dtr && ReceiveView(v, step.data).1 == Ok then step.data else []
  }

  ghost function AllAccepted(v: View, steps: seq<Step>): seq<byte>
    decreases |steps|
  {
    if steps == [] then [] else AcceptedBytes(v, steps[0]) + AllAccepted(Next(v, steps[0]).0, steps[1..])
  }

  /** What the poll read from the UART: nothing if the write before it failed. */
  function ReadBytes(v: View, step: Step): seq<byte> {
    if step.Poll? && (v.toUart == [] || step.devices.writeOk) && step.devices.rxReady && step.devices.readOk
    then step.devices.read
    else []
  }

  ghost function AllRead(v: View, steps: seq<Step>): seq<byte>
    decreases |steps|
  {
    if steps == [] then [] else ReadBytes(v, steps[0]) + AllRead(Next(v, steps[0]).0, steps[1..])
  }

  ghost predicate DevicesWellBehaved(steps: seq<Step>) {
    forall i :: 0 <= i < |steps| && steps[i].Poll? ==> WellBehaved(steps[i].devices)
  }

  lemma StepConserves(v: View, step: Step)
    requires v.toUsb == [] && (step.Poll? ==> WellBehaved(step.devices))
    ensures var (after, r) := Next(v, step);
      && after.toWrite + after.toUart == v.toWrite + v.toUart + AcceptedBytes(v, step)
      && after.toUsb == [] && after.toSend == v.toSend + ReadBytes(v, step)
      && (step.Poll? ==> r != QueueFull)
  {
    if step.Poll? {
      var n := Taken(v.toUart, CHUNK);
      assert (v.toWrite + v.toUart[..n]) + v.toUart[n..] == v.toWrite + v.toUart;
      var d := step.devices.read;
      assert [] + d == d && d[..|d|] == d;
    }
  }

  /**
   Over every run of receives, line changes and polls, with any write, read and send
   failures: bytes handed to the UART followed by bytes still queued are exactly the
   accepted chunks in order; bytes handed to USB are exactly the bytes read, and none
   waits between polls.
   */
  lemma {:induction false} EveryByteHandedOver(v: View, steps: seq<Step>)
    requires v.toUsb == [] && DevicesWellBehaved(steps)
    ensures var after := Run(v, steps);
      && after.toWrite + after.toUart == v.toWrite + v.toUart + AllAccepted(v, steps)
      && after.toUsb == [] && after.toSend == v.toSend + AllRead(v, steps)
    decreases |steps|
  {
    hide Next, AcceptedBytes, ReadBytes, WellBehaved;
    if steps != [] {
      LaterBehave(steps);
      StepConserves(v, steps[0]);
      EveryByteHandedOver(Next(v, steps[0]).0, steps[1..]);
    }
  }

  lemma LaterBehave(steps: seq<Step>)
    requires steps != [] && DevicesWellBehaved(steps)
    ensures DevicesWellBehaved(steps[1..]) && (steps[0].Poll? ==> WellBehaved(steps[0].devices))
  {
    hide WellBehaved;
    assert forall i :: 0 <= i < |steps[1..]| ==> steps[1..][i] == steps[i + 1];
  }

  // ----- What a failing call costs ---------------------------------------------------

  /** Bytes taken from the ring for a write that then fails. */
  function LostWriting(v: View, step: Step): nat {
    if step.Poll? && !step.devices.writeOk then Taken(v.toUart, CHUNK) else 0
  }

  /** Bytes read and taken from the ring for a send that then fails. */
  function LostSending(v: View, step: Step): nat {
    if step.Poll? && !step.devices.sendOk then |ReadBytes(v, step)| else 0
  }

  /** No poll with a byte to write had its write fail. */
  ghost predicate WritesSucceed(v: View, steps: seq<Step>)
    decreases |steps|
  {
    steps == [] ||
    ((steps[0].Poll? && v.toUart != [] ==> steps[0].devices.writeOk) && WritesSucceed(Next(v, steps[0]).0, steps[1..]))
  }

  /** No poll that read a byte had its send fail. */
  ghost predicate SendsSucceed(v: View, steps: seq<Step>)
    decreases |steps|
  {
    steps == [] ||
    ((steps[0].Poll? && ReadBytes(v, steps[0]) != [] ==> steps[0].devices.sendOk)
     && SendsSucceed(Next(v, steps[0]).0, steps[1..]))
  }

  ghost function AllLostWriting(v: View, steps: seq<Step>): nat
    decreases |steps|
  {
    if steps == [] then 0 else LostWriting(v, steps[0]) + AllLostWriting(Next(v, steps[0]).0, steps[1..])
  }

  ghost function AllLostSending(v: View, steps: seq<Step>): nat
    decreases |steps|
  {
    if steps == [] then 0 else LostSending(v, steps[0]) + AllLostSending(Next(v, steps[0]).0, steps[1..])
  }

  lemma WriteStep(v: View, step: Step)
    requires v.toUsb == [] && (step.Poll? ==> WellBehaved(step.devices))
    ensures var after := Next(v, step).0;
      && |after.written| + |after.toUart| + LostWriting(v, step) == |v.written| + |v.toUart| + |AcceptedBytes(v, step)|
      && (LostWriting(v, step) == 0 ==> after.written + after.toUart == v.written + v.toUart + AcceptedBytes(v, step))
  {
    if step.Poll? {
      var n := Taken(v.toUart, CHUNK);
      assert (v.written + v.toUart[..n]) + v.toUart[n..] == v.written + v.toUart;
    }
  }

  lemma SendStep(v: View, step: Step)
    requires v.toUsb == [] && (step.Poll? ==> WellBehaved(step.devices))
    ensures var after := Next(v, step).0;
      && |after.sent| + LostSending(v, step) == |v.sent| + |ReadBytes(v, step)|
      && (LostSending(v, step) == 0 ==> after.sent == v.sent + ReadBytes(v, step))
  {
    if step.Poll? {
      var d := step.devices.read;
      assert [] + d == d && d[..|d|] == d;
    }
  }

  lemma {:induction false} WriteRun(v: View, steps: seq<Step>)
    requires v.toUsb == [] && DevicesWellBehaved(steps)
    ensures var after := Run(v, steps);
      && |after.written| + |after.toUart| + AllLostWriting(v, steps)
        == |v.written| + |v.toUart| + |AllAccepted(v, steps)|
      && (AllLostWriting(v, steps) == 0 <==> WritesSucceed(v, steps))
      && (WritesSucceed(v, steps) ==> after.written + after.toUart == v.written + v.toUart + AllAccepted(v, steps))
    decreases |steps|
  {
    hide Next, AcceptedBytes, WellBehaved;
    if steps != [] {
      LaterBehave(steps);
      StepConserves(v, steps[0]);
      WriteStep(v, steps[0]);
      WriteRun(Next(v, steps[0]).0, steps[1..]);
    }
  }

  lemma {:induction false} SendRun(v: View, steps: seq<Step>)
    requires v.toUsb == [] && DevicesWellBehaved(steps)
    ensures var after := Run(v, steps);
      && |after.sent| + AllLostSending(v, steps) == |v.sent| + |AllRead(v, steps)|
      && (AllLostSending(v, steps) == 0 <==> SendsSucceed(v, steps))
      && (SendsSucceed(v, steps) ==> after.sent == v.sent + AllRead(v, steps))
    decreases |steps|
  {
    hide Next, ReadBytes, WellBehaved;
    if steps != [] {
      LaterBehave(steps);
      StepConserves(v, steps[0]);
      SendStep(v, steps[0]);
      SendRun(Next(v, steps[0]).0, steps[1..]);
    }
  }

  /**
   Towards the UART, over every run: what successful writes accepted, followed by the
   queue, is all that was accepted from the host exactly when no poll with a byte to write
   had its write fail.
   */
  lemma NothingLostIffWritesSucceed(v: View, steps: seq<Step>)
    requires v.toUsb == [] && DevicesWellBehaved(steps)
    ensures Run(v, steps).written + Run(v, steps).toUart == v.written + v.toUart + AllAccepted(v, steps)
      <==> WritesSucceed(v, steps)
  {
    WriteRun(v, steps);
    hide Run, AllAccepted, WritesSucceed;
    var a, b := Run(v, steps).written + Run(v, steps).toUart, v.written + v.toUart + AllAccepted(v, steps);
    assert a == b ==> |a| == |b|;
  }

  /** Towards the host: the host has all that was read exactly when no poll that read a byte had its send fail. */
  lemma NothingLostIffSendsSucceed(v: View, steps: seq<Step>)
    requires v.toUsb == [] && DevicesWellBehaved(steps)
    ensures Run(v, steps).sent == v.sent + AllRead(v, steps) <==> SendsSucceed(v, steps)
  {
    SendRun(v, steps);
    hide Run, AllRead, SendsSucceed;
    var a, b := Run(v, steps).sent, v.sent + AllRead(v, steps);
    assert a == b ==> |a| == |b|;
  }

  /** The queue-full branch of a poll is dead in every run. */
  lemma PollNeverFull(v: View, steps: seq<Step>, d: Devices)
    requires v.toUsb == [] && DevicesWellBehaved(steps) && WellBehaved(d)
    ensures PollView(Run(v, steps), d).1 != QueueFull
  {
    EveryByteHandedOver(v, steps);
    StepConserves(Run(v, steps), Poll(d));
  }

  function Repeat(d: Devices, k: nat): (s: seq<Step>)
    ensures |s| == k && forall i :: 0 <= i < k ==> s[i] == Poll(d)
  {
    if k == 0 then [] else [Poll(d)] + Repeat(d, k - 1)
  }

  lemma TakeTwice(q: seq<byte>, k: nat)
    requires k > 0
    ensures var n := Taken(q, CHUNK);
      var m := Taken(q[n..], 64 * (k - 1));
      n + m == Taken(q, 64 * k) && q[n..][m..] == q[n + m..] && q[..n] + q[n..][..m] == q[..n + m]
  {
  }

  lemma OnePoll(v: View, d: Devices)
    requires v.toUsb == [] && WellBehaved(d)
    ensures var w, n := PollView(v, d).0, Taken(v.toUart, CHUNK);
      w.toUsb == [] && w.toUart == v.toUart[n..] && w.toWrite == v.toWrite + v.toUart[..n]
  {
    StepConserves(v, Poll(d));
  }

  lemma RunPolls(v: View, d: Devices, k: nat)
    ensures Run(v, Repeat(d, 0)) == v
    ensures k > 0 ==> Run(v, Repeat(d, k)) == Run(PollView(v, d).0, Repeat(d, k - 1))
  {
    hide PollView;
    if k > 0 {
      assert Repeat(d, k)[1..] == Repeat(d, k - 1);
    }
  }

  /** Each poll moves up to 64 bytes on, so `k` polls empty any queue of at most 64 k bytes. */
  lemma {:induction false} PollsDrain(v: View, d: Devices, k: nat)
    requires v.toUsb == [] && WellBehaved(d)
    ensures var after, n := Run(v, Repeat(d, k)), Taken(v.toUart, 64 * k);
      after.toUart == v.toUart[n..] && after.toWrite == v.toWrite + v.toUart[..n]
    decreases k
  {
    hide Run, Repeat, PollView;
    RunPolls(v, d, k);
    if k > 0 {
      var w, n := PollView(v, d).0, Taken(v.toUart, CHUNK);
      OnePoll(v, d);
      PollsDrain(w, d, k - 1);
      TakeTwice(v.toUart, k);
      hide Taken;
      var m := Taken(w.toUart, 64 * (k - 1));
      assert v.toWrite + (v.toUart[..n] + w.toUart[..m]) == v.toWrite + v.toUart[..n] + w.toUart[..m];
    }
  }
}
