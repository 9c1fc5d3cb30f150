/**
 The SLCAN bridge: CAN frames printed as text lines by one bridge and fed, in any pieces,
 to another with its channel open are transmitted there unchanged and in order.
 */
module XbridgeSlcan {
  import opened Bytes
  import opened Options

  const LINE_MAX: nat := 32
  const CR: byte := 0x0D
  const BELL: byte := 0x07

  const BITRATES: seq<u32> := [10000, 20000, 50000, 100000, 125000, 250000, 500000, 800000, 1000000]

  /** A received frame; for `data` only the first `dlc` bytes are meaningful. */
  datatype Frame = Frame(id: u32, isExtended: bool, isRtr: bool, data: seq<byte>)

  /** What the controller is asked to do. */
  datatype Call = Open | Close | SetBitrate(rate: u32)
    | Transmit(id: u32, isExtended: bool, isRtr: bool, data: seq<byte>)

  /** Whether the controller accepts an open or a transmit request. */
  datatype Controller = Controller(openOk: bool, transmitOk: bool)

  datatype View = View(isOpen: bool, timestamps: bool, line: seq<byte>, calls: seq<Call>, sent: seq<seq<byte>>)

  // ----- Hexadecimal -----------------------------------------------------------------

  function HexNibble(c: byte): (n: nat)
    ensures n < 16
  {
    if 0x30 <= c <= 0x39 then c - 0x30
    else if 0x41 <= c <= 0x46 then c - 0x41 + 10
    else if 0x61 <= c <= 0x66 then c - 0x61 + 10
    else 0
  }

  function HexChar(n: nat): (c: byte)
    requires n < 16
    ensures HexNibble(c) == n && c != CR
  {
    if n < 10 then 0x30 + n else 0x41 + (n - 10)
  }

  function Pow16(k: nat): (p: nat)
    ensures p >= 1
  {
    if k == 0 then 1 else 16 * Pow16(k - 1)
  }

  function HexValue(s: seq<byte>): (v: nat)
    ensures v < Pow16(|s|)
  {
    if s == [] then 0 else HexValue(s[..|s| - 1]) * 16 + HexNibble(s[|s| - 1])
  }

  /** The `k` lowest hexadecimal digits, most significant first. */
  function Digits(v: nat, k: nat): (s: seq<byte>)
    ensures |s| == k && CR !in s
  {
    if k == 0 then [] else Digits(v / 16, k - 1) + [HexChar(v % 16)]
  }

  lemma {:induction false} ValueOfDigits(v: nat, k: nat)
    ensures v < Pow16(k) ==> HexValue(Digits(v, k)) == v
    ensures HexValue(Digits(v, k)) == HexValue(Digits(v % Pow16(k), k)) == v % Pow16(k)
    decreases k
  {
    if k > 0 {
      var d, p := Digits(v, k), Pow16(k - 1);
      assert d[..k - 1] == Digits(v / 16, k - 1);
      ValueOfDigits(v / 16, k - 1);
      RemainderSplit(v, p);
      var w := v % (16 * p);
      var e := Digits(w, k);
      assert e[..k - 1] == Digits(w / 16, k - 1);
      ValueOfDigits(w / 16, k - 1);
    }
  }

  lemma RemainderSplit(v: nat, p: nat)
    requires p > 0
    ensures var w := v % (16 * p);
      w == 16 * ((v / 16) % p) + v % 16 && w < 16 * p && w / 16 == (v / 16) % p && w % 16 == v % 16 && w / 16 < p
    ensures v < 16 * p ==> v % (16 * p) == v && v / 16 < p
  {
    var q, r := (v / 16) / p, (v / 16) % p;
    assert v / 16 == q * p + r;
    assert v == q * (16 * p) + (16 * r + v % 16);
    RemainderOf(v, 16 * p, q, 16 * r + v % 16);
  }

  /** `parse_hex`, on at most eight digits as its callers use it. */
  method ParseHex(buf: array<byte>, from: nat, nibbles: nat) returns (val: u32)
    requires from + nibbles <= buf.Length && nibbles <= 8
    ensures val == HexValue(buf[from..from + nibbles])
  {
    val := 0;
    for i := 0 to nibbles
      invariant val == HexValue(buf[from..from + i]) < Pow16(i)
    {
      var n := HexNibble(buf[from + i]);
      assert buf[from..from + i + 1][..i] == buf[from..from + i];
      PowersOf16(i);
      assert Pow2(4) == 16;
      OrIsSum(n, val, 4);
      val := BitOr(n, val * 16);
    }
  }

  lemma PowersOf16(i: nat)
    requires i < 8
    ensures 16 * Pow16(i) <= TWO32
    decreases 8 - i
  {
    if i < 7 {
      PowersOf16(i + 1);
    }
    assert Pow16(4) == 0x1_0000;
    assert i == 7 ==> Pow16(i) == 0x1000 * Pow16(4);
  }

  /** The data bytes of a transmit line, two digits each. */
  method ParseBytes(buf: array<byte>, from: nat, n: nat, ghost length: nat) returns (data: array<byte>)
    requires n <= 8 && from + 2 * n <= length <= buf.Length
    ensures fresh(data) && data.Length == 8 && data[..n] == ParsedData(buf[..length], from, n)
  {
    hide HexValue;
    data := new byte[8](_ => 0);
    ghost var line := buf[..length];
    for i := 0 to n
      invariant fresh(data) && data.Length == 8
      invariant forall j :: 0 <= j < i ==> data[j] == HexValue(line[from + 2 * j..from + 2 * j + 2]) % 256
    {
      var b := ParseHex(buf, from + i * 2, 2);
      ghost var at := from + i * 2;
      assert buf[at..at + 2] == [buf[at], buf[at + 1]] == line[at..at + 2];
      data[i] := b % 256;
    }
    assert forall j :: 0 <= j < n ==> data[..n][j] == ParsedData(line, from, n)[j];
  }

  // ----- Printing --------------------------------------------------------------------

  function DataDigits(data: seq<byte>): (s: seq<byte>)
    ensures |s| == 2 * |data| && CR !in s
  {
    if data == [] then [] else DataDigits(data[..|data| - 1]) + Digits(data[|data| - 1], 2)
  }

  /** The text line of a frame, without the carriage return. Remote frames look like data frames. */
  function LineOf(f: Frame): (s: seq<byte>)
    requires |f.data| <= 8
    ensures CR !in s && |s| <= 26
  {
    [if f.isExtended then 0x54 else 0x74] + Digits(f.id, if f.isExtended then 8 else 3) + [0x30 + |f.data|]
      + DataDigits(f.data)
  }

  function Printed(f: Frame): seq<byte>
    requires |f.data| <= 8
  {
    LineOf(f) + [CR]
  }

  // ----- Dispatch --------------------------------------------------------------------

  /** A `t` or `T` line whose identifier has `k` digits. */
  function TransmitView(v: View, c: Controller, k: nat, isExtended: bool, reply: seq<byte>): View {
    if !v.isOpen || |v.line| < 2 + k then v.(sent := v.sent + [[BELL]])
    else
      var dlc := HexNibble(v.line[1 + k]);
      if dlc > 8 || |v.line| < 2 + k + 2 * dlc then v.(sent := v.sent + [[BELL]])
      else
        v.(calls := v.calls + [Transmit(IdOf(v.line, k), isExtended, false, ParsedData(v.line, 2 + k, dlc))],
           sent := v.sent + [if c.transmitOk then reply else [BELL]])
  }

  function IdOf(line: seq<byte>, k: nat): u32
    requires |line| >= 2 + k
  {
    HexValue(line[1..1 + k]) % TWO32
  }

  function ParsedData(line: seq<byte>, from: nat, n: nat): (data: seq<byte>)
    requires from + 2 * n <= |line|
    ensures |data| == n && forall i :: 0 <= i < n ==> data[i] == HexValue(line[from + 2 * i..from + 2 * i + 2]) % 256
  {
    if n == 0 then [] else ParsedData(line, from, n - 1) + [HexValue(line[from + 2 * (n - 1)..from + 2 * n]) % 256]
  }

  /** Only the digits 0 to 8 select a rate; anything else is acknowledged and ignored. */
  function BitrateCalls(line: seq<byte>): seq<Call> {
    if |line| >= 2 && 0x30 <= line[1] < 0x30 + |BITRATES| then [SetBitrate(BITRATES[line[1] - 0x30])] else []
  }

  /** `dispatch_slcan_line`, when sending the reply succeeds. */
  function DispatchView(v: View, c: Controller): View {
    if v.line == [] then v
    else if v.line[0] == 0x4F then
      v.(calls := if v.isOpen then v.calls else v.calls + [Open],
         isOpen := v.isOpen || c.openOk, sent := v.sent + [[CR]])
    else if v.line[0] == 0x43 then
      v.(calls := if v.isOpen then v.calls + [Close] else v.calls, isOpen := false, sent := v.sent + [[CR]])
    else if v.line[0] == 0x53 then
      v.(calls := v.calls + BitrateCalls(v.line), sent := v.sent + [[CR]])
    else if v.line[0] == 0x74 then TransmitView(v, c, 3, false, [0x7A, CR])
    else if v.line[0] == 0x54 then TransmitView(v, c, 8, true, [0x5A, CR])
    else if v.line[0] == 0x5A then
      v.(timestamps := if |v.line| >= 2 then v.line[1] != 0x30 else v.timestamps, sent := v.sent + [[CR]])
    else v.(sent := v.sent + [[BELL]])
  }

  /** One byte: a full line swallows whatever does not fit. */
  function Received(v: View, c: Controller, b: byte): View {
    if b == CR then DispatchView(v, c).(line := [])
    else if |v.line| < LINE_MAX then v.(line := v.line + [b])
    else v
  }

  ghost function ReceivedAll(v: View, c: Controller, data: seq<byte>): View
    decreases |data|
  {
    if data == [] then v else ReceivedAll(Received(v, c, data[0]), c, data[1..])
  }

  class Channel {
    var isOpen: bool
    var isTimestampEnabled: bool
    const slcanLine: array<byte>
    var slcanLen: nat
    ghost var calls: seq<Call>
    ghost var sent: seq<seq<byte>>

    ghost predicate Valid()
      reads this
    {
      slcanLine.Length == LINE_MAX && slcanLen <= LINE_MAX
    }

    ghost function Snapshot(): View
      reads this, slcanLine
      requires Valid()
    {
      View(isOpen, isTimestampEnabled, slcanLine[..slcanLen], calls, sent)
    }

    /** `xBRIDGE_CAN_Init` */
    constructor ()
      ensures Valid() && Snapshot() == View(false, false, [], [], []) && fresh(slcanLine)
    {
      isOpen, isTimestampEnabled, slcanLen, calls, sent := false, false, 0, [], [];
      slcanLine := new byte[LINE_MAX](_ => 0);
    }

    method SendAck(reply: seq<byte>)
      requires Valid()
      modifies this`sent
      ensures sent == old(sent) + [reply]
    {
      sent := sent + [reply];
    }

    /** The `t` and `T` cases of `dispatch_slcan_line`. */
    method TransmitLine(c: Controller, k: nat, isExtended: bool, reply: seq<byte>)
      requires Valid() && k <= 8
      modifies this`sent, this`calls
      ensures Snapshot() == TransmitView(old(Snapshot()), c, k, isExtended, reply)
    {
      hide IdOf, HexNibble, ParsedData;
      ghost var line := slcanLine[..slcanLen];
      if !isOpen || slcanLen < 2 + k {
        SendAck([BELL]);
        return;
      }
      var id := ParseId(k);
      var dlc := HexNibble(slcanLine[1 + k]);
      if dlc > 8 || slcanLen < 2 + k + dlc * 2 {
        SendAck([BELL]);
        return;
      }
      var data := ParseBytes(slcanLine, 2 + k, dlc, slcanLen);
      calls := calls + [Transmit(id, isExtended, false, data[..dlc])];
      SendAck(if c.transmitOk then reply else [BELL]);
    }

    method ParseId(k: nat) returns (id: u32)
      requires Valid() && k <= 8 && slcanLen >= 2 + k
      ensures id == IdOf(slcanLine[..slcanLen], k)
    {
      hide HexValue;
      id := ParseHex(slcanLine, 1, k);
      ghost var digits, line := slcanLine[1..1 + k], slcanLine[..slcanLen];
      assert forall i :: 0 <= i < k ==> digits[i] == slcanLine[1 + i] == line[1 + i] == line[1..1 + k][i];
      assert digits == line[1..1 + k];
    }

    /** The `S` case of `dispatch_slcan_line`; the subtraction wraps around for characters below '0'. */
    method BitrateLine()
      requires Valid()
      modifies this`calls
      ensures calls == old(calls) + BitrateCalls(slcanLine[..slcanLen])
    {
      if slcanLen >= 2 {
        var idx := (slcanLine[1] as int - 0x30) % TWO32;
        if idx < |BITRATES| {
          calls := calls + [SetBitrate(BITRATES[idx])];
        }
      }
    }

    /** `dispatch_slcan_line` */
    method DispatchLine(c: Controller)
      requires Valid()
      modifies this
      ensures Valid() && slcanLen == old(slcanLen) && Snapshot() == DispatchView(old(Snapshot()), c)
    {
      hide TransmitView, BitrateCalls;
      if slcanLen == 0 {
        return;
      }
      var cmd := slcanLine[0];
      if cmd == 0x4F {
        if !isOpen {
          calls := calls + [Open];
          if c.openOk {
            isOpen := true;
          }
        }
        SendAck([CR]);
      } else if cmd == 0x43 {
        if isOpen {
          calls := calls + [Close];
          isOpen := false;
        }
        SendAck([CR]);
      } else if cmd == 0x53 {
        BitrateLine();
        SendAck([CR]);
      } else if cmd == 0x74 {
        TransmitLine(c, 3, false, [0x7A, CR]);
      } else if cmd == 0x54 {
        TransmitLine(c, 8, true, [0x5A, CR]);
      } else if cmd == 0x5A {
        if slcanLen >= 2 {
          isTimestampEnabled := slcanLine[1] != 0x30;
        }
        SendAck([CR]);
      } else {
        SendAck([BELL]);
      }
    }

    /** `xBRIDGE_CAN_On_USB_Receive`, over replies that are always sent. */
    method OnUsbReceive(data: seq<byte>, c: Controller)
      requires Valid()
      modifies this, slcanLine
      ensures Valid() && Snapshot() == ReceivedAll(old(Snapshot()), c, data)
    {
      hide DispatchView;
      assert data[0..] == data;
      for i := 0 to |data|
        invariant Valid() && ReceivedAll(Snapshot(), c, data[i..]) == ReceivedAll(old(Snapshot()), c, data)
      {
        assert data[i..][1..] == data[i + 1..];
        var b := data[i];
        ghost var before := Snapshot();
        if b == CR {
          DispatchLine(c);
          slcanLen := 0;
        } else {
          if slcanLen < LINE_MAX {
            slcanLine[slcanLen] := b;
            slcanLen := slcanLen + 1;
          }
        }
        assert Snapshot() == Received(before, c, b);
      }
    }

    /** `xBRIDGE_CAN_Poll` while `frames` are waiting in the controller. */
    method Poll(frames: seq<Frame>)
      requires Valid() && forall f :: f in frames ==> |f.data| <= 8
      modifies this`sent
      ensures sent == old(sent) + if isOpen then Lines(frames) else []
    {
      if !isOpen {
        return;
      }
      assert frames[..0] == [];
      for i := 0 to |frames|
        invariant sent == old(sent) + Lines(frames[..i])
      {
        var text := PrintFrame(frames[i]);
        sent := sent + [text];
        assert frames[..i + 1][..i] == frames[..i];
      }
      assert frames[..|frames|] == frames;
    }
  }

  function Lines(frames: seq<Frame>): (lines: seq<seq<byte>>)
    requires forall f :: f in frames ==> |f.data| <= 8
    ensures |lines| == |frames| && forall i :: 0 <= i < |frames| ==> lines[i] == Printed(frames[i])
  {
    if frames == [] then [] else Lines(frames[..|frames| - 1]) + [Printed(frames[|frames| - 1])]
  }

  lemma DigitsStep(v: nat, k: nat)
    ensures Digits(v, k + 1) == Digits(v / 16, k) + [HexChar(v % 16)] && Digits(v, 0) == []
  {
  }

  lemma Shifts(v: nat)
    ensures v / 16 / 16 == v / 0x100 && v / 16 / 16 / 16 == v / 0x1000 && v / 16 / 16 / 16 / 16 == v / 0x1_0000
  {
  }

  lemma FiveDigits(v: nat)
    ensures Digits(v, 5)
      == [HexChar(v / 0x1_0000 % 16), HexChar(v / 0x1000 % 16), HexChar(v / 0x100 % 16), HexChar(v / 16 % 16),
          HexChar(v % 16)]
    ensures Digits(v, 3) == [HexChar(v / 0x100 % 16), HexChar(v / 16 % 16), HexChar(v % 16)]
  {
    hide Digits, HexChar;
    var v1, v2, v3, v4 := v / 16, v / 16 / 16, v / 16 / 16 / 16, v / 16 / 16 / 16 / 16;
    Shifts(v);
    DigitsStep(v4 / 16, 0);
    DigitsStep(v4, 0);
    DigitsStep(v3, 1);
    DigitsStep(v2, 2);
    DigitsStep(v1, 3);
    DigitsStep(v, 4);
    DigitsStep(v2, 0);
    DigitsStep(v1, 1);
    DigitsStep(v, 2);
  }

  lemma EightDigits(v: nat)
    ensures Digits(v, 8) == Digits(v / 0x1000, 5) + Digits(v, 3)
  {
    hide Digits, HexChar;
    var v1, v2, v3 := v / 16, v / 16 / 16, v / 16 / 16 / 16;
    Shifts(v);
    FiveDigits(v);
    DigitsStep(v, 7);
    DigitsStep(v1, 6);
    DigitsStep(v2, 5);
  }

  /** The letter and the identifier. */
  method PrintHead(slcanOut: array<byte>, f: Frame) returns (outLen: nat)
    requires slcanOut.Length == 30
    modifies slcanOut
    ensures outLen == (if f.isExtended then 9 else 4)
    ensures slcanOut[..outLen] == [if f.isExtended then 0x54 else 0x74] + Digits(f.id, if f.isExtended then 8 else 3)
  {
    hide HexChar, Digits;
    FiveDigits(f.id);
    if f.isExtended {
      ghost var high := f.id / 0x1000;
      EightDigits(f.id);
      FiveDigits(high);
      Shifts(high);
      HighShifts(f.id);
      slcanOut[0] := 0x54;
      slcanOut[1], slcanOut[2] := HexChar(f.id / 0x1000_0000 % 16), HexChar(f.id / 0x100_0000 % 16);
      slcanOut[3], slcanOut[4] := HexChar(f.id / 0x10_0000 % 16), HexChar(f.id / 0x1_0000 % 16);
      slcanOut[5], slcanOut[6] := HexChar(f.id / 0x1000 % 16), HexChar(f.id / 0x100 % 16);
      slcanOut[7], slcanOut[8] := HexChar(f.id / 16 % 16), HexChar(f.id % 16);
      return 9;
    }
    slcanOut[0], slcanOut[1], slcanOut[2], slcanOut[3] :=
      0x74, HexChar(f.id / 0x100 % 16), HexChar(f.id / 16 % 16), HexChar(f.id % 16);
    return 4;
  }

  lemma HighShifts(v: nat)
    ensures var h := v / 0x1000;
      h / 0x1_0000 == v / 0x1000_0000 && h / 0x1000 == v / 0x100_0000 && h / 0x100 == v / 0x10_0000
        && h / 16 == v / 0x1_0000
  {
  }

  /** The line printer of `xBRIDGE_CAN_Poll`: it never overruns its 30-byte buffer. */
  method PrintFrame(f: Frame) returns (text: seq<byte>)
    requires |f.data| <= 8
    ensures text == Printed(f)
  {
    hide HexChar, Digits;
    var slcanOut := new byte[30](_ => 0);
    var outLen := PrintHead(slcanOut, f);
    ghost var head := slcanOut[..outLen] + [0x30 + |f.data|];
    slcanOut[outLen] := 0x30 + |f.data|;
    outLen := outLen + 1;
    assert slcanOut[..outLen] == head;
    outLen := PrintData(slcanOut, outLen, f.data);
    assert slcanOut[..outLen] == head + DataDigits(f.data);
    slcanOut[outLen] := CR;
    outLen := outLen + 1;
    text := slcanOut[..outLen];
    assert text == head + DataDigits(f.data) + [CR];
  }

  /** The data bytes, two digits each. */
  method PrintData(slcanOut: array<byte>, start: nat, data: seq<byte>) returns (outLen: nat)
    requires start + 2 * |data| <= slcanOut.Length
    modifies slcanOut
    ensures outLen == start + 2 * |data|
    ensures slcanOut[..outLen] == old(slcanOut[..start]) + DataDigits(data)
  {
    hide HexChar, Digits;
    outLen := start;
    assert data[..0] == [];
    for d := 0 to |data|
      invariant outLen == start + 2 * d
      invariant slcanOut[..start] == old(slcanOut[..start]) && slcanOut[start..outLen] == DataDigits(data[..d])
    {
      TwoDigits(data[d]);
      slcanOut[outLen] := HexChar(data[d] / 16 % 16);
      slcanOut[outLen + 1] := HexChar(data[d] % 16);
      outLen := outLen + 2;
      assert data[..d + 1][..d] == data[..d];
      assert slcanOut[start..outLen] == slcanOut[start..outLen - 2] + Digits(data[d], 2);
    }
    assert data[..|data|] == data;
    assert slcanOut[..outLen] == slcanOut[..start] + slcanOut[start..outLen];
  }

  lemma TwoDigits(b: byte)
    ensures Digits(b, 2) == [HexChar(b / 16 % 16), HexChar(b % 16)]
  {
    assert Digits(b / 16, 1) == [HexChar(b / 16 % 16)];
  }

  // ----- Round trip ------------------------------------------------------------------

  /** How the stream is cut into packets makes no difference. */
  lemma {:induction false} ReceivedInPieces(v: View, c: Controller, a: seq<byte>, b: seq<byte>)
    ensures ReceivedAll(v, c, a + b) == ReceivedAll(ReceivedAll(v, c, a), c, b)
    decreases |a|
  {
    hide Received;
    if a == [] {
      assert a + b == b;
    } else {
      assert (a + b)[1..] == a[1..] + b;
      ReceivedInPieces(Received(v, c, a[0]), c, a[1..], b);
    }
  }

  lemma {:induction false} LineCollects(v: View, c: Controller, s: seq<byte>)
    requires CR !in s && |v.line| + |s| <= LINE_MAX
    ensures ReceivedAll(v, c, s) == v.(line := v.line + s)
    decreases |s|
  {
    hide DispatchView;
    if s == [] {
      assert v.line + s == v.line;
    } else {
      assert s[0] in s && forall x :: x in s[1..] ==> x in s;
      LineCollects(v.(line := v.line + [s[0]]), c, s[1..]);
      assert v.line + [s[0]] + s[1..] == v.line + s;
    }
  }

  lemma {:induction false} DataDigitsAt(data: seq<byte>, i: nat)
    requires i < |data|
    ensures DataDigits(data)[2 * i..2 * i + 2] == Digits(data[i], 2)
    decreases |data|
  {
    hide Digits;
    var n := |data| - 1;
    if i < n {
      DataDigitsAt(data[..n], i);
      assert DataDigits(data)[2 * i..2 * i + 2] == DataDigits(data[..n])[2 * i..2 * i + 2];
    }
  }

  /** The identifier as the line carries it: three or eight hexadecimal digits. */
  function CarriedId(f: Frame): u32 {
    if f.isExtended then f.id else f.id % 0x1000
  }

  ghost function TransmitOf(f: Frame): Call {
    Transmit(CarriedId(f), f.isExtended, false, f.data)
  }

  lemma CarriedIdIsParsed(f: Frame)
    ensures HexValue(Digits(f.id, if f.isExtended then 8 else 3)) == CarriedId(f)
  {
    assert Pow16(3) == 0x1000;
    assert Pow16(4) == 0x1_0000;
    assert Pow16(8) == 0x1_0000 * Pow16(4);
    ValueOfDigits(f.id, if f.isExtended then 8 else 3);
  }

  lemma LineParts(f: Frame)
    requires |f.data| <= 8
    ensures var k, line := if f.isExtended then 8 else 3, LineOf(f);
      && |line| == 2 + k + 2 * |f.data| && IdOf(line, k) == CarriedId(f) && HexNibble(line[1 + k]) == |f.data|
      && ParsedData(line, 2 + k, |f.data|) == f.data
  {
    hide Digits, HexValue, DataDigits, HexChar;
    var k, line := if f.isExtended then 8 else 3, LineOf(f);
    var head := [if f.isExtended then 0x54 else 0x74] + Digits(f.id, k) + [0x30 + |f.data|];
    assert line == head + DataDigits(f.data) && line[1..1 + k] == Digits(f.id, k);
    CarriedIdIsParsed(f);
    forall i | 0 <= i < |f.data| ensures ParsedData(line, 2 + k, |f.data|)[i] == f.data[i] {
      DataPart(head, f.data, i);
    }
  }

  lemma DataPart(head: seq<byte>, data: seq<byte>, i: nat)
    requires i < |data|
    ensures |head + DataDigits(data)| == |head| + 2 * |data|
    ensures HexValue((head + DataDigits(data))[|head| + 2 * i..|head| + 2 * i + 2]) == data[i]
  {
    hide Digits, HexValue, DataDigits, HexChar;
    DataDigitsAt(data, i);
    BehindHead(head, DataDigits(data), 2 * i, 2 * i + 2);
    assert DataDigits(data)[2 * i..2 * i + 2] == Digits(data[i], 2);
    ByteValue(data[i]);
  }

  lemma BehindHead(head: seq<byte>, tail: seq<byte>, i: nat, j: nat)
    requires i <= j <= |tail|
    ensures (head + tail)[|head| + i..|head| + j] == tail[i..j]
  {
  }

  lemma ByteValue(b: byte)
    ensures HexValue(Digits(b, 2)) == b
  {
    assert Pow16(2) == 256;
    ValueOfDigits(b, 2);
  }

  /** The reply to the line of a frame. */
  function Ack(c: Controller, f: Frame): seq<byte> {
    if !c.transmitOk then [BELL] else if f.isExtended then [0x5A, CR] else [0x7A, CR]
  }

  /** A printed frame makes an open channel transmit it once and acknowledge it. */
  lemma PrintedIsTransmitted(v: View, c: Controller, f: Frame)
    requires v.isOpen && v.line == [] && |f.data| <= 8
    ensures ReceivedAll(v, c, Printed(f)) == v.(calls := v.calls + [TransmitOf(f)], sent := v.sent + [Ack(c, f)])
  {
    hide Digits, HexValue, HexNibble, DataDigits, ParsedData;
    ReceivedInPieces(v, c, LineOf(f), [CR]);
    LineCollects(v, c, LineOf(f));
    assert [] + LineOf(f) == LineOf(f);
    assert [CR][1..] == [];
    LineParts(f);
  }

  ghost function Acks(c: Controller, frames: seq<Frame>): seq<seq<byte>> {
    if frames == [] then [] else [Ack(c, frames[0])] + Acks(c, frames[1..])
  }

  ghost function Transmits(frames: seq<Frame>): (calls: seq<Call>)
    ensures |calls| == |frames| && forall i :: 0 <= i < |frames| ==> calls[i] == TransmitOf(frames[i])
  {
    if frames == [] then [] else [TransmitOf(frames[0])] + Transmits(frames[1..])
  }

  /** What `Poll` sends, as one stream. */
  ghost function Text(frames: seq<Frame>): seq<byte>
    requires forall f :: f in frames ==> |f.data| <= 8
  {
    Concat(Lines(frames))
  }

  /** Every frame of a printed stream is transmitted, once, in order, whatever the packets. */
  lemma {:induction false} StreamIsTransmitted(v: View, c: Controller, frames: seq<Frame>, packets: seq<seq<byte>>)
    requires v.isOpen && v.line == [] && forall f :: f in frames ==> |f.data| <= 8
    requires Concat(packets) == Text(frames)
    ensures ReceivedPackets(v, c, packets) == v.(calls := v.calls + Transmits(frames), sent := v.sent + Acks(c, frames))
  {
    PacketsAreStream(v, c, packets);
    TextIsTransmitted(v, c, frames);
  }

  ghost function ReceivedPackets(v: View, c: Controller, packets: seq<seq<byte>>): View
    decreases |packets|
  {
    if packets == [] then v else ReceivedPackets(ReceivedAll(v, c, packets[0]), c, packets[1..])
  }

  lemma {:induction false} PacketsAreStream(v: View, c: Controller, packets: seq<seq<byte>>)
    ensures ReceivedPackets(v, c, packets) == ReceivedAll(v, c, Concat(packets))
    decreases |packets|
  {
    hide Received;
    if packets != [] {
      ReceivedInPieces(v, c, packets[0], Concat(packets[1..]));
      PacketsAreStream(ReceivedAll(v, c, packets[0]), c, packets[1..]);
    }
  }

  lemma {:induction false} TextIsTransmitted(v: View, c: Controller, frames: seq<Frame>)
    requires v.isOpen && v.line == [] && forall f :: f in frames ==> |f.data| <= 8
    ensures ReceivedAll(v, c, Text(frames))
      == v.(calls := v.calls + Transmits(frames), sent := v.sent + Acks(c, frames))
    decreases |frames|
  {
    hide Received, ReceivedAll, Printed, TransmitOf, Transmits, Acks, Text;
    Unfold(c, frames);
    if frames == [] {
      NothingReceived(v, c);
      assert v.calls + [] == v.calls && v.sent + [] == v.sent;
    } else {
      var f := frames[0];
      PrintedIsTransmitted(v, c, f);
      ReceivedInPieces(v, c, Printed(f), Text(frames[1..]));
      TextIsTransmitted(ReceivedAll(v, c, Printed(f)), c, frames[1..]);
      Reassociate(v.calls, [TransmitOf(f)], Transmits(frames[1..]));
      Reassociate(v.sent, [Ack(c, f)], Acks(c, frames[1..]));
    }
  }

  lemma Reassociate<T>(a: seq<T>, b: seq<T>, c: seq<T>)
    ensures a + b + c == a + (b + c)
  {
  }

  lemma NothingReceived(v: View, c: Controller)
    ensures ReceivedAll(v, c, []) == v
  {
  }

  lemma Unfold(c: Controller, frames: seq<Frame>)
    requires forall f :: f in frames ==> |f.data| <= 8
    ensures frames == [] ==> Text(frames) == [] && Transmits(frames) == [] && Acks(c, frames) == []
    ensures frames != [] ==>
      && Text(frames) == Printed(frames[0]) + Text(frames[1..])
      && Transmits(frames) == [TransmitOf(frames[0])] + Transmits(frames[1..])
      && Acks(c, frames) == [Ack(c, frames[0])] + Acks(c, frames[1..])
  {
    hide Printed, TransmitOf, Ack;
    assert frames != [] ==> Lines(frames)[1..] == Lines(frames[1..]);
  }

  /**
   What the receiver hands on for the printed bytes is the frame itself exactly when that is
   no remote frame and a standard identifier has 12 bits.
   */
  lemma FrameArrivesIff(v: View, c: Controller, f: Frame)
    requires v.isOpen && v.line == [] && |f.data| <= 8
    ensures ReceivedAll(v, c, Printed(f)).calls == v.calls + [Transmit(f.id, f.isExtended, f.isRtr, f.data)]
      <==> !f.isRtr && (f.isExtended || f.id < 0x1000)
  {
    PrintedIsTransmitted(v, c, f);
    SameFront(v.calls, [TransmitOf(f)], [Transmit(f.id, f.isExtended, f.isRtr, f.data)]);
    hide ReceivedAll, Printed;
  }

  // ----- Any input -------------------------------------------------------------------

  ghost predicate ProperCall(call: Call) {
    call.Transmit? ==> |call.data| <= 8 && !call.isRtr && (!call.isExtended ==> call.id < 0x1000)
  }

  /** Whatever bytes arrive: the line stays in its buffer and every transmit request is proper. */
  lemma {:induction false} AlwaysProper(v: View, c: Controller, data: seq<byte>)
    requires |v.line| <= LINE_MAX && forall call :: call in v.calls ==> ProperCall(call)
    ensures var after := ReceivedAll(v, c, data);
      |after.line| <= LINE_MAX && v.calls <= after.calls && forall call :: call in after.calls ==> ProperCall(call)
    decreases |data|
  {
    hide Received, ProperCall;
    if data != [] {
      StepProper(v, c, data[0]);
      AlwaysProper(Received(v, c, data[0]), c, data[1..]);
    }
  }

  lemma StepProper(v: View, c: Controller, b: byte)
    requires |v.line| <= LINE_MAX && forall call :: call in v.calls ==> ProperCall(call)
    ensures var after := Received(v, c, b);
      |after.line| <= LINE_MAX && v.calls <= after.calls && forall call :: call in after.calls ==> ProperCall(call)
  {
    hide HexValue, HexNibble;
    assert Pow16(3) == 0x1000;
    if |v.line| >= 4 {
      assert HexValue(v.line[1..4]) < Pow16(|v.line[1..4]|);
    }
  }

  // ----- The commands, line by line -------------------------------------------------------

  /** The bit rate a digit stands for. */
  function RateOf(digit: byte): Option<u32> {
    match digit
    case 0x30 => Some(10_000)
    case 0x31 => Some(20_000)
    case 0x32 => Some(50_000)
    case 0x33 => Some(100_000)
    case 0x34 => Some(125_000)
    case 0x35 => Some(250_000)
    case 0x36 => Some(500_000)
    case 0x37 => Some(800_000)
    case 0x38 => Some(1_000_000)
    case _ => None
  }

  /** What a line that is no transmit command does, and what is answered. */
  lemma LineDoes(v: View, c: Controller, line: seq<byte>)
    requires v.line == [] && CR !in line && |line| <= LINE_MAX
    requires line != [] ==> line[0] != 0x74 && line[0] != 0x54
    ensures var after := ReceivedAll(v, c, line + [0x0D]);
      && (line == [] ==> after == v)
      && (line != [] && line[0] == 0x4F ==>
            after == v.(calls := v.calls + if v.isOpen then [] else [Open], isOpen := v.isOpen || c.openOk,
                        sent := v.sent + [[0x0D]]))
      && (line != [] && line[0] == 0x43 ==>
            var calls := v.calls + if v.isOpen then [Close] else [];
            after == v.(calls := calls, isOpen := false, sent := v.sent + [[0x0D]]))
      && (line != [] && line[0] == 0x53 ==>
            var rate := if |line| >= 2 then RateOf(line[1]) else None;
            var calls := v.calls + if rate.Some? then [SetBitrate(rate.value)] else [];
            after == v.(calls := calls, sent := v.sent + [[0x0D]]))
      && (line != [] && line[0] == 0x5A ==>
            after == v.(timestamps := if |line| >= 2 then line[1] != 0x30 else v.timestamps, sent := v.sent + [[0x0D]]))
      && (line != [] && line[0] !in {0x4F, 0x43, 0x53, 0x5A} ==> after == v.(sent := v.sent + [[0x07]]))
  {
    hide TransmitView, ReceivedAll, Received;
    WholeLine(v, c, line);
    assert v.calls + [] == v.calls;
  }

  lemma WholeLine(v: View, c: Controller, line: seq<byte>)
    requires v.line == [] && CR !in line && |line| <= LINE_MAX
    ensures ReceivedAll(v, c, line + [0x0D]) == DispatchView(v.(line := line), c).(line := [])
  {
    hide DispatchView;
    ReceivedInPieces(v, c, line, [CR]);
    LineCollects(v, c, line);
    assert [] + line == line && [CR][1..] == [];
  }

  /** A transmit line that cannot be carried out is refused, and nothing is sent on the bus. */
  lemma TransmitRefused(v: View, c: Controller, line: seq<byte>)
    requires v.line == [] && CR !in line && line != [] && |line| <= LINE_MAX && (line[0] == 0x74 || line[0] == 0x54)
    requires var k := if line[0] == 0x74 then 3 else 8;
      !v.isOpen || |line| < 2 + k || HexNibble(line[1 + k]) > 8 || |line| < 2 + k + 2 * HexNibble(line[1 + k])
    ensures ReceivedAll(v, c, line + [0x0D]) == v.(sent := v.sent + [[0x07]])
  {
    hide ReceivedAll, Received, HexNibble;
    WholeLine(v, c, line);
  }

  /** Lower-case digits read as upper-case ones, and what is no digit as zero. */
  lemma NibbleCases(c: byte)
    ensures 0x41 <= c <= 0x46 ==> HexNibble(c + 0x20) == HexNibble(c) == c - 55
    ensures 0x30 <= c <= 0x39 ==> HexNibble(c) == c - 48
    ensures !(0x30 <= c <= 0x39) && !(0x41 <= c <= 0x46) && !(0x61 <= c <= 0x66) ==> HexNibble(c) == 0
  {
  }
}
