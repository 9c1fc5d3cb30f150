/**
 The device-list reply of the USB/IP server: a bounded-cursor encoder that succeeds exactly
 when the reply fits, and whose bytes decode, field by field, to the devices encoded.
 */
module XusbipDevlist {
  import opened Bytes
  import opened Options

  type u16 = x: int | 0 <= x < 0x1_0000

  const PATH_LEN: nat := 256
  const BUSID_LEN: nat := 32
  const PROTO_VERSION: u16 := 0x0111
  const OP_REP_DEVLIST: u16 := 0x0005
  const OP_STATUS_OK: u32 := 0

  /** The longest run of bytes written at once: the zeroed interfaces of one device. */
  const LONGEST_WRITE: nat := 1020

  datatype Device = Device(path: seq<byte>, busid: seq<byte>, busnum: u32, devnum: u32, speed: u32,
                           idVendor: u16, idProduct: u16, bcdDevice: u16,
                           bDeviceClass: byte, bDeviceSubClass: byte, bDeviceProtocol: byte,
                           bConfigurationValue: byte, bNumConfigurations: byte, bNumInterfaces: byte)

  /** The character arrays have their declared sizes. */
  ghost predicate Sized(d: Device) {
    |d.path| == PATH_LEN && |d.busid| == BUSID_LEN
  }

  // ----- The wire format -------------------------------------------------------------

  function U16Be(v: u16): (s: seq<byte>)
    ensures |s| == 2 && ValueBe(s) == v
  {
    ValueOfTwo(v / 0x100, v % 0x100);
    [v / 0x100, v % 0x100]
  }

  function U32Be(v: u32): (s: seq<byte>)
    ensures |s| == 4 && ValueBe(s) == v
  {
    var h, l := v / 0x1_0000, v % 0x1_0000;
    ValueOfFour(h / 0x100, h % 0x100, l / 0x100, l % 0x100);
    [h / 0x100, h % 0x100, l / 0x100, l % 0x100]
  }

  /** The number a big-endian field stands for. */
  function ValueBe(s: seq<byte>): nat {
    if s == [] then 0 else ValueBe(s[..|s| - 1]) * 0x100 + s[|s| - 1]
  }

  lemma ValueOfTwo(a: byte, b: byte)
    ensures ValueBe([a, b]) == a as int * 0x100 + b
  {
    assert [a, b][..1] == [a] && [a][..0] == [];
    assert ValueBe([a]) == a;
  }

  lemma ValueOfFour(a: byte, b: byte, c: byte, d: byte)
    ensures ValueBe([a, b, c, d]) == ((a as int * 0x100 + b) * 0x100 + c) * 0x100 + d
  {
    ValueOfTwo(a, b);
    assert [a, b, c, d][..3] == [a, b, c] && [a, b, c][..2] == [a, b];
    assert ValueBe([a, b, c]) == (a as int * 0x100 + b) * 0x100 + c;
  }

  function Zeros(n: nat): (z: seq<byte>)
    ensures |z| == n && forall i :: 0 <= i < n ==> z[i] == 0
  {
    seq(n, _ => 0)
  }

  /** The fields of a device entry in wire order. */
  function Fields(d: Device): seq<seq<byte>> {
    [d.path, d.busid, U32Be(d.busnum), U32Be(d.devnum), U32Be(d.speed),
     U16Be(d.idVendor), U16Be(d.idProduct), U16Be(d.bcdDevice),
     [d.bDeviceClass], [d.bDeviceSubClass], [d.bDeviceProtocol],
     [d.bConfigurationValue], [d.bNumConfigurations], [d.bNumInterfaces]]
  }

  function FieldSizes(): seq<nat> {
    [256, 32, 4, 4, 4, 2, 2, 2, 1, 1, 1, 1, 1, 1]
  }

  const DEVICE_SIZE: nat := 312

  /** A device entry and its zeroed interface entries, four bytes each. */
  function DeviceWire(d: Device): seq<byte> {
    Concat(Fields(d)) + Zeros(4 * d.bNumInterfaces)
  }

  lemma HeaderFields(version: seq<byte>, code: seq<byte>, status: seq<byte>, count: seq<byte>)
    requires |version| == 2 && |code| == 2 && |status| == 4 && |count| == 4
    ensures (version + code + status + count)[8..] == count
    ensures (version + code + status + count)[..8] == version + code + status
  {
  }

  function HeaderWire(count: u32): (s: seq<byte>)
    ensures |s| == 12 && s[..8] == [0x01, 0x11, 0x00, 0x05, 0, 0, 0, 0] && ValueBe(s[8..]) == count
  {
    HeaderFields(U16Be(PROTO_VERSION), U16Be(OP_REP_DEVLIST), U32Be(OP_STATUS_OK), U32Be(count));
    U16Be(PROTO_VERSION) + U16Be(OP_REP_DEVLIST) + U32Be(OP_STATUS_OK) + U32Be(count)
  }

  function Wires(devices: seq<Device>): (w: seq<seq<byte>>)
    ensures |w| == |devices| && forall i :: 0 <= i < |devices| ==> w[i] == DeviceWire(devices[i])
  {
    seq(|devices|, i requires 0 <= i < |devices| => DeviceWire(devices[i]))
  }

  /** The reply as the protocol lays it out. */
  function ReplyWire(devices: seq<Device>): seq<byte>
    requires |devices| < TWO32
  {
    HeaderWire(|devices|) + Concat(Wires(devices))
  }

  /** 12 bytes, then 312 for each device and 4 for each of its interfaces. */
  function ReplySize(devices: seq<Device>): nat {
    if devices == [] then 12 else ReplySize(devices[..|devices| - 1]) + 312 + 4 * devices[|devices| - 1].bNumInterfaces
  }

  lemma WiresSnoc(devices: seq<Device>, i: nat)
    requires i < |devices|
    ensures Concat(Wires(devices[..i + 1])) == Concat(Wires(devices[..i])) + DeviceWire(devices[i])
  {
    hide DeviceWire;
    assert Wires(devices[..i + 1]) == Wires(devices[..i]) + [DeviceWire(devices[i])];
    ConcatSnoc(Wires(devices[..i]), DeviceWire(devices[i]));
  }

  lemma {:induction false} SizesGrow(devices: seq<Device>, i: nat)
    requires i <= |devices|
    ensures ReplySize(devices[..i]) <= ReplySize(devices)
    decreases |devices| - i
  {
    if i < |devices| {
      assert devices[..i + 1][..i] == devices[..i];
      SizesGrow(devices, i + 1);
    } else {
      assert devices[..i] == devices;
    }
  }

  lemma FieldsSize(d: Device)
    requires Sized(d)
    ensures |Concat(Fields(d))| == DEVICE_SIZE && |Fields(d)| == |FieldSizes()|
    ensures forall i :: 0 <= i < |Fields(d)| ==> |Fields(d)[i]| == FieldSizes()[i]
  {
    hide Concat, U32Be, U16Be;
    ConcatSize(Fields(d), FieldSizes());
    SizesSum();
  }

  function Sum(sizes: seq<nat>): nat {
    if sizes == [] then 0 else sizes[0] + Sum(sizes[1..])
  }

  lemma {:induction false} ConcatSize(parts: seq<seq<byte>>, sizes: seq<nat>)
    requires |parts| == |sizes| && forall i :: 0 <= i < |parts| ==> |parts[i]| == sizes[i]
    ensures |Concat(parts)| == Sum(sizes)
  {
    if parts != [] {
      ConcatSize(parts[1..], sizes[1..]);
    }
  }

  lemma SizesSum()
    ensures Sum(FieldSizes()) == DEVICE_SIZE
  {
    hide Sum;
    var s := FieldSizes();
    assert s[0..] == s;
    SumStep(s, 0);
    SumStep(s, 1);
    SumStep(s, 2);
    SumStep(s, 3);
    SumStep(s, 4);
    SumStep(s, 5);
    SumStep(s, 6);
    SumStep(s, 7);
    SumStep(s, 8);
    SumStep(s, 9);
    SumStep(s, 10);
    SumStep(s, 11);
    SumStep(s, 12);
    SumStep(s, 13);
  }

  lemma SumStep(s: seq<nat>, k: nat)
    requires k < |s|
    ensures Sum(s[k..]) == s[k] + Sum(s[k + 1..]) && Sum(s[|s|..]) == 0
  {
    assert s[k..][1..] == s[k + 1..];
  }

  // ----- The encoder -----------------------------------------------------------------

  /** The test every write makes, in wrapping 32-bit arithmetic. */
  predicate Fits32(pos: nat, length: nat, bufferLength: nat) {
    (pos + length) % TWO32 <= bufferLength
  }

  ghost predicate FitsMeansFits(bufferLength: u32) {
    forall pos: nat, length: nat :: pos <= bufferLength && length <= LONGEST_WRITE ==>
      (Fits32(pos, length, bufferLength) <==> pos + length <= bufferLength)
  }

  /** The test is exact for every cursor and every write exactly below 2^32 - 1020 bytes of buffer. */
  lemma CursorExact(bufferLength: u32)
    ensures FitsMeansFits(bufferLength) <==> bufferLength + LONGEST_WRITE < TWO32
  {
    if bufferLength + LONGEST_WRITE >= TWO32 {
      var length: nat := TWO32 - bufferLength;
      assert Fits32(bufferLength, length, bufferLength) && !(bufferLength + length <= bufferLength);
    }
  }

  /** The reply buffer and the cursor that every write advances. */
  class Writer {
    const buf: array<byte>
    var pos: nat

    /** Sizes for which the 32-bit sum of the cursor and a length cannot wrap around. */
    ghost predicate Valid()
      reads this
    {
      pos <= buf.Length && buf.Length + LONGEST_WRITE < TWO32
    }

    constructor (buffer: array<byte>)
      requires buffer.Length + LONGEST_WRITE < TWO32
      ensures Valid() && buf == buffer && pos == 0
    {
      buf, pos := buffer, 0;
    }

    /** What each write promises: it fits and is appended, or it fails and nothing changes. */
    twostate predicate Appended(ok: bool, data: seq<byte>)
      reads this, buf
    {
      && old(pos) <= buf.Length && ok == (old(pos) + |data| <= buf.Length)
      && (if ok then pos == old(pos) + |data| && buf[..pos] == old(buf[..pos]) + data
          else pos == old(pos) && buf[..pos] == old(buf[..pos]))
    }

    /** `write_u8` */
    method WriteU8(val: byte) returns (ok: bool)
      requires Valid()
      modifies this, buf
      ensures Valid() && Appended(ok, [val])
    {
      if pos >= buf.Length {
        return false;
      }
      buf[pos] := val;
      pos := pos + 1;
      return true;
    }

    /** `write_u16_be` */
    method WriteU16Be(val: u16) returns (ok: bool)
      requires Valid()
      modifies this, buf
      ensures Valid() && Appended(ok, U16Be(val))
    {
      if !Fits32(pos, 2, buf.Length) {
        return false;
      }
      buf[pos], buf[pos + 1] := val / 0x100, val % 0x100;
      pos := pos + 2;
      assert buf[..pos] == old(buf[..pos]) + U16Be(val);
      return true;
    }

    /** `write_u32_be` */
    method WriteU32Be(val: u32) returns (ok: bool)
      requires Valid()
      modifies this, buf
      ensures Valid() && Appended(ok, U32Be(val))
    {
      if !Fits32(pos, 4, buf.Length) {
        return false;
      }
      buf[pos], buf[pos + 1] := val / 0x1_0000 / 0x100, val / 0x1_0000 % 0x100;
      buf[pos + 2], buf[pos + 3] := val % 0x1_0000 / 0x100, val % 0x1_0000 % 0x100;
      pos := pos + 4;
      assert buf[..pos] == old(buf[..pos]) + U32Be(val);
      return true;
    }

    /** `write_bytes` */
    method WriteBytes(data: seq<byte>) returns (ok: bool)
      requires Valid() && |data| <= LONGEST_WRITE
      modifies this, buf
      ensures Valid() && Appended(ok, data)
    {
      if |data| == 0 {
        return true;
      }
      if !Fits32(pos, |data|, buf.Length) {
        return false;
      }
      forall i | 0 <= i < |data| {
        buf[pos + i] := data[i];
      }
      pos := pos + |data|;
      return true;
    }

    /** `write_zeros` */
    method WriteZeros(length: nat) returns (ok: bool)
      requires Valid() && length <= LONGEST_WRITE
      modifies this, buf
      ensures Valid() && Appended(ok, Zeros(length))
    {
      if length == 0 {
        return true;
      }
      if !Fits32(pos, length, buf.Length) {
        return false;
      }
      forall i | 0 <= i < length {
        buf[pos + i] := 0;
      }
      pos := pos + length;
      return true;
    }

    /** `encode_op_common` */
    method EncodeOpCommon(code: u16, status: u32) returns (ok: bool)
      requires Valid()
      modifies this, buf
      ensures Valid() && ok == (old(pos) + 8 <= buf.Length)
      ensures ok ==>
        pos == old(pos) + 8 && buf[..pos] == old(buf[..pos]) + U16Be(PROTO_VERSION) + U16Be(code) + U32Be(status)
    {
      hide U16Be, U32Be;
      ok := WriteU16Be(PROTO_VERSION);
      if !ok {
        return;
      }
      ok := WriteU16Be(code);
      if !ok {
        return;
      }
      ok := WriteU32Be(status);
    }

    /** `encode_device_be` */
    method EncodeDevice(d: Device) returns (ok: bool)
      requires Valid() && Sized(d)
      modifies this, buf
      ensures Valid() && ok == (old(pos) + DEVICE_SIZE <= buf.Length)
      ensures ok ==> pos == old(pos) + DEVICE_SIZE && buf[..pos] == old(buf[..pos]) + Concat(Fields(d))
    {
      hide U16Be, U32Be, Concat, Fields;
      FieldsInParts(d);
      ghost var start := buf[..pos];
      ok := WriteBytes(d.path);
      if !ok { return; }
      ghost var done := [d.path];
      OnePart(start, d.path);
      ok := WriteBytes(d.busid);
      if !ok { return; }
      MorePart(start, done, d.busid);
      done := done + [d.busid];
      ok := EncodeNumbers(d, start, done);
      if !ok { return; }
      done := done + [U32Be(d.busnum), U32Be(d.devnum), U32Be(d.speed)];
      ok := EncodeIds(d, start, done);
      if !ok { return; }
      done := done + [U16Be(d.idVendor), U16Be(d.idProduct), U16Be(d.bcdDevice)];
      ok := EncodeCounts(d, start, done);
      if !ok { return; }
      done := done + [[d.bDeviceClass], [d.bDeviceSubClass], [d.bDeviceProtocol], [d.bConfigurationValue],
                      [d.bNumConfigurations], [d.bNumInterfaces]];
    }

    /** One round of the reply's loop: a device and the zeroed entries of its interfaces. */
    method EncodeEntry(d: Device) returns (ok: bool)
      requires Valid() && Sized(d)
      modifies this, buf
      ensures Valid() && ok == (old(pos) + DEVICE_SIZE + 4 * d.bNumInterfaces <= buf.Length)
      ensures ok ==>
        pos == old(pos) + DEVICE_SIZE + 4 * d.bNumInterfaces && buf[..pos] == old(buf[..pos]) + DeviceWire(d)
    {
      hide Fields, Concat, Sized;
      ghost var start := buf[..pos];
      ok := EncodeDevice(d);
      if !ok { return; }
      ok := WriteZeros(4 * d.bNumInterfaces);
      AddAssoc(start, Concat(Fields(d)), Zeros(4 * d.bNumInterfaces));
    }

    /** Bus, device number and speed within `encode_device_be`; `done` is what follows `start` so far. */
    method EncodeNumbers(d: Device, ghost start: seq<byte>, ghost done: seq<seq<byte>>) returns (ok: bool)
      requires Valid() && buf[..pos] == start + Concat(done)
      modifies this, buf
      ensures Valid() && ok == (old(pos) + 12 <= buf.Length)
      ensures ok ==>
        && pos == old(pos) + 12
        && buf[..pos] == start + Concat(done + [U32Be(d.busnum), U32Be(d.devnum), U32Be(d.speed)])
    {
      hide U16Be, U32Be, Concat;
      var bus, number, speed := U32Be(d.busnum), U32Be(d.devnum), U32Be(d.speed);
      ok := WriteU32Be(d.busnum);
      if !ok { return; }
      MorePart(start, done, bus);
      ok := WriteU32Be(d.devnum);
      if !ok { return; }
      MorePart(start, done + [bus], number);
      ok := WriteU32Be(d.speed);
      if !ok { return; }
      MorePart(start, done + [bus] + [number], speed);
      assert done + [bus] + [number] + [speed] == done + [bus, number, speed];
    }

    /** The identifiers within `encode_device_be`. */
    method EncodeIds(d: Device, ghost start: seq<byte>, ghost done: seq<seq<byte>>) returns (ok: bool)
      requires Valid() && buf[..pos] == start + Concat(done)
      modifies this, buf
      ensures Valid() && ok == (old(pos) + 6 <= buf.Length)
      ensures ok ==>
        && pos == old(pos) + 6
        && buf[..pos] == start + Concat(done + [U16Be(d.idVendor), U16Be(d.idProduct), U16Be(d.bcdDevice)])
    {
      hide U16Be, U32Be, Concat;
      var vendor, product, release := U16Be(d.idVendor), U16Be(d.idProduct), U16Be(d.bcdDevice);
      ok := WriteU16Be(d.idVendor);
      if !ok { return; }
      MorePart(start, done, vendor);
      ok := WriteU16Be(d.idProduct);
      if !ok { return; }
      MorePart(start, done + [vendor], product);
      ok := WriteU16Be(d.bcdDevice);
      if !ok { return; }
      MorePart(start, done + [vendor] + [product], release);
      assert done + [vendor] + [product] + [release] == done + [vendor, product, release];
    }

    /** The single bytes within `encode_device_be`. */
    method EncodeCounts(d: Device, ghost start: seq<byte>, ghost done: seq<seq<byte>>) returns (ok: bool)
      requires Valid() && buf[..pos] == start + Concat(done)
      modifies this, buf
      ensures Valid() && ok == (old(pos) + 6 <= buf.Length)
      ensures ok ==>
        var parts := [[d.bDeviceClass], [d.bDeviceSubClass], [d.bDeviceProtocol],
                      [d.bConfigurationValue], [d.bNumConfigurations], [d.bNumInterfaces]];
        pos == old(pos) + 6 && buf[..pos] == start + Concat(done + parts)
    {
      hide Concat;
      ok := EncodeThree(d.bDeviceClass, d.bDeviceSubClass, d.bDeviceProtocol, start, done);
      if !ok { return; }
      ghost var more := done + [[d.bDeviceClass], [d.bDeviceSubClass], [d.bDeviceProtocol]];
      ok := EncodeThree(d.bConfigurationValue, d.bNumConfigurations, d.bNumInterfaces, start, more);
      assert more + [[d.bConfigurationValue], [d.bNumConfigurations], [d.bNumInterfaces]]
        == done + [[d.bDeviceClass], [d.bDeviceSubClass], [d.bDeviceProtocol], [d.bConfigurationValue],
                   [d.bNumConfigurations], [d.bNumInterfaces]];
    }

    method EncodeThree(a: byte, b: byte, c: byte, ghost start: seq<byte>, ghost done: seq<seq<byte>>) returns (ok: bool)
      requires Valid() && buf[..pos] == start + Concat(done)
      modifies this, buf
      ensures Valid() && ok == (old(pos) + 3 <= buf.Length)
      ensures ok ==> pos == old(pos) + 3 && buf[..pos] == start + Concat(done + [[a], [b], [c]])
    {
      hide Concat;
      ok := WriteU8(a);
      if !ok { return; }
      MorePart(start, done, [a]);
      ok := WriteU8(b);
      if !ok { return; }
      MorePart(start, done + [[a]], [b]);
      ok := WriteU8(c);
      if !ok { return; }
      MorePart(start, done + [[a]] + [[b]], [c]);
      assert done + [[a]] + [[b]] + [[c]] == done + [[a], [b], [c]];
    }
  }

  lemma FieldsInParts(d: Device)
    ensures [d.path] + [d.busid] + [U32Be(d.busnum), U32Be(d.devnum), U32Be(d.speed)]
      + [U16Be(d.idVendor), U16Be(d.idProduct), U16Be(d.bcdDevice)]
      + [[d.bDeviceClass], [d.bDeviceSubClass], [d.bDeviceProtocol], [d.bConfigurationValue], [d.bNumConfigurations],
         [d.bNumInterfaces]] == Fields(d)
  {
    hide U16Be, U32Be;
  }

  lemma NoParts(start: seq<byte>)
    ensures start + Concat([]) == start
  {
  }

  lemma OnePart(start: seq<byte>, part: seq<byte>)
    ensures start + part == start + Concat([part])
  {
    assert [part][1..] == [];
    assert part + Concat([]) == part;
  }

  lemma MorePart(start: seq<byte>, done: seq<seq<byte>>, part: seq<byte>)
    ensures start + Concat(done) + part == start + Concat(done + [part])
  {
    hide Concat;
    ConcatSnoc(done, part);
    assert start + Concat(done) + part == start + (Concat(done) + part);
  }

  /**
   `xUSBIP_Proto_Encode_Devlist_Reply`: succeeds exactly when the reply fits, and then
   writes exactly the reply.
   */
  method EncodeDevlistReply(buffer: array<byte>, devices: seq<Device>) returns (ok: bool, bytesWritten: nat)
    requires buffer.Length + LONGEST_WRITE < TWO32 && |devices| < TWO32
    requires forall d :: d in devices ==> Sized(d)
    modifies buffer
    ensures ok <==> ReplySize(devices) <= buffer.Length
    ensures ok ==> bytesWritten == ReplySize(devices) && buffer[..bytesWritten] == ReplyWire(devices)
  {
    hide U16Be, U32Be, Fields, Concat, DeviceWire;
    bytesWritten := 0;
    var w := new Writer(buffer);
    SizesGrow(devices, 0);
    assert devices[..0] == [];
    ok := w.EncodeOpCommon(OP_REP_DEVLIST, OP_STATUS_OK);
    if !ok {
      return;
    }
    ok := w.WriteU32Be(|devices|);
    if !ok {
      return;
    }
    NoParts(HeaderWire(|devices|));
    assert Wires(devices[..0]) == [];
    for i := 0 to |devices|
      invariant w.Valid() && w.buf == buffer && fresh(w) && ok
      invariant w.pos == ReplySize(devices[..i])
      invariant buffer[..w.pos] == HeaderWire(|devices|) + Concat(Wires(devices[..i]))
    {
      hide Wires, HeaderWire;
      var d := devices[i];
      SizesGrow(devices, i + 1);
      assert devices[..i + 1][..i] == devices[..i];
      ok := w.EncodeEntry(d);
      if !ok {
        return;
      }
      WiresSnoc(devices, i);
      AddAssoc(HeaderWire(|devices|), Concat(Wires(devices[..i])), DeviceWire(d));
    }
    assert devices[..|devices|] == devices;
    bytesWritten := w.pos;
  }

  // ----- A decoder by the wire structures --------------------------------------------

  /** Cuts the front of a byte string into fields of the given sizes. */
  function Cut(s: seq<byte>, sizes: seq<nat>): Option<(seq<seq<byte>>, seq<byte>)> {
    if sizes == [] then Some(([], s))
    else if |s| < sizes[0] then None
    else match Cut(s[sizes[0]..], sizes[1..])
      case None => None
      case Some(rest) => Some(([s[..sizes[0]]] + rest.0, rest.1))
  }

  lemma {:induction false} CutConcat(parts: seq<seq<byte>>, sizes: seq<nat>, rest: seq<byte>)
    requires |parts| == |sizes| && forall i :: 0 <= i < |parts| ==> |parts[i]| == sizes[i]
    ensures Cut(Concat(parts) + rest, sizes) == Some((parts, rest))
  {
    if parts == [] {
      assert Concat(parts) + rest == rest;
    } else {
      var s := Concat(parts) + rest;
      assert s == parts[0] + (Concat(parts[1..]) + rest);
      assert s[sizes[0]..] == Concat(parts[1..]) + rest && s[..sizes[0]] == parts[0];
      CutConcat(parts[1..], sizes[1..], rest);
      assert [parts[0]] + parts[1..] == parts;
    }
  }

  function DeviceOf(f: seq<seq<byte>>): Option<Device> {
    if |f| == 14 && ValueBe(f[2]) < TWO32 && ValueBe(f[3]) < TWO32 && ValueBe(f[4]) < TWO32 && ValueBe(f[5]) < 0x1_0000
       && ValueBe(f[6]) < 0x1_0000 && ValueBe(f[7]) < 0x1_0000 && forall i :: 8 <= i < 14 ==> |f[i]| == 1
    then Some(Device(f[0], f[1], ValueBe(f[2]), ValueBe(f[3]), ValueBe(f[4]), ValueBe(f[5]),
                     ValueBe(f[6]), ValueBe(f[7]),
                     f[8][0], f[9][0], f[10][0], f[11][0], f[12][0], f[13][0]))
    else None
  }

  lemma DeviceOfFields(d: Device)
    ensures DeviceOf(Fields(d)) == Some(d)
  {
    hide U16Be, U32Be, ValueBe;
  }

  /** Reads `count` device entries, skipping the interfaces each announces. */
  function DecodeDevices(s: seq<byte>, count: nat): Option<seq<Device>>
    decreases count
  {
    if count == 0 then (if s == [] then Some([]) else None)
    else match Cut(s, FieldSizes())
      case None => None
      case Some(cut) =>
        match DeviceOf(cut.0)
        case None => None
        case Some(d) =>
          if |cut.1| < 4 * d.bNumInterfaces then None
          else match DecodeDevices(cut.1[4 * d.bNumInterfaces..], count - 1)
            case None => None
            case Some(rest) => Some([d] + rest)
  }

  function DecodeReply(s: seq<byte>): Option<seq<Device>> {
    if |s| < 12 || ValueBe(s[0..2]) != PROTO_VERSION || ValueBe(s[2..4]) != OP_REP_DEVLIST
      || ValueBe(s[4..8]) != OP_STATUS_OK then None
    else DecodeDevices(s[12..], ValueBe(s[8..12]))
  }

  lemma {:induction false} DevicesRoundTrip(devices: seq<Device>)
    requires forall d :: d in devices ==> Sized(d)
    ensures DecodeDevices(Concat(Wires(devices)), |devices|) == Some(devices)
    decreases |devices|
  {
    hide Fields, DeviceOf, Cut, FieldSizes;
    if devices != [] {
      var d, rest := devices[0], devices[1..];
      assert Wires(devices)[1..] == Wires(rest);
      var tail := Zeros(4 * d.bNumInterfaces) + Concat(Wires(rest));
      assert Concat(Wires(devices)) == Concat(Fields(d)) + tail;
      FieldsSize(d);
      CutConcat(Fields(d), FieldSizes(), tail);
      DeviceOfFields(d);
      assert tail[4 * d.bNumInterfaces..] == Concat(Wires(rest));
      DevicesRoundTrip(rest);
      assert [d] + rest == devices;
    }
  }

  /** The reply decodes to the devices that were encoded, for every list. */
  lemma ReplyRoundTrip(devices: seq<Device>)
    requires |devices| < TWO32 && forall d :: d in devices ==> Sized(d)
    ensures DecodeReply(ReplyWire(devices)) == Some(devices)
  {
    hide U16Be, U32Be, ValueBe, Wires, Concat, DecodeDevices;
    var s := ReplyWire(devices);
    var v, c, o, n := U16Be(PROTO_VERSION), U16Be(OP_REP_DEVLIST), U32Be(OP_STATUS_OK), U32Be(|devices|);
    assert s[0..2] == v && s[2..4] == c && s[4..8] == o && s[8..12] == n && s[12..] == Concat(Wires(devices));
    DevicesRoundTrip(devices);
  }

  /** The encoder writes exactly 12 bytes, 312 per device and 4 per interface. */
  lemma {:induction false} ReplySizeExact(devices: seq<Device>)
    requires |devices| < TWO32 && forall d :: d in devices ==> Sized(d)
    ensures |ReplyWire(devices)| == ReplySize(devices)
  {
    hide Fields, Concat, U16Be, U32Be;
    var n := |devices|;
    if n == 0 {
      NoParts([]);
    } else {
      ReplySizeExact(devices[..n - 1]);
      WiresSnoc(devices, n - 1);
      assert devices[..n] == devices;
      FieldsSize(devices[n - 1]);
    }
  }
}
