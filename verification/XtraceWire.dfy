/**
 The xTrace v2 wire format as the host reader sees it: LEB128 values (section 7.6 of the
 DWARF 5 standard), and length-prefixed records.

 `Leb` and `EncodeRecord` say what the target writes; the methods are the
 reader's and the writer's loops, each proved against a function on byte strings.
 */
module XtraceWire {
  import opened Bytes

  // ----- LEB128 ---------------------------------------------------------------------

  /** Unsigned LEB128: seven bits a byte, least significant group first. */
  function Leb(n: nat): (s: seq<byte>)
    ensures |s| >= 1
  {
    if n < 128 then [n] else [n % 128 + 128] + Leb(n / 128)
  }

  lemma {:induction false} LebMonotone(a: nat, b: nat)
    requires a <= b
    ensures |Leb(a)| <= |Leb(b)|
    decreases a
  {
    if a >= 128 {
      LebMonotone(a / 128, b / 128);
    }
  }

  /** The exporter's `_vi`: a 64-bit value, negative ones taken modulo 2^64. */
  method WriteVarint(value: int) returns (out: seq<byte>)
    ensures out == Leb(value % 0x1_0000_0000_0000_0000)
  {
    var n := value % 0x1_0000_0000_0000_0000;
    out := [];
    ghost var start := n;
    while true
      invariant n >= 0 && out + Leb(n) == Leb(start)
      decreases n
    {
      var b := n % 128;
      ghost var here := n;
      n := n / 128;
      if n != 0 {
        b := b + 128;
      }
      assert out + Leb(here) == (out + [b]) + (if n == 0 then [] else Leb(n));
      out := out + [b];
      if n == 0 {
        return;
      }
    }
  }

  function Pow128(k: nat): (p: nat)
    ensures p >= 1
  {
    if k == 0 then 1 else 128 * Pow128(k - 1)
  }

  lemma {:induction false} LebSize(n: nat, k: nat)
    requires n < Pow128(k) && k >= 1
    ensures |Leb(n)| <= k
  {
    if n >= 128 {
      assert k > 1 by { assert Pow128(1) == 128; }
      LebSize(n / 128, k - 1);
    }
  }

  /** Outcome of reading one variable-length value from the front of a byte string. */
  datatype Varint = Value(value: nat, size: nat) | Eof | TooBig

  /**
   Reads a value whose first `k` bytes were consumed before. A value has at most five
   bytes; `lastOk` says whether the fifth may be read at all (`read_leb128` allows it,
   the length prefix of a record does not).
   */
  function DecodeVarint(s: seq<byte>, k: nat, lastOk: bool): (r: Varint)
    requires k <= 4
    ensures r.Value? ==> 1 <= r.size <= |s| && r.size <= 5 - k
    decreases |s|
  {
    if s == [] then Eof
    else if s[0] < 128 && (k < 4 || lastOk) then Value(s[0], 1)
    else if k == 4 then TooBig
    else
      match DecodeVarint(s[1..], k + 1, lastOk)
      case Value(v, n) => Value(s[0] - 128 + 128 * v, n + 1)
      case Eof => Eof
      case TooBig => TooBig
  }

  /** Values below this bound survive `DecodeVarint` after `k` bytes. */
  function VarintLimit(k: nat, lastOk: bool): nat
    requires k <= 4
  {
    if lastOk then Pow128(5 - k) else if k == 4 then 0 else Pow128(4 - k)
  }

  /** Reading back a written value: exact below the limit, a clean refusal from it on. */
  lemma {:induction false} LebRoundTrip(n: nat, k: nat, lastOk: bool, rest: seq<byte>)
    requires k <= 4
    ensures DecodeVarint(Leb(n) + rest, k, lastOk)
         == if n < VarintLimit(k, lastOk) then Value(n, |Leb(n)|) else TooBig
    decreases 4 - k
  {
    var s := Leb(n) + rest;
    if n >= 128 {
      assert s[1..] == Leb(n / 128) + rest;
      if k < 4 {
        LebRoundTrip(n / 128, k + 1, lastOk, rest);
        var p := VarintLimit(k + 1, lastOk);
        assert VarintLimit(k, lastOk) == if k == 3 && !lastOk then 128 else 128 * p;
        assert n / 128 < p <==> n < 128 * p;
      }
    } else if k == 4 {
      assert Pow128(1) == 128;
    } else {
      assert VarintLimit(k, lastOk) >= 128;
    }
  }

  /** What a decoded value depends on: exactly the bytes it occupies. */
  lemma {:induction false} VarintPrefix(s: seq<byte>, cut: nat, k: nat, lastOk: bool)
    requires k <= 4 && cut <= |s|
    ensures var whole := DecodeVarint(s, k, lastOk);
            var part := DecodeVarint(s[..cut], k, lastOk);
            && (whole.Value? && whole.size <= cut ==> part == whole)
            && (whole.Value? && cut < whole.size ==> part == Eof)
            && (!whole.Value? ==> part == Eof || part == whole)
    decreases |s|
  {
    if s != [] && cut > 0 {
      assert s[..cut][1..] == s[1..][..cut - 1];
      if k < 4 {
        VarintPrefix(s[1..], cut - 1, k + 1, lastOk);
      }
    }
  }

  // ----- Byte streams ---------------------------------------------------------------

  /**
   A binary input stream. `Read` may return fewer bytes than asked for (at most `burst`),
   but returns nothing only at the end of the data.
   */
  class ByteStream {
    const data: seq<byte>
    const burst: nat
    var pos: nat

    constructor (data: seq<byte>, burst: nat)
      requires burst >= 1
      ensures Valid() && this.data == data && this.burst == burst && pos == 0
    {
      this.data, this.burst, this.pos := data, burst, 0;
    }

    ghost predicate Valid()
      reads this
    {
      burst >= 1 && pos <= |data|
    }

    ghost function Rest(): seq<byte>
      reads this
      requires Valid()
    {
      data[pos..]
    }

    method Read(n: nat) returns (chunk: seq<byte>)
      requires Valid()
      modifies this
      ensures Valid() && |chunk| <= n && chunk + Rest() == old(Rest())
      ensures chunk == [] <==> n == 0 || old(Rest()) == []
      ensures pos == old(pos) + |chunk|
    {
      var most := if n < burst then n else burst;
      var take := if most < |data| - pos then most else |data| - pos;
      chunk := data[pos..pos + take];
      pos := pos + take;
    }

    method SeekBackOne()
      requires Valid() && pos > 0
      modifies this
      ensures Valid() && pos == old(pos) - 1
    {
      pos := pos - 1;
    }
  }

  /** `read_leb128` seen from the middle: `acc` holds the `k` groups already read. */
  ghost function Resumed(acc: nat, k: nat, tail: Varint): Varint {
    match tail
    case Value(v, n) => Value(acc + Pow128(k) * v, n + k)
    case _ => tail
  }

  /** The accumulator after the low bits of `b` are put in as group `k`. */
  ghost function WithGroup(acc: nat, k: nat, b: byte): nat {
    MulMonotone(Pow128(k), 0, b % 128);
    acc + Pow128(k) * (b % 128)
  }

  lemma StartResumed(s: seq<byte>, lastOk: bool)
    ensures Pow128(0) == 1 && Resumed(0, 0, DecodeVarint(s, 0, lastOk)) == DecodeVarint(s, 0, lastOk)
  {
  }

  lemma ResumeAtEnd(acc: nat, k: nat, lastOk: bool)
    requires k <= 4
    ensures Resumed(acc, k, DecodeVarint([], k, lastOk)) == Eof
  {
  }

  /** One byte of a value seen from the middle: it ends, it is refused, or it goes on. */
  lemma ResumeStep(acc: nat, k: nat, s: seq<byte>, lastOk: bool)
    requires k <= 4 && s != [] && acc < Pow128(k)
    ensures var next := WithGroup(acc, k, s[0]);
      && next == acc + Pow128(k) * (s[0] % 128) < Pow128(k + 1)
      && (s[0] < 128 && (k < 4 || lastOk) ==> Resumed(acc, k, DecodeVarint(s, k, lastOk)) == Value(next, k + 1))
      && (k == 4 && !(s[0] < 128 && lastOk) ==> Resumed(acc, k, DecodeVarint(s, k, lastOk)) == TooBig)
      && (k < 4 && s[0] >= 128 ==>
            Resumed(acc, k, DecodeVarint(s, k, lastOk)) == Resumed(next, k + 1, DecodeVarint(s[1..], k + 1, lastOk)))
  {
    var low := s[0] % 128;
    MulMonotone(Pow128(k), low, 127);
    if k < 4 && s[0] >= 128 {
      var tail := DecodeVarint(s[1..], k + 1, lastOk);
      if tail.Value? {
        DistributeGroup(Pow128(k), low, tail.value);
      }
    }
  }

  lemma DistributeGroup(p: nat, low: nat, v: nat)
    ensures p * (low + 128 * v) == p * low + (128 * p) * v
  {
  }

  /**
   `read_leb128`. The low bits of `value` below `shift` are the only ones set, so the
   bitwise or of the original is an addition here.
   */
  method ReadLeb128(stream: ByteStream) returns (r: Varint)
    requires stream.Valid()
    modifies stream
    ensures stream.Valid()
    ensures r == DecodeVarint(old(stream.Rest()), 0, true)
    ensures r.Value? ==> stream.pos == old(stream.pos) + r.size
  {
    var value: nat, shift, consumed := 0, 0, 0;
    ghost var start := stream.Rest();
    StartResumed(start, true);
    hide DecodeVarint, Pow128, Resumed;
    while true
      invariant stream.Valid() && stream.pos == old(stream.pos) + consumed
      invariant 0 <= consumed <= 4 && shift == 7 * consumed && value < Pow128(consumed)
      invariant DecodeVarint(start, 0, true)
             == Resumed(value, consumed, DecodeVarint(stream.Rest(), consumed, true))
      decreases 5 - consumed
    {
      ghost var rest := stream.Rest();
      var raw := stream.Read(1);
      if raw == [] {
        ResumeAtEnd(value, consumed, true);
        return Eof;
      }
      var b := raw[0];
      assert rest[0] == b && rest[1..] == stream.Rest();
      ResumeStep(value, consumed, rest, true);
      value := value + Pow128(consumed) * (b % 128);
      consumed := consumed + 1;
      shift := shift + 7;
      if b < 128 {
        return Value(value, consumed);
      }
      if shift >= 35 {
        return TooBig;
      }
    }
  }

  // ----- Records --------------------------------------------------------------------

  /** Event numbers the recorder and the reader know themselves. */
  const EV_GAP: nat := 0
  const EV_BOOT: nat := 1
  const EV_TIME_SYNC: nat := 2

  datatype RawRecord = RawRecord(eventId: nat, deltaTs: nat, params: seq<nat>)

  /** Outcome of `_read_one_record`: three kinds of end besides a record. */
  datatype Outcome = Record(rec: RawRecord, size: nat) | CleanEof | Truncated | Corrupt

  function EncodeParams(ps: seq<nat>): seq<byte> {
    if ps == [] then [] else Leb(ps[0]) + EncodeParams(ps[1..])
  }

  function EncodePayload(r: RawRecord): (s: seq<byte>)
    ensures |s| >= 2
  {
    Leb(r.eventId) + Leb(r.deltaTs) + EncodeParams(r.params)
  }

  /** One record on the wire: payload length, then event id, time delta and parameters. */
  function EncodeRecord(r: RawRecord): (s: seq<byte>)
    ensures |s| >= 3
  {
    Leb(|EncodePayload(r)|) + EncodePayload(r)
  }

  function EncodeRecords(rs: seq<RawRecord>): seq<byte> {
    if rs == [] then [] else EncodeRecord(rs[0]) + EncodeRecords(rs[1..])
  }

  lemma {:induction false} EncodeRecordsAppend(a: seq<RawRecord>, b: seq<RawRecord>)
    ensures EncodeRecords(a + b) == EncodeRecords(a) + EncodeRecords(b)
  {
    if a == [] {
      assert a + b == b;
    } else {
      assert (a + b)[1..] == a[1..] + b;
      EncodeRecordsAppend(a[1..], b);
    }
  }

  predicate ValuesFit(r: RawRecord) {
    && r.eventId < 0x8_0000_0000
    && r.deltaTs < 0x8_0000_0000
    && (forall i :: 0 <= i < |r.params| ==> r.params[i] < 0x8_0000_0000)
  }

  /** Records the reader can represent: five-byte values, four-byte payload length. */
  predicate Encodable(r: RawRecord) {
    ValuesFit(r) && |EncodePayload(r)| < 0x1000_0000
  }

  /** The records before the first one the reader cannot represent. */
  function EncodablePrefix(rs: seq<RawRecord>): (p: seq<RawRecord>)
    ensures p <= rs
    ensures p == rs <==> forall i :: 0 <= i < |rs| ==> Encodable(rs[i])
  {
    if rs == [] || !Encodable(rs[0]) then [] else [rs[0]] + EncodablePrefix(rs[1..])
  }

  /** All values to the end of a payload; a bad one decides the whole record. */
  datatype ParamsOutcome = Params(ps: seq<nat>) | ParamsTruncated | ParamsCorrupt

  function DecodeParams(s: seq<byte>): ParamsOutcome
    decreases |s|
  {
    if s == [] then Params([])
    else
      match DecodeVarint(s, 0, true)
      case Eof => ParamsTruncated
      case TooBig => ParamsCorrupt
      case Value(v, n) =>
        match DecodeParams(s[n..])
        case Params(ps) => Params([v] + ps)
        case other => other
  }

  function DecodePayload(s: seq<byte>, size: nat): Outcome {
    match DecodeVarint(s, 0, true)
    case Eof => Truncated
    case TooBig => Corrupt
    case Value(id, n) =>
      match DecodeVarint(s[n..], 0, true)
      case Eof => Truncated
      case TooBig => Corrupt
      case Value(delta, m) =>
        match DecodeParams(s[n + m..])
        case ParamsTruncated => Truncated
        case ParamsCorrupt => Corrupt
        case Params(ps) => Record(RawRecord(id, delta, ps), size)
  }

  function DecodeRecord(s: seq<byte>): (r: Outcome)
    ensures r.Record? ==> 1 <= r.size <= |s|
    ensures s == [] <==> r == CleanEof
  {
    if s == [] then CleanEof
    else
      match DecodeVarint(s, 0, false)
      case Eof => Truncated
      case TooBig => Corrupt
      case Value(len, n) =>
        if |s| - n < len then Truncated else DecodePayload(s[n..n + len], n + len)
  }

  /** The records the reader yields from a raw stream: all up to the first failure. */
  function Records(s: seq<byte>): seq<RawRecord>
    decreases |s|
  {
    match DecodeRecord(s)
    case Record(r, n) => [r] + Records(s[n..])
    case _ => []
  }

  // ----- The reader's loops ---------------------------------------------------------

  method ReadExactly(stream: ByteStream, n: nat) returns (data: seq<byte>)
    requires stream.Valid()
    modifies stream
    ensures stream.Valid()
    ensures var rest := old(stream.Rest());
            data == if n <= |rest| then rest[..n] else rest
    ensures stream.pos == old(stream.pos) + |data|
  {
    data := [];
    while |data| < n
      invariant stream.Valid() && |data| <= n
      invariant data + stream.Rest() == old(stream.Rest())
      invariant stream.pos == old(stream.pos) + |data|
      decreases n - |data|
    {
      var chunk := stream.Read(n - |data|);
      if chunk == [] {
        break;
      }
      data := data + chunk;
    }
  }

  /** The length prefix of `_read_one_record`; the caller has read `first` already. */
  method ReadLengthTail(stream: ByteStream, first: byte) returns (r: Varint)
    requires stream.Valid()
    modifies stream
    ensures stream.Valid()
    ensures r == DecodeVarint([first] + old(stream.Rest()), 0, false)
    ensures r.Value? ==> stream.pos == old(stream.pos) + r.size - 1
  {
    ghost var whole := [first] + stream.Rest();
    assert whole[1..] == stream.Rest();
    var len: nat, shift, b, groups := first % 128, 7, first, 1;
    ResumeStep(0, 0, whole, false);
    StartResumed(whole, false);
    hide DecodeVarint, Pow128, Resumed;
    while b >= 128
      invariant stream.Valid() && stream.pos == old(stream.pos) + groups - 1
      invariant 1 <= groups <= 4 && shift == 7 * groups && len < Pow128(groups)
      invariant DecodeVarint(whole, 0, false)
             == if b >= 128 then Resumed(len, groups, DecodeVarint(stream.Rest(), groups, false))
               else Value(len, groups)
      decreases 5 - groups
    {
      ghost var rest := stream.Rest();
      var raw := stream.Read(1);
      if raw == [] {
        ResumeAtEnd(len, groups, false);
        return Eof;
      }
      b := raw[0];
      assert rest[0] == b && rest[1..] == stream.Rest();
      ResumeStep(len, groups, rest, false);
      len := len + Pow128(groups) * (b % 128);
      groups := groups + 1;
      shift := shift + 7;
      if shift >= 35 {
        return TooBig;
      }
    }
    return Value(len, groups);
  }

  method ReadParams(payload: ByteStream) returns (r: ParamsOutcome)
    requires payload.Valid()
    modifies payload
    ensures payload.Valid() && r == DecodeParams(old(payload.Rest()))
  {
    hide DecodeVarint;
    var params := [];
    ghost var start := payload.Rest();
    while true
      invariant payload.Valid()
      invariant DecodeParams(start) == match DecodeParams(payload.Rest())
                                       case Params(ps) => Params(params + ps)
                                       case other => other
      decreases |payload.data| - payload.pos
    {
      ghost var rest := payload.Rest();
      var peek := payload.Read(1);
      if peek == [] {
        return Params(params);
      }
      payload.SeekBackOne();
      assert payload.Rest() == rest;
      var v := ReadLeb128(payload);
      match v
      case Eof => return ParamsTruncated;
      case TooBig => return ParamsCorrupt;
      case Value(x, n) =>
        assert payload.Rest() == rest[n..];
        ghost var tail := DecodeParams(payload.Rest());
        assert tail.Params? ==> params + ([x] + tail.ps) == (params + [x]) + tail.ps;
        params := params + [x];
    }
  }

  /** The fields of a record within `_read_one_record`. */
  method ReadPayload(data: seq<byte>, size: nat) returns (r: Outcome)
    ensures r == DecodePayload(data, size) && (r.Record? ==> r.size == size)
  {
    hide DecodeVarint, DecodeParams;
    var payload := new ByteStream(data, 1);
    assert payload.Rest() == data;
    var id := ReadLeb128(payload);
    if id.Eof? { return Truncated; }
    if id.TooBig? { return Corrupt; }
    assert payload.Rest() == data[id.size..];
    var delta := ReadLeb128(payload);
    if delta.Eof? { return Truncated; }
    if delta.TooBig? { return Corrupt; }
    assert payload.Rest() == data[id.size..][delta.size..] == data[id.size + delta.size..];
    var params := ReadParams(payload);
    match params
    case ParamsTruncated => return Truncated;
    case ParamsCorrupt => return Corrupt;
    case Params(ps) => return Record(RawRecord(id.value, delta.value, ps), size);
  }

  /** `_read_one_record`. */
  method ReadOneRecord(stream: ByteStream) returns (r: Outcome)
    requires stream.Valid()
    modifies stream
    ensures stream.Valid() && r == DecodeRecord(old(stream.Rest()))
    ensures r.Record? ==> stream.pos == old(stream.pos) + r.size
  {
    hide DecodeVarint, DecodePayload;
    ghost var start := stream.Rest();
    var raw := stream.Read(1);
    if raw == [] {
      return CleanEof;
    }
    assert [raw[0]] + stream.Rest() == start;
    var prefix := ReadLengthTail(stream, raw[0]);
    match prefix
    case Eof => return Truncated;
    case TooBig => return Corrupt;
    case Value(len, n) =>
      assert stream.Rest() == start[n..];
      var data := ReadExactly(stream, len);
      if |data| < len {
        return Truncated;
      }
      assert data == start[n..n + len];
      r := ReadPayload(data, n + len);
      return;
  }

  /** `records_from_stream`, collecting what the generator yields. */
  method RecordsFromStream(stream: ByteStream) returns (rs: seq<RawRecord>)
    requires stream.Valid()
    modifies stream
    ensures stream.Valid() && rs == Records(old(stream.Rest()))
  {
    hide DecodeRecord;
    rs := [];
    while true
      invariant stream.Valid()
      invariant rs + Records(stream.Rest()) == Records(old(stream.Rest()))
      decreases |stream.data| - stream.pos
    {
      ghost var rest := stream.Rest();
      var r := ReadOneRecord(stream);
      if !r.Record? {
        return;
      }
      assert stream.Rest() == rest[r.size..];
      assert rs + ([r.rec] + Records(stream.Rest())) == (rs + [r.rec]) + Records(stream.Rest());
      rs := rs + [r.rec];
    }
  }

  // ----- Round trip and damage on the raw stream ------------------------------------

  lemma PowFacts()
    ensures Pow128(5) == 0x8_0000_0000 && Pow128(4) == 0x1000_0000
    ensures VarintLimit(0, true) == 0x8_0000_0000 && VarintLimit(0, false) == 0x1000_0000
  {
    assert Pow128(1) == 128;
    assert Pow128(2) == 128 * 128;
    assert Pow128(3) == 128 * 128 * 128;
    assert Pow128(4) == 128 * 128 * 128 * 128;
  }

  /** Parameters come back exactly when all of them fit; otherwise the record is refused. */
  lemma {:induction false} ParamsRoundTrip(ps: seq<nat>)
    ensures DecodeParams(EncodeParams(ps))
         == if forall i :: 0 <= i < |ps| ==> ps[i] < 0x8_0000_0000 then Params(ps) else ParamsCorrupt
  {
    if ps != [] {
      PowFacts();
      var tail := EncodeParams(ps[1..]);
      LebRoundTrip(ps[0], 0, true, tail);
      assert EncodeParams(ps)[|Leb(ps[0])|..] == tail;
      ParamsRoundTrip(ps[1..]);
      if forall i :: 0 <= i < |ps| ==> ps[i] < 0x8_0000_0000 {
        assert ps == [ps[0]] + ps[1..];
      } else {
        var i :| 0 <= i < |ps| && ps[i] >= 0x8_0000_0000;
        assert i > 0 ==> ps[1..][i - 1] == ps[i];
      }
    }
  }

  lemma PayloadRoundTrip(r: RawRecord, size: nat)
    ensures DecodePayload(EncodePayload(r), size) == if ValuesFit(r) then Record(r, size) else Corrupt
  {
    hide Leb, Pow128, DecodeVarint, EncodeParams, DecodeParams;
    PowFacts();
    var payload, id, delta, params := EncodePayload(r), Leb(r.eventId), Leb(r.deltaTs), EncodeParams(r.params);
    assert payload == id + (delta + params);
    LebRoundTrip(r.eventId, 0, true, delta + params);
    assert payload[|id|..] == delta + params;
    LebRoundTrip(r.deltaTs, 0, true, params);
    assert payload[|id| + |delta|..] == params;
    ParamsRoundTrip(r.params);
  }

  /** One written record is read back whole, whatever follows it, or refused. */
  lemma RecordRoundTrip(r: RawRecord, rest: seq<byte>)
    ensures Encodable(r) ==> DecodeRecord(EncodeRecord(r) + rest) == Record(r, |EncodeRecord(r)|)
    ensures !Encodable(r) ==> DecodeRecord(EncodeRecord(r) + rest) == Corrupt
  {
    hide Leb, Pow128, DecodeVarint, DecodePayload;
    var payload := EncodePayload(r);
    var prefix := Leb(|payload|);
    var s := EncodeRecord(r) + rest;
    assert s == prefix + (payload + rest);
    PowFacts();
    LebRoundTrip(|payload|, 0, false, payload + rest);
    assert s[|prefix|..|prefix| + |payload|] == payload;
    PayloadRoundTrip(r, |prefix| + |payload|);
  }

  /**
   Reading back any list of written records yields it up to the first record that does
   not fit the reader's limits, so all of it exactly when every record fits.
   */
  lemma {:induction false} RecordsRoundTrip(rs: seq<RawRecord>)
    ensures Records(EncodeRecords(rs)) == EncodablePrefix(rs)
  {
    if rs != [] {
      var tail := EncodeRecords(rs[1..]);
      RecordRoundTrip(rs[0], tail);
      assert EncodeRecords(rs)[|EncodeRecord(rs[0])|..] == tail;
      RecordsRoundTrip(rs[1..]);
    }
  }

  lemma RecordPrefix(s: seq<byte>, cut: nat)
    requires cut <= |s|
    ensures var whole := DecodeRecord(s); var part := DecodeRecord(s[..cut]);
            && (whole.Record? && whole.size <= cut ==> part == whole)
            && (!(whole.Record? && whole.size <= cut) ==> !part.Record?)
  {
    VarintPrefix(s, cut, 0, false);
    var head := DecodeVarint(s, 0, false);
    if head.Value? && head.size <= cut && head.size + head.value <= cut {
      assert s[..cut][head.size..head.size + head.value] == s[head.size..head.size + head.value];
    }
  }

  /** A truncated capture loses records only at its end. */
  lemma {:induction false} TruncationLosesOnlyTheTail(s: seq<byte>, cut: nat)
    requires cut <= |s|
    ensures Records(s[..cut]) <= Records(s)
    decreases |s|
  {
    hide DecodeRecord;
    RecordPrefix(s, cut);
    var whole := DecodeRecord(s);
    if whole.Record? && whole.size <= cut {
      assert s[..cut][whole.size..] == s[whole.size..][..cut - whole.size];
      TruncationLosesOnlyTheTail(s[whole.size..], cut - whole.size);
    }
  }

  // ----- Records one after the other --------------------------------------------------

  lemma NoRecords()
    ensures Records([]) == [] && EncodeRecords([]) == []
  {
  }

  lemma OneEncoded(r: RawRecord)
    ensures EncodeRecords([r]) == EncodeRecord(r)
  {
    hide EncodeRecord;
    assert [r][1..] == [];
  }

  lemma TwoEncoded(a: RawRecord, b: RawRecord)
    ensures EncodeRecords([a, b]) == EncodeRecord(a) + EncodeRecord(b)
  {
    hide EncodeRecord;
    assert [a, b][1..] == [b] && [b][1..] == [];
    assert EncodeRecords([b]) == EncodeRecord(b) + [];
  }

  lemma PartRecord(r: RawRecord, k: nat)
    requires Encodable(r) && k < |EncodeRecord(r)|
    ensures Records(EncodeRecord(r)[..k]) == []
  {
    hide DecodeRecord, EncodeRecord;
    RecordRoundTrip(r, []);
    assert EncodeRecord(r) + [] == EncodeRecord(r);
    RecordPrefix(EncodeRecord(r), k);
  }

  lemma OneRecordThen(r: RawRecord, rest: seq<byte>)
    requires Encodable(r)
    ensures Records(EncodeRecord(r) + rest) == [r] + Records(rest)
  {
    hide DecodeRecord, EncodeRecord;
    RecordRoundTrip(r, rest);
    assert (EncodeRecord(r) + rest)[|EncodeRecord(r)|..] == rest;
  }

  lemma {:induction false} RecordsThen(rs: seq<RawRecord>, tail: seq<byte>)
    requires forall x :: x in rs ==> Encodable(x)
    ensures Records(EncodeRecords(rs) + tail) == rs + Records(tail)
  {
    hide Records, EncodeRecord;
    if rs == [] {
      assert EncodeRecords(rs) + tail == tail;
    } else {
      var rest := EncodeRecords(rs[1..]) + tail;
      assert EncodeRecords(rs) + tail == EncodeRecord(rs[0]) + rest;
      OneRecordThen(rs[0], rest);
      RecordsThen(rs[1..], tail);
      assert [rs[0]] + rs[1..] == rs;
    }
  }

  lemma WholeRecords(rs: seq<RawRecord>)
    requires forall x :: x in rs ==> Encodable(x)
    ensures Records(EncodeRecords(rs)) == rs
  {
    hide Records, EncodeRecords, Encodable;
    NoRecords();
    RecordsThen(rs, []);
    assert EncodeRecords(rs) + [] == EncodeRecords(rs);
  }
}
