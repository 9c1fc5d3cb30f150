/**
 COBS framing of the xTrace stream: the target's encoder and decoder in C, the host's
 decoder in Python, and the host's frame splitter.
 */
module XtraceCobs {
  import opened Bytes
  import opened XtraceWire
  import opened XtraceCanonical

  // ----- What an encoded packet is ---------------------------------------------------

  /** COBS of `pending + src` without the delimiter, `pending` being the open chunk. */
  function Chunks(pending: seq<byte>, src: seq<byte>): (e: seq<byte>)
    requires |pending| <= 253
    decreases |src|
  {
    if src == [] then [|pending| + 1] + pending
    else if src[0] == 0 then [|pending| + 1] + pending + Chunks([], src[1..])
    else if |pending| == 253 then [255] + pending + [src[0]] + Chunks([], src[1..])
    else Chunks(pending + [src[0]], src[1..])
  }

  /** One frame on the wire, with its 0x00 delimiter. */
  function Frame(src: seq<byte>): seq<byte> {
    Chunks([], src) + [0]
  }

  /** The implicit zero after the first run: none after a full or a last one. */
  function ImplicitZero(s: seq<byte>): seq<byte>
    requires s != []
  {
    if s[0] != 255 && s[0] < |s| then [0] else []
  }

  /** The host's reading of a packet: stops at a zero code or a run that is cut short. */
  function Decode(s: seq<byte>): seq<byte>
    decreases |s|
  {
    if s == [] || s[0] == 0 || s[0] > |s| then []
    else s[1..s[0]] + ImplicitZero(s) + Decode(s[s[0]..])
  }

  /** A packet whose codes lead exactly to its end. */
  predicate Clean(s: seq<byte>)
    decreases |s|
  {
    s == [] || (0 < s[0] <= |s| && Clean(s[s[0]..]))
  }

  predicate ZeroFree(s: seq<byte>) {
    forall i :: 0 <= i < |s| ==> s[i] != 0
  }

  /** An encoded packet has no zero byte, is clean, and decodes to what was encoded. */
  lemma {:induction false} PacketRoundTrip(pending: seq<byte>, src: seq<byte>)
    requires |pending| <= 253 && ZeroFree(pending)
    ensures var e := Chunks(pending, src); e != [] && ZeroFree(e) && Clean(e) && Decode(e) == pending + src
    decreases |src|
  {
    hide Decode, Clean;
    if src == [] {
      ChunkDecodes(pending, []);
      assert [|pending| + 1] + pending + [] == Chunks(pending, src);
      assert pending + src == pending;
    } else if src[0] == 0 {
      PacketRoundTrip([], src[1..]);
      ChunkDecodes(pending, Chunks([], src[1..]));
      assert pending + [0] + ([] + src[1..]) == pending + src;
    } else if |pending| == 253 {
      PacketRoundTrip([], src[1..]);
      ChunkDecodes(pending + [src[0]], Chunks([], src[1..]));
      assert [255] + (pending + [src[0]]) + Chunks([], src[1..]) == Chunks(pending, src);
      assert pending + [src[0]] + [] + ([] + src[1..]) == pending + src;
    } else {
      PacketRoundTrip(pending + [src[0]], src[1..]);
      assert pending + [src[0]] + src[1..] == pending + src;
    }
  }

  /** A chunk in front of a packet decodes to its bytes, then a zero unless full or last. */
  lemma ChunkDecodes(run: seq<byte>, tail: seq<byte>)
    requires |run| <= 254 && ZeroFree(run) && ZeroFree(tail)
    ensures var e := [|run| + 1] + run + tail;
      && ZeroFree(e)
      && Decode(e) == run + (if |run| != 254 && tail != [] then [0] else []) + Decode(tail)
      && (Clean(e) <==> Clean(tail))
      && Decode([]) == [] && Clean([])
  {
    var e := [|run| + 1] + run + tail;
    assert e[1..e[0]] == run && e[e[0]..] == tail;
  }

  // ----- The target's encoder and decoder --------------------------------------------

  function MaxEncodedSize(n: nat): nat {
    n + n / 254 + 2
  }

  /** Fills in the code of the open chunk and reserves the next code byte at `dstIdx`. */
  method CloseChunk(dst: array<byte>, overheadPos: nat, dstIdx: nat, code: byte, ghost closed: seq<byte>,
                    ghost pending: seq<byte>)
    requires |closed| == overheadPos && overheadPos + 1 + |pending| == dstIdx < dst.Length
    requires dst[..dstIdx] == closed + [0] + pending
    modifies dst
    ensures dst[..dstIdx + 1] == closed + [code] + pending + [0]
    ensures forall i :: dstIdx < i < dst.Length ==> dst[i] == old(dst[i])
  {
    dst[overheadPos] := code;
    assert dst[..dstIdx] == closed + [code] + pending;
    PutByte(dst, dstIdx, 0);
  }

  method PutByte(dst: array<byte>, dstIdx: nat, b: byte)
    requires dstIdx < dst.Length
    modifies dst
    ensures dst[..dstIdx + 1] == old(dst[..dstIdx]) + [b]
    ensures forall i :: dstIdx < i < dst.Length ==> dst[i] == old(dst[i])
  {
    dst[dstIdx] := b;
  }

  lemma ChunkZero(closed: seq<byte>, pending: seq<byte>, rest: seq<byte>)
    requires |pending| <= 253 && rest != [] && rest[0] == 0
    ensures closed + Chunks(pending, rest) == closed + [|pending| + 1] + pending + Chunks([], rest[1..])
  {
    var head, tail := [|pending| + 1] + pending, Chunks([], rest[1..]);
    assert closed + (head + tail) == closed + [|pending| + 1] + pending + tail;
  }

  lemma ChunkFull(closed: seq<byte>, pending: seq<byte>, rest: seq<byte>)
    requires |pending| == 253 && rest != [] && rest[0] != 0
    ensures closed + Chunks(pending, rest) == closed + [255] + (pending + [rest[0]]) + Chunks([], rest[1..])
  {
    var head, tail := [255] + pending + [rest[0]], Chunks([], rest[1..]);
    assert closed + (head + tail) == closed + [255] + (pending + [rest[0]]) + tail;
  }

  lemma ChunkData(pending: seq<byte>, rest: seq<byte>)
    requires |pending| <= 253
    ensures Chunks(pending, []) == [|pending| + 1] + pending
    ensures rest != [] && rest[0] != 0 && |pending| < 253 ==>
      Chunks(pending, rest) == Chunks(pending + [rest[0]], rest[1..])
  {
  }

  /**
   `xTRACE_COBS_Encode`. The code byte of the open chunk is a placeholder at `overheadPos`,
   filled in when the chunk closes; `sizeMax` is the target's SIZE_MAX.
   */
  method Encode(src: seq<byte>, dst: array<byte>, sizeMax: nat) returns (n: nat)
    requires dst.Length <= sizeMax
    modifies dst
    ensures n == if dst.Length < MaxEncodedSize(|src|) then 0 else |Frame(src)|
    ensures n != 0 ==> n <= dst.Length && dst[..n] == Frame(src)
    ensures forall i :: n <= i < dst.Length ==> dst[i] == old(dst[i])
  {
    if |src| > sizeMax - |src| / 254 - 2 {
      return 0;
    }
    if dst.Length < MaxEncodedSize(|src|) {
      return 0;
    }
    var srcIdx, dstIdx, overheadPos, code := 0, 0, 0, 1;
    PutByte(dst, dstIdx, 0);
    dstIdx := dstIdx + 1;
    hide Chunks;
    ghost var full, closed, pending: seq<byte> := 0, [], [];
    assert src[0..] == src;
    while srcIdx < |src|
      invariant 0 <= srcIdx <= |src| && dstIdx == srcIdx + 1 + full && 254 * full + |pending| <= srcIdx
      invariant overheadPos == |closed| && dstIdx == |closed| + 1 + |pending| && code == |pending| + 1 <= 254
      invariant dst[..dstIdx] == closed + [0] + pending
      invariant closed + Chunks(pending, src[srcIdx..]) == Chunks([], src)
      invariant forall i :: dstIdx <= i < dst.Length ==> dst[i] == old(dst[i])
    {
      ghost var rest := src[srcIdx..];
      var b := src[srcIdx];
      assert rest[1..] == src[srcIdx + 1..];
      srcIdx := srcIdx + 1;
      if b == 0 {
        ChunkZero(closed, pending, rest);
        CloseChunk(dst, overheadPos, dstIdx, code, closed, pending);
        closed, pending := closed + [code] + pending, [];
        overheadPos := dstIdx;
        dstIdx := dstIdx + 1;
        code := 1;
      } else {
        PutByte(dst, dstIdx, b);
        dstIdx := dstIdx + 1;
        code := code + 1;
        if code == 255 {
          ChunkFull(closed, pending, rest);
          CloseChunk(dst, overheadPos, dstIdx, code, closed, pending + [b]);
          closed, pending := closed + [code] + (pending + [b]), [];
          full := full + 1;
          overheadPos := dstIdx;
          dstIdx := dstIdx + 1;
          code := 1;
        } else {
          ChunkData(pending, rest);
          pending := pending + [b];
        }
      }
    }
    ChunkData(pending, []);
    CloseChunk(dst, overheadPos, dstIdx, code, closed, pending);
    assert closed + ([code] + pending) == closed + [code] + pending;
    dstIdx := dstIdx + 1;
    return dstIdx;
  }

  /** One chunk of a packet, decoded into `room` bytes: all of it, or what fits before the fault. */
  datatype Chunk = Good(out: seq<byte>) | Bad(out: seq<byte>)

  function NextChunk(s: seq<byte>, room: nat): (c: Chunk)
    requires s != []
    ensures |c.out| <= room
    ensures c.Good? ==> 0 < s[0] <= |s|
  {
    if s[0] == 0 || s[0] > |s| || s[0] - 1 > room then Bad([])
    else
      var run := s[1..s[0]];
      if s[0] == 255 || s[0] == |s| then Good(run)
      else if |run| == room then Bad(run)
      else Good(run + [0])
  }

  /** What the target's decoder leaves in a buffer with `room` bytes left. */
  datatype Bounded = Bounded(out: seq<byte>, truncated: bool)

  function DecodeBounded(s: seq<byte>, room: nat): (r: Bounded)
    ensures |r.out| <= room
    decreases |s|
  {
    if s == [] then Bounded([], false)
    else
      var c := NextChunk(s, room);
      if c.Bad? then Bounded(c.out, true)
      else
        var tail := DecodeBounded(s[s[0]..], room - |c.out|);
        Bounded(c.out + tail.out, tail.truncated)
  }

  ghost function After(done: seq<byte>, tail: Bounded): Bounded {
    Bounded(done + tail.out, tail.truncated)
  }

  lemma AfterChunk(done: seq<byte>, rest: seq<byte>, room: nat)
    requires rest != []
    ensures var c := NextChunk(rest, room);
      After(done, DecodeBounded(rest, room))
      == if c.Bad? then Bounded(done + c.out, true)
         else After(done + c.out, DecodeBounded(rest[rest[0]..], room - |c.out|))
  {
    var c := NextChunk(rest, room);
    if c.Good? {
      var tail := DecodeBounded(rest[rest[0]..], room - |c.out|);
      assert done + (c.out + tail.out) == (done + c.out) + tail.out;
    }
  }

  /** `xTRACE_COBS_Decode`. */
  method DecodeInto(src: seq<byte>, dst: array<byte>) returns (n: nat, truncated: bool)
    modifies dst
    ensures n <= dst.Length && Bounded(dst[..n], truncated) == DecodeBounded(src, dst.Length)
    ensures forall i :: n <= i < dst.Length ==> dst[i] == old(dst[i])
  {
    hide NextChunk;
    var srcIdx, dstIdx := 0, 0;
    truncated := false;
    assert src[0..] == src;
    while srcIdx < |src|
      invariant 0 <= srcIdx <= |src| && 0 <= dstIdx <= dst.Length
      invariant DecodeBounded(src, dst.Length)
        == After(dst[..dstIdx], DecodeBounded(src[srcIdx..], dst.Length - dstIdx))
      invariant forall i :: dstIdx <= i < dst.Length ==> dst[i] == old(dst[i])
    {
      ghost var done, rest := dst[..dstIdx], src[srcIdx..];
      AfterChunk(done, rest, dst.Length - dstIdx);
      srcIdx, dstIdx, truncated := DecodeChunk(src, srcIdx, dst, dstIdx);
      if truncated {
        return dstIdx, truncated;
      }
      assert src[srcIdx..] == rest[rest[0]..];
    }
    return dstIdx, false;
  }

  /** The body of the decoder's loop; `stop` is its break on a damaged packet or a full buffer. */
  method DecodeChunk(src: seq<byte>, srcFrom: nat, dst: array<byte>, dstFrom: nat)
    returns (srcIdx: nat, dstIdx: nat, stop: bool)
    requires srcFrom < |src| && dstFrom <= dst.Length
    modifies dst
    ensures dstFrom <= dstIdx <= dst.Length
    ensures dst[..dstIdx] == old(dst[..dstFrom]) + NextChunk(src[srcFrom..], dst.Length - dstFrom).out
    ensures stop <==> NextChunk(src[srcFrom..], dst.Length - dstFrom).Bad?
    ensures !stop ==> srcIdx == srcFrom + src[srcFrom]
    ensures forall i :: dstIdx <= i < dst.Length ==> dst[i] == old(dst[i])
  {
    srcIdx, dstIdx, stop := srcFrom, dstFrom, false;
    var code := src[srcIdx];
    if code == 0 {
      stop := true;
      return;
    }
    srcIdx := srcIdx + 1;
    var run := code - 1;
    if run > |src| - srcIdx || run > dst.Length - dstIdx {
      stop := true;
      return;
    }
    assert src[srcFrom..][1..code] == src[srcIdx..srcIdx + run];
    srcIdx, dstIdx := CopyRun(src, srcIdx, dst, dstIdx, run);
    if code != 255 {
      if srcIdx < |src| {
        if dstIdx >= dst.Length {
          stop := true;
          return;
        }
        PutByte(dst, dstIdx, 0);
        dstIdx := dstIdx + 1;
      }
    }
  }

  /** The copy loop of `xTRACE_COBS_Decode`. */
  method CopyRun(src: seq<byte>, srcFrom: nat, dst: array<byte>, dstFrom: nat, run: nat)
    returns (srcIdx: nat, dstIdx: nat)
    requires srcFrom + run <= |src| && dstFrom + run <= dst.Length
    modifies dst
    ensures srcIdx == srcFrom + run && dstIdx == dstFrom + run
    ensures dst[..dstIdx] == old(dst[..dstFrom]) + src[srcFrom..srcIdx]
    ensures forall i :: dstIdx <= i < dst.Length ==> dst[i] == old(dst[i])
  {
    srcIdx, dstIdx := srcFrom, dstFrom;
    for i := 0 to run
      invariant srcIdx == srcFrom + i && dstIdx == dstFrom + i
      invariant dst[..dstIdx] == old(dst[..dstFrom]) + src[srcFrom..srcIdx]
      invariant forall i :: dstIdx <= i < dst.Length ==> dst[i] == old(dst[i])
    {
      dst[dstIdx] := src[srcIdx];
      dstIdx := dstIdx + 1;
      srcIdx := srcIdx + 1;
    }
  }

  lemma ChunkAgrees(s: seq<byte>, room: nat)
    ensures Decode([]) == [] && Clean([])
    ensures s != [] ==> var c := NextChunk(s, room);
      && (c.Good? ==> Decode(s) == c.out + Decode(s[s[0]..]) && (Clean(s) <==> Clean(s[s[0]..])))
      && (c.Bad? ==> c.out <= Decode(s) && (!Clean(s) || |Decode(s)| > room))
      && (c.Bad? && |Decode(s)| <= room ==> c.out == Decode(s))
  {
  }

  /**
   The target's decoder against the host's: it never writes anything the host would not,
   it writes all of it when there is room, and it reports truncation exactly when the
   packet is damaged or does not fit.
   */
  lemma {:induction false} BoundedDecodeAgrees(s: seq<byte>, room: nat)
    ensures var r := DecodeBounded(s, room);
            && r.out <= Decode(s)
            && (r.truncated <==> !Clean(s) || |Decode(s)| > room)
            && (|Decode(s)| <= room ==> r.out == Decode(s))
    decreases |s|
  {
    hide NextChunk, Decode, Clean;
    ChunkAgrees(s, room);
    if s != [] && NextChunk(s, room).Good? {
      BoundedDecodeAgrees(s[s[0]..], room - |NextChunk(s, room).out|);
    }
  }

  // ----- The host's decoder and frame splitter ---------------------------------------

  /** `cobs_decode`. */
  method DecodePacket(encoded: seq<byte>) returns (output: seq<byte>)
    ensures output == Decode(encoded)
  {
    hide Decode, ImplicitZero;
    output := [];
    var i, n := 0, |encoded|;
    assert encoded[0..] == encoded;
    DecodeStep([], []);
    while i < n
      invariant 0 <= i <= n && output + Decode(encoded[i..]) == Decode(encoded)
    {
      var code := encoded[i];
      ghost var rest := encoded[i..];
      DecodeStep(output, rest);
      ZeroMeaning(rest);
      if code == 0 {
        break;
      }
      i := i + 1;
      var run := code - 1;
      if i + run > n {
        break;
      }
      output := output + encoded[i..i + run];
      assert rest[1..code] == encoded[i..i + run];
      i := i + run;
      assert rest[code..] == encoded[i..];
      if code != 255 && i < n {
        output := output + [0];
      } else {
        assert output + [] == output;
      }
    }
    assert encoded[n..] == [];
  }

  lemma ZeroMeaning(rest: seq<byte>)
    ensures rest != [] && 0 < rest[0] <= |rest| ==>
      ImplicitZero(rest) == if rest[0] != 255 && rest[0] < |rest| then [0] else []
  {
  }

  lemma DecodeStep(done: seq<byte>, rest: seq<byte>)
    ensures Decode([]) == []
    ensures rest != [] ==>
      done + Decode(rest) == if rest[0] == 0 || rest[0] > |rest| then done
        else done + rest[1..rest[0]] + ImplicitZero(rest) + Decode(rest[rest[0]..])
  {
    if rest != [] && 0 < rest[0] <= |rest| {
      Regroup(done, rest[1..rest[0]], ImplicitZero(rest), Decode(rest[rest[0]..]));
    }
  }

  /** Records of one delimited frame. */
  function FrameRecords(packet: seq<byte>): seq<RawRecord> {
    if packet == [] then [] else Records(Decode(packet))
  }

  /** Records of a framed stream, `buf` being the part of the current frame already read. */
  function StreamRecords(buf: seq<byte>, s: seq<byte>): seq<RawRecord>
    decreases |s|
  {
    if s == [] then []
    else if s[0] == 0 then FrameRecords(buf) + StreamRecords([], s[1..])
    else StreamRecords(buf + [s[0]], s[1..])
  }

  lemma StreamStep(done: seq<RawRecord>, buf: seq<byte>, s: seq<byte>)
    ensures StreamRecords(buf, []) == [] && Records([]) == [] && FrameRecords([]) == []
    ensures buf != [] ==> FrameRecords(buf) == Records(Decode(buf))
    ensures s != [] ==>
      done + StreamRecords(buf, s)
        == if s[0] == 0 then done + FrameRecords(buf) + StreamRecords([], s[1..])
           else done + StreamRecords(buf + [s[0]], s[1..])
  {
    if s != [] && s[0] == 0 {
      var tail := StreamRecords([], s[1..]);
      assert done + (FrameRecords(buf) + tail) == done + FrameRecords(buf) + tail;
    }
  }

  /** `records_from_cobs_stream`, collecting what the generator yields. */
  method RecordsFromCobsStream(stream: ByteStream) returns (rs: seq<RawRecord>)
    requires stream.Valid()
    modifies stream
    ensures stream.Valid() && rs == StreamRecords([], old(stream.Rest()))
  {
    hide Records, Decode, StreamRecords, FrameRecords;
    StreamStep([], [], []);
    rs := [];
    var frameBuf := [];
    while true
      invariant stream.Valid()
      invariant rs + StreamRecords(frameBuf, stream.Rest()) == StreamRecords([], old(stream.Rest()))
      decreases |stream.data| - stream.pos
    {
      ghost var rest := stream.Rest();
      StreamStep(rs, frameBuf, rest);
      var b := stream.Read(1);
      if b == [] {
        StreamStep(rs, frameBuf, []);
        break;
      }
      assert rest[0] == b[0] && rest[1..] == stream.Rest();
      if b[0] == 0 {
        ghost var packet, sofar := frameBuf, rs;
        if frameBuf != [] {
          var decoded := DecodePacket(frameBuf);
          if decoded != [] {
            var inner := new ByteStream(decoded, 1);
            assert inner.Rest() == decoded;
            var more := RecordsFromStream(inner);
            rs := rs + more;
          }
          frameBuf := [];
        }
        assert rs == sofar + FrameRecords(packet);
      } else {
        frameBuf := frameBuf + [b[0]];
      }
    }
  }

  // ----- Round trip and locality of damage -------------------------------------------

  /** Whatever precedes a 0x00, reading resumes after it as on a fresh stream. */
  lemma {:induction false} SplitAtDelimiter(buf: seq<byte>, a: seq<byte>, b: seq<byte>)
    ensures StreamRecords(buf, a + [0] + b) == StreamRecords(buf, a + [0]) + StreamRecords([], b)
    decreases |a|
  {
    if a == [] {
      assert (a + [0] + b)[1..] == b && (a + [0])[1..] == [];
    } else {
      assert (a + [0] + b)[1..] == a[1..] + [0] + b && (a + [0])[1..] == a[1..] + [0];
      SplitAtDelimiter(if a[0] == 0 then [] else buf + [a[0]], a[1..], b);
      if a[0] == 0 {
        var h := FrameRecords(buf);
        assert h + (StreamRecords([], a[1..] + [0]) + StreamRecords([], b))
            == (h + StreamRecords([], a[1..] + [0])) + StreamRecords([], b);
      }
    }
  }

  lemma {:induction false} OneFrame(buf: seq<byte>, packet: seq<byte>)
    requires ZeroFree(packet)
    ensures StreamRecords(buf, packet + [0]) == FrameRecords(buf + packet)
    decreases |packet|
  {
    var s := packet + [0];
    if packet == [] {
      assert s[1..] == [] && buf + packet == buf;
    } else {
      assert s[1..] == packet[1..] + [0];
      OneFrame(buf + [packet[0]], packet[1..]);
      assert buf + [packet[0]] + packet[1..] == buf + packet;
    }
  }

  /** Frames as the target sends them, one batch of records each. */
  function EncodeFrames(frames: seq<seq<RawRecord>>): seq<byte> {
    if frames == [] then [] else Frame(EncodeRecords(frames[0])) + EncodeFrames(frames[1..])
  }

  /** What the host recovers from each batch. */
  function Recovered(frames: seq<seq<RawRecord>>): seq<RawRecord> {
    if frames == [] then [] else EncodablePrefix(frames[0]) + Recovered(frames[1..])
  }

  lemma {:induction false} RecoveredAll(frames: seq<seq<RawRecord>>)
    requires forall i, j :: 0 <= i < |frames| && 0 <= j < |frames[i]| ==> Encodable(frames[i][j])
    ensures Recovered(frames) == Concat(frames)
  {
    if frames != [] {
      RecoveredAll(frames[1..]);
    }
  }

  /**
   Full framing round trip, for any batches of records and any bytes inside them: each
   batch is recovered up to its first record that does not fit, the others untouched.
   */
  lemma {:induction false} FramingRoundTrip(frames: seq<seq<RawRecord>>, rest: seq<byte>)
    ensures StreamRecords([], EncodeFrames(frames) + rest) == Recovered(frames) + StreamRecords([], rest)
  {
    hide Chunks, Decode, Clean, StreamRecords, EncodablePrefix, Records, EncodeRecords;
    if frames == [] {
      assert EncodeFrames(frames) + rest == rest;
    } else {
      var payload := EncodeRecords(frames[0]);
      var packet, tail := Chunks([], payload), EncodeFrames(frames[1..]) + rest;
      assert EncodeFrames(frames) + rest == packet + [0] + tail;
      PacketRoundTrip([], payload);
      SplitAtDelimiter([], packet, tail);
      OneFrame([], packet);
      assert [] + packet == packet && [] + payload == payload;
      RecordsRoundTrip(frames[0]);
      FramingRoundTrip(frames[1..], rest);
    }
  }

  /** One frame around any bytes delivers the records in them. */
  lemma FrameDelivers(payload: seq<byte>, rest: seq<byte>)
    ensures StreamRecords([], Frame(payload) + rest) == Records(payload) + StreamRecords([], rest)
  {
    hide Chunks, Decode, Clean, StreamRecords, Records;
    var packet := Chunks([], payload);
    PacketRoundTrip([], payload);
    assert Frame(payload) + rest == packet + [0] + rest;
    SplitAtDelimiter([], packet, rest);
    OneFrame([], packet);
    assert [] + packet == packet && [] + payload == payload;
  }

  /**
   The header's usage note frames each write of a flush by itself. A write that ends inside
   a record delivers nothing of that record, and the next frame whatever the rest of it
   and the records behind it read as.
   */
  lemma CutRecordIsLost(rs: seq<RawRecord>, r: RawRecord, k: nat, rs2: seq<RawRecord>, rest: seq<byte>)
    requires Encodable(r) && k < |EncodeRecord(r)| && forall x :: x in rs ==> Encodable(x)
    ensures StreamRecords([], Frame(EncodeRecords(rs) + EncodeRecord(r)[..k])
                          + (Frame(EncodeRecord(r)[k..] + EncodeRecords(rs2)) + rest))
      == rs + (Records(EncodeRecord(r)[k..] + EncodeRecords(rs2)) + StreamRecords([], rest))
  {
    hide Frame, StreamRecords, Records, EncodeRecords, EncodeRecord, Encodable;
    var first, second := EncodeRecords(rs) + EncodeRecord(r)[..k], EncodeRecord(r)[k..] + EncodeRecords(rs2);
    FrameDelivers(first, Frame(second) + rest);
    FrameDelivers(second, rest);
    PartRecord(r, k);
    RecordsThen(rs, EncodeRecord(r)[..k]);
    assert rs + [] == rs;
  }

  /** What is left of a cut record, with the records behind it, is too short to read as all of them. */
  lemma RestIsShort(r: RawRecord, k: nat, rs2: seq<RawRecord>)
    requires 0 < k <= |EncodeRecord(r)|
    ensures Records(EncodeRecord(r)[k..] + EncodeRecords(rs2)) != [r] + rs2
  {
    hide Records, EncodeRecords, EncodeRecord;
    ShortestRecords(EncodeRecord(r)[k..] + EncodeRecords(rs2));
    EncodeRecordsAppend([r], rs2);
    OneEncoded(r);
  }

  /** What the two frames deliver together, for every place of the cut. */
  lemma CutDelivers(rs: seq<RawRecord>, r: RawRecord, k: nat, rs2: seq<RawRecord>)
    requires k <= |EncodeRecord(r)| && Encodable(r) && forall x :: x in rs ==> Encodable(x)
    ensures StreamRecords([], Frame(EncodeRecords(rs) + EncodeRecord(r)[..k])
                          + Frame(EncodeRecord(r)[k..] + EncodeRecords(rs2)))
      == rs + (if k == |EncodeRecord(r)| then [r] else []) + Records(EncodeRecord(r)[k..] + EncodeRecords(rs2))
  {
    hide Frame, StreamRecords, Records, EncodeRecords, EncodeRecord, Encodable;
    var first, second := EncodeRecords(rs) + EncodeRecord(r)[..k], EncodeRecord(r)[k..] + EncodeRecords(rs2);
    NoStream();
    assert Frame(second) + [] == Frame(second) && Records(second) + [] == Records(second);
    FrameDelivers(first, Frame(second) + []);
    FrameDelivers(second, []);
    RecordsThen(rs, EncodeRecord(r)[..k]);
    if k == |EncodeRecord(r)| {
      assert EncodeRecord(r)[..k] == EncodeRecord(r) + [];
      OneRecordThen(r, []);
    } else {
      PartRecord(r, k);
    }
  }

  /** Two frames recover the records cut across them exactly when the cut falls between two records. */
  lemma CutRecovered(rs: seq<RawRecord>, r: RawRecord, k: nat, rs2: seq<RawRecord>)
    requires k <= |EncodeRecord(r)| && forall x :: x in rs + [r] + rs2 ==> Encodable(x)
    ensures var first, second := EncodeRecords(rs) + EncodeRecord(r)[..k], EncodeRecord(r)[k..] + EncodeRecords(rs2);
      StreamRecords([], Frame(first) + Frame(second)) == rs + [r] + rs2 <==> k == 0 || k == |EncodeRecord(r)|
  {
    hide Frame, StreamRecords, Records, EncodeRecords, EncodeRecord, Encodable;
    var second := EncodeRecord(r)[k..] + EncodeRecords(rs2);
    var all := rs + [r] + rs2;
    assert Encodable(r) && (forall x :: x in rs ==> x in all) && (forall x :: x in rs2 ==> x in all);
    CutDelivers(rs, r, k, rs2);
    WholeRecords(rs2);
    assert all == rs + ([r] + rs2);
    if k == |EncodeRecord(r)| {
      assert second == EncodeRecords(rs2);
    } else {
      assert rs + [] + Records(second) == rs + Records(second);
      SameFront(rs, Records(second), [r] + rs2);
      if k == 0 {
        assert second == EncodeRecord(r) + EncodeRecords(rs2);
        OneRecordThen(r, EncodeRecords(rs2));
      } else {
        RestIsShort(r, k, rs2);
      }
    }
  }

  lemma NoStream()
    ensures StreamRecords([], []) == [] && Records([]) == []
  {
  }

  lemma MisreadBytes()
    ensures EncodeRecord(RawRecord(5, 0, [2, 7, 1])) == [5, 5, 0, 2, 7, 1]
    ensures EncodeRecord(RawRecord(7, 1, [])) == [2, 7, 1]
  {
    var r := RawRecord(5, 0, [2, 7, 1]);
    assert r.params[1..] == [7, 1] && [7, 1][1..] == [1] && [1][1..] == [];
    assert EncodeParams([1]) == [1] && EncodeParams([7, 1]) == [7, 1] && EncodeParams(r.params) == [2, 7, 1];
    assert EncodePayload(r) == [5, 0, 2, 7, 1];
  }

  /** The rest of a cut record can read as a record nobody wrote. */
  lemma TailMisread()
    ensures var r := RawRecord(5, 0, [2, 7, 1]);
      Encodable(r) && EncodeRecord(r) == [5, 5, 0, 2, 7, 1] && Records(EncodeRecord(r)[3..]) == [RawRecord(7, 1, [])]
  {
    var r, wrong := RawRecord(5, 0, [2, 7, 1]), RawRecord(7, 1, []);
    MisreadBytes();
    assert Encodable(wrong) && Encodable(r);
    assert EncodeRecord(r)[3..] == EncodeRecord(wrong) + [];
    hide EncodeRecord, Records, Encodable;
    NoStream();
    OneRecordThen(wrong, []);
  }

  /**
   Arbitrary damage between two delimiters costs at most the frames it hits: everything
   sent before and after it is recovered, in order.
   */
  lemma DamageStaysLocal(before: seq<seq<RawRecord>>, noise: seq<byte>, after: seq<seq<RawRecord>>)
    ensures StreamRecords([], EncodeFrames(before) + noise + [0] + EncodeFrames(after))
         == Recovered(before) + StreamRecords([], noise + [0]) + Recovered(after)
  {
    var b, a := EncodeFrames(before), EncodeFrames(after);
    assert b + noise + [0] + a == b + (noise + [0] + a);
    FramingRoundTrip(before, noise + [0] + a);
    SplitAtDelimiter([], noise, a);
    FramingRoundTrip(after, []);
    assert a + [] == a;
  }
}
