/**
 Which byte strings the reader maps to a given list of records. The recorder's own encoding
 is the shortest, and the only one without a zero byte that pads out a value.
 */
module XtraceCanonical {
  import opened Bytes
  import opened XtraceWire

  // ----- The shortest encoding --------------------------------------------------------

  lemma {:induction false} ShortestVarint(s: seq<byte>, k: nat, lastOk: bool)
    requires k <= 4 && DecodeVarint(s, k, lastOk).Value?
    ensures |Leb(DecodeVarint(s, k, lastOk).value)| <= DecodeVarint(s, k, lastOk).size
    decreases |s|
  {
    if s[0] >= 128 {
      ShortestVarint(s[1..], k + 1, lastOk);
    }
  }

  lemma {:induction false} ShortestParams(s: seq<byte>)
    requires DecodeParams(s).Params?
    ensures |EncodeParams(DecodeParams(s).ps)| <= |s|
    decreases |s|
  {
    hide DecodeVarint, Leb;
    if s != [] {
      ShortestVarint(s, 0, true);
      var v := DecodeVarint(s, 0, true);
      ShortestParams(s[v.size..]);
      var ps := DecodeParams(s[v.size..]).ps;
      assert ([v.value] + ps)[1..] == ps;
    }
  }

  lemma ShortestPayload(s: seq<byte>, size: nat)
    requires DecodePayload(s, size).Record?
    ensures |EncodePayload(DecodePayload(s, size).rec)| <= |s|
  {
    hide DecodeVarint, Leb, EncodeParams, DecodeParams;
    var id := DecodeVarint(s, 0, true);
    ShortestVarint(s, 0, true);
    var delta := DecodeVarint(s[id.size..], 0, true);
    ShortestVarint(s[id.size..], 0, true);
    ShortestParams(s[id.size + delta.size..]);
  }

  lemma ShortestRecord(s: seq<byte>)
    requires DecodeRecord(s).Record?
    ensures |EncodeRecord(DecodeRecord(s).rec)| <= DecodeRecord(s).size
  {
    hide DecodeVarint, Leb, EncodePayload, DecodePayload;
    var len := DecodeVarint(s, 0, false);
    ShortestVarint(s, 0, false);
    var p := s[len.size..len.size + len.value];
    ShortestPayload(p, len.size + len.value);
    SizeOfPayload(p, len.size + len.value);
    LebMonotone(|EncodePayload(DecodePayload(p, len.size + len.value).rec)|, len.value);
  }

  lemma SizeOfPayload(s: seq<byte>, size: nat)
    requires DecodePayload(s, size).Record?
    ensures DecodePayload(s, size).size == size
  {
    hide DecodeVarint, DecodeParams;
  }

  /** No byte string is shorter than what the recorder writes for the records read from it. */
  lemma {:induction false} ShortestRecords(s: seq<byte>)
    ensures |EncodeRecords(Records(s))| <= |s|
    decreases |s|
  {
    hide DecodeRecord, EncodeRecord;
    if DecodeRecord(s).Record? {
      var r := DecodeRecord(s);
      ShortestRecord(s);
      ShortestRecords(s[r.size..]);
      var tail := Records(s[r.size..]);
      assert ([r.rec] + tail)[1..] == tail;
    }
  }

  // ----- The unpadded encoding --------------------------------------------------------

  /** No byte that continues a value is followed by a zero. */
  ghost predicate Unpadded(s: seq<byte>) {
    forall i :: 0 <= i < |s| - 1 && s[i] >= 128 ==> s[i + 1] != 0
  }

  lemma UnpaddedSlice(s: seq<byte>, from: nat, to: nat)
    requires Unpadded(s) && from <= to <= |s|
    ensures Unpadded(s[from..to]) && (to == |s| ==> Unpadded(s[from..]))
  {
    assert to == |s| ==> s[from..to] == s[from..];
    assert forall i :: 0 <= i < to - from ==> s[from..to][i] == s[from + i];
  }

  lemma {:induction false} ExactVarint(s: seq<byte>, k: nat, lastOk: bool)
    requires k <= 4 && DecodeVarint(s, k, lastOk).Value? && Unpadded(s)
    ensures s[..DecodeVarint(s, k, lastOk).size] == Leb(DecodeVarint(s, k, lastOk).value)
    decreases |s|
  {
    if s[0] >= 128 {
      var rest := s[1..];
      assert forall i :: 0 <= i < |rest| ==> rest[i] == s[i + 1];
      ExactVarint(rest, k + 1, lastOk);
      var v := DecodeVarint(rest, k + 1, lastOk);
      assert rest[..v.size][0] == rest[0] == s[1] != 0;
      assert s[..v.size + 1] == [s[0]] + rest[..v.size];
    } else {
      assert s[..1] == [s[0]];
    }
  }

  lemma {:induction false} ExactParams(s: seq<byte>)
    requires DecodeParams(s).Params? && Unpadded(s)
    ensures EncodeParams(DecodeParams(s).ps) == s
    decreases |s|
  {
    hide DecodeVarint, Leb, Unpadded;
    if s != [] {
      ExactVarint(s, 0, true);
      var v := DecodeVarint(s, 0, true);
      UnpaddedSlice(s, v.size, |s|);
      ExactParams(s[v.size..]);
      var ps := DecodeParams(s[v.size..]).ps;
      assert ([v.value] + ps)[1..] == ps;
      assert s == s[..v.size] + s[v.size..];
    }
  }

  lemma ExactPayload(s: seq<byte>, size: nat)
    requires DecodePayload(s, size).Record? && Unpadded(s)
    ensures EncodePayload(DecodePayload(s, size).rec) == s
  {
    hide DecodeVarint, Leb, EncodeParams, DecodeParams, Unpadded;
    var id := DecodeVarint(s, 0, true);
    ExactVarint(s, 0, true);
    UnpaddedSlice(s, id.size, |s|);
    var delta := DecodeVarint(s[id.size..], 0, true);
    ExactVarint(s[id.size..], 0, true);
    UnpaddedSlice(s, id.size + delta.size, |s|);
    ExactParams(s[id.size + delta.size..]);
    assert s == s[..id.size] + s[id.size..][..delta.size] + s[id.size + delta.size..];
  }

  lemma ExactRecord(s: seq<byte>)
    requires DecodeRecord(s).Record? && Unpadded(s)
    ensures EncodeRecord(DecodeRecord(s).rec) == s[..DecodeRecord(s).size]
  {
    hide DecodeVarint, Leb, EncodePayload, DecodePayload, Unpadded;
    var len := DecodeVarint(s, 0, false);
    ExactVarint(s, 0, false);
    var p := s[len.size..len.size + len.value];
    UnpaddedSlice(s, len.size, len.size + len.value);
    ExactPayload(p, len.size + len.value);
    SizeOfPayload(p, len.size + len.value);
    assert s[..len.size] + p == s[..len.size + len.value];
  }

  /** What is read from an unpadded string is written back as the bytes it was read from. */
  lemma {:induction false} ExactRecords(s: seq<byte>)
    requires Unpadded(s)
    ensures EncodeRecords(Records(s)) <= s
    decreases |s|
  {
    hide DecodeRecord, EncodeRecord, Unpadded;
    if DecodeRecord(s).Record? {
      var r := DecodeRecord(s);
      ExactRecord(s);
      UnpaddedSlice(s, r.size, |s|);
      ExactRecords(s[r.size..]);
      var tail := Records(s[r.size..]);
      assert ([r.rec] + tail)[1..] == tail;
      PrefixJoin(s, r.size, EncodeRecord(r.rec), EncodeRecords(tail));
    }
  }

  lemma PrefixJoin(s: seq<byte>, n: nat, a: seq<byte>, b: seq<byte>)
    requires n <= |s| && a == s[..n] && b <= s[n..]
    ensures a + b <= s
  {
    assert s == s[..n] + s[n..];
  }

  // ----- What the recorder writes is unpadded -----------------------------------------

  /** The same, and no value is left open at the end. */
  ghost predicate Closed(s: seq<byte>) {
    Unpadded(s) && (s != [] ==> s[|s| - 1] < 128)
  }

  lemma ClosedThen(a: seq<byte>, b: seq<byte>)
    requires Closed(a)
    ensures Unpadded(b) ==> Unpadded(a + b)
    ensures Closed(b) ==> Closed(a + b)
  {
    assert forall i :: |a| <= i < |a + b| ==> (a + b)[i] == b[i - |a|];
  }

  lemma {:induction false} LebClosed(n: nat)
    ensures Closed(Leb(n)) && (n > 0 ==> Leb(n)[0] != 0)
  {
    if n >= 128 {
      LebClosed(n / 128);
    }
  }

  lemma {:induction false} ParamsClosed(ps: seq<nat>)
    ensures Closed(EncodeParams(ps))
  {
    hide Leb, Closed;
    if ps == [] {
      NothingClosed();
    } else {
      LebClosed(ps[0]);
      ParamsClosed(ps[1..]);
      ClosedThen(Leb(ps[0]), EncodeParams(ps[1..]));
    }
  }

  lemma NothingClosed()
    ensures Closed([])
  {
  }

  lemma RecordClosed(r: RawRecord)
    ensures Closed(EncodeRecord(r)) && EncodeRecord(r)[0] != 0
  {
    hide Leb, Closed, EncodeParams;
    var a, b, c, n := Leb(r.eventId), Leb(r.deltaTs), EncodeParams(r.params), |EncodePayload(r)|;
    LebClosed(r.eventId);
    LebClosed(r.deltaTs);
    ParamsClosed(r.params);
    ClosedThen(a, b);
    ClosedThen(a + b, c);
    LebClosed(n);
    ClosedThen(Leb(n), a + b + c);
    assert EncodeRecord(r)[0] == Leb(n)[0];
  }

  lemma {:induction false} RecordsClosed(rs: seq<RawRecord>)
    ensures Closed(EncodeRecords(rs)) && (rs != [] ==> EncodeRecords(rs) != [] && EncodeRecords(rs)[0] != 0)
  {
    hide EncodeRecord, Closed;
    if rs == [] {
      NothingClosed();
    } else {
      RecordClosed(rs[0]);
      RecordsClosed(rs[1..]);
      ClosedThen(EncodeRecord(rs[0]), EncodeRecords(rs[1..]));
    }
  }

  /** A record cut short and followed by whole records is unpadded, because no record starts with a zero. */
  lemma CutUnpadded(r: RawRecord, k: nat, rs: seq<RawRecord>)
    requires k <= |EncodeRecord(r)|
    ensures Unpadded(EncodeRecord(r)[..k] + EncodeRecords(rs))
  {
    hide EncodeRecord, EncodeRecords;
    RecordClosed(r);
    RecordsClosed(rs);
    var part, tail := EncodeRecord(r)[..k], EncodeRecords(rs);
    assert rs == [] ==> tail == [] by {
      EncodeNothing();
    }
    forall i | 0 <= i < |part + tail| - 1 && (part + tail)[i] >= 128 ensures (part + tail)[i + 1] != 0 {
      assert i >= k ==> (part + tail)[i] == tail[i - k];
    }
  }

  lemma EncodeNothing()
    ensures EncodeRecords([]) == []
  {
  }
}
