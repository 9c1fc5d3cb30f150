/**
 Framing a flush. The header's usage note puts each write of a flush into a COBS frame of its
 own, and a flush writes the ring in two pieces when it wraps.
 */
module XtraceFlush {
  import opened Bytes
  import opened Ring
  import opened XtraceWire
  import opened XtraceCobs
  import opened XtraceCount
  import opened XtraceRecorder
  import opened XtraceSession
  import opened XtraceMachine
  import opened XtraceOverwrite

  /** One frame for each block. */
  function Framed(blocks: seq<seq<byte>>): seq<byte> {
    if blocks == [] then [] else Frame(blocks[0]) + Framed(blocks[1..])
  }

  /** The end of the ring's memory falls between two records, or the ring does not wrap. */
  ghost predicate WrapsBetween(buf: seq<byte>, from: nat, to: nat, rs: seq<RawRecord>)
    requires from < |buf| && to < |buf|
  {
    from <= to || to == 0 || exists i: nat :: i <= |rs| && |buf| - from == |EncodeRecords(rs[..i])|
  }

  /** Where a cut of some records falls: behind `i` of them and `k` bytes of the next. */
  lemma {:induction false} CutPoint(rs: seq<RawRecord>, n: nat) returns (i: nat, k: nat)
    requires n < |EncodeRecords(rs)|
    ensures i < |rs| && k < |EncodeRecord(rs[i])| && n == |EncodeRecords(rs[..i])| + k
    ensures EncodeRecords(rs)[..n] == EncodeRecords(rs[..i]) + EncodeRecord(rs[i])[..k]
    ensures EncodeRecords(rs)[n..] == EncodeRecord(rs[i])[k..] + EncodeRecords(rs[i + 1..])
    decreases |rs|
  {
    hide EncodeRecord;
    var e, tail := EncodeRecord(rs[0]), EncodeRecords(rs[1..]);
    assert EncodeRecords(rs) == e + tail;
    if n < |e| {
      i, k := 0, n;
      assert rs[..0] == [] && (e + tail)[..n] == e[..n] && (e + tail)[n..] == e[n..] + tail;
    } else {
      i, k := CutPoint(rs[1..], n - |e|);
      assert rs[1..][..i] == rs[..i + 1][1..] && rs[1..][i + 1..] == rs[i + 2..];
      assert EncodeRecords(rs[..i + 1]) == e + EncodeRecords(rs[1..][..i]);
      assert (e + tail)[..n] == e + tail[..n - |e|] && (e + tail)[n..] == tail[n - |e|..];
      i := i + 1;
    }
  }

  lemma {:induction false} SizesGrow(rs: seq<RawRecord>, i: nat, j: nat)
    requires i < j <= |rs|
    ensures |EncodeRecords(rs[..i])| + |EncodeRecord(rs[i])| <= |EncodeRecords(rs[..j])|
    decreases j
  {
    hide EncodeRecord, EncodeRecords;
    assert rs[..j] == rs[..j - 1] + [rs[j - 1]];
    EncodeRecordsAppend(rs[..j - 1], [rs[j - 1]]);
    OneEncoded(rs[j - 1]);
    if i < j - 1 {
      SizesGrow(rs, i, j - 1);
    }
  }

  /** A cut inside a record is no cut between records. */
  lemma InsideIsNotBetween(rs: seq<RawRecord>, i: nat, k: nat)
    requires i < |rs| && 0 < k < |EncodeRecord(rs[i])|
    ensures forall j: nat :: j <= |rs| ==> |EncodeRecords(rs[..i])| + k != |EncodeRecords(rs[..j])|
  {
    hide EncodeRecord, EncodeRecords;
    forall j: nat | j <= |rs| ensures |EncodeRecords(rs[..i])| + k != |EncodeRecords(rs[..j])| {
      if i < j {
        SizesGrow(rs, i, j);
      } else if j < i {
        SizesGrow(rs, j, i);
      }
    }
  }

  lemma OneBlock(block: seq<byte>)
    ensures Framed([]) == [] && Framed([block]) == Frame(block) + []
  {
    assert [block][1..] == [];
  }

  lemma TwoBlocks(a: seq<byte>, b: seq<byte>)
    ensures Framed([a, b]) == Frame(a) + Frame(b)
  {
    hide Frame;
    assert [a, b][1..] == [b] && [b][1..] == [];
    assert Framed([b]) == Frame(b) + [];
  }

  /** Two pieces of some records, each in a frame. */
  lemma TwoPieces(rs: seq<RawRecord>, n: nat)
    requires n < |EncodeRecords(rs)| && forall r :: r in rs ==> Encodable(r)
    ensures StreamRecords([], Frame(EncodeRecords(rs)[..n]) + Frame(EncodeRecords(rs)[n..])) == rs
      <==> (exists i: nat :: i <= |rs| && n == |EncodeRecords(rs[..i])|)
  {
    hide EncodeRecord, EncodeRecords, Frame, StreamRecords, Encodable;
    var i, k := CutPoint(rs, n);
    assert rs[..i] + [rs[i]] + rs[i + 1..] == rs;
    CutRecovered(rs[..i], rs[i], k, rs[i + 1..]);
    if k > 0 {
      InsideIsNotBetween(rs, i, k);
    }
  }

  /**
   The records of a ring, flushed to a transport that takes every write and frames each by
   itself, are all recovered exactly when the end of the ring's memory falls between two of
   them or the ring does not wrap.
   */
  lemma FlushFramed(buf: seq<byte>, from: nat, to: nat, rs: seq<RawRecord>)
    requires from < |buf| && to < |buf| && Held(buf, from, to) == EncodeRecords(rs)
    requires forall r :: r in rs ==> Encodable(r)
    ensures StreamRecords([], Framed(Blocks(buf, from, to))) == rs <==> WrapsBetween(buf, from, to, rs)
  {
    hide EncodeRecords, Frame, StreamRecords, Encodable, Framed, Records;
    NoStream();
    SplitFirstRecord(rs);
    WholeRecords(rs);
    OneBlock(EncodeRecords(rs));
    FrameDelivers(EncodeRecords(rs), []);
    assert rs + [] == rs;
    if from > to && to > 0 {
      var n := |buf| - from;
      TwoPieces(rs, n);
      assert EncodeRecords(rs)[..n] == buf[from..] && EncodeRecords(rs)[n..] == buf[..to];
      TwoBlocks(buf[from..], buf[..to]);
      assert Blocks(buf, from, to) == [buf[from..], buf[..to]];
    } else if from > to {
      assert buf[from..] + buf[..to] == buf[from..];
      assert Blocks(buf, from, to) == [buf[from..]];
    }
  }

  /** On a ring of sixteen bytes: an event, a flush of all there is, and a second event across the end of memory. */
  const CUT_OPS: seq<Op> := [Emitting(0), Drain(11), Call(5, [2, 7, 1], 0, 0)]

  const CUT_RECORD: RawRecord := RawRecord(5, 0, [2, 7, 1])

  lemma CutRecordBytes()
    ensures EncodeRecords([CUT_RECORD]) == [5, 5, 0, 2, 7, 1]
    ensures RecordSize(5, 0, |EncodeParams([2, 7, 1])|) == 6
  {
    hide EncodeRecord, Leb, EncodeRecords, EncodeParams, Header;
    MisreadBytes();
    OneEncoded(CUT_RECORD);
    HeaderAndParams(5, 0, [2, 7, 1]);
  }

  lemma FilledDrained(m: Machine)
    requires Placed(SMALL, m) && m.session == FILLED && m.from == 0
    ensures Do(SMALL, m, Drain(11)).from == 11 && Do(SMALL, m, Drain(11)).session.st == State([], 0, 0, false)
  {
    hide Tally, Leave;
    assert |FILLED.st.queue| == 11;
  }

  /** The ring is empty, and the oldest byte will be the one at 11. */
  lemma CutDrained()
    ensures var m := Do(SMALL, Do(SMALL, PowerUp(SMALL, Zeros(16), 0), CUT_OPS[0]), CUT_OPS[1]);
      m.from == 11 && m.session.st == State([], 0, 0, false)
  {
    hide Do, PowerUp;
    FilledMachine();
    FilledDrained(Do(SMALL, PowerUp(SMALL, Zeros(16), 0), Emitting(0)));
  }

  /** What the second event leaves, from an empty ring. */
  lemma CutCall(m: Machine)
    requires Placed(SMALL, m) && m.session.st == State([], 0, 0, false)
    ensures Do(SMALL, m, CUT_OPS[2]).from == m.from && Do(SMALL, m, CUT_OPS[2]).session.st.queue == [5, 5, 0, 2, 7, 1]
  {
    hide EncodeRecord, EncodeRecords, Leb, EncodeParams, Header, Store, Tally, PutBytes, StampAll;
    CutRecordBytes();
    var op := Actual(m, CUT_OPS[2]);
    assert Accepts(SMALL, m.session, op);
    AcceptStep(SMALL, m.session, op);
    assert ToRecords(Added(m.session.st, 5, [2, 7, 1], 0), 1) == [CUT_RECORD];
  }

  lemma CutBlocks(buf: seq<byte>, from: nat, to: nat)
    requires |buf| == 16 && from == 11 && to < 16 && Held(buf, from, to) == [5, 5, 0, 2, 7, 1]
    ensures to == 1 && Blocks(buf, from, to) == [[5, 5, 0, 2, 7], [1]]
  {
    var q := Held(buf, from, to);
    assert |q| == 6;
    assert to == 1 && buf[11..] == q[..5] && buf[..1] == q[5..];
    assert q[..5] == [5, 5, 0, 2, 7] && q[5..] == [1];
  }

  lemma CutMachine()
    ensures var m := DoAll(SMALL, PowerUp(SMALL, Zeros(16), 0), CUT_OPS);
      && m.from == 11 && m.mem.to == 1 && |m.mem.buf| == 16 && Held(m.mem.buf, 11, 1) == [5, 5, 0, 2, 7, 1]
      && Blocks(m.mem.buf, 11, 1) == [[5, 5, 0, 2, 7], [1]]
  {
    hide Do, PowerUp, Linked, Held, Blocks;
    var m := PowerUp(SMALL, Zeros(16), 0);
    SoundPowerUp(SMALL, Zeros(16), 0);
    SoundRun(SMALL, m, CUT_OPS);
    CutDrained();
    var n := Do(SMALL, Do(SMALL, m, CUT_OPS[0]), CUT_OPS[1]);
    CutCall(n);
    DoThrice(SMALL, m, CUT_OPS);
    var r := DoAll(SMALL, m, CUT_OPS);
    CutBlocks(r.mem.buf, r.from, r.mem.to);
  }

  /** The second event is written in two pieces, and two frames do not deliver it. */
  lemma FlushCuts()
    ensures var m := DoAll(SMALL, PowerUp(SMALL, Zeros(16), 0), CUT_OPS);
      && m.session.st.queue == EncodeRecords([CUT_RECORD])
      && Blocks(m.mem.buf, m.from, m.mem.to) == [[5, 5, 0, 2, 7], [1]]
      && StreamRecords([], Framed(Blocks(m.mem.buf, m.from, m.mem.to))) != [CUT_RECORD]
  {
    hide DoAll, PowerUp, Blocks, Held, EncodeRecords, StreamRecords, Framed, Linked, Encodable, Zeros, WrapsBetween;
    var m := DoAll(SMALL, PowerUp(SMALL, Zeros(16), 0), CUT_OPS);
    SoundPowerUp(SMALL, Zeros(16), 0);
    SoundRun(SMALL, PowerUp(SMALL, Zeros(16), 0), CUT_OPS);
    CutMachine();
    CutRecordBytes();
    TailMisread();
    NotBetween(m.mem.buf);
    FlushFramed(m.mem.buf, 11, 1, [CUT_RECORD]);
  }

  lemma NotBetween(buf: seq<byte>)
    requires |buf| == 16
    ensures !WrapsBetween(buf, 11, 1, [CUT_RECORD])
  {
    hide EncodeRecords;
    CutRecordBytes();
    NoRecords();
    assert [CUT_RECORD][..0] == [] && [CUT_RECORD][..1] == [CUT_RECORD];
  }
}
