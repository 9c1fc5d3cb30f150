/**
 Counting the records of a ring: the loop of `ring_record_count` on the memory of a circular
 buffer, when it ends, and what it returns.
 */
module XtraceCount {
  import opened Bytes
  import opened Ring
  import opened XtraceWire

  // ----- The loop ---------------------------------------------------------------------

  /** A length prefix read from the ring: the place after it, its 32-bit value, its bytes. */
  datatype Prefix = Prefix(pos: nat, len: u32, bytes: nat)

  /** `v` shifted left by `k` groups of seven bits. */
  function Shifted(v: nat, k: nat): (s: nat)
    ensures s >= v && (v == 0 ==> s == 0)
  {
    if k == 0 then v else 128 * Shifted(v, k - 1)
  }

  /** The low bits of `b` put in as group `k` of a 32-bit length. */
  function AddGroup(acc: u32, k: nat, b: byte): u32 {
    Wrap(acc + Shifted(b % 128, k))
  }

  /** At most five bytes; the value keeps its low 32 bits. */
  function PrefixAt(buf: seq<byte>, pos: nat, acc: u32, k: nat): (p: Prefix)
    requires pos < |buf| && k < 5
    ensures p.pos < |buf| && k < p.bytes <= 5
    decreases 5 - k
  {
    var next, sum := Next(pos, |buf|), AddGroup(acc, k, buf[pos]);
    if buf[pos] >= 128 && k < 4 then PrefixAt(buf, next, sum, k + 1) else Prefix(next, sum, k + 1)
  }

  /** The loop of `ring_record_count`, in 32-bit arithmetic. */
  datatype Walker = Walker(pos: nat, traversed: u32, count: u32)

  /** `len` bytes on, in 32-bit arithmetic. */
  function Skip(pos: nat, len: nat, capacity: nat): (next: nat)
    requires capacity > 0
    ensures next < capacity
  {
    Wrap(pos + len) % capacity
  }

  function WalkStep(buf: seq<byte>, w: Walker): (next: Walker)
    requires w.pos < |buf|
    ensures next.pos < |buf|
  {
    var p := PrefixAt(buf, w.pos, 0, 0);
    Walker(Skip(p.pos, p.len, |buf|), Wrap(w.traversed + Wrap(p.bytes + p.len)), Wrap(w.count + 1))
  }

  predicate WalkDone(buf: seq<byte>, to: nat, w: Walker) {
    w.pos == to || w.traversed >= |buf|
  }

  /** The loop ends within `n` more rounds. */
  predicate EndsIn(buf: seq<byte>, to: nat, w: Walker, n: nat)
    requires w.pos < |buf|
    decreases n
  {
    WalkDone(buf, to, w) || (n > 0 && EndsIn(buf, to, WalkStep(buf, w), n - 1))
  }

  function WalkFrom(buf: seq<byte>, to: nat, w: Walker, n: nat): u32
    requires w.pos < |buf| && EndsIn(buf, to, w, n)
    decreases n
  {
    if WalkDone(buf, to, w) then w.count else WalkFrom(buf, to, WalkStep(buf, w), n - 1)
  }

  lemma WalkOnce(buf: seq<byte>, to: nat, w: Walker, n: nat)
    requires w.pos < |buf| && EndsIn(buf, to, w, n)
    ensures if WalkDone(buf, to, w) then WalkFrom(buf, to, w, n) == w.count
            else n > 0 && EndsIn(buf, to, WalkStep(buf, w), n - 1)
                 && WalkFrom(buf, to, w, n) == WalkFrom(buf, to, WalkStep(buf, w), n - 1)
  {
    hide WalkStep, WalkDone;
  }

  // ----- Rings of whole records --------------------------------------------------------

  lemma SplitFirstRecord(rs: seq<RawRecord>)
    ensures EncodeRecords([]) == []
    ensures rs != [] ==>
      EncodeRecords(rs) == Leb(|EncodePayload(rs[0])|) + (EncodePayload(rs[0]) + EncodeRecords(rs[1..]))
    ensures rs != [] ==> EncodeRecords(rs) != []
  {
    hide Leb, EncodePayload;
    if rs != [] {
      var p := EncodePayload(rs[0]);
      assert Leb(|p|) + p + EncodeRecords(rs[1..]) == Leb(|p|) + (p + EncodeRecords(rs[1..]));
    }
  }

  lemma LebStep(v: nat)
    ensures Leb(v) == [v % 128 + if v >= 128 then 128 else 0] + if v >= 128 then Leb(v / 128) else []
    ensures v >= 128 <==> v / 128 != 0
  {
  }

  /** `k` groups of the prefix `Leb(len)` have been added up in `acc`; `Leb(left)` remains. */
  ghost predicate PrefixMiddle(len: nat, acc: u32, k: nat, left: nat) {
    k < 5 && k <= |Leb(len)| && Leb(len)[k..] == Leb(left) && len == acc + Shifted(left, k) && acc <= len
  }

  lemma PrefixStart(len: nat)
    ensures |Leb(len)| >= 1 && PrefixMiddle(len, 0, 0, len)
    ensures forall cap: nat, from: nat :: from < cap ==> Advance(from, 0, cap) == from
  {
  }

  lemma {:induction false} ShiftedSplit(v: nat, k: nat)
    ensures Shifted(v, k) == Shifted(v % 128, k) + Shifted(v / 128, k + 1)
  {
    if k > 0 {
      ShiftedSplit(v, k - 1);
    }
  }

  lemma ShiftedFar(v: nat)
    requires v > 0
    ensures Shifted(v, 5) > 0x1_0000_0000
  {
    assert Shifted(v, 1) == 128 * v && Shifted(v, 2) == 128 * Shifted(v, 1) && Shifted(v, 3) == 128 * Shifted(v, 2);
    assert Shifted(v, 4) == 128 * Shifted(v, 3) && Shifted(v, 5) == 128 * Shifted(v, 4);
  }

  /** One more group of the prefix, under the wrapping arithmetic of `ring_record_count`. */
  lemma PrefixGroup(len: nat, acc: u32, k: nat, left: nat)
    requires len < 0x1_0000_0000 && PrefixMiddle(len, acc, k, left)
    ensures k < |Leb(len)|
    ensures var b := Leb(len)[k]; var next := AddGroup(acc, k, b);
      && (b < 128 ==> next == len && k + 1 == |Leb(len)|)
      && (b >= 128 ==> k + 1 < 5 && PrefixMiddle(len, next, k + 1, left / 128))
  {
    hide Leb, Shifted, Wrap;
    LebStep(left);
    assert Leb(len)[k..][0] == Leb(len)[k] && Leb(len)[k..][1..] == Leb(len)[k + 1..];
    ShiftedSplit(left, k);
    WrapSmall(acc + Shifted(left % 128, k));
    if left >= 128 && k == 4 {
      ShiftedFar(left / 128);
    }
  }

  /** A prefix the recorder wrote is read back from the ring, wherever it wraps. */
  lemma {:induction false} PrefixWhole(buf: seq<byte>, from: nat, to: nat, len: nat, acc: u32, k: nat, left: nat)
    requires from < |buf| && to < |buf| && len < 0x1_0000_0000 && Leb(len) <= Held(buf, from, to)
    requires PrefixMiddle(len, acc, k, left)
    ensures PrefixAt(buf, Advance(from, k, |buf|), acc, k) == Prefix(Advance(from, |Leb(len)|, |buf|), len, |Leb(len)|)
    decreases 5 - k
  {
    hide Leb, Held, PrefixMiddle, Advance, AddGroup, Next;
    PrefixInside(len, acc, k, left);
    PrefixGroup(len, acc, k, left);
    PeekHeld(buf, from, to, k);
    var b := buf[Advance(from, k, |buf|)];
    assert b == Leb(len)[k];
    if b >= 128 {
      PrefixWhole(buf, from, to, len, AddGroup(acc, k, b), k + 1, left / 128);
    }
  }

  lemma PrefixInside(len: nat, acc: u32, k: nat, left: nat)
    requires PrefixMiddle(len, acc, k, left)
    ensures k < 5 && k <= |Leb(len)|
  {
  }

  lemma StepOf(buf: seq<byte>, w: Walker, p: Prefix)
    requires w.pos < |buf| && p == PrefixAt(buf, w.pos, 0, 0)
    requires p.pos + p.len < 0x1_0000_0000 && w.traversed + p.bytes + p.len < 0x1_0000_0000
    requires w.count + 1 < 0x1_0000_0000
    ensures WalkStep(buf, w) == Walker((p.pos + p.len) % |buf|, w.traversed + p.bytes + p.len, w.count + 1)
  {
    hide PrefixAt, Wrap;
    WrapSmall(p.pos + p.len);
    WrapSmall(p.bytes + p.len);
    WrapSmall(w.traversed + p.bytes + p.len);
    WrapSmall(w.count + 1);
  }

  /** Where the loop stands after a whole record. */
  lemma WholeLanding(buf: seq<byte>, from: nat, to: nat, r: RawRecord, rest: seq<byte>)
    requires from < |buf| <= 0x8000_0000 && to < |buf| && Held(buf, from, to) == EncodeRecord(r) + rest
    ensures var n, lead := |EncodePayload(r)|, |Leb(|EncodePayload(r)|)|;
      && lead + n == |EncodeRecord(r)| && n < 0x1_0000_0000
      && PrefixAt(buf, from, 0, 0) == Prefix(Advance(from, lead, |buf|), n, lead)
      && Held(buf, (Advance(from, lead, |buf|) + n) % |buf|, to) == rest
  {
    hide Leb, Held, EncodePayload, EncodeRecord, PrefixAt, Advance, PrefixMiddle;
    var p := EncodePayload(r);
    var head := Leb(|p|);
    RecordParts(r);
    AddAssoc(head, p, rest);
    FrontOf(head, p + rest);
    PrefixStart(|p|);
    HeldFits(buf, from, to);
    PrefixWhole(buf, from, to, |p|, 0, 0, |p|);
    DropTwo(buf, from, to, head, p, rest);
  }

  lemma RecordParts(r: RawRecord)
    ensures EncodeRecord(r) == Leb(|EncodePayload(r)|) + EncodePayload(r)
  {
    hide Leb, EncodePayload;
  }

  lemma FrontOf(a: seq<byte>, b: seq<byte>)
    ensures a <= a + b && (a + b)[|a|..] == b
  {
  }

  lemma HeldFits(buf: seq<byte>, from: nat, to: nat)
    requires from < |buf| && to < |buf|
    ensures |Held(buf, from, to)| < |buf|
  {
  }

  lemma DropTwo(buf: seq<byte>, from: nat, to: nat, a: seq<byte>, b: seq<byte>, rest: seq<byte>)
    requires from < |buf| && to < |buf| && Held(buf, from, to) == a + (b + rest)
    ensures |a| + |b| < |buf| && Held(buf, (Advance(from, |a|, |buf|) + |b|) % |buf|, to) == rest
  {
    hide Held, Advance;
    HeldFits(buf, from, to);
    DropHeld(buf, from, to, |a|);
    FrontOf(a, b + rest);
    DropHeld(buf, Advance(from, |a|, |buf|), to, |b|);
    FrontOf(b, rest);
    AdvanceIsModulo(Advance(from, |a|, |buf|), |b|, |buf|);
  }

  /** One round of the count loop over a whole record. */
  lemma WholeStep(buf: seq<byte>, to: nat, w: Walker, r: RawRecord, rest: seq<byte>)
    requires w.pos < |buf| <= 0x8000_0000 && to < |buf| && Held(buf, w.pos, to) == EncodeRecord(r) + rest
    requires w.traversed + |EncodeRecord(r) + rest| < |buf| && w.count <= w.traversed
    ensures var next := WalkStep(buf, w);
      && Held(buf, next.pos, to) == rest && next.traversed == w.traversed + |EncodeRecord(r)|
      && next.count == w.count + 1
      && !WalkDone(buf, to, w)
  {
    hide Leb, Held, EncodePayload, EncodeRecord, PrefixAt, WalkStep;
    HeldNothing(buf, w.pos, to);
    WholeLanding(buf, w.pos, to, r, rest);
    var n, lead := |EncodePayload(r)|, |Leb(|EncodePayload(r)|)|;
    StepOf(buf, w, Prefix(Advance(w.pos, lead, |buf|), n, lead));
  }

  lemma HeldNothing(buf: seq<byte>, from: nat, to: nat)
    requires from < |buf| && to < |buf|
    ensures Held(buf, from, to) == [] <==> from == to
  {
  }

  /** On a ring of whole records the loop ends, and counts them. */
  lemma {:induction false} WholeRecordsCount(buf: seq<byte>, to: nat, w: Walker, rs: seq<RawRecord>)
    requires w.pos < |buf| <= 0x8000_0000 && to < |buf| && Held(buf, w.pos, to) == EncodeRecords(rs)
    requires w.traversed + |EncodeRecords(rs)| < |buf| && w.count <= w.traversed
    ensures EndsIn(buf, to, w, |rs|) && WalkFrom(buf, to, w, |rs|) == w.count + |rs|
    decreases |rs|
  {
    hide Held, EncodeRecord, WalkStep, WalkDone;
    HeldNothing(buf, w.pos, to);
    if rs == [] {
      AtEnd(buf, to, w);
    } else {
      assert EncodeRecords(rs) == EncodeRecord(rs[0]) + EncodeRecords(rs[1..]);
      WholeStep(buf, to, w, rs[0], EncodeRecords(rs[1..]));
      WholeRecordsCount(buf, to, WalkStep(buf, w), rs[1..]);
    }
  }

  lemma AtEnd(buf: seq<byte>, to: nat, w: Walker)
    ensures w.pos == to ==> WalkDone(buf, to, w)
  {
  }

  // ----- When the loop ends -----------------------------------------------------------

  /** What one round adds to the distance travelled, in 32-bit arithmetic. */
  function Stride(buf: seq<byte>, pos: nat): u32
    requires pos < |buf|
  {
    var p := PrefixAt(buf, pos, 0, 0);
    Wrap(p.bytes + p.len)
  }

  /** Every length the loop may meet moves it forward without wrapping the distance. */
  ghost predicate AllForward(buf: seq<byte>, to: nat) {
    forall pos: nat :: pos < |buf| && pos != to ==> 1 <= Stride(buf, pos) <= 0x1_0000_0000 - |buf|
  }

  lemma RoundForward(buf: seq<byte>, w: Walker)
    requires w.pos < |buf| && w.traversed < |buf| && 1 <= Stride(buf, w.pos) <= 0x1_0000_0000 - |buf|
    ensures WalkStep(buf, w).traversed == w.traversed + Stride(buf, w.pos)
  {
    hide PrefixAt, Skip, Wrap;
    WrapSmall(w.traversed + Stride(buf, w.pos));
  }

  /** Such a ring is counted from any place, inside a record or not, in at most one round a byte. */
  lemma {:induction false} ForwardEnds(buf: seq<byte>, to: nat, w: Walker)
    requires w.pos < |buf| && w.traversed <= |buf| && AllForward(buf, to)
    ensures EndsIn(buf, to, w, |buf| - w.traversed)
    decreases |buf| - w.traversed
  {
    hide WalkStep, Stride;
    if !WalkDone(buf, to, w) {
      RoundForward(buf, w);
      var next := WalkStep(buf, w);
      if next.traversed <= |buf| {
        ForwardEnds(buf, to, next);
        EndsLater(buf, to, next, |buf| - next.traversed, |buf| - w.traversed - 1);
      } else {
        assert WalkDone(buf, to, next);
      }
    }
  }

  lemma {:induction false} EndsLater(buf: seq<byte>, to: nat, w: Walker, n: nat, m: nat)
    requires w.pos < |buf| && n <= m && EndsIn(buf, to, w, n)
    ensures EndsIn(buf, to, w, m)
    decreases n
  {
    hide WalkStep, WalkDone;
    if !WalkDone(buf, to, w) {
      EndsLater(buf, to, WalkStep(buf, w), n - 1, m - 1);
    }
  }

  /** The loop after some rounds, if nothing stops it. */
  function Rounds(buf: seq<byte>, w: Walker, k: nat): (v: Walker)
    requires w.pos < |buf|
    ensures v.pos < |buf|
    decreases k
  {
    if k == 0 then w else WalkStep(buf, Rounds(buf, w, k - 1))
  }

  /** Two rounds that start alike, the count aside. */
  predicate Alike(a: Walker, b: Walker) {
    a.pos == b.pos && a.traversed == b.traversed
  }

  lemma StepAlike(buf: seq<byte>, to: nat, a: Walker, b: Walker)
    requires a.pos < |buf| && b.pos < |buf| && Alike(a, b)
    ensures Alike(WalkStep(buf, a), WalkStep(buf, b)) && (WalkDone(buf, to, a) <==> WalkDone(buf, to, b))
  {
    hide PrefixAt, Wrap, Skip;
  }

  lemma {:induction false} RoundsShift(buf: seq<byte>, w: Walker, k: nat)
    requires w.pos < |buf|
    ensures Rounds(buf, WalkStep(buf, w), k) == Rounds(buf, w, k + 1)
    decreases k
  {
    hide WalkStep;
    if k > 0 {
      RoundsShift(buf, w, k - 1);
    }
  }

  /** One of the first `n + 1` places stops the loop. */
  ghost predicate StopsWithin(buf: seq<byte>, to: nat, w: Walker, n: nat)
    requires w.pos < |buf|
  {
    exists k: nat :: k <= n && WalkDone(buf, to, Rounds(buf, w, k))
  }

  lemma StopsNow(buf: seq<byte>, to: nat, w: Walker, n: nat)
    requires w.pos < |buf|
    ensures WalkDone(buf, to, w) ==> StopsWithin(buf, to, w, n)
    ensures !WalkDone(buf, to, w) ==> !StopsWithin(buf, to, w, 0)
  {
    hide WalkStep, WalkDone;
    assert Rounds(buf, w, 0) == w;
  }

  lemma StopsLater(buf: seq<byte>, to: nat, w: Walker, n: nat)
    requires w.pos < |buf| && n > 0 && !WalkDone(buf, to, w)
    ensures StopsWithin(buf, to, w, n) <==> StopsWithin(buf, to, WalkStep(buf, w), n - 1)
  {
    hide WalkStep, WalkDone;
    var next := WalkStep(buf, w);
    forall k: nat | k < n ensures Rounds(buf, next, k) == Rounds(buf, w, k + 1) {
      RoundsShift(buf, w, k);
    }
    if k: nat :| k <= n - 1 && WalkDone(buf, to, Rounds(buf, next, k)) {
      assert WalkDone(buf, to, Rounds(buf, w, k + 1));
    }
    if k: nat :| k <= n && WalkDone(buf, to, Rounds(buf, w, k)) {
      assert k != 0 by {
        assert Rounds(buf, w, 0) == w;
      }
      assert Rounds(buf, next, k - 1) == Rounds(buf, w, k);
    }
  }

  lemma {:induction false} EndsMeaning(buf: seq<byte>, to: nat, w: Walker, n: nat)
    requires w.pos < |buf|
    ensures EndsIn(buf, to, w, n) <==> StopsWithin(buf, to, w, n)
    decreases n
  {
    hide WalkStep, WalkDone, StopsWithin;
    StopsNow(buf, to, w, n);
    if n > 0 && !WalkDone(buf, to, w) {
      StopsLater(buf, to, w, n);
      EndsMeaning(buf, to, WalkStep(buf, w), n - 1);
    }
  }

  /** A place met twice before the loop has ended. */
  ghost predicate Repeats(buf: seq<byte>, to: nat, w: Walker, i: nat, j: nat)
    requires w.pos < |buf|
  {
    && i < j && Alike(Rounds(buf, w, i), Rounds(buf, w, j))
    && forall k: nat :: k < j ==> !WalkDone(buf, to, Rounds(buf, w, k))
  }

  /** Then every later round is like one of those before it. */
  lemma {:induction false} RepeatsForever(buf: seq<byte>, to: nat, w: Walker, i: nat, j: nat, k: nat)
    requires w.pos < |buf| && Repeats(buf, to, w, i, j)
    ensures exists m: nat :: m < j && Alike(Rounds(buf, w, k), Rounds(buf, w, m))
    ensures !WalkDone(buf, to, Rounds(buf, w, k))
    decreases k
  {
    hide WalkStep, WalkDone;
    if k < j {
      assert Alike(Rounds(buf, w, k), Rounds(buf, w, k));
    } else {
      RepeatsForever(buf, to, w, i, j, k - 1);
      var m: nat :| m < j && Alike(Rounds(buf, w, k - 1), Rounds(buf, w, m));
      StepAlike(buf, to, Rounds(buf, w, k - 1), Rounds(buf, w, m));
      var next := if m + 1 < j then m + 1 else i;
      assert Alike(Rounds(buf, w, k), Rounds(buf, w, next));
      StepAlike(buf, to, Rounds(buf, w, k), Rounds(buf, w, next));
    }
  }

  /** Among more numbers than values two are equal. */
  lemma {:induction false} Pigeonhole(s: seq<nat>, n: nat) returns (i: nat, j: nat)
    requires |s| > n && forall k :: 0 <= k < |s| ==> s[k] < n
    ensures i < j < |s| && s[i] == s[j]
    decreases n
  {
    var last := s[|s| - 1];
    if k: nat :| k < |s| - 1 && s[k] == last {
      i, j := k, |s| - 1;
    } else {
      var t := seq(|s| - 1, k requires 0 <= k < |s| - 1 => if s[k] == n - 1 then last else s[k]);
      i, j := Pigeonhole(t, n - 1);
    }
  }

  /** Place and distance as one number. */
  function Place(buf: seq<byte>, w: Walker): (p: nat)
    requires w.pos < |buf|
  {
    MulMonotone(|buf|, 0, w.pos);
    |buf| * w.pos + w.traversed
  }

  lemma PlaceSmall(buf: seq<byte>, w: Walker)
    requires w.pos < |buf| && w.traversed < |buf|
    ensures Place(buf, w) < |buf| * |buf|
  {
    MulMonotone(|buf|, w.pos, |buf| - 1);
    assert |buf| * |buf| == |buf| * (|buf| - 1) + |buf|;
  }

  lemma PlaceTells(buf: seq<byte>, a: Walker, b: Walker)
    requires a.pos < |buf| && b.pos < |buf| && a.traversed < |buf| && b.traversed < |buf|
    requires Place(buf, a) == Place(buf, b)
    ensures Alike(a, b)
  {
    RemainderOf(Place(buf, a), |buf|, a.pos, a.traversed);
    RemainderOf(Place(buf, b), |buf|, b.pos, b.traversed);
    SmallMultiple(a.pos - b.pos, |buf|);
  }

  /** More rounds than places meet one twice. */
  lemma LongWalkRepeats(buf: seq<byte>, to: nat, w: Walker) returns (i: nat, j: nat)
    requires w.pos < |buf| && !EndsIn(buf, to, w, |buf| * |buf|)
    ensures Repeats(buf, to, w, i, j)
  {
    hide WalkStep, Rounds, EndsIn;
    var n := |buf| * |buf|;
    EndsMeaning(buf, to, w, n);
    var s := seq(n + 1, k requires 0 <= k <= n => Place(buf, Rounds(buf, w, k)));
    forall k: nat | k <= n ensures s[k] < n && Rounds(buf, w, k).traversed < |buf| {
      assert !WalkDone(buf, to, Rounds(buf, w, k));
      PlaceSmall(buf, Rounds(buf, w, k));
    }
    i, j := Pigeonhole(s, n);
    assert s[i] < n && s[j] < n;
    PlaceTells(buf, Rounds(buf, w, i), Rounds(buf, w, j));
    forall k: nat | k < j ensures !WalkDone(buf, to, Rounds(buf, w, k)) {
      assert s[k] < n;
    }
  }

  /** The loop ends exactly when it ends within the square of the capacity, and exactly when it meets no place twice. */
  lemma EndsIff(buf: seq<byte>, to: nat, w: Walker)
    requires w.pos < |buf|
    ensures (exists n: nat :: EndsIn(buf, to, w, n)) <==> EndsIn(buf, to, w, |buf| * |buf|)
    ensures (exists n: nat :: EndsIn(buf, to, w, n)) <==> !exists i: nat, j: nat :: Repeats(buf, to, w, i, j)
  {
    hide Rounds, EndsIn, Repeats;
    if n: nat :| EndsIn(buf, to, w, n) {
      EndsMeaning(buf, to, w, n);
      var k: nat :| k <= n && WalkDone(buf, to, Rounds(buf, w, k));
      forall i: nat, j: nat ensures !Repeats(buf, to, w, i, j) {
        if Repeats(buf, to, w, i, j) {
          RepeatsForever(buf, to, w, i, j, k);
        }
      }
    }
    if !EndsIn(buf, to, w, |buf| * |buf|) {
      var i, j := LongWalkRepeats(buf, to, w);
    }
  }

  /** A length whose record is 2^32 bytes long leads back to where it was read. */
  lemma {:induction false} ReturnsForever(buf: seq<byte>, to: nat, w: Walker, n: nat)
    requires w.pos < |buf| < 0x1_0000_0000 && w.pos != to && w.traversed < |buf|
    requires var p := PrefixAt(buf, w.pos, 0, 0); p.bytes + p.len == 0x1_0000_0000 && w.pos + p.bytes < |buf|
    ensures !EndsIn(buf, to, w, n)
    decreases n
  {
    var p := PrefixAt(buf, w.pos, 0, 0);
    PrefixGoesOn(buf, w.pos, 0, 0);
    hide PrefixAt, Skip, Wrap;
    Whole32(w.pos, p.pos, p.len, |buf|);
    Whole32(0, p.bytes, p.len, |buf|);
    WrapSmall(w.traversed);
    var next := WalkStep(buf, w);
    assert next.pos == w.pos && next.traversed == w.traversed;
    if n > 0 {
      ReturnsForever(buf, to, next, n - 1);
    }
  }

  lemma Whole32(start: nat, pos: nat, len: nat, capacity: nat)
    requires pos + len == start + 0x1_0000_0000 && start < capacity < 0x1_0000_0000
    ensures Skip(pos, len, capacity) == start && Wrap(pos + len) == start
  {
    RemainderOf(pos + len, 0x1_0000_0000, 1, start);
    RemainderOf(start, capacity, 0, start);
  }

  lemma {:induction false} PrefixGoesOn(buf: seq<byte>, pos: nat, acc: u32, k: nat)
    requires pos < |buf| && k < 5 && pos + PrefixAt(buf, pos, acc, k).bytes - k < |buf|
    ensures PrefixAt(buf, pos, acc, k).pos == pos + PrefixAt(buf, pos, acc, k).bytes - k
    decreases 5 - k
  {
    hide AddGroup;
    if buf[pos] >= 128 && k < 4 {
      PrefixGoesOn(buf, Next(pos, |buf|), AddGroup(acc, k, buf[pos]), k + 1);
    }
  }

  // ----- Memory that is always counted ------------------------------------------------

  lemma SmallSize(v: u32)
    ensures 1 <= |Leb(v)| <= 5
  {
    PowFacts();
    LebSize(v, 5);
  }

  lemma OneByte(n: nat)
    requires n < 128
    ensures Leb(n) == [n]
  {
  }

  /** The memory of a ring and the place of its next byte. */
  datatype Memory = Memory(buf: seq<byte>, to: nat)

  /** Bytes put in one after the other. */
  function Store(m: Memory, x: seq<byte>): (r: Memory)
    requires m.to < |m.buf|
    ensures r.to < |r.buf| == |m.buf|
    decreases |x|
  {
    if x == [] then m else Store(Memory(m.buf[m.to := x[0]], Next(m.to, |m.buf|)), x[1..])
  }

  lemma StoreNothing(m: Memory)
    requires m.to < |m.buf|
    ensures Store(m, []) == m
  {
  }

  lemma StoreOne(m: Memory, b: byte)
    requires m.to < |m.buf|
    ensures Store(m, [b]) == Memory(m.buf[m.to := b], Next(m.to, |m.buf|))
  {
    assert [b][1..] == [];
  }

  lemma {:induction false} StoreAppend(m: Memory, a: seq<byte>, b: seq<byte>)
    requires m.to < |m.buf|
    ensures Store(m, a + b) == Store(Store(m, a), b)
    decreases |a|
  {
    hide Next;
    if a == [] {
      assert a + b == b;
    } else {
      assert (a + b)[1..] == a[1..] + b;
      StoreAppend(Memory(m.buf[m.to := a[0]], Next(m.to, |m.buf|)), a[1..], b);
    }
  }

  /** Everything in memory, the byte to be overwritten next first and the newest last. */
  function Oldest(m: Memory): (s: seq<byte>)
    requires m.to < |m.buf|
    ensures |s| == |m.buf|
  {
    m.buf[m.to..] + m.buf[..m.to]
  }

  /** New bytes push out the oldest. */
  function Pushed(s: seq<byte>, x: seq<byte>): (r: seq<byte>)
    ensures |r| == |s|
  {
    (s + x)[|x|..]
  }

  lemma PutPushes(m: Memory, b: byte)
    requires m.to < |m.buf|
    ensures Oldest(Memory(m.buf[m.to := b], Next(m.to, |m.buf|))) == Pushed(Oldest(m), [b])
  {
    var r := Memory(m.buf[m.to := b], Next(m.to, |m.buf|));
    forall i | 0 <= i < |m.buf| ensures Oldest(r)[i] == Pushed(Oldest(m), [b])[i] {
    }
  }

  lemma PushedTwice(s: seq<byte>, a: seq<byte>, b: seq<byte>)
    ensures Pushed(Pushed(s, a), b) == Pushed(s, a + b)
  {
    assert s + (a + b) == s + a + b;
    var t := s + a;
    assert t == t[..|a|] + t[|a|..];
    assert t + b == t[..|a|] + (t[|a|..] + b);
  }

  lemma {:induction false} StorePushes(m: Memory, x: seq<byte>)
    requires m.to < |m.buf|
    ensures Oldest(Store(m, x)) == Pushed(Oldest(m), x)
    decreases |x|
  {
    hide Oldest, Next, Pushed;
    if x == [] {
      PushedNothing(Oldest(m));
    } else {
      var next := Memory(m.buf[m.to := x[0]], Next(m.to, |m.buf|));
      PutPushes(m, x[0]);
      StorePushes(next, x[1..]);
      PushedTwice(Oldest(m), [x[0]], x[1..]);
      assert [x[0]] + x[1..] == x;
    }
  }

  lemma PushedNothing(s: seq<byte>)
    ensures Pushed(s, []) == s
  {
  }

  /**
   A value that, met as a length, moves the loop forward: one so small that the distance
   cannot wrap, or so large that it wraps to at most four.
   */
  predicate Harmless(capacity: nat, v: nat) {
    v + capacity + 5 <= 0x1_0000_0000 || 0xFFFF_FFFB < v < 0x1_0000_0000
  }

  /** From every place of memory a harmless value is read. */
  ghost predicate Tame(s: seq<byte>) {
    forall i: nat :: i < |s| ==> ReadsHarmless(|s|, s[i..])
  }

  ghost predicate ReadsHarmless(capacity: nat, s: seq<byte>) {
    exists v: nat :: Harmless(capacity, v) && Leb(v) <= s
  }

  /** What remains of a written value, from any of its bytes on, is a written value too. */
  lemma {:induction false} LebTail(capacity: nat, v: nat, k: nat) returns (u: nat)
    requires capacity <= 0x8000_0000 && Harmless(capacity, v) && k < |Leb(v)|
    ensures Harmless(capacity, u) && Leb(u) == Leb(v)[k..]
    decreases k
  {
    if k == 0 {
      u := v;
    } else {
      assert Leb(v)[1..] == Leb(v / 128) && Leb(v)[k..] == Leb(v)[1..][k - 1..];
      u := LebTail(capacity, v / 128, k - 1);
    }
  }

  lemma TamePush(s: seq<byte>, v: nat)
    requires Tame(s) && |s| <= 0x8000_0000 && Harmless(|s|, v)
    ensures Tame(Pushed(s, Leb(v)))
  {
    hide Leb, Harmless;
    var x, r := Leb(v), Pushed(s, Leb(v));
    forall i: nat | i < |r| ensures ReadsHarmless(|r|, r[i..]) {
      var k := i + |x|;
      assert r[i..] == (s + x)[k..];
      if k < |s| {
        assert ReadsHarmless(|s|, s[k..]);
        var u: nat :| Harmless(|s|, u) && Leb(u) <= s[k..];
        assert (s + x)[k..] == s[k..] + x;
      } else {
        var u := LebTail(|s|, v, k - |s|);
        assert (s + x)[k..] == x[k - |s|..];
      }
    }
  }

  lemma {:induction false} TameParams(s: seq<byte>, vs: seq<nat>)
    requires Tame(s) && |s| <= 0x8000_0000 && forall v :: v in vs ==> Harmless(|s|, v)
    ensures Tame(Pushed(s, EncodeParams(vs)))
    decreases |vs|
  {
    hide Leb, Harmless, Tame, Pushed;
    if vs == [] {
      PushedNothing(s);
    } else {
      TamePush(s, vs[0]);
      TameParams(Pushed(s, Leb(vs[0])), vs[1..]);
      PushedTwice(s, Leb(vs[0]), EncodeParams(vs[1..]));
    }
  }

  /** The values a record is written as, its length first. */
  function ValuesOf(r: RawRecord): seq<nat> {
    [|EncodePayload(r)|, r.eventId, r.deltaTs] + r.params
  }

  lemma RecordIsValues(r: RawRecord)
    ensures EncodeRecord(r) == EncodeParams(ValuesOf(r))
  {
    hide Leb;
    var vs := ValuesOf(r);
    var n := |EncodePayload(r)|;
    assert vs[1..] == [r.eventId, r.deltaTs] + r.params && vs[1..][1..] == [r.deltaTs] + r.params;
    assert vs[1..][1..][1..] == r.params;
    var a, b, c, d := Leb(|EncodePayload(r)|), Leb(r.eventId), Leb(r.deltaTs), EncodeParams(r.params);
    assert EncodeParams([r.deltaTs] + r.params) == c + d;
    assert EncodeParams([r.eventId, r.deltaTs] + r.params) == b + (c + d);
    assert EncodeParams(vs) == a + (b + (c + d));
    assert EncodeRecord(r) == a + (b + c + d);
    assert b + c + d == b + (c + d);
  }

  lemma {:induction false} TameRecords(s: seq<byte>, rs: seq<RawRecord>)
    requires Tame(s) && |s| <= 0x8000_0000 && forall r, v :: r in rs && v in ValuesOf(r) ==> Harmless(|s|, v)
    ensures Tame(Pushed(s, EncodeRecords(rs)))
    decreases |rs|
  {
    hide Leb, Harmless, Tame, Pushed, EncodeRecord, ValuesOf, EncodeParams;
    if rs == [] {
      PushedNothing(s);
    } else {
      RecordIsValues(rs[0]);
      TameParams(s, ValuesOf(rs[0]));
      TameRecords(Pushed(s, EncodeRecord(rs[0])), rs[1..]);
      PushedTwice(s, EncodeRecord(rs[0]), EncodeRecords(rs[1..]));
    }
  }

  /** Memory cleared to zeros is tame. */
  lemma ClearedIsTame(s: seq<byte>)
    requires |s| <= 0x8000_0000 && forall i :: 0 <= i < |s| ==> s[i] == 0
    ensures Tame(s)
  {
    OneByte(0);
    forall i: nat | i < |s| ensures ReadsHarmless(|s|, s[i..]) {
      assert Harmless(|s|, 0) && Leb(0) <= s[i..];
    }
  }

  /** A harmless length moves the loop forward. */
  lemma HarmlessStride(capacity: nat, v: nat)
    requires 16 <= capacity && Harmless(capacity, v) && capacity <= 0x8000_0000
    ensures v < 0x1_0000_0000 && 1 <= Wrap(|Leb(v)| + v) <= 0x1_0000_0000 - capacity
  {
    hide Leb, Wrap;
    SmallSize(v);
    if v > 0xFFFF_FFFB {
      FiveBytes(v);
      RemainderOf(5 + v, 0x1_0000_0000, 1, 5 + v - 0x1_0000_0000);
      WrapIs(5 + v);
    } else {
      WrapSmall(|Leb(v)| + v);
    }
  }

  lemma WrapIs(x: nat)
    ensures Wrap(x) == x % 0x1_0000_0000
  {
  }

  lemma FiveBytes(v: u32)
    requires v >= 0x1000_0000
    ensures |Leb(v)| == 5
  {
    SmallSize(v);
    LebMonotone(0x1000_0000, v);
    assert Leb(1) == [1];
    assert Leb(0x20_0000) == [128] + Leb(0x4000) && Leb(0x1000_0000) == [128] + Leb(0x20_0000);
    assert Leb(0x4000) == [128] + Leb(0x80) && Leb(0x80) == [128] + Leb(1);
  }

  /** Where a place of memory comes in the order of age. */
  lemma HeldIsOldest(buf: seq<byte>, pos: nat, to: nat) returns (i: nat)
    requires pos < |buf| && to < |buf| && pos != to
    ensures i < |buf| && Held(buf, pos, to) == Oldest(Memory(buf, to))[i..]
  {
    i := if pos > to then pos - to else |buf| - to + pos;
    var s := Oldest(Memory(buf, to));
    assert s[i..] == Held(buf, pos, to);
  }

  /** A ring in tame memory is counted from any place: no call can hang on it. */
  lemma TameForward(buf: seq<byte>, to: nat)
    requires to < |buf| && 16 <= |buf| <= 0x8000_0000 && Tame(Oldest(Memory(buf, to)))
    ensures AllForward(buf, to)
  {
    hide Leb, Held, Oldest, PrefixAt, PrefixMiddle, Harmless, Wrap, Advance;
    forall pos: nat | pos < |buf| && pos != to ensures 1 <= Stride(buf, pos) <= 0x1_0000_0000 - |buf| {
      var i := HeldIsOldest(buf, pos, to);
      var s := Oldest(Memory(buf, to));
      assert ReadsHarmless(|s|, s[i..]);
      var v: nat :| Harmless(|buf|, v) && Leb(v) <= s[i..];
      HarmlessStride(|buf|, v);
      PrefixStart(v);
      PrefixWhole(buf, pos, to, v, 0, 0, v);
    }
  }

  // ----- Memory that hangs ------------------------------------------------------------

  /** From the start of the ring `back` zeros, each a step forward, and then a length that leads back over them. */
  ghost predicate LeadsBack(buf: seq<byte>, from: nat, to: nat, back: nat) {
    && from + back + 5 == to < |buf| <= 0x8000_0000
    && (forall i :: from <= i < from + back ==> buf[i] == 0)
    && Leb(0xFFFF_FFFB - back) == buf[from + back..to]
  }

  lemma ZeroStride(buf: seq<byte>, pos: nat)
    requires pos + 1 < |buf| && buf[pos] == 0
    ensures PrefixAt(buf, pos, 0, 0) == Prefix(pos + 1, 0, 1)
  {
    assert AddGroup(0, 0, 0) == 0;
  }

  lemma BackStride(buf: seq<byte>, from: nat, to: nat, back: nat)
    requires LeadsBack(buf, from, to, back)
    ensures PrefixAt(buf, from + back, 0, 0) == Prefix(to, 0xFFFF_FFFB - back, 5)
  {
    hide Leb, PrefixAt, PrefixMiddle;
    var v := 0xFFFF_FFFB - back;
    FiveBytes(v);
    PrefixStart(v);
    PrefixWhole(buf, from + back, to, v, 0, 0, v);
  }

  /** The loop of such a ring comes back to its start again and again. */
  lemma {:induction false} LeadsBackForever(buf: seq<byte>, from: nat, to: nat, back: nat, i: nat, count: u32, n: nat)
    requires LeadsBack(buf, from, to, back) && i <= back
    ensures !EndsIn(buf, to, Walker(from + i, i, count), n)
    decreases n
  {
    hide PrefixAt, Skip, Wrap, Leb;
    var w := Walker(from + i, i, count);
    var next := WalkStep(buf, w);
    if i < back {
      ZeroStride(buf, from + i);
      OneForward(from, i, |buf|);
      assert next == Walker(from + i + 1, i + 1, Wrap(count + 1));
      if n > 0 {
        LeadsBackForever(buf, from, to, back, i + 1, Wrap(count + 1), n - 1);
      }
    } else {
      BackStride(buf, from, to, back);
      AllTheWayBack(from, back, |buf|);
      assert next == Walker(from, 0, Wrap(count + 1));
      if n > 0 {
        LeadsBackForever(buf, from, to, back, 0, Wrap(count + 1), n - 1);
      }
    }
  }

  lemma OneForward(from: nat, i: nat, capacity: nat)
    requires from + i + 1 < capacity <= 0x8000_0000
    ensures Skip(from + i + 1, 0, capacity) == from + i + 1 && Wrap(i + Wrap(1)) == i + 1
  {
    WrapSmall(i + 1);
    RemainderOf(from + i + 1, capacity, 0, from + i + 1);
  }

  lemma AllTheWayBack(from: nat, back: nat, capacity: nat)
    requires from + back + 5 < capacity <= 0x8000_0000
    ensures Skip(from + back + 5, 0xFFFF_FFFB - back, capacity) == from
    ensures Wrap(back + Wrap(5 + (0xFFFF_FFFB - back))) == 0
  {
    Whole32(from, from + back + 5, 0xFFFF_FFFB - back, capacity);
    if back > 0 {
      WrapSmall(5 + (0xFFFF_FFFB - back));
    }
  }

  /**
   The limit is sharp but for the five values below: every other value that is not harmless
   hangs the loop on some ring that holds it.
   */
  lemma HarmfulHangs(capacity: nat, v: nat) returns (buf: seq<byte>, to: nat)
    requires 16 <= capacity <= 0x8000_0000 && 0x1_0000_0000 - capacity < v <= 0xFFFF_FFFB
    ensures |buf| == capacity && to < capacity && |Leb(v)| <= to && Held(buf, 0, to)[to - |Leb(v)|..] == Leb(v)
    ensures forall count: u32, n: nat :: !EndsIn(buf, to, Walker(0, 0, count), n)
  {
    hide EndsIn, Leb;
    var back := 0xFFFF_FFFB - v;
    FiveBytes(v);
    to := back + 5;
    buf := seq(back, _ => 0) + Leb(v) + seq(capacity - to, _ => 0);
    assert buf[back..to] == Leb(v);
    forall count: u32, n: nat ensures !EndsIn(buf, to, Walker(0, 0, count), n) {
      LeadsBackForever(buf, 0, to, back, 0, count, n);
    }
  }
}
