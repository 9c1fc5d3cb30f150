/**
 The bytes held by a circular buffer with one slot kept free, as both the trace recorder
 and the UART bridge use it: `from` is the oldest byte, `to` the next free slot.
 */
module Ring {
  import opened Bytes

  function Next(i: nat, capacity: nat): (n: nat)
    requires i < capacity
    ensures n == if i + 1 == capacity then 0 else i + 1
  {
    (i + 1) % capacity
  }

  ghost function Held(buf: seq<byte>, from: nat, to: nat): (q: seq<byte>)
    requires from < |buf| && to < |buf|
    ensures |q| == if from <= to then to - from else |buf| - from + to
  {
    if from <= to then buf[from..to] else buf[from..] + buf[..to]
  }

  lemma PutHeld(buf: seq<byte>, from: nat, to: nat, b: byte)
    requires from < |buf| && to < |buf| && |Held(buf, from, to)| < |buf| - 1
    ensures Held(buf[to := b], from, Next(to, |buf|)) == Held(buf, from, to) + [b]
  {
    var upd, q := buf[to := b], Held(buf, from, to);
    var q' := Held(upd, from, Next(to, |buf|));
    assert |q'| == |q| + 1;
    forall i | 0 <= i < |q'| ensures q'[i] == (q + [b])[i] {
    }
  }

  /** `from + n` around the end of the buffer, without the division. */
  function Advance(from: nat, n: nat, capacity: nat): (a: nat)
    requires from < capacity && n <= capacity
    ensures a < capacity
  {
    if from + n < capacity then from + n else from + n - capacity
  }

  lemma AdvanceIsModulo(from: nat, n: nat, capacity: nat)
    requires from < capacity && n <= capacity
    ensures (from + n) % capacity == Advance(from, n, capacity)
  {
    var x := from + n;
    if x < capacity {
      RemainderOf(x, capacity, 0, x);
    } else {
      RemainderOf(x, capacity, 1, x - capacity);
    }
  }

  /** Dropping the `n` oldest bytes moves `from` by `n`, around the end of the buffer. */
  lemma DropHeld(buf: seq<byte>, from: nat, to: nat, n: nat)
    requires from < |buf| && to < |buf| && n <= |Held(buf, from, to)|
    ensures Held(buf, Advance(from, n, |buf|), to) == Held(buf, from, to)[n..]
  {
    var q, q' := Held(buf, from, to), Held(buf, Advance(from, n, |buf|), to);
    forall i | 0 <= i < |q'| ensures q'[i] == q[n..][i] {
    }
  }

  /** The part of the contents that lies in one piece in memory. */
  lemma ContiguousPart(buf: seq<byte>, from: nat, to: nat)
    requires from < |buf| && to < |buf| && from != to
    ensures var n := if from < to then to - from else |buf| - from;
      n <= |Held(buf, from, to)| && Held(buf, from, to)[..n] == buf[from..from + n]
  {
  }

  lemma PeekHeld(buf: seq<byte>, from: nat, to: nat, n: nat)
    requires from < |buf| && to < |buf| && n < |Held(buf, from, to)|
    ensures buf[Advance(from, n, |buf|)] == Held(buf, from, to)[n]
    ensures Advance(from, n + 1, |buf|) == Next(Advance(from, n, |buf|), |buf|)
  {
  }
}
