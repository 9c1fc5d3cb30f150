/** Bytes, machine words and the small arithmetic shared by every component. */
module Bytes {

  type byte = x: int | 0 <= x < 256

  const TWO32: int := 0x1_0000_0000

  type u32 = x: int | 0 <= x < 0x1_0000_0000

  function Wrap(x: int): u32 { x % 0x1_0000_0000 }

  lemma WrapSmall(x: nat)
    requires x < 0x1_0000_0000
    ensures Wrap(x) == x
  {
  }

  lemma AddAssoc<T>(a: seq<T>, b: seq<T>, c: seq<T>)
    ensures a + (b + c) == a + b + c
  {
  }

  /** Concatenation of a list of byte strings. */
  function Concat<T>(parts: seq<seq<T>>): seq<T> {
    if parts == [] then [] else parts[0] + Concat(parts[1..])
  }

  lemma {:induction false} ConcatAppend<T>(a: seq<seq<T>>, b: seq<seq<T>>)
    ensures Concat(a + b) == Concat(a) + Concat(b)
  {
    if a == [] {
      assert a + b == b;
    } else {
      ConcatAppend(a[1..], b);
      assert (a + b)[1..] == a[1..] + b;
      AddAssoc(a[0], Concat(a[1..]), Concat(b));
    }
  }

  lemma ConcatSnoc<T>(a: seq<seq<T>>, x: seq<T>)
    ensures Concat(a + [x]) == Concat(a) + x
  {
    ConcatAppend(a, [x]);
    assert [x][1..] == [];
  }

  lemma {:induction false} MulMonotone(p: nat, a: nat, b: nat)
    requires a <= b
    ensures p * a <= p * b
    decreases b - a
  {
    if a < b {
      MulMonotone(p, a, b - 1);
      assert p * b == p * (b - 1) + p;
    }
  }

  lemma Regroup<T>(a: seq<T>, b: seq<T>, c: seq<T>, d: seq<T>)
    ensures a + (b + c + d) == a + b + c + d
  {
  }

  /** Bitwise and, or of natural numbers of any width. */
  function BitAnd(a: nat, b: nat): nat {
    if a == 0 || b == 0 then 0 else 2 * BitAnd(a / 2, b / 2) + (if a % 2 == 1 && b % 2 == 1 then 1 else 0)
  }

  function BitOr(a: nat, b: nat): nat {
    if a == 0 then b else if b == 0 then a
    else 2 * BitOr(a / 2, b / 2) + (if a % 2 == 1 || b % 2 == 1 then 1 else 0)
  }

  function Pow2(k: nat): (p: nat)
    ensures p >= 1
  {
    if k == 0 then 1 else 2 * Pow2(k - 1)
  }

  /** Numbers without a common bit are joined by addition. */
  lemma {:induction false} OrIsSum(low: nat, high: nat, k: nat)
    requires low < Pow2(k)
    ensures BitOr(low, high * Pow2(k)) == low + high * Pow2(k)
    decreases k
  {
    if k > 0 && low > 0 && high > 0 {
      var p := Pow2(k - 1);
      assert high * Pow2(k) == 2 * (high * p);
      OrIsSum(low / 2, high, k - 1);
    }
  }

  lemma {:induction false} PowSum(a: nat, b: nat)
    ensures Pow2(a + b) == Pow2(a) * Pow2(b)
    decreases a
  {
    if a > 0 {
      PowSum(a - 1, b);
    }
  }

  lemma SmallMultiple(d: int, m: nat)
    requires 0 - m < d * m < m
    ensures d == 0
  {
    assert d >= 1 ==> (d - 1) * m >= 0 && d * m == (d - 1) * m + m;
    assert d <= -1 ==> (0 - d - 1) * m >= 0 && d * m == 0 - (0 - d - 1) * m - m;
  }

  /** Quotient and remainder are unique. */
  lemma RemainderOf(v: nat, m: nat, q: nat, r: nat)
    requires v == q * m + r && r < m
    ensures v % m == r && v / m == q
  {
    var d := q - v / m;
    assert d * m == q * m - (v / m) * m;
    assert v == (v / m) * m + v % m;
    SmallMultiple(d, m);
  }

  lemma SameFront<T>(a: seq<T>, x: seq<T>, y: seq<T>)
    ensures a + x == a + y <==> x == y
  {
    assert (a + x)[|a|..] == x && (a + y)[|a|..] == y;
  }
}
