/**
 CRC-32 of the boot loader: the table-driven loop computes the bit-by-bit register, and
 that register tells apart any two messages that differ only inside 32 consecutive bits.
 */
module XbootCrc {
  import opened XbootCrcTable

  // ----- The register, bit by bit ----------------------------------------------------

  function Xor(a: bv32, b: bv32): bv32 { a ^ b }
  function Half(x: bv32): bv32 { x >> 1 }
  function High(x: bv32): bv32 { x >> 8 }
  function LowByte(x: bv32): bv32 { x & 0xFF }
  function Low(x: bv32): bv32 { x & 1 }
  function Bit(b: bool): bv32 { if b then 1 else 0 }
  function Word(b: bv8): bv32 { b as bv32 }

  /** The register after a string of bits, each entering at the low end. */
  function CrcBits(s: bv32, bits: seq<bool>): bv32
    decreases |bits|
  {
    if bits == [] then s else CrcBits(BitStep(Xor(s, Bit(bits[0]))), bits[1..])
  }

  /** The bits of a byte in the order they enter: least significant first. */
  function ByteBits(b: bv8): (bits: seq<bool>)
    ensures |bits| == 8
  {
    [b & 1 == 1, (b >> 1) & 1 == 1, (b >> 2) & 1 == 1, (b >> 3) & 1 == 1,
     (b >> 4) & 1 == 1, (b >> 5) & 1 == 1, (b >> 6) & 1 == 1, (b >> 7) & 1 == 1]
  }

  function DataBits(data: seq<bv8>): (bits: seq<bool>)
    ensures |bits| == 8 * |data|
  {
    if data == [] then [] else ByteBits(data[0]) + DataBits(data[1..])
  }

  // ----- Algebra of the register -----------------------------------------------------

  lemma XorComm(a: bv32, b: bv32)
    ensures Xor(a, b) == Xor(b, a)
  {
  }

  lemma RawAssoc(a: bv32, b: bv32, c: bv32)
    ensures (a ^ b) ^ c == a ^ (b ^ c)
  {
  }

  lemma XorAssoc(a: bv32, b: bv32, c: bv32)
    ensures Xor(Xor(a, b), c) == Xor(a, Xor(b, c))
  {
    RawAssoc(a, b, c);
  }

  lemma XorZero(a: bv32)
    ensures Xor(a, 0) == a && Xor(0, a) == a && Xor(a, a) == 0
  {
  }

  lemma XorIsZero(a: bv32, b: bv32)
    ensures Xor(a, b) == 0 <==> a == b
  {
    hide Xor;
    XorZero(a);
    XorZero(b);
    XorAssoc(a, b, b);
  }

  lemma XorSwap(a: bv32, b: bv32, c: bv32, d: bv32)
    ensures Xor(Xor(a, b), Xor(c, d)) == Xor(Xor(a, c), Xor(b, d))
  {
    hide Xor;
    XorAssoc(a, b, Xor(c, d));
    XorAssoc(b, c, d);
    XorComm(b, c);
    XorAssoc(c, b, d);
    XorAssoc(a, c, Xor(b, d));
  }

  function Feedback(low: bv32): bv32 { if low == 1 then 0xEDB88320 else 0 }

  lemma BitStepForm(x: bv32)
    ensures BitStep(x) == Xor(Half(x), Feedback(Low(x)))
    ensures Low(x) == 0 || Low(x) == 1
  {
  }

  lemma HalfXor(x: bv32, y: bv32)
    ensures Half(Xor(x, y)) == Xor(Half(x), Half(y)) && Low(Xor(x, y)) == Xor(Low(x), Low(y))
  {
  }

  lemma FeedbackLinear(a: bv32, b: bv32)
    requires (a == 0 || a == 1) && (b == 0 || b == 1)
    ensures Feedback(Xor(a, b)) == Xor(Feedback(a), Feedback(b))
  {
  }

  /** The register is linear over exclusive or. */
  lemma BitStepLinear(x: bv32, y: bv32)
    ensures BitStep(Xor(x, y)) == Xor(BitStep(x), BitStep(y))
  {
    hide BitStep, Feedback, Xor, Half, Low;
    BitStepForm(x);
    BitStepForm(y);
    BitStepForm(Xor(x, y));
    HalfXor(x, y);
    FeedbackLinear(Low(x), Low(y));
    XorSwap(Half(x), Feedback(Low(x)), Half(y), Feedback(Low(y)));
  }

  lemma ByteStepLinear(x: bv32, y: bv32)
    ensures ByteStep(Xor(x, y)) == Xor(ByteStep(x), ByteStep(y))
  {
    hide BitStep, Xor;
    var a1, b1 := BitStep(x), BitStep(y);
    var a2, b2 := BitStep(a1), BitStep(b1);
    var a3, b3 := BitStep(a2), BitStep(b2);
    var a4, b4 := BitStep(a3), BitStep(b3);
    var a5, b5 := BitStep(a4), BitStep(b4);
    var a6, b6 := BitStep(a5), BitStep(b5);
    var a7, b7 := BitStep(a6), BitStep(b6);
    BitStepLinear(x, y);
    BitStepLinear(a1, b1);
    BitStepLinear(a2, b2);
    BitStepLinear(a3, b3);
    BitStepLinear(a4, b4);
    BitStepLinear(a5, b5);
    BitStepLinear(a6, b6);
    BitStepLinear(a7, b7);
  }

  lemma SplitLow(w: bv32)
    ensures Xor(Low(w), w & 0xFFFFFFFE) == w && BitStep(w & 0xFFFFFFFE) == Half(w)
  {
  }

  /** One bit of a word enters; the rest of the word waits one place lower. */
  lemma ShiftIn(s: bv32, w: bv32)
    ensures BitStep(Xor(s, w)) == Xor(BitStep(Xor(s, Low(w))), Half(w))
  {
    hide BitStep, Xor, Half, Low;
    SplitLow(w);
    XorAssoc(s, Low(w), w & 0xFFFFFFFE);
    BitStepLinear(Xor(s, Low(w)), w & 0xFFFFFFFE);
  }

  /** A register whose low byte is clear only moves down by a byte. */
  lemma ByteStepOfHigh(x: bv32)
    requires LowByte(x) == 0
    ensures ByteStep(x) == High(x)
  {
  }

  lemma SplitByte(w: bv32)
    ensures Xor(LowByte(w), w & 0xFFFFFF00) == w && LowByte(w & 0xFFFFFF00) == 0 && High(w & 0xFFFFFF00) == High(w)
  {
  }

  /** One byte of a word enters; the rest of the word waits one byte lower. */
  lemma ByteIn(s: bv32, w: bv32)
    ensures ByteStep(Xor(s, w)) == Xor(ByteStep(Xor(s, LowByte(w))), High(w))
  {
    hide ByteStep, Xor, LowByte, High;
    SplitByte(w);
    XorAssoc(s, LowByte(w), w & 0xFFFFFF00);
    ByteStepLinear(Xor(s, LowByte(w)), w & 0xFFFFFF00);
    ByteStepOfHigh(w & 0xFFFFFF00);
  }

  lemma {:induction false} CrcBitsAppend(s: bv32, a: seq<bool>, b: seq<bool>)
    ensures CrcBits(s, a + b) == CrcBits(CrcBits(s, a), b)
    decreases |a|
  {
    hide BitStep, Bit, Xor;
    if a == [] {
      assert a + b == b;
    } else {
      assert (a + b)[1..] == a[1..] + b;
      CrcBitsAppend(BitStep(Xor(s, Bit(a[0]))), a[1..], b);
    }
  }

  // ----- The table-driven loop -------------------------------------------------------

  lemma HighOfXor(crc: bv32, b: bv8)
    ensures High(Xor(crc, Word(b))) == High(crc)
  {
  }

  lemma LowByteInRange(x: bv32)
    ensures LowByte(x) < 256
  {
  }

  function Entry(x: bv32): (w: bv32)
    ensures w == ByteStep(LowByte(x))
  {
    hide ByteStep, Table, LowByte;
    LowByteInRange(x);
    TableIsByteStep(LowByte(x));
    Table()[LowByte(x) as nat]
  }

  /** One round of the loop. */
  function Lookup(crc: bv32, b: bv8): bv32 {
    Xor(High(crc), Entry(Xor(crc, Word(b))))
  }

  /** The table lookup of the loop is eight bit steps. */
  lemma LookupIsByteStep(crc: bv32, b: bv8)
    ensures Lookup(crc, b) == ByteStep(Xor(crc, Word(b)))
  {
    hide ByteStep, Entry, High, LowByte, Xor, Word;
    var x := Xor(crc, Word(b));
    HighOfXor(crc, b);
    XorZero(x);
    ByteIn(0, x);
    XorZero(LowByte(x));
    XorComm(ByteStep(LowByte(x)), High(x));
  }

  lemma ByteBitsOf(b: bv8)
    ensures var bits, w0 := ByteBits(b), Word(b);
      var w1 := Half(w0); var w2 := Half(w1); var w3 := Half(w2);
      var w4 := Half(w3); var w5 := Half(w4); var w6 := Half(w5); var w7 := Half(w6);
      && Bit(bits[0]) == Low(w0) && Bit(bits[1]) == Low(w1) && Bit(bits[2]) == Low(w2) && Bit(bits[3]) == Low(w3)
      && Bit(bits[4]) == Low(w4) && Bit(bits[5]) == Low(w5) && Bit(bits[6]) == Low(w6) && Bit(bits[7]) == Low(w7)
      && Half(w7) == 0
  {
  }

  lemma CrcBitsStep(s: bv32, bits: seq<bool>)
    ensures bits == [] ==> CrcBits(s, bits) == s
    ensures bits != [] ==> CrcBits(s, bits) == CrcBits(BitStep(Xor(s, Bit(bits[0]))), bits[1..])
  {
    hide BitStep, Xor;
  }

  lemma EightBits(s: bv32, bits: seq<bool>)
    requires |bits| == 8
    ensures var s1 := BitStep(Xor(s, Bit(bits[0]))); var s2 := BitStep(Xor(s1, Bit(bits[1])));
      var s3 := BitStep(Xor(s2, Bit(bits[2]))); var s4 := BitStep(Xor(s3, Bit(bits[3])));
      var s5 := BitStep(Xor(s4, Bit(bits[4]))); var s6 := BitStep(Xor(s5, Bit(bits[5])));
      var s7 := BitStep(Xor(s6, Bit(bits[6])));
      CrcBits(s, bits) == BitStep(Xor(s7, Bit(bits[7])))
  {
    hide BitStep, Bit, Xor, CrcBits;
    var s1 := BitStep(Xor(s, Bit(bits[0])));
    var s2 := BitStep(Xor(s1, Bit(bits[1])));
    var s3 := BitStep(Xor(s2, Bit(bits[2])));
    var s4 := BitStep(Xor(s3, Bit(bits[3])));
    var s5 := BitStep(Xor(s4, Bit(bits[4])));
    var s6 := BitStep(Xor(s5, Bit(bits[5])));
    var s7 := BitStep(Xor(s6, Bit(bits[6])));
    assert bits[1..][1..] == bits[2..] && bits[2..][1..] == bits[3..] && bits[3..][1..] == bits[4..];
    assert bits[4..][1..] == bits[5..];
    assert bits[5..][1..] == bits[6..] && bits[6..][1..] == bits[7..] && bits[7..][1..] == [];
    CrcBitsStep(s, bits);
    CrcBitsStep(s1, bits[1..]);
    CrcBitsStep(s2, bits[2..]);
    CrcBitsStep(s3, bits[3..]);
    CrcBitsStep(s4, bits[4..]);
    CrcBitsStep(s5, bits[5..]);
    CrcBitsStep(s6, bits[6..]);
    CrcBitsStep(s7, bits[7..]);
    CrcBitsStep(BitStep(Xor(s7, Bit(bits[7]))), []);
  }

  /** A byte put into the register at once, and bit by bit. */
  lemma ByteIsBits(s: bv32, b: bv8)
    ensures ByteStep(Xor(s, Word(b))) == CrcBits(s, ByteBits(b))
  {
    hide BitStep, Bit, Xor, CrcBits, ByteBits, Low, Half, Word;
    var w, bits := Word(b), ByteBits(b);
    var s1 := BitStep(Xor(s, Bit(bits[0])));
    var s2 := BitStep(Xor(s1, Bit(bits[1])));
    var s3 := BitStep(Xor(s2, Bit(bits[2])));
    var s4 := BitStep(Xor(s3, Bit(bits[3])));
    var s5 := BitStep(Xor(s4, Bit(bits[4])));
    var s6 := BitStep(Xor(s5, Bit(bits[5])));
    var s7 := BitStep(Xor(s6, Bit(bits[6])));
    EightBits(s, bits);
    ByteBitsOf(b);
    var w1 := Half(w);
    var w2 := Half(w1);
    var w3 := Half(w2);
    var w4 := Half(w3);
    var w5 := Half(w4);
    var w6 := Half(w5);
    var w7 := Half(w6);
    ShiftIn(s, w);
    ShiftIn(s1, w1);
    ShiftIn(s2, w2);
    ShiftIn(s3, w3);
    ShiftIn(s4, w4);
    ShiftIn(s5, w5);
    ShiftIn(s6, w6);
    ShiftIn(s7, w7);
    XorZero(BitStep(Xor(s7, Bit(bits[7]))));
  }

  /** `xBOOT_CRC32_Calculate`: returns the raw register, without the final complement. */
  method Calculate(data: seq<bv8>, initialCrc: bv32) returns (crc: bv32)
    ensures crc == CrcBits(initialCrc, DataBits(data))
  {
    hide BitStep, ByteStep, CrcBits, ByteBits, Table, Lookup;
    crc := initialCrc;
    assert data[0..] == data;
    for i := 0 to |data|
      invariant CrcBits(crc, DataBits(data[i..])) == CrcBits(initialCrc, DataBits(data))
    {
      assert data[i..][1..] == data[i + 1..];
      CrcBitsAppend(crc, ByteBits(data[i]), DataBits(data[i + 1..]));
      ByteIsBits(crc, data[i]);
      LookupIsByteStep(crc, data[i]);
      crc := Lookup(crc, data[i]);
    }
    CrcBitsStep(crc, []);
    assert data[|data|..] == [];
  }

  // ----- Bursts ----------------------------------------------------------------------

  function XorBits(a: seq<bool>, b: seq<bool>): (e: seq<bool>)
    requires |a| == |b|
    ensures |e| == |a| && forall i :: 0 <= i < |a| ==> e[i] == (a[i] != b[i])
  {
    seq(|a|, i requires 0 <= i < |a| => a[i] != b[i])
  }

  lemma BitXor(x: bool, y: bool)
    ensures Bit(x != y) == Xor(Bit(x), Bit(y))
  {
  }

  /** The difference of two registers evolves as a register fed the difference of the messages. */
  lemma {:induction false} CrcLinear(s: bv32, t: bv32, a: seq<bool>, b: seq<bool>)
    requires |a| == |b|
    ensures Xor(CrcBits(s, a), CrcBits(t, b)) == CrcBits(Xor(s, t), XorBits(a, b))
    decreases |a|
  {
    hide BitStep, Xor, Bit;
    if a != [] {
      var x, y := Bit(a[0]), Bit(b[0]);
      var e := XorBits(a, b);
      assert e[1..] == XorBits(a[1..], b[1..]);
      BitXor(a[0], b[0]);
      XorSwap(s, x, t, y);
      BitStepLinear(Xor(s, x), Xor(t, y));
      CrcLinear(BitStep(Xor(s, x)), BitStep(Xor(t, y)), a[1..], b[1..]);
    }
  }

  ghost predicate AllFalse(bits: seq<bool>) {
    forall i :: 0 <= i < |bits| ==> !bits[i]
  }

  lemma StepOfZero()
    ensures BitStep(Xor(0, Bit(false))) == 0 && BitStep(Xor(0, Bit(true))) == 0xEDB88320
  {
  }

  lemma StepOfNonzero(d: bv32)
    requires d != 0
    ensures BitStep(Xor(d, Bit(false))) != 0
  {
  }

  lemma {:induction false} Silence(d: bv32, bits: seq<bool>)
    requires AllFalse(bits)
    ensures CrcBits(d, bits) == 0 <==> d == 0
    decreases |bits|
  {
    hide BitStep, Xor, Bit;
    if bits != [] {
      StepOfZero();
      if d != 0 {
        StepOfNonzero(d);
      }
      Silence(BitStep(Xor(d, Bit(bits[0]))), bits[1..]);
    }
  }

  ghost predicate AtLeast(d: bv32, m: bv32) { d >= m }

  lemma AtLeastTransitive(a: bv32, b: bv32, c: bv32)
    requires AtLeast(a, b) && AtLeast(b, c)
    ensures AtLeast(a, c)
  {
  }

  lemma LowBitOnly(d: bv32, x: bool)
    ensures Half(Xor(d, Bit(x))) == Half(d)
  {
  }

  lemma HalfMonotone(d: bv32, m: bv32)
    requires AtLeast(d, m)
    ensures AtLeast(Half(d), Half(m))
  {
  }

  lemma StepAboveHalf(y: bv32)
    ensures AtLeast(BitStep(y), Half(y))
  {
  }

  lemma StepBound(d: bv32, x: bool, m: bv32)
    requires AtLeast(d, m)
    ensures AtLeast(BitStep(Xor(d, Bit(x))), Half(m))
  {
    hide BitStep, Xor, Bit, Half, AtLeast;
    var y := Xor(d, Bit(x));
    LowBitOnly(d, x);
    HalfMonotone(d, m);
    StepAboveHalf(y);
    AtLeastTransitive(BitStep(y), Half(d), Half(m));
  }

  function Halved(m: bv32, n: nat): bv32 {
    if n == 0 then m else Halved(Half(m), n - 1)
  }

  /** Whatever enters, the register stays above a bound that loses one bit a step. */
  lemma {:induction false} Alive(d: bv32, bits: seq<bool>, m: bv32)
    requires AtLeast(d, m)
    ensures AtLeast(CrcBits(d, bits), Halved(m, |bits|))
    decreases |bits|
  {
    hide BitStep, Xor, Bit, Half, AtLeast;
    if bits != [] {
      StepBound(d, bits[0], m);
      Alive(BitStep(Xor(d, Bit(bits[0]))), bits[1..], Half(m));
    }
  }

  lemma FourHalves(m: bv32, n: nat)
    requires n >= 4
    ensures Halved(m, n) == Halved(m >> 4, n - 4)
  {
    var m1, m2, m3 := Half(m), Half(Half(m)), Half(Half(Half(m)));
    assert Half(m3) == m >> 4;
    hide Half;
    assert Halved(m, n) == Halved(m1, n - 1) == Halved(m2, n - 2) == Halved(m3, n - 3) == Halved(Half(m3), n - 4);
  }

  lemma {:induction false} HalvedZero(n: nat)
    ensures Halved(0, n) == 0
  {
    if n > 0 {
      assert Half(0) == 0;
      HalvedZero(n - 1);
    }
  }

  lemma {:induction false} HalvedSum(m: bv32, a: nat, b: nat)
    ensures Halved(m, a + b) == Halved(Halved(m, a), b)
    decreases a
  {
    hide Half;
    if a > 0 {
      HalvedSum(Half(m), a - 1, b);
    }
  }

  lemma TopBitLasts(n: nat)
    requires n <= 31
    ensures Halved(0x80000000, n) != 0
  {
    FourHalves(0x80000000, 31);
    FourHalves(0x08000000, 27);
    FourHalves(0x00800000, 23);
    FourHalves(0x00080000, 19);
    FourHalves(0x00008000, 15);
    FourHalves(0x00000800, 11);
    FourHalves(0x00000080, 7);
    assert Halved(8, 3) == Halved(4, 2) == Halved(2, 1) == Halved(1, 0) == 1;
    HalvedSum(0x80000000, n, 31 - n);
    HalvedZero(31 - n);
  }

  /** A difference confined to 32 bits leaves a nonzero register behind. */
  lemma BurstRemains(before: seq<bool>, burst: seq<bool>, after: seq<bool>)
    requires AllFalse(before) && AllFalse(after) && 1 <= |burst| <= 32 && burst[0]
    ensures CrcBits(0, before + burst + after) != 0
  {
    hide BitStep, Xor, Bit, Halved, CrcBits;
    CrcBitsAppend(0, before + burst, after);
    CrcBitsAppend(0, before, burst);
    Silence(0, before);
    StepOfZero();
    CrcBitsStep(0, burst);
    Alive(0xEDB88320, burst[1..], 0x80000000);
    TopBitLasts(|burst| - 1);
    Silence(CrcBits(0, before + burst), after);
  }

  lemma {:induction false} FirstTrue(e: seq<bool>) returns (i: nat)
    requires !AllFalse(e)
    ensures i < |e| && e[i] && AllFalse(e[..i])
  {
    i := 0;
    while !e[i]
      invariant i < |e| && AllFalse(e[..i]) && exists j :: i <= j < |e| && e[j]
      decreases |e| - i
    {
      i := i + 1;
    }
  }

  /** Two different strings of one length, all of whose differences lie in one window. */
  ghost predicate DifferWithin<T>(a: seq<T>, b: seq<T>, from: nat, width: nat) {
    |a| == |b| && a != b && forall i :: 0 <= i < |a| && a[i] != b[i] ==> from <= i < from + width
  }

  /**
   Two different messages of the same length whose differences lie inside 32 consecutive
   bits never have the same CRC, whatever the seed.
   */
  lemma BurstDetected(s: bv32, a: seq<bool>, b: seq<bool>, from: nat)
    requires DifferWithin(a, b, from, 32)
    ensures CrcBits(s, a) != CrcBits(s, b)
  {
    hide CrcBits, Xor, Bit, BitStep, Halved;
    var e := XorBits(a, b);
    CrcLinear(s, s, a, b);
    XorZero(s);
    XorIsZero(CrcBits(s, a), CrcBits(s, b));
    WindowRemains(a, b, from);
  }

  lemma WindowRemains(a: seq<bool>, b: seq<bool>, from: nat)
    requires DifferWithin(a, b, from, 32)
    ensures CrcBits(0, XorBits(a, b)) != 0
  {
    hide CrcBits;
    var e := XorBits(a, b);
    var k :| 0 <= k < |a| && a[k] != b[k];
    assert e[k];
    var i := FirstTrue(e);
    var end := if i + 32 <= |e| then i + 32 else |e|;
    assert e == e[..i] + e[i..end] + e[end..];
    forall j | 0 <= j < |e[end..]| ensures !e[end..][j] {
      assert e[end..][j] == (a[end + j] != b[end + j]);
    }
    BurstRemains(e[..i], e[i..end], e[end..]);
  }

  // ----- Bytes -----------------------------------------------------------------------

  lemma {:induction false} DataBitsAt(data: seq<bv8>, i: nat, j: nat)
    requires i < |data| && j < 8
    ensures DataBits(data)[8 * i + j] == ByteBits(data[i])[j]
    decreases i
  {
    hide ByteBits;
    if i > 0 {
      DataBitsAt(data[1..], i - 1, j);
    }
  }

  function FromBits(bits: seq<bool>): bv8
    requires |bits| == 8
  {
    (if bits[0] then 0x01 else 0) | (if bits[1] then 0x02 else 0)
    | (if bits[2] then 0x04 else 0) | (if bits[3] then 0x08 else 0)
    | (if bits[4] then 0x10 else 0) | (if bits[5] then 0x20 else 0)
    | (if bits[6] then 0x40 else 0) | (if bits[7] then 0x80 else 0)
  }

  lemma FromBitsOf(b: bv8)
    ensures FromBits(ByteBits(b)) == b
  {
  }

  lemma ByteBitsInjective(a: bv8, b: bv8)
    requires a != b
    ensures exists j :: 0 <= j < 8 && ByteBits(a)[j] != ByteBits(b)[j]
  {
    hide ByteBits, FromBits;
    FromBitsOf(a);
    FromBitsOf(b);
    var x, y := ByteBits(a), ByteBits(b);
    assert (forall j :: 0 <= j < 8 ==> x[j] == y[j]) ==> x == y;
  }

  lemma BitsDifferWithin(a: seq<bv8>, b: seq<bv8>, from: nat, width: nat)
    requires DifferWithin(a, b, from, width)
    ensures DifferWithin(DataBits(a), DataBits(b), 8 * from, 8 * width)
  {
    hide ByteBits, DataBits;
    var k :| 0 <= k < |a| && a[k] != b[k];
    ByteBitsInjective(a[k], b[k]);
    var j :| 0 <= j < 8 && ByteBits(a[k])[j] != ByteBits(b[k])[j];
    DataBitsAt(a, k, j);
    DataBitsAt(b, k, j);
    forall p | 0 <= p < |DataBits(a)| && DataBits(a)[p] != DataBits(b)[p] ensures 8 * from <= p < 8 * from + 8 * width {
      DataBitsAt(a, p / 8, p % 8);
      DataBitsAt(b, p / 8, p % 8);
      assert p == 8 * (p / 8) + p % 8;
    }
  }

  /** Equal-length byte strings that differ only inside four consecutive bytes have different CRCs. */
  lemma ByteBurstDetected(s: bv32, a: seq<bv8>, b: seq<bv8>, from: nat)
    requires DifferWithin(a, b, from, 4)
    ensures CrcBits(s, DataBits(a)) != CrcBits(s, DataBits(b))
  {
    hide CrcBits;
    BitsDifferWithin(a, b, from, 4);
    BurstDetected(s, DataBits(a), DataBits(b), 8 * from);
  }

  // ----- Stored checksums ------------------------------------------------------------

  const CRC32_INIT: bv32 := 0xFFFFFFFF

  function WordOf(b0: bv8, b1: bv8, b2: bv8, b3: bv8): bv32 {
    Word(b0) | (Word(b1) << 8) | (Word(b2) << 16) | (Word(b3) << 24)
  }

  /** A checksum word, stored little endian. */
  function CrcAt(buffer: seq<bv8>, at: nat): bv32
    requires at + 4 <= |buffer|
  {
    WordOf(buffer[at], buffer[at + 1], buffer[at + 2], buffer[at + 3])
  }

  function ByteOf(x: bv32): bv8 {
    LowByte(x) as bv8
  }

  lemma ByteBack(b: bv8, x: bv32)
    ensures Word(b) == LowByte(x) <==> b == ByteOf(x)
  {
    assert (b as bv32) as bv8 == b;
    assert (LowByte(x) as bv8) as bv32 == LowByte(x);
  }

  /** That word as it lies in memory. */
  function CrcBytes(w: bv32): (bytes: seq<bv8>)
    ensures |bytes| == 4
  {
    [ByteOf(w), ByteOf(High(w)), ByteOf(High(High(w))), ByteOf(High(High(High(w))))]
  }

  lemma CrcBytesOf(b0: bv8, b1: bv8, b2: bv8, b3: bv8, w: bv32)
    ensures WordOf(b0, b1, b2, b3) == w <==> [b0, b1, b2, b3] == CrcBytes(w)
  {
    hide ByteOf, WordOf, Joined, High, LowByte, Word;
    ByteBack(b0, w);
    ByteBack(b1, High(w));
    ByteBack(b2, High(High(w)));
    ByteBack(b3, High(High(High(w))));
    BytesOfWord(b0, b1, b2, b3);
    WordIsJoined(b0, b1, b2, b3);
    JoinedParts(w);
  }

  function Joined(a: bv32, b: bv32, c: bv32, d: bv32): bv32 {
    a | (b << 8) | (c << 16) | (d << 24)
  }

  lemma WordIsJoined(b0: bv8, b1: bv8, b2: bv8, b3: bv8)
    ensures WordOf(b0, b1, b2, b3) == Joined(Word(b0), Word(b1), Word(b2), Word(b3))
  {
    hide Word;
  }

  lemma JoinedParts(w: bv32)
    ensures Joined(LowByte(w), LowByte(High(w)), LowByte(High(High(w))), LowByte(High(High(High(w))))) == w
  {
  }

  lemma CrcReads(buffer: seq<bv8>, at: nat, w: bv32)
    requires at + 4 <= |buffer|
    ensures buffer[at..at + 4] == CrcBytes(w) <==> CrcAt(buffer, at) == w
  {
    hide WordOf, CrcBytes;
    CrcBytesOf(buffer[at], buffer[at + 1], buffer[at + 2], buffer[at + 3], w);
    assert buffer[at..at + 4] == [buffer[at], buffer[at + 1], buffer[at + 2], buffer[at + 3]];
  }

  /** The test the parsers make: the complement of the register equals the stored word. */
  ghost predicate Stamped(buffer: seq<bv8>, n: nat)
    requires n + 4 <= |buffer|
  {
    Xor(CrcBits(CRC32_INIT, DataBits(buffer[..n])), 0xFFFFFFFF) == CrcAt(buffer, n)
  }

  lemma BytesOfWord(b0: bv8, b1: bv8, b2: bv8, b3: bv8)
    ensures var w := WordOf(b0, b1, b2, b3);
      && LowByte(w) == Word(b0) && LowByte(High(w)) == Word(b1) && LowByte(High(High(w))) == Word(b2)
      && LowByte(High(High(High(w)))) == Word(b3) && High(High(High(High(w)))) == 0
  {
  }

  lemma {:induction false} DataBitsAppend(a: seq<bv8>, b: seq<bv8>)
    ensures DataBits(a + b) == DataBits(a) + DataBits(b)
  {
    hide ByteBits;
    if a == [] {
      assert a + b == b;
    } else {
      assert (a + b)[1..] == a[1..] + b;
      DataBitsAppend(a[1..], b);
    }
  }

  lemma OneByte(s: bv32, data: seq<bv8>)
    requires data != []
    ensures CrcBits(s, DataBits(data)) == CrcBits(ByteStep(Xor(s, Word(data[0]))), DataBits(data[1..]))
  {
    hide ByteStep, Xor, Word, CrcBits, ByteBits;
    CrcBitsAppend(s, ByteBits(data[0]), DataBits(data[1..]));
    ByteIsBits(s, data[0]);
  }

  function FourSteps(x: bv32): bv32 {
    ByteStep(ByteStep(ByteStep(ByteStep(x))))
  }

  /** Four bytes enter the register as one word. */
  lemma WordEnters(s: bv32, b: seq<bv8>)
    requires |b| == 4
    ensures CrcBits(s, DataBits(b)) == FourSteps(Xor(s, CrcAt(b, 0)))
  {
    hide ByteStep, Xor, Word, CrcBits, ByteBits, DataBits, High, LowByte, WordOf;
    var w0 := CrcAt(b, 0);
    BytesOfWord(b[0], b[1], b[2], b[3]);
    var w1 := High(w0);
    var w2 := High(w1);
    var w3 := High(w2);
    var s1 := ByteStep(Xor(s, Word(b[0])));
    var s2 := ByteStep(Xor(s1, Word(b[1])));
    var s3 := ByteStep(Xor(s2, Word(b[2])));
    var s4 := ByteStep(Xor(s3, Word(b[3])));
    assert b[1..][1..] == b[2..] && b[2..][1..] == b[3..] && b[3..][1..] == [];
    OneByte(s, b);
    OneByte(s1, b[1..]);
    OneByte(s2, b[2..]);
    OneByte(s3, b[3..]);
    NoBits(s4);
    ByteIn(s, w0);
    ByteIn(s1, w1);
    ByteIn(s2, w2);
    ByteIn(s3, w3);
    XorZero(s4);
  }

  lemma NoBits(s: bv32)
    ensures CrcBits(s, DataBits([])) == s
  {
    hide BitStep;
  }

  lemma BitStepInjective(x: bv32, y: bv32)
    requires BitStep(x) == BitStep(y)
    ensures x == y
  {
  }

  lemma ByteStepInjective(x: bv32, y: bv32)
    requires ByteStep(x) == ByteStep(y)
    ensures x == y
  {
    hide BitStep;
    var a1, b1 := BitStep(x), BitStep(y);
    var a2, b2 := BitStep(a1), BitStep(b1);
    var a3, b3 := BitStep(a2), BitStep(b2);
    var a4, b4 := BitStep(a3), BitStep(b3);
    var a5, b5 := BitStep(a4), BitStep(b4);
    var a6, b6 := BitStep(a5), BitStep(b5);
    var a7, b7 := BitStep(a6), BitStep(b6);
    BitStepInjective(a7, b7);
    BitStepInjective(a6, b6);
    BitStepInjective(a5, b5);
    BitStepInjective(a4, b4);
    BitStepInjective(a3, b3);
    BitStepInjective(a2, b2);
    BitStepInjective(a1, b1);
    BitStepInjective(x, y);
  }

  lemma FourStepsInjective(x: bv32, y: bv32)
    requires FourSteps(x) == FourSteps(y)
    ensures x == y
  {
    hide ByteStep;
    var x1, y1 := ByteStep(x), ByteStep(y);
    var x2, y2 := ByteStep(x1), ByteStep(y1);
    var x3, y3 := ByteStep(x2), ByteStep(y2);
    ByteStepInjective(x3, y3);
    ByteStepInjective(x2, y2);
    ByteStepInjective(x1, y1);
    ByteStepInjective(x, y);
  }

  lemma ResidueOf()
    ensures FourSteps(0xFFFFFFFF) == 0xDEBB20E3
  {
  }

  /**
   The checksum test on `n` bytes and a stored word is one test on the register after all
   `n + 4` bytes: it must hold the fixed residue of the code.
   */
  lemma Residue(buffer: seq<bv8>, n: nat)
    requires n + 4 <= |buffer|
    ensures Stamped(buffer, n) <==> CrcBits(CRC32_INIT, DataBits(buffer[..n + 4])) == 0xDEBB20E3
  {
    hide Xor, CrcBits, DataBits, WordOf, FourSteps;
    var s, b := CrcBits(CRC32_INIT, DataBits(buffer[..n])), buffer[n..n + 4];
    assert buffer[..n + 4] == buffer[..n] + b;
    DataBitsAppend(buffer[..n], b);
    CrcBitsAppend(CRC32_INIT, DataBits(buffer[..n]), DataBits(b));
    WordEnters(s, b);
    var w := CrcAt(buffer, n);
    assert w == CrcAt(b, 0);
    XorAssoc(s, s, 0xFFFFFFFF);
    XorAssoc(s, s, w);
    XorZero(s);
    XorZero(w);
    XorZero(0xFFFFFFFF);
    ResidueOf();
    if FourSteps(Xor(s, w)) == FourSteps(0xFFFFFFFF) {
      FourStepsInjective(Xor(s, w), 0xFFFFFFFF);
    }
  }

  /**
   If a stamped block is changed anywhere inside four consecutive bytes, the stored
   checksum included, it is no longer stamped.
   */
  lemma BurstBreaksStamp(a: seq<bv8>, b: seq<bv8>, n: nat, from: nat)
    requires |a| >= n + 4 && |b| >= n + 4 && DifferWithin(a[..n + 4], b[..n + 4], from, 4)
    requires Stamped(a, n)
    ensures !Stamped(b, n)
  {
    hide CrcBits, DataBits, Xor, CrcAt;
    Residue(a, n);
    Residue(b, n);
    ByteBurstDetected(CRC32_INIT, a[..n + 4], b[..n + 4], from);
  }
}
