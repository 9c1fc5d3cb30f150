/** Words and status codes shared by the boot loader's parsers. */
module XbootDefs {
  import opened Bytes

  datatype Status = Ok | InvalidArgument | InvalidImage | InvalidPartition | CrcMismatch

  /** A 32-bit little-endian word of the buffer. */
  function U32At(buffer: seq<bv8>, at: nat): u32
    requires at + 4 <= |buffer|
  {
    buffer[at] as int + 0x100 * (buffer[at + 1] as int) + 0x1_0000 * (buffer[at + 2] as int)
      + 0x100_0000 * (buffer[at + 3] as int)
  }

  /** The byte of value `x`. */
  function ByteOf(x: byte): (b: bv8)
    ensures b as int == x
  {
    if x == 0 then 0
    else
      var b := ByteOf(x - 1);
      NextByte(b);
      b + 1
  }

  lemma NextByte(b: bv8)
    ensures b as int < 255 ==> (b + 1) as int == b as int + 1
  {
  }

  lemma SameByte(b: bv8, c: bv8)
    ensures b as int == c as int <==> b == c
  {
  }

  /** A 32-bit word as it lies in memory, least significant byte first. */
  function WordBytes(v: u32): (bytes: seq<bv8>)
    ensures |bytes| == 4
  {
    [ByteOf(v % 0x100), ByteOf(v / 0x100 % 0x100), ByteOf(v / 0x1_0000 % 0x100), ByteOf(v / 0x100_0000)]
  }

  lemma WordReads(buffer: seq<bv8>, at: nat, v: u32)
    requires at + 4 <= |buffer|
    ensures buffer[at..at + 4] == WordBytes(v) <==> U32At(buffer, at) == v
  {
    hide ByteOf;
    var part := buffer[at..at + 4];
    SameByte(part[0], ByteOf(v % 0x100));
    SameByte(part[1], ByteOf(v / 0x100 % 0x100));
    SameByte(part[2], ByteOf(v / 0x1_0000 % 0x100));
    SameByte(part[3], ByteOf(v / 0x100_0000));
    DigitsAre(buffer[at] as int, buffer[at + 1] as int, buffer[at + 2] as int, buffer[at + 3] as int, v);
    assert part == [buffer[at], buffer[at + 1], buffer[at + 2], buffer[at + 3]];
  }

  lemma DigitsAre(a: byte, b: byte, c: byte, d: byte, v: u32)
    ensures a + 0x100 * b + 0x1_0000 * c + 0x100_0000 * d == v
      <==> v % 0x100 == a && v / 0x100 % 0x100 == b && v / 0x1_0000 % 0x100 == c && v / 0x100_0000 == d
  {
    FourParts(v);
    FourDigits(a, b, c, d);
  }

  lemma FourParts(v: u32)
    ensures v == v % 0x100 + 0x100 * (v / 0x100 % 0x100) + 0x1_0000 * (v / 0x1_0000 % 0x100)
      + 0x100_0000 * (v / 0x100_0000)
  {
    NestedParts(v);
  }

  lemma FourDigits(a: byte, b: byte, c: byte, d: byte)
    ensures var v := a + 0x100 * b + 0x1_0000 * c + 0x100_0000 * d;
      v % 0x100 == a && v / 0x100 % 0x100 == b && v / 0x1_0000 % 0x100 == c && v / 0x100_0000 == d
  {
    LowDigit(a, b + 0x100 * c + 0x1_0000 * d);
    LowDigit(b, c + 0x100 * d);
    LowDigit(c, d);
    NestedParts(a + 0x100 * b + 0x1_0000 * c + 0x100_0000 * d);
  }

  lemma LowDigit(a: byte, rest: nat)
    ensures (a + 0x100 * rest) % 0x100 == a && (a + 0x100 * rest) / 0x100 == rest
  {
  }

  lemma NestedParts(v: nat)
    ensures v / 0x1_0000 == v / 0x100 / 0x100 && v / 0x100_0000 == v / 0x100 / 0x100 / 0x100
  {
  }

  /** Parts of one width one after the other. */
  lemma {:induction false} ConcatWidth(parts: seq<seq<bv8>>, w: nat)
    requires forall p :: p in parts ==> |p| == w
    ensures |Concat(parts)| == |parts| * w
    decreases |parts|
  {
    if parts != [] {
      assert parts[0] in parts && forall p :: p in parts[1..] ==> p in parts;
      ConcatWidth(parts[1..], w);
      OneMore(|parts| - 1, w);
    }
  }

  lemma OneMore(n: nat, w: nat)
    ensures (n + 1) * w == w + n * w
  {
  }

  lemma ConcatAt(parts: seq<seq<bv8>>, i: nat)
    requires i < |parts|
    ensures Concat(parts) == Concat(parts[..i]) + parts[i] + Concat(parts[i + 1..])
  {
    assert parts == parts[..i] + parts[i..] && parts[i..][0] == parts[i] && parts[i..][1..] == parts[i + 1..];
    ConcatAppend(parts[..i], parts[i..]);
    AddAssoc(Concat(parts[..i]), parts[i], Concat(parts[i + 1..]));
  }

  lemma MiddlePart(a: seq<bv8>, b: seq<bv8>, c: seq<bv8>)
    ensures (a + b + c)[|a|..|a| + |b|] == b
  {
  }

  lemma ConcatFour(parts: seq<seq<bv8>>, i: nat)
    requires i < |parts| && forall p :: p in parts ==> |p| == 4
    ensures |Concat(parts)| == 4 * |parts| && Concat(parts)[4 * i..4 * i + 4] == parts[i]
  {
    hide Concat;
    ConcatWidth(parts, 4);
    ConcatWidth(parts[..i], 4);
    ConcatAt(parts, i);
    MiddlePart(Concat(parts[..i]), parts[i], Concat(parts[i + 1..]));
  }

  lemma ConcatSixteen(parts: seq<seq<bv8>>, i: nat)
    requires i < |parts| && forall p :: p in parts ==> |p| == 16
    ensures |Concat(parts)| == 16 * |parts| && Concat(parts)[16 * i..16 * i + 16] == parts[i]
  {
    hide Concat;
    ConcatWidth(parts, 16);
    ConcatWidth(parts[..i], 16);
    ConcatAt(parts, i);
    MiddlePart(Concat(parts[..i]), parts[i], Concat(parts[i + 1..]));
  }

  lemma SliceOfSlice(s: seq<bv8>, lo: nat, hi: nat, i: nat, j: nat)
    requires lo <= hi <= |s| && i <= j <= hi - lo
    ensures s[lo..hi][i..j] == s[lo + i..lo + j]
  {
    var a, b := s[lo..hi][i..j], s[lo + i..lo + j];
    assert |a| == |b| && forall k :: 0 <= k < |a| ==> a[k] == b[k];
  }

  /** Bytes that agree with such words word by word are those words. */
  lemma WordsAre(buffer: seq<bv8>, parts: seq<seq<bv8>>)
    requires parts != [] && |buffer| == 4 * |parts| && forall p :: p in parts ==> |p| == 4
    requires forall i: nat :: i < |parts| ==> buffer[4 * i..4 * i + 4] == parts[i]
    ensures buffer == Concat(parts)
  {
    var all := Concat(parts);
    ConcatFour(parts, 0);
    forall k | 0 <= k < |buffer| ensures buffer[k] == all[k] {
      var i := k / 4;
      ConcatFour(parts, i);
      assert buffer[k] == buffer[4 * i..4 * i + 4][k - 4 * i];
      assert all[k] == all[4 * i..4 * i + 4][k - 4 * i];
    }
  }

  /** Addition of `uint32_t` values. */
  function Add32(a: u32, b: u32): u32 {
    (a + b) % TWO32
  }
}
