/**
 The partition table of the boot loader. Parsing works on 32-bit words with wrap-around
 and a bit mask for alignment; the lemmas say when that amounts to the integer facts the
 table is meant to guarantee: aligned, inside the storage, pairwise disjoint.
 */
module XbootPartition {
  import opened Bytes
  import opened Options
  import opened XbootDefs
  import opened XbootCrc

  const PARTITION_MAGIC: u32 := 0x58425054
  const PARTITION_VERSION_1: u32 := 1
  const MAX_PARTITIONS: nat := 8
  const TYPE_INVALID: u32 := 0
  const TYPE_PRIMARY_APP: u32 := 2
  const TYPE_SECONDARY_APP: u32 := 3
  const ENTRIES_AT: nat := 16
  const TABLE_CRC_AT: nat := 144
  const TABLE_SIZE: nat := 148

  datatype Entry = Entry(kind: u32, offset: u32, size: u32, flags: u32)

  // ----- What the code tests ---------------------------------------------------------

  /** `xBOOT_IS_ALIGNED`: the mask is `align - 1`, whatever `align` is. */
  predicate IsAligned(v: u32, align: u32)
    requires align > 0
  {
    BitAnd(v, align - 1) == 0
  }

  function EntryAt(buffer: seq<bv8>, i: nat): Entry
    requires i < MAX_PARTITIONS && |buffer| >= TABLE_SIZE
  {
    var at := ENTRIES_AT + 16 * i;
    Entry(U32At(buffer, at), U32At(buffer, at + 4), U32At(buffer, at + 8), U32At(buffer, at + 12))
  }

  /** An entry as the structure is laid out in memory. */
  function EncodeEntry(e: Entry): (bytes: seq<bv8>)
    ensures |bytes| == 16
  {
    FourWordsSize(WordBytes(e.kind), WordBytes(e.offset), WordBytes(e.size), WordBytes(e.flags));
    Concat([WordBytes(e.kind), WordBytes(e.offset), WordBytes(e.size), WordBytes(e.flags)])
  }

  /** Reading an entry is the inverse of laying it out, and the other way round. */
  lemma EntryInverse(buffer: seq<bv8>, i: nat, e: Entry)
    requires i < MAX_PARTITIONS && |buffer| >= TABLE_SIZE
    ensures buffer[16 + 16 * i..32 + 16 * i] == EncodeEntry(e) <==> EntryAt(buffer, i) == e
  {
    hide U32At, WordBytes;
    var at := 16 + 16 * i;
    var part := buffer[at..at + 16];
    var words := [WordBytes(e.kind), WordBytes(e.offset), WordBytes(e.size), WordBytes(e.flags)];
    WordReads(buffer, at, e.kind);
    WordReads(buffer, at + 4, e.offset);
    WordReads(buffer, at + 8, e.size);
    WordReads(buffer, at + 12, e.flags);
    assert part[0..4] == buffer[at..at + 4] && part[4..8] == buffer[at + 4..at + 8];
    assert part[8..12] == buffer[at + 8..at + 12] && part[12..16] == buffer[at + 12..at + 16];
    FourWords(part, words[0], words[1], words[2], words[3]);
  }

  lemma FourWordsSize(a: seq<bv8>, b: seq<bv8>, c: seq<bv8>, d: seq<bv8>)
    requires |a| == |b| == |c| == |d| == 4
    ensures |Concat([a, b, c, d])| == 16
  {
    ConcatFour([a, b, c, d], 0);
  }

  lemma FourWords(part: seq<bv8>, a: seq<bv8>, b: seq<bv8>, c: seq<bv8>, d: seq<bv8>)
    requires |part| == 16 && |a| == |b| == |c| == |d| == 4
    ensures part == Concat([a, b, c, d])
      <==> part[0..4] == a && part[4..8] == b && part[8..12] == c && part[12..16] == d
  {
    var parts := [a, b, c, d];
    assert parts[1..] == [b, c, d] && [b, c, d][1..] == [c, d] && [c, d][1..] == [d] && [d][1..] == [];
    assert Concat([d]) == d + [] && Concat([c, d]) == c + Concat([d]) && Concat([b, c, d]) == b + Concat([c, d]);
    assert Concat(parts) == a + Concat([b, c, d]);
    assert part == part[0..4] + (part[4..8] + (part[8..12] + (part[12..16] + [])));
  }

  /** The first `n` entries of the buffer. */
  function EntriesAt(buffer: seq<bv8>, n: nat): (entries: seq<Entry>)
    requires n <= MAX_PARTITIONS && |buffer| >= TABLE_SIZE
    ensures |entries| == n && forall i :: 0 <= i < n ==> entries[i] == EntryAt(buffer, i)
  {
    if n == 0 then [] else EntriesAt(buffer, n - 1) + [EntryAt(buffer, n - 1)]
  }

  function EntryBytes(entries: seq<Entry>): (parts: seq<seq<bv8>>)
    ensures |parts| == |entries| && forall p :: p in parts ==> |p| == 16
  {
    seq(|entries|, i requires 0 <= i < |entries| => EncodeEntry(entries[i]))
  }

  /** The whole structure in memory: `n` of its eight entries are in use. */
  function EncodeTable(n: u32, reserved: u32, entries: seq<Entry>, crc: bv32): (bytes: seq<bv8>)
    requires |entries| == MAX_PARTITIONS
    ensures |bytes| == TABLE_SIZE
  {
    ConcatSixteen(EntryBytes(entries), 0);
    FourWordsSize(WordBytes(0x58425054), WordBytes(1), WordBytes(n), WordBytes(reserved));
    Concat([WordBytes(0x58425054), WordBytes(1), WordBytes(n), WordBytes(reserved)])
    + Concat(EntryBytes(entries)) + CrcBytes(crc)
  }

  /** What the parser finds in a table laid out that way, whatever follows it. */
  lemma TableReads(n: u32, reserved: u32, entries: seq<Entry>, crc: bv32, rest: seq<bv8>)
    requires |entries| == MAX_PARTITIONS
    ensures var buffer := EncodeTable(n, reserved, entries, crc) + rest;
      && U32At(buffer, 0) == 0x58425054 && U32At(buffer, 4) == 1 && U32At(buffer, 8) == n && CrcAt(buffer, 144) == crc
      && (n <= MAX_PARTITIONS ==> EntriesAt(buffer, n) == entries[..n])
  {
    hide U32At, CrcAt, WordBytes, CrcBytes, EncodeEntry, EntryBytes, EntryAt, EncodeTable;
    var buffer := EncodeTable(n, reserved, entries, crc) + rest;
    TableParts(n, reserved, entries, crc, rest);
    FourWords(buffer[..16], WordBytes(0x58425054), WordBytes(1), WordBytes(n), WordBytes(reserved));
    assert buffer[..16][0..4] == buffer[0..4] && buffer[..16][4..8] == buffer[4..8];
    assert buffer[..16][8..12] == buffer[8..12];
    WordReads(buffer, 0, 0x58425054);
    WordReads(buffer, 4, 1);
    WordReads(buffer, 8, n);
    CrcReads(buffer, 144, crc);
    forall i: nat | i < MAX_PARTITIONS ensures EntryAt(buffer, i) == entries[i] {
      TableEntry(n, reserved, entries, crc, rest, i);
      EntryInverse(buffer, i, entries[i]);
    }
  }

  lemma TableParts(n: u32, reserved: u32, entries: seq<Entry>, crc: bv32, rest: seq<bv8>)
    requires |entries| == MAX_PARTITIONS
    ensures var buffer := EncodeTable(n, reserved, entries, crc) + rest;
      && buffer[..16] == Concat([WordBytes(0x58425054), WordBytes(1), WordBytes(n), WordBytes(reserved)])
      && buffer[16..144] == Concat(EntryBytes(entries)) && buffer[144..148] == CrcBytes(crc)
  {
    hide WordBytes, CrcBytes, EntryBytes;
    FourWordsSize(WordBytes(0x58425054), WordBytes(1), WordBytes(n), WordBytes(reserved));
    ConcatSixteen(EntryBytes(entries), 0);
    var front := Concat([WordBytes(0x58425054), WordBytes(1), WordBytes(n), WordBytes(reserved)]);
    var middle := Concat(EntryBytes(entries));
    assert EncodeTable(n, reserved, entries, crc) == front + middle + CrcBytes(crc);
    hide EncodeTable, Concat;
  }

  lemma TableEntry(n: u32, reserved: u32, entries: seq<Entry>, crc: bv32, rest: seq<bv8>, i: nat)
    requires |entries| == MAX_PARTITIONS && i < MAX_PARTITIONS
    ensures (EncodeTable(n, reserved, entries, crc) + rest)[16 + 16 * i..32 + 16 * i] == EncodeEntry(entries[i])
  {
    hide WordBytes, CrcBytes, EncodeEntry, EncodeTable;
    TableParts(n, reserved, entries, crc, rest);
    ConcatSixteen(EntryBytes(entries), i);
    var buffer := EncodeTable(n, reserved, entries, crc) + rest;
    SliceOfSlice(buffer, 16, 144, 16 * i, 16 * i + 16);
  }

  predicate BoundsPass(e: Entry, storageSize: u32) {
    e.offset <= storageSize && e.size <= storageSize && Add32(e.offset, e.size) <= storageSize
  }

  /** `validate_entry` */
  function ValidateEntry(e: Entry, storageSize: u32, sectorSize: u32): Status
    requires sectorSize > 0
  {
    if e.kind == TYPE_INVALID then InvalidPartition
    else if !IsAligned(e.offset, sectorSize) || !IsAligned(e.size, sectorSize) then InvalidPartition
    else if e.size == 0 then InvalidPartition
    else if !BoundsPass(e, storageSize) then InvalidPartition
    else Ok
  }

  predicate Overlap32(a: Entry, b: Entry) {
    a.offset < Add32(b.offset, b.size) && b.offset < Add32(a.offset, a.size)
  }

  ghost predicate HeaderRecognised(buffer: seq<bv8>)
    requires |buffer| >= TABLE_SIZE
  {
    U32At(buffer, 0) == PARTITION_MAGIC && U32At(buffer, 4) == PARTITION_VERSION_1 && U32At(buffer, 8) <= MAX_PARTITIONS
  }

  /** Every entry passes and overlaps none before it. */
  ghost predicate EntriesPass(entries: seq<Entry>, storageSize: u32, sectorSize: u32)
    requires sectorSize > 0
  {
    && (forall i :: 0 <= i < |entries| ==> ValidateEntry(entries[i], storageSize, sectorSize) == Ok)
    && (forall i, j :: 0 <= j < i < |entries| ==> !Overlap32(entries[i], entries[j]))
  }

  ghost predicate Acceptable(buffer: seq<bv8>, storageSize: u32, sectorSize: u32) {
    && |buffer| >= TABLE_SIZE && storageSize > 0 && sectorSize > 0
    && HeaderRecognised(buffer) && Stamped(buffer, TABLE_CRC_AT)
    && EntriesPass(EntriesAt(buffer, U32At(buffer, 8)), storageSize, sectorSize)
  }

  // ----- The parser ------------------------------------------------------------------

  class Table {
    var magic: u32
    var version: u32
    var numEntries: u32
    var reserved: u32
    const entries: array<Entry>
    var crc32: bv32

    constructor ()
      ensures fresh(entries) && entries.Length == MAX_PARTITIONS && numEntries == 0
    {
      magic, version, numEntries, reserved, crc32 := 0, 0, 0, 0, 0;
      entries := new Entry[MAX_PARTITIONS](_ => Entry(0, 0, 0, 0));
    }

    ghost predicate Valid()
      reads this
    {
      entries.Length == MAX_PARTITIONS && numEntries <= MAX_PARTITIONS
    }

    /** The entries in use. */
    ghost function Listed(): seq<Entry>
      reads this, entries
      requires Valid()
    {
      entries[..numEntries]
    }

    /** `check_overlap`, against the entries before `current`. */
    method CheckOverlap(current: nat) returns (found: bool)
      requires current < entries.Length
      ensures found <==> exists j :: 0 <= j < current && Overlap32(entries[current], entries[j])
    {
      for j := 0 to current
        invariant forall k :: 0 <= k < j ==> !Overlap32(entries[current], entries[k])
      {
        if Overlap32(entries[current], entries[j]) {
          return true;
        }
      }
      return false;
    }

    /** `xBOOT_Partition_Table_Parse`, with `this` the output structure. */
    method Parse(buffer: seq<bv8>, storageSize: u32, sectorSize: u32) returns (status: Status)
      requires entries.Length == MAX_PARTITIONS
      modifies this, entries
      ensures status == Ok <==> Acceptable(buffer, storageSize, sectorSize)
      ensures status == Ok ==> Valid() && numEntries == U32At(buffer, 8) && Listed() == EntriesAt(buffer, numEntries)
      ensures status == Ok ==>
        && magic == PARTITION_MAGIC && version == PARTITION_VERSION_1
        && reserved == 0 && crc32 == CrcAt(buffer, TABLE_CRC_AT)
      ensures status == Ok ==>
        forall i :: 0 <= i < numEntries ==> EncodeEntry(Listed()[i]) == buffer[16 + 16 * i..32 + 16 * i]
      ensures status == InvalidArgument <==> |buffer| < TABLE_SIZE || storageSize == 0 || sectorSize == 0
      ensures status == CrcMismatch
        <==> (|buffer| >= TABLE_SIZE && storageSize > 0 && sectorSize > 0
              && HeaderRecognised(buffer) && !Stamped(buffer, TABLE_CRC_AT))
      ensures status in {Ok, InvalidArgument, CrcMismatch, InvalidPartition}
    {
      hide CrcBits, DataBits, U32At, WordOf, Xor, Overlap32, IsAligned, ValidateEntry, EncodeEntry;
      if |buffer| < TABLE_SIZE {
        return InvalidArgument;
      }
      if storageSize == 0 || sectorSize == 0 {
        return InvalidArgument;
      }
      status := ValidateHeader(buffer);
      if status != Ok {
        return;
      }
      magic, version, numEntries := U32At(buffer, 0), U32At(buffer, 4), U32At(buffer, 8);
      reserved := 0;
      crc32 := CrcAt(buffer, TABLE_CRC_AT);
      ghost var listed := EntriesAt(buffer, numEntries);
      for i := 0 to numEntries
        invariant Valid() && magic == PARTITION_MAGIC && version == PARTITION_VERSION_1 && reserved == 0
        invariant numEntries == U32At(buffer, 8) && crc32 == CrcAt(buffer, TABLE_CRC_AT)
        invariant entries[..i] == listed[..i]
        invariant EntriesPass(listed[..i], storageSize, sectorSize)
      {
        entries[i] := EntryAt(buffer, i);
        assert entries[i] == listed[i];
        status := ValidateEntry(entries[i], storageSize, sectorSize);
        StatusOfEntry(entries[i], storageSize, sectorSize);
        if status != Ok {
          return;
        }
        var overlap := CheckOverlap(i);
        assert forall j :: 0 <= j < i ==> entries[j] == entries[..i][j] == listed[j];
        if overlap {
          return InvalidPartition;
        }
      }
      assert listed[..numEntries] == listed;
      forall i: nat | i < numEntries ensures EncodeEntry(listed[i]) == buffer[16 + 16 * i..32 + 16 * i] {
        EntryInverse(buffer, i, listed[i]);
      }
      return Ok;
    }

    /** `xBOOT_Partition_Lookup_Type` */
    method LookupType(kind: u32) returns (entry: Option<Entry>)
      requires Valid()
      ensures entry == FirstOfType(Listed(), kind) && IsFirst(Listed(), kind, entry)
    {
      assert Listed()[0..] == Listed();
      for i := 0 to numEntries
        invariant forall j :: 0 <= j < i ==> Listed()[j].kind != kind
        invariant FirstOfType(Listed(), kind) == FirstOfType(Listed()[i..], kind)
      {
        assert Listed()[i..][1..] == Listed()[i + 1..];
        if entries[i].kind == kind {
          return Some(entries[i]);
        }
      }
      return None;
    }

    /** `xBOOT_Partition_Lookup_Slot` */
    method LookupSlot(slot: u32) returns (entry: Option<Entry>, status: Status)
      requires Valid()
      ensures status == InvalidArgument <==> slot > 1
      ensures status == InvalidPartition <==> slot <= 1 && entry.None?
      ensures slot <= 1 ==> entry == SlotOf(Listed(), slot) && IsFirst(Listed(), if slot == 0 then 2 else 3, entry)
      ensures status == Ok <==> entry.Some?
    {
      var kind: u32;
      if slot == 0 {
        kind := TYPE_PRIMARY_APP;
      } else if slot == 1 {
        kind := TYPE_SECONDARY_APP;
      } else {
        return None, InvalidArgument;
      }
      entry := LookupType(kind);
      status := if entry.Some? then Ok else InvalidPartition;
    }
  }

  lemma StatusOfEntry(e: Entry, storageSize: u32, sectorSize: u32)
    requires sectorSize > 0
    ensures ValidateEntry(e, storageSize, sectorSize) in {Ok, InvalidPartition}
  {
  }

  /** `validate_header` */
  method ValidateHeader(buffer: seq<bv8>) returns (status: Status)
    requires |buffer| >= TABLE_SIZE
    ensures status == Ok <==> HeaderRecognised(buffer) && Stamped(buffer, TABLE_CRC_AT)
    ensures status == CrcMismatch <==> HeaderRecognised(buffer) && !Stamped(buffer, TABLE_CRC_AT)
    ensures status in {Ok, CrcMismatch, InvalidPartition}
  {
    hide CrcBits, DataBits, U32At, WordOf, Xor;
    if U32At(buffer, 0) != PARTITION_MAGIC {
      return InvalidPartition;
    }
    if U32At(buffer, 4) != PARTITION_VERSION_1 {
      return InvalidPartition;
    }
    if U32At(buffer, 8) > MAX_PARTITIONS {
      return InvalidPartition;
    }
    var expected := CrcAt(buffer, TABLE_CRC_AT);
    var register := Calculate(buffer[..TABLE_CRC_AT], CRC32_INIT);
    if Xor(register, 0xFFFFFFFF) != expected {
      return CrcMismatch;
    }
    return Ok;
  }

  function FirstOfType(entries: seq<Entry>, kind: u32): Option<Entry> {
    if entries == [] then None
    else if entries[0].kind == kind then Some(entries[0])
    else FirstOfType(entries[1..], kind)
  }

  /** The first entry of that type, or nothing when no entry has it. */
  ghost predicate IsFirst(entries: seq<Entry>, kind: u32, entry: Option<Entry>) {
    if entry.None? then forall i :: 0 <= i < |entries| ==> entries[i].kind != kind
    else exists i | 0 <= i < |entries| ::
        entries[i] == entry.value && entries[i].kind == kind && forall j :: 0 <= j < i ==> entries[j].kind != kind
  }

  function SlotOf(entries: seq<Entry>, slot: u32): Option<Entry>
    requires slot <= 1
  {
    FirstOfType(entries, if slot == 0 then TYPE_PRIMARY_APP else TYPE_SECONDARY_APP)
  }

  // ----- Alignment by mask -----------------------------------------------------------

  ghost predicate IsPowerOfTwo(a: nat) {
    exists k: nat :: a == Pow2(k)
  }

  lemma {:induction false} MaskIsRemainder(v: nat, k: nat)
    ensures BitAnd(v, Pow2(k) - 1) == v % Pow2(k)
    decreases k
  {
    if k > 0 {
      var p := Pow2(k - 1);
      MaskIsRemainder(v / 2, k - 1);
      assert (2 * p - 1) / 2 == p - 1;
      HalfRemainder(v, p);
    }
  }

  lemma HalfRemainder(v: nat, p: nat)
    requires p > 0
    ensures v % (2 * p) == 2 * ((v / 2) % p) + v % 2
  {
    var q, r := (v / 2) / p, (v / 2) % p;
    assert v / 2 == q * p + r;
    assert v == q * (2 * p) + (2 * r + v % 2);
    RemainderOf(v, 2 * p, q, 2 * r + v % 2);
  }

  lemma {:induction false} AndSelf(a: nat)
    ensures BitAnd(a, a) == a
  {
    if a > 0 {
      AndSelf(a / 2);
    }
  }

  /** A number shares no bit with its predecessor exactly when it is a power of two. */
  lemma {:induction false} AndPredecessor(a: nat)
    requires a >= 1
    ensures BitAnd(a, a - 1) == 0 <==> IsPowerOfTwo(a)
  {
    hide BitAnd, IsPowerOfTwo;
    AndHalves(a);
    if a == 1 {
      OneIsPower();
    } else if a % 2 == 0 {
      AndPredecessor(a / 2);
      DoublePower(a / 2);
    } else {
      AndSelf(a / 2);
      OddIsNoPower(a);
    }
  }

  lemma AndHalves(a: nat)
    requires a >= 1
    ensures BitAnd(a, a - 1) == if a % 2 == 0 then 2 * BitAnd(a / 2, a / 2 - 1) else 2 * BitAnd(a / 2, a / 2)
  {
    assert (a - 1) / 2 == if a % 2 == 0 then a / 2 - 1 else a / 2;
  }

  lemma OneIsPower()
    ensures IsPowerOfTwo(1) && BitAnd(0, 0) == 0
  {
    assert Pow2(0) == 1;
  }

  lemma OddIsNoPower(a: nat)
    requires a > 1 && a % 2 == 1
    ensures !IsPowerOfTwo(a)
  {
    forall k: nat ensures a != Pow2(k) {
    }
  }

  lemma DoublePower(b: nat)
    requires b >= 1
    ensures IsPowerOfTwo(2 * b) <==> IsPowerOfTwo(b)
  {
    if IsPowerOfTwo(b) {
      var k: nat :| b == Pow2(k);
      assert 2 * b == Pow2(k + 1);
    }
    if IsPowerOfTwo(2 * b) {
      var k: nat :| 2 * b == Pow2(k);
      assert b == Pow2(k - 1);
    }
  }

  ghost predicate MaskTestsDivisibility(align: u32)
    requires align > 0
  {
    forall v: u32 :: IsAligned(v, align) <==> v % align == 0
  }

  /** The mask tests divisibility, for every word, exactly for powers of two. */
  lemma MaskExact(align: u32)
    requires align > 0
    ensures MaskTestsDivisibility(align) <==> IsPowerOfTwo(align)
  {
    if IsPowerOfTwo(align) {
      var k: nat :| align == Pow2(k);
      forall v: u32 ensures IsAligned(v, align) <==> v % align == 0 {
        MaskIsRemainder(v, k);
      }
    }
    AndPredecessor(align);
    assert IsAligned(align, align) <==> IsPowerOfTwo(align);
    assert align % align == 0;
  }

  // ----- What the table guarantees ---------------------------------------------------

  ghost predicate InStorage(e: Entry, storageSize: u32) {
    e.offset + e.size <= storageSize
  }

  ghost predicate BoundsMeanStorage(storageSize: u32) {
    forall e: Entry :: BoundsPass(e, storageSize) <==> InStorage(e, storageSize)
  }

  lemma AddNoWrap(a: u32, b: u32)
    requires a + b < TWO32
    ensures Add32(a, b) == a + b
  {
  }

  /** The bounds test is exact for every entry exactly when the storage is under 2 GiB. */
  lemma BoundsExact(storageSize: u32)
    ensures BoundsMeanStorage(storageSize) <==> storageSize < 0x8000_0000
  {
    if storageSize < 0x8000_0000 {
      forall e: Entry ensures BoundsPass(e, storageSize) <==> InStorage(e, storageSize) {
        if e.offset + e.size < TWO32 {
          AddNoWrap(e.offset, e.size);
        }
      }
    } else {
      var e := Entry(TYPE_PRIMARY_APP, storageSize, TWO32 - storageSize, 0);
      assert Add32(e.offset, e.size) == 0;
      assert BoundsPass(e, storageSize) && !InStorage(e, storageSize);
    }
  }

  ghost predicate Disjoint(a: Entry, b: Entry) {
    a.offset + a.size <= b.offset || b.offset + b.size <= a.offset
  }

  ghost predicate WellPlaced(e: Entry, storageSize: u32, sectorSize: u32)
    requires sectorSize > 0
  {
    e.kind != TYPE_INVALID && e.size > 0 && e.offset % sectorSize == 0 && e.size % sectorSize == 0
      && InStorage(e, storageSize)
  }

  ghost predicate PairwiseDisjoint(entries: seq<Entry>) {
    forall i, j :: 0 <= j < i < |entries| ==> Disjoint(entries[i], entries[j])
  }

  lemma EntryMeaning(e: Entry, storageSize: u32, sectorSize: u32)
    requires sectorSize > 0 && MaskTestsDivisibility(sectorSize) && BoundsMeanStorage(storageSize)
    ensures ValidateEntry(e, storageSize, sectorSize) == Ok <==> WellPlaced(e, storageSize, sectorSize)
  {
    hide IsAligned, BoundsPass;
  }

  lemma OverlapMeaning(a: Entry, b: Entry)
    requires a.offset + a.size < TWO32 && b.offset + b.size < TWO32
    ensures Overlap32(a, b) <==> !Disjoint(a, b)
  {
    AddNoWrap(a.offset, a.size);
    AddNoWrap(b.offset, b.size);
  }

  /**
   With a power-of-two sector and a storage under 2 GiB, the entries that pass are exactly
   the well-placed, pairwise disjoint ones.
   */
  lemma EntriesMeaning(entries: seq<Entry>, storageSize: u32, sectorSize: u32)
    requires IsPowerOfTwo(sectorSize) && storageSize < 0x8000_0000
    ensures EntriesPass(entries, storageSize, sectorSize)
      <==> (PairwiseDisjoint(entries)
            && forall i :: 0 <= i < |entries| ==> WellPlaced(entries[i], storageSize, sectorSize))
  {
    MaskExact(sectorSize);
    BoundsExact(storageSize);
    hide ValidateEntry, Overlap32, MaskTestsDivisibility, BoundsMeanStorage, IsPowerOfTwo;
    forall i | 0 <= i < |entries|
      ensures ValidateEntry(entries[i], storageSize, sectorSize) == Ok
        <==> WellPlaced(entries[i], storageSize, sectorSize)
    {
      EntryMeaning(entries[i], storageSize, sectorSize);
    }
    forall i, j | 0 <= j < i < |entries| && WellPlaced(entries[i], storageSize, sectorSize)
      && WellPlaced(entries[j], storageSize, sectorSize)
      ensures Overlap32(entries[i], entries[j]) <==> !Disjoint(entries[i], entries[j])
    {
      OverlapMeaning(entries[i], entries[j]);
    }
  }

  lemma {:induction false} FirstOfTypeIsListed(entries: seq<Entry>, kind: u32) returns (i: nat)
    requires FirstOfType(entries, kind).Some?
    ensures i < |entries| && entries[i] == FirstOfType(entries, kind).value && entries[i].kind == kind
  {
    if entries[0].kind == kind {
      i := 0;
    } else {
      var j := FirstOfTypeIsListed(entries[1..], kind);
      i := j + 1;
    }
  }

  /** The slots that lookup finds share no byte. */
  ghost predicate SlotsApart(entries: seq<Entry>) {
    var primary, secondary := SlotOf(entries, 0), SlotOf(entries, 1);
    primary.Some? && secondary.Some? ==> Disjoint(primary.value, secondary.value)
  }

  lemma PassingSlotsApart(entries: seq<Entry>, storageSize: u32, sectorSize: u32)
    requires sectorSize > 0 && storageSize < 0x8000_0000 && EntriesPass(entries, storageSize, sectorSize)
    ensures SlotsApart(entries)
  {
    hide Overlap32, IsAligned;
    if SlotOf(entries, 0).Some? && SlotOf(entries, 1).Some? {
      var i := FirstOfTypeIsListed(entries, TYPE_PRIMARY_APP);
      var j := FirstOfTypeIsListed(entries, TYPE_SECONDARY_APP);
      hide FirstOfType;
      BoundsExact(storageSize);
      assert InStorage(entries[i], storageSize) && InStorage(entries[j], storageSize);
      OverlapMeaning(entries[i], entries[j]);
      OverlapMeaning(entries[j], entries[i]);
      assert i != j;
    }
  }

  /** Below 2 GiB the two application slots of an accepted table never share a byte, whatever the sector size. */
  lemma SlotsNeverOverlap(buffer: seq<bv8>, storageSize: u32, sectorSize: u32)
    requires Acceptable(buffer, storageSize, sectorSize) && storageSize < 0x8000_0000
    ensures SlotsApart(EntriesAt(buffer, U32At(buffer, 8)))
  {
    hide U32At, Stamped, EntriesPass, SlotsApart;
    PassingSlotsApart(EntriesAt(buffer, U32At(buffer, 8)), storageSize, sectorSize);
  }

  lemma HalfRange()
    ensures Pow2(31) == 0x8000_0000
  {
    assert Pow2(4) == 16 && Pow2(7) == 128;
    hide Pow2;
    PowSum(4, 4);
    PowSum(8, 8);
    PowSum(16, 8);
    PowSum(24, 7);
  }

  lemma {:induction false} PowGrows(k: nat, n: nat)
    requires k <= n
    ensures Pow2(k) <= Pow2(n)
    decreases n
  {
    if k < n {
      PowGrows(k, n - 1);
    }
  }

  /** The power-of-two sector sizes. */
  function SectorSize(k: nat): (s: u32)
    requires k <= 31
    ensures s > 0
  {
    PowGrows(k, 31);
    HalfRange();
    Pow2(k)
  }

  lemma HalfRangeAligned(k: nat)
    requires k <= 31
    ensures IsAligned(0x8000_0000, SectorSize(k))
  {
    MaskIsRemainder(0x8000_0000, k);
    PowSum(31 - k, k);
    HalfRange();
    RemainderOf(0x8000_0000, Pow2(k), Pow2(31 - k), 0);
  }

  /** The lookups are safe on every table of these sizes that the parser lets through. */
  ghost predicate SlotsAlwaysApart(storageSize: u32, sectorSize: u32)
    requires sectorSize > 0
  {
    forall entries: seq<Entry> ::
      |entries| <= MAX_PARTITIONS && EntriesPass(entries, storageSize, sectorSize) ==> SlotsApart(entries)
  }

  /** Entries of half the address range wrap to nothing in both tests. */
  lemma LargeStorageOverlaps(storageSize: u32, k: nat) returns (entries: seq<Entry>)
    requires storageSize >= 0x8000_0000 && k <= 31
    ensures |entries| == 2 && EntriesPass(entries, storageSize, SectorSize(k)) && !SlotsApart(entries)
  {
    var primary := Entry(TYPE_PRIMARY_APP, 0x8000_0000, 0x8000_0000, 0);
    var secondary := primary.(kind := TYPE_SECONDARY_APP);
    entries := [primary, secondary];
    HalfRangeAligned(k);
    hide IsAligned;
    assert Add32(0x8000_0000, 0x8000_0000) == 0;
    assert ValidateEntry(primary, storageSize, SectorSize(k)) == Ok;
    assert ValidateEntry(secondary, storageSize, SectorSize(k)) == Ok;
    assert !Overlap32(secondary, primary);
    assert entries[1..] == [secondary];
    assert FirstOfType(entries, TYPE_SECONDARY_APP) == FirstOfType(entries[1..], TYPE_SECONDARY_APP) == Some(secondary);
  }

  /**
   For every power-of-two sector size: tables that pass keep the two application slots
   apart exactly when the storage is below 2 GiB.
   */
  lemma SlotsApartIff(storageSize: u32, k: nat)
    requires k <= 31
    ensures SlotsAlwaysApart(storageSize, SectorSize(k)) <==> storageSize < 0x8000_0000
  {
    var sectorSize := SectorSize(k);
    if storageSize < 0x8000_0000 {
      forall entries: seq<Entry> | |entries| <= MAX_PARTITIONS && EntriesPass(entries, storageSize, sectorSize)
        ensures SlotsApart(entries)
      {
        PassingSlotsApart(entries, storageSize, sectorSize);
      }
    } else {
      var entries := LargeStorageOverlaps(storageSize, k);
      assert |entries| <= MAX_PARTITIONS && EntriesPass(entries, storageSize, sectorSize) && !SlotsApart(entries);
    }
  }

  /** Damage confined to four consecutive bytes of an accepted table is always noticed. */
  lemma BurstRejected(good: seq<bv8>, bad: seq<bv8>, storageSize: u32, sectorSize: u32, from: nat)
    requires Acceptable(good, storageSize, sectorSize)
    requires |bad| >= TABLE_SIZE && DifferWithin(good[..TABLE_SIZE], bad[..TABLE_SIZE], from, 4)
    ensures !Acceptable(bad, storageSize, sectorSize)
  {
    hide CrcBits, DataBits, U32At, CrcAt, Stamped, EntriesPass, HeaderRecognised;
    BurstBreaksStamp(good, bad, TABLE_CRC_AT, from);
  }
}
