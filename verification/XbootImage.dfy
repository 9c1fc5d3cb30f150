/**
 Image headers of the boot loader: what a header must satisfy to be accepted, which
 damage is always noticed, and what the bounds check means in exact integers.
 */
module XbootImage {
  import opened Bytes
  import opened XbootDefs
  import opened XbootCrc

  const IMAGE_MAGIC: u32 := 0x58424F54
  const HEADER_VERSION_1: u32 := 1
  const HEADER_SIZE: u32 := 52
  const HEADER_CRC_AT: nat := 48

  datatype Header = Header(magic: u32, headerVersion: u32, headerSize: u32, imageSize: u32,
                           loadAddress: u32, entryAddress: u32, versionMajor: u32, versionMinor: u32,
                           versionPatch: u32, buildNumber: u32, flags: u32, payloadCrc32: bv32, headerCrc32: bv32)

  datatype Parsed = Accepted(header: Header) | Rejected(status: Status)

  /** The fields of the structure in the order they are laid out. */
  function HeaderAt(buffer: seq<bv8>): Header
    requires |buffer| >= HEADER_SIZE
  {
    Header(U32At(buffer, 0), U32At(buffer, 4), U32At(buffer, 8), U32At(buffer, 12), U32At(buffer, 16),
           U32At(buffer, 20), U32At(buffer, 24), U32At(buffer, 28), U32At(buffer, 32), U32At(buffer, 36),
           U32At(buffer, 40), CrcAt(buffer, 44), CrcAt(buffer, 48))
  }

  /** The words of the structure, each as it lies in memory. */
  function HeaderWords(h: Header): (words: seq<seq<bv8>>)
    ensures |words| == 13 && forall w :: w in words ==> |w| == 4
  {
    [WordBytes(h.magic), WordBytes(h.headerVersion), WordBytes(h.headerSize), WordBytes(h.imageSize),
     WordBytes(h.loadAddress), WordBytes(h.entryAddress), WordBytes(h.versionMajor), WordBytes(h.versionMinor),
     WordBytes(h.versionPatch), WordBytes(h.buildNumber), WordBytes(h.flags),
     CrcBytes(h.payloadCrc32), CrcBytes(h.headerCrc32)]
  }

  /** A header as the structure is laid out in memory. */
  function EncodeHeader(h: Header): (bytes: seq<bv8>)
    ensures |bytes| == 52
  {
    ConcatFour(HeaderWords(h), 0);
    Concat(HeaderWords(h))
  }

  /** Reading back is the inverse of laying out, and the other way round. */
  lemma HeaderInverse(buffer: seq<bv8>, h: Header)
    requires |buffer| >= HEADER_SIZE
    ensures buffer[..HEADER_SIZE] == EncodeHeader(h) <==> HeaderAt(buffer) == h
  {
    hide U32At, CrcAt, WordBytes, CrcBytes, HeaderWords, HeaderAt;
    var words, front := HeaderWords(h), buffer[0..HEADER_SIZE];
    assert front == buffer[..HEADER_SIZE];
    ConcatFour(words, 0);
    HeaderByWords(buffer, h);
    if front == EncodeHeader(h) {
      forall i: nat | i < 13 ensures SameWord(buffer, h, i) {
        ConcatFour(words, i);
        SliceOfSlice(buffer, 0, HEADER_SIZE, 4 * i, 4 * i + 4);
      }
    }
    if forall i: nat :: i < 13 ==> SameWord(buffer, h, i) {
      forall i: nat | i < 13 ensures front[4 * i..4 * i + 4] == words[i] {
        assert SameWord(buffer, h, i);
        SliceOfSlice(buffer, 0, HEADER_SIZE, 4 * i, 4 * i + 4);
      }
      WordsAre(front, words);
    }
  }

  /** Word `i` of the buffer is word `i` of the header. */
  ghost predicate SameWord(buffer: seq<bv8>, h: Header, i: nat)
    requires |buffer| >= HEADER_SIZE && i < 13
  {
    buffer[4 * i..4 * i + 4] == HeaderWords(h)[i]
  }

  lemma HeaderByWords(buffer: seq<bv8>, h: Header)
    requires |buffer| >= HEADER_SIZE
    ensures HeaderAt(buffer) == h <==> forall i: nat :: i < 13 ==> SameWord(buffer, h, i)
  {
    hide U32At, CrcAt, SameWord, HeaderWords;
    FirstWords(buffer, h);
    MiddleWords(buffer, h);
    LaterWords(buffer, h);
    LastWords(buffer, h);
    forall i: nat | i < 13 ensures HeaderAt(buffer) == h ==> SameWord(buffer, h, i) {
      assert i == 0 || i == 1 || i == 2 || i == 3 || i == 4 || i == 5 || i == 6
          || i == 7 || i == 8 || i == 9 || i == 10 || i == 11 || i == 12;
    }
  }

  lemma FirstWords(buffer: seq<bv8>, h: Header)
    requires |buffer| >= HEADER_SIZE
    ensures SameWord(buffer, h, 0) <==> U32At(buffer, 0) == h.magic
    ensures SameWord(buffer, h, 1) <==> U32At(buffer, 4) == h.headerVersion
    ensures SameWord(buffer, h, 2) <==> U32At(buffer, 8) == h.headerSize
    ensures SameWord(buffer, h, 3) <==> U32At(buffer, 12) == h.imageSize
  {
    hide U32At, CrcAt, WordBytes, CrcBytes;
    WordReads(buffer, 0, h.magic);
    WordReads(buffer, 4, h.headerVersion);
    WordReads(buffer, 8, h.headerSize);
    WordReads(buffer, 12, h.imageSize);
  }

  lemma MiddleWords(buffer: seq<bv8>, h: Header)
    requires |buffer| >= HEADER_SIZE
    ensures SameWord(buffer, h, 4) <==> U32At(buffer, 16) == h.loadAddress
    ensures SameWord(buffer, h, 5) <==> U32At(buffer, 20) == h.entryAddress
    ensures SameWord(buffer, h, 6) <==> U32At(buffer, 24) == h.versionMajor
  {
    hide U32At, CrcAt, WordBytes, CrcBytes;
    WordReads(buffer, 16, h.loadAddress);
    WordReads(buffer, 20, h.entryAddress);
    WordReads(buffer, 24, h.versionMajor);
  }

  lemma LaterWords(buffer: seq<bv8>, h: Header)
    requires |buffer| >= HEADER_SIZE
    ensures SameWord(buffer, h, 7) <==> U32At(buffer, 28) == h.versionMinor
    ensures SameWord(buffer, h, 8) <==> U32At(buffer, 32) == h.versionPatch
    ensures SameWord(buffer, h, 9) <==> U32At(buffer, 36) == h.buildNumber
  {
    hide U32At, CrcAt, WordBytes, CrcBytes;
    WordReads(buffer, 28, h.versionMinor);
    WordReads(buffer, 32, h.versionPatch);
    WordReads(buffer, 36, h.buildNumber);
  }

  lemma LastWords(buffer: seq<bv8>, h: Header)
    requires |buffer| >= HEADER_SIZE
    ensures SameWord(buffer, h, 10) <==> U32At(buffer, 40) == h.flags
    ensures SameWord(buffer, h, 11) <==> CrcAt(buffer, 44) == h.payloadCrc32
    ensures SameWord(buffer, h, 12) <==> CrcAt(buffer, 48) == h.headerCrc32
  {
    hide U32At, CrcAt, WordBytes, CrcBytes;
    WordReads(buffer, 40, h.flags);
    CrcReads(buffer, 44, h.payloadCrc32);
    CrcReads(buffer, 48, h.headerCrc32);
  }

  ghost predicate Recognised(h: Header) {
    h.magic == IMAGE_MAGIC && h.headerVersion == HEADER_VERSION_1 && h.headerSize == HEADER_SIZE
  }

  ghost predicate Acceptable(buffer: seq<bv8>) {
    |buffer| >= HEADER_SIZE && Recognised(HeaderAt(buffer)) && Stamped(buffer, HEADER_CRC_AT)
  }

  /** `xBOOT_Image_Header_Parse` */
  method HeaderParse(buffer: seq<bv8>) returns (r: Parsed)
    ensures r.Accepted? <==> Acceptable(buffer)
    ensures r.Accepted? ==> r.header == HeaderAt(buffer) && EncodeHeader(r.header) == buffer[..HEADER_SIZE]
    ensures r == Rejected(InvalidArgument) <==> |buffer| < HEADER_SIZE
    ensures r == Rejected(InvalidImage) <==> |buffer| >= HEADER_SIZE && !Recognised(HeaderAt(buffer))
    ensures r == Rejected(CrcMismatch)
      <==> |buffer| >= HEADER_SIZE && Recognised(HeaderAt(buffer)) && !Acceptable(buffer)
  {
    hide CrcBits, DataBits, U32At, WordOf, Xor, EncodeHeader;
    if |buffer| < HEADER_SIZE {
      return Rejected(InvalidArgument);
    }
    if U32At(buffer, 0) != IMAGE_MAGIC {
      return Rejected(InvalidImage);
    }
    if U32At(buffer, 4) != HEADER_VERSION_1 {
      return Rejected(InvalidImage);
    }
    if U32At(buffer, 8) != HEADER_SIZE {
      return Rejected(InvalidImage);
    }
    var expected := CrcAt(buffer, HEADER_CRC_AT);
    var register := Calculate(buffer[..HEADER_CRC_AT], CRC32_INIT);
    if Xor(register, 0xFFFFFFFF) != expected {
      return Rejected(CrcMismatch);
    }
    HeaderInverse(buffer, HeaderAt(buffer));
    return Accepted(HeaderAt(buffer));
  }

  /** The checksum a header is stamped with: the finished CRC of the words before it. */
  function Stamp(h: Header): Header {
    h.(headerCrc32 := Xor(CrcBits(0xFFFF_FFFF, DataBits(EncodeHeader(h)[..48])), 0xFFFF_FFFF))
  }

  lemma FrontWords(words: seq<seq<bv8>>)
    requires |words| == 13 && forall w :: w in words ==> |w| == 4
    ensures |Concat(words)| == 52 && Concat(words)[..48] == Concat(words[..12])
  {
    assert words == words[..12] + words[12..];
    ConcatAppend(words[..12], words[12..]);
    ConcatFour(words, 0);
    ConcatFour(words[..12], 0);
  }

  /** The checksum field does not enter into its own computation. */
  lemma StampOutside(h: Header, crc: bv32)
    ensures EncodeHeader(h.(headerCrc32 := crc))[..48] == EncodeHeader(h)[..48] && |EncodeHeader(h)| == 52
  {
    hide WordBytes, CrcBytes;
    var a, b := HeaderWords(h), HeaderWords(h.(headerCrc32 := crc));
    assert a[..12] == b[..12];
    hide HeaderWords;
    FrontWords(a);
    FrontWords(b);
  }

  /**
   A header laid out word by word with the right magic, version and size is accepted, with
   any bytes behind it, exactly when its checksum field is the CRC of the other words, and
   is read back field by field.
   */
  lemma HeaderRoundTrip(h: Header, rest: seq<bv8>)
    ensures var buffer := EncodeHeader(h) + rest;
      && |buffer| >= HEADER_SIZE && HeaderAt(buffer) == h
      && (Acceptable(buffer)
          <==> h.magic == 0x58424F54 && h.headerVersion == 1 && h.headerSize == 52 && h == Stamp(h))
    ensures Stamp(Stamp(h)) == Stamp(h)
  {
    hide CrcBits, DataBits, U32At, CrcAt, Xor, EncodeHeader, WordBytes, CrcBytes;
    StampOutside(h, h.headerCrc32);
    StampOutside(h, Stamp(h).headerCrc32);
    var buffer := EncodeHeader(h) + rest;
    assert buffer[..52] == EncodeHeader(h);
    HeaderInverse(buffer, h);
    assert buffer[..48] == EncodeHeader(h)[..48];
  }

  /**
   Damage confined to four consecutive bytes of a header whose checksum is right, as that
   of every accepted one is, is always noticed, in the checksum field too.
   */
  lemma BurstRejected(good: seq<bv8>, bad: seq<bv8>, from: nat)
    requires |good| >= HEADER_SIZE && |bad| >= HEADER_SIZE && Stamped(good, HEADER_CRC_AT)
    requires DifferWithin(good[..HEADER_SIZE], bad[..HEADER_SIZE], from, 4)
    ensures !Acceptable(bad)
  {
    hide CrcBits, DataBits, U32At, CrcAt, Stamped;
    BurstBreaksStamp(good, bad, HEADER_CRC_AT, from);
  }

  // ----- Bounds ----------------------------------------------------------------------

  /** `xBOOT_Image_Validate_Bounds`, in wrapping 32-bit arithmetic. */
  function ValidateBounds(h: Header, memStart: u32, memSize: u32): Status {
    if memSize == 0 then InvalidArgument
    else if h.loadAddress < memStart || h.imageSize > memSize
            || Add32(h.loadAddress, h.imageSize) < h.loadAddress
            || Add32(h.loadAddress, h.imageSize) > Add32(memStart, memSize) then InvalidImage
    else if h.entryAddress < h.loadAddress || h.entryAddress >= Add32(h.loadAddress, h.imageSize) then InvalidImage
    else Ok
  }

  /** The image lies inside the memory and its entry point inside the image. */
  ghost predicate Inside(h: Header, memStart: u32, memSize: u32) {
    && memStart <= h.loadAddress && h.loadAddress + h.imageSize <= memStart + memSize
    && h.loadAddress <= h.entryAddress < h.loadAddress + h.imageSize
  }

  /**
   The check never passes a misplaced image, wrap-around or not; and it passes every
   well-placed one exactly when the memory ends below the top of the address space.
   */
  lemma BoundsExact(h: Header, memStart: u32, memSize: u32)
    ensures ValidateBounds(h, memStart, memSize) == Ok <==> Inside(h, memStart, memSize) && memStart + memSize < TWO32
  {
    var load, image := h.loadAddress, h.imageSize;
    assert Add32(load, image) == if load + image < TWO32 then load + image else load + image - TWO32;
    assert Add32(memStart, memSize) ==
      if memStart + memSize < TWO32 then memStart + memSize else memStart + memSize - TWO32;
  }

  /** A region that reaches the top of the address space admits no image at all. */
  lemma TopOfMemoryUnusable(memStart: u32, memSize: u32)
    requires memStart + memSize >= TWO32
    ensures forall h: Header :: ValidateBounds(h, memStart, memSize) != Ok
    ensures exists h: Header :: Inside(h, memStart, memSize)
  {
    forall h: Header ensures ValidateBounds(h, memStart, memSize) != Ok {
      BoundsExact(h, memStart, memSize);
    }
    var h := Header(IMAGE_MAGIC, 1, 52, 1, memStart, memStart, 0, 0, 0, 0, 0, 0, 0);
    assert Inside(h, memStart, memSize);
  }
}
