/**
 The 256-entry table of the boot loader's CRC-32 and the proof that each entry is eight
 steps of the bit-by-bit register (section 3.2.9 of IEEE 802.3, reflected polynomial).
 */
module XbootCrcTable {

  /** One bit of the reflected register. */
  function BitStep(x: bv32): bv32 {
    if x & 1 == 1 then (x >> 1) ^ 0xEDB88320 else x >> 1
  }

  function ByteStep(x: bv32): bv32 {
    BitStep(BitStep(BitStep(BitStep(BitStep(BitStep(BitStep(BitStep(x))))))))
  }

  function Words0(): (w: seq<bv32>)
    ensures |w| == 16
  {
    [0x00000000, 0x77073096, 0xEE0E612C, 0x990951BA, 0x076DC419, 0x706AF48F, 0xE963A535, 0x9E6495A3,
     0x0EDB8832, 0x79DCB8A4, 0xE0D5E91E, 0x97D2D988, 0x09B64C2B, 0x7EB17CBD, 0xE7B82D07, 0x90BF1D91]
  }

  function Words1(): (w: seq<bv32>)
    ensures |w| == 16
  {
    [0x1DB71064, 0x6AB020F2, 0xF3B97148, 0x84BE41DE, 0x1ADAD47D, 0x6DDDE4EB, 0xF4D4B551, 0x83D385C7,
     0x136C9856, 0x646BA8C0, 0xFD62F97A, 0x8A65C9EC, 0x14015C4F, 0x63066CD9, 0xFA0F3D63, 0x8D080DF5]
  }

  function Words2(): (w: seq<bv32>)
    ensures |w| == 16
  {
    [0x3B6E20C8, 0x4C69105E, 0xD56041E4, 0xA2677172, 0x3C03E4D1, 0x4B04D447, 0xD20D85FD, 0xA50AB56B,
     0x35B5A8FA, 0x42B2986C, 0xDBBBC9D6, 0xACBCF940, 0x32D86CE3, 0x45DF5C75, 0xDCD60DCF, 0xABD13D59]
  }

  function Words3(): (w: seq<bv32>)
    ensures |w| == 16
  {
    [0x26D930AC, 0x51DE003A, 0xC8D75180, 0xBFD06116, 0x21B4F4B5, 0x56B3C423, 0xCFBA9599, 0xB8BDA50F,
     0x2802B89E, 0x5F058808, 0xC60CD9B2, 0xB10BE924, 0x2F6F7C87, 0x58684C11, 0xC1611DAB, 0xB6662D3D]
  }

  function Words4(): (w: seq<bv32>)
    ensures |w| == 16
  {
    [0x76DC4190, 0x01DB7106, 0x98D220BC, 0xEFD5102A, 0x71B18589, 0x06B6B51F, 0x9FBFE4A5, 0xE8B8D433,
     0x7807C9A2, 0x0F00F934, 0x9609A88E, 0xE10E9818, 0x7F6A0DBB, 0x086D3D2D, 0x91646C97, 0xE6635C01]
  }

  function Words5(): (w: seq<bv32>)
    ensures |w| == 16
  {
    [0x6B6B51F4, 0x1C6C6162, 0x856530D8, 0xF262004E, 0x6C0695ED, 0x1B01A57B, 0x8208F4C1, 0xF50FC457,
     0x65B0D9C6, 0x12B7E950, 0x8BBEB8EA, 0xFCB9887C, 0x62DD1DDF, 0x15DA2D49, 0x8CD37CF3, 0xFBD44C65]
  }

  function Words6(): (w: seq<bv32>)
    ensures |w| == 16
  {
    [0x4DB26158, 0x3AB551CE, 0xA3BC0074, 0xD4BB30E2, 0x4ADFA541, 0x3DD895D7, 0xA4D1C46D, 0xD3D6F4FB,
     0x4369E96A, 0x346ED9FC, 0xAD678846, 0xDA60B8D0, 0x44042D73, 0x33031DE5, 0xAA0A4C5F, 0xDD0D7CC9]
  }

  function Words7(): (w: seq<bv32>)
    ensures |w| == 16
  {
    [0x5005713C, 0x270241AA, 0xBE0B1010, 0xC90C2086, 0x5768B525, 0x206F85B3, 0xB966D409, 0xCE61E49F,
     0x5EDEF90E, 0x29D9C998, 0xB0D09822, 0xC7D7A8B4, 0x59B33D17, 0x2EB40D81, 0xB7BD5C3B, 0xC0BA6CAD]
  }

  function Words8(): (w: seq<bv32>)
    ensures |w| == 16
  {
    [0xEDB88320, 0x9ABFB3B6, 0x03B6E20C, 0x74B1D29A, 0xEAD54739, 0x9DD277AF, 0x04DB2615, 0x73DC1683,
     0xE3630B12, 0x94643B84, 0x0D6D6A3E, 0x7A6A5AA8, 0xE40ECF0B, 0x9309FF9D, 0x0A00AE27, 0x7D079EB1]
  }

  function Words9(): (w: seq<bv32>)
    ensures |w| == 16
  {
    [0xF00F9344, 0x8708A3D2, 0x1E01F268, 0x6906C2FE, 0xF762575D, 0x806567CB, 0x196C3671, 0x6E6B06E7,
     0xFED41B76, 0x89D32BE0, 0x10DA7A5A, 0x67DD4ACC, 0xF9B9DF6F, 0x8EBEEFF9, 0x17B7BE43, 0x60B08ED5]
  }

  function WordsA(): (w: seq<bv32>)
    ensures |w| == 16
  {
    [0xD6D6A3E8, 0xA1D1937E, 0x38D8C2C4, 0x4FDFF252, 0xD1BB67F1, 0xA6BC5767, 0x3FB506DD, 0x48B2364B,
     0xD80D2BDA, 0xAF0A1B4C, 0x36034AF6, 0x41047A60, 0xDF60EFC3, 0xA867DF55, 0x316E8EEF, 0x4669BE79]
  }

  function WordsB(): (w: seq<bv32>)
    ensures |w| == 16
  {
    [0xCB61B38C, 0xBC66831A, 0x256FD2A0, 0x5268E236, 0xCC0C7795, 0xBB0B4703, 0x220216B9, 0x5505262F,
     0xC5BA3BBE, 0xB2BD0B28, 0x2BB45A92, 0x5CB36A04, 0xC2D7FFA7, 0xB5D0CF31, 0x2CD99E8B, 0x5BDEAE1D]
  }

  function WordsC(): (w: seq<bv32>)
    ensures |w| == 16
  {
    [0x9B64C2B0, 0xEC63F226, 0x756AA39C, 0x026D930A, 0x9C0906A9, 0xEB0E363F, 0x72076785, 0x05005713,
     0x95BF4A82, 0xE2B87A14, 0x7BB12BAE, 0x0CB61B38, 0x92D28E9B, 0xE5D5BE0D, 0x7CDCEFB7, 0x0BDBDF21]
  }

  function WordsD(): (w: seq<bv32>)
    ensures |w| == 16
  {
    [0x86D3D2D4, 0xF1D4E242, 0x68DDB3F8, 0x1FDA836E, 0x81BE16CD, 0xF6B9265B, 0x6FB077E1, 0x18B74777,
     0x88085AE6, 0xFF0F6A70, 0x66063BCA, 0x11010B5C, 0x8F659EFF, 0xF862AE69, 0x616BFFD3, 0x166CCF45]
  }

  function WordsE(): (w: seq<bv32>)
    ensures |w| == 16
  {
    [0xA00AE278, 0xD70DD2EE, 0x4E048354, 0x3903B3C2, 0xA7672661, 0xD06016F7, 0x4969474D, 0x3E6E77DB,
     0xAED16A4A, 0xD9D65ADC, 0x40DF0B66, 0x37D83BF0, 0xA9BCAE53, 0xDEBB9EC5, 0x47B2CF7F, 0x30B5FFE9]
  }

  function WordsF(): (w: seq<bv32>)
    ensures |w| == 16
  {
    [0xBDBDF21C, 0xCABAC28A, 0x53B39330, 0x24B4A3A6, 0xBAD03605, 0xCDD70693, 0x54DE5729, 0x23D967BF,
     0xB3667A2E, 0xC4614AB8, 0x5D681B02, 0x2A6F2B94, 0xB40BBE37, 0xC30C8EA1, 0x5A05DF1B, 0x2D02EF8D]
  }

  /** `s_crc32_table`. */
  function Table(): (t: seq<bv32>)
    ensures |t| == 256
  {
    (Words0() + Words1() + Words2() + Words3())
    + (Words4() + Words5() + Words6() + Words7())
    + (Words8() + Words9() + WordsA() + WordsB())
    + (WordsC() + WordsD() + WordsE() + WordsF())
  }

  lemma Row0InTable()
    ensures |Table()| == 256 && forall j :: 0 <= j < 16 ==> Table()[0 + j] == Words0()[j]
  {
    hide Words0, Words1, Words2, Words3, Words4, Words5, Words6, Words7;
    hide Words8, Words9, WordsA, WordsB, WordsC, WordsD, WordsE, WordsF;
  }

  lemma Row0(i: bv32)
    requires 0 <= i < 16
    ensures |Table()| == 256 && i as nat < 256 && Table()[i as nat] == ByteStep(i)
  {
    Row0InTable();
    hide Table;
    if i == 0 {
      assert Table()[0] == Words0()[0];
    } else if i == 1 {
      assert Table()[1] == Words0()[1];
    } else if i == 2 {
      assert Table()[2] == Words0()[2];
    } else if i == 3 {
      assert Table()[3] == Words0()[3];
    } else if i == 4 {
      assert Table()[4] == Words0()[4];
    } else if i == 5 {
      assert Table()[5] == Words0()[5];
    } else if i == 6 {
      assert Table()[6] == Words0()[6];
    } else if i == 7 {
      assert Table()[7] == Words0()[7];
    } else if i == 8 {
      assert Table()[8] == Words0()[8];
    } else if i == 9 {
      assert Table()[9] == Words0()[9];
    } else if i == 10 {
      assert Table()[10] == Words0()[10];
    } else if i == 11 {
      assert Table()[11] == Words0()[11];
    } else if i == 12 {
      assert Table()[12] == Words0()[12];
    } else if i == 13 {
      assert Table()[13] == Words0()[13];
    } else if i == 14 {
      assert Table()[14] == Words0()[14];
    } else if i == 15 {
      assert Table()[15] == Words0()[15];
    }
  }

  lemma Row1InTable()
    ensures |Table()| == 256 && forall j :: 0 <= j < 16 ==> Table()[16 + j] == Words1()[j]
  {
    hide Words0, Words1, Words2, Words3, Words4, Words5, Words6, Words7;
    hide Words8, Words9, WordsA, WordsB, WordsC, WordsD, WordsE, WordsF;
  }

  lemma Row1(i: bv32)
    requires 16 <= i < 32
    ensures |Table()| == 256 && i as nat < 256 && Table()[i as nat] == ByteStep(i)
  {
    Row1InTable();
    hide Table;
    if i == 16 {
      assert Table()[16] == Words1()[0];
    } else if i == 17 {
      assert Table()[17] == Words1()[1];
    } else if i == 18 {
      assert Table()[18] == Words1()[2];
    } else if i == 19 {
      assert Table()[19] == Words1()[3];
    } else if i == 20 {
      assert Table()[20] == Words1()[4];
    } else if i == 21 {
      assert Table()[21] == Words1()[5];
    } else if i == 22 {
      assert Table()[22] == Words1()[6];
    } else if i == 23 {
      assert Table()[23] == Words1()[7];
    } else if i == 24 {
      assert Table()[24] == Words1()[8];
    } else if i == 25 {
      assert Table()[25] == Words1()[9];
    } else if i == 26 {
      assert Table()[26] == Words1()[10];
    } else if i == 27 {
      assert Table()[27] == Words1()[11];
    } else if i == 28 {
      assert Table()[28] == Words1()[12];
    } else if i == 29 {
      assert Table()[29] == Words1()[13];
    } else if i == 30 {
      assert Table()[30] == Words1()[14];
    } else if i == 31 {
      assert Table()[31] == Words1()[15];
    }
  }

  lemma Row2InTable()
    ensures |Table()| == 256 && forall j :: 0 <= j < 16 ==> Table()[32 + j] == Words2()[j]
  {
    hide Words0, Words1, Words2, Words3, Words4, Words5, Words6, Words7;
    hide Words8, Words9, WordsA, WordsB, WordsC, WordsD, WordsE, WordsF;
  }

  lemma Row2(i: bv32)
    requires 32 <= i < 48
    ensures |Table()| == 256 && i as nat < 256 && Table()[i as nat] == ByteStep(i)
  {
    Row2InTable();
    hide Table;
    if i == 32 {
      assert Table()[32] == Words2()[0];
    } else if i == 33 {
      assert Table()[33] == Words2()[1];
    } else if i == 34 {
      assert Table()[34] == Words2()[2];
    } else if i == 35 {
      assert Table()[35] == Words2()[3];
    } else if i == 36 {
      assert Table()[36] == Words2()[4];
    } else if i == 37 {
      assert Table()[37] == Words2()[5];
    } else if i == 38 {
      assert Table()[38] == Words2()[6];
    } else if i == 39 {
      assert Table()[39] == Words2()[7];
    } else if i == 40 {
      assert Table()[40] == Words2()[8];
    } else if i == 41 {
      assert Table()[41] == Words2()[9];
    } else if i == 42 {
      assert Table()[42] == Words2()[10];
    } else if i == 43 {
      assert Table()[43] == Words2()[11];
    } else if i == 44 {
      assert Table()[44] == Words2()[12];
    } else if i == 45 {
      assert Table()[45] == Words2()[13];
    } else if i == 46 {
      assert Table()[46] == Words2()[14];
    } else if i == 47 {
      assert Table()[47] == Words2()[15];
    }
  }

  lemma Row3InTable()
    ensures |Table()| == 256 && forall j :: 0 <= j < 16 ==> Table()[48 + j] == Words3()[j]
  {
    hide Words0, Words1, Words2, Words3, Words4, Words5, Words6, Words7;
    hide Words8, Words9, WordsA, WordsB, WordsC, WordsD, WordsE, WordsF;
  }

  lemma Row3(i: bv32)
    requires 48 <= i < 64
    ensures |Table()| == 256 && i as nat < 256 && Table()[i as nat] == ByteStep(i)
  {
    Row3InTable();
    hide Table;
    if i == 48 {
      assert Table()[48] == Words3()[0];
    } else if i == 49 {
      assert Table()[49] == Words3()[1];
    } else if i == 50 {
      assert Table()[50] == Words3()[2];
    } else if i == 51 {
      assert Table()[51] == Words3()[3];
    } else if i == 52 {
      assert Table()[52] == Words3()[4];
    } else if i == 53 {
      assert Table()[53] == Words3()[5];
    } else if i == 54 {
      assert Table()[54] == Words3()[6];
    } else if i == 55 {
      assert Table()[55] == Words3()[7];
    } else if i == 56 {
      assert Table()[56] == Words3()[8];
    } else if i == 57 {
      assert Table()[57] == Words3()[9];
    } else if i == 58 {
      assert Table()[58] == Words3()[10];
    } else if i == 59 {
      assert Table()[59] == Words3()[11];
    } else if i == 60 {
      assert Table()[60] == Words3()[12];
    } else if i == 61 {
      assert Table()[61] == Words3()[13];
    } else if i == 62 {
      assert Table()[62] == Words3()[14];
    } else if i == 63 {
      assert Table()[63] == Words3()[15];
    }
  }

  lemma Row4InTable()
    ensures |Table()| == 256 && forall j :: 0 <= j < 16 ==> Table()[64 + j] == Words4()[j]
  {
    hide Words0, Words1, Words2, Words3, Words4, Words5, Words6, Words7;
    hide Words8, Words9, WordsA, WordsB, WordsC, WordsD, WordsE, WordsF;
  }

  lemma Row4(i: bv32)
    requires 64 <= i < 80
    ensures |Table()| == 256 && i as nat < 256 && Table()[i as nat] == ByteStep(i)
  {
    Row4InTable();
    hide Table;
    if i == 64 {
      assert Table()[64] == Words4()[0];
    } else if i == 65 {
      assert Table()[65] == Words4()[1];
    } else if i == 66 {
      assert Table()[66] == Words4()[2];
    } else if i == 67 {
      assert Table()[67] == Words4()[3];
    } else if i == 68 {
      assert Table()[68] == Words4()[4];
    } else if i == 69 {
      assert Table()[69] == Words4()[5];
    } else if i == 70 {
      assert Table()[70] == Words4()[6];
    } else if i == 71 {
      assert Table()[71] == Words4()[7];
    } else if i == 72 {
      assert Table()[72] == Words4()[8];
    } else if i == 73 {
      assert Table()[73] == Words4()[9];
    } else if i == 74 {
      assert Table()[74] == Words4()[10];
    } else if i == 75 {
      assert Table()[75] == Words4()[11];
    } else if i == 76 {
      assert Table()[76] == Words4()[12];
    } else if i == 77 {
      assert Table()[77] == Words4()[13];
    } else if i == 78 {
      assert Table()[78] == Words4()[14];
    } else if i == 79 {
      assert Table()[79] == Words4()[15];
    }
  }

  lemma Row5InTable()
    ensures |Table()| == 256 && forall j :: 0 <= j < 16 ==> Table()[80 + j] == Words5()[j]
  {
    hide Words0, Words1, Words2, Words3, Words4, Words5, Words6, Words7;
    hide Words8, Words9, WordsA, WordsB, WordsC, WordsD, WordsE, WordsF;
  }

  lemma Row5(i: bv32)
    requires 80 <= i < 96
    ensures |Table()| == 256 && i as nat < 256 && Table()[i as nat] == ByteStep(i)
  {
    Row5InTable();
    hide Table;
    if i == 80 {
      assert Table()[80] == Words5()[0];
    } else if i == 81 {
      assert Table()[81] == Words5()[1];
    } else if i == 82 {
      assert Table()[82] == Words5()[2];
    } else if i == 83 {
      assert Table()[83] == Words5()[3];
    } else if i == 84 {
      assert Table()[84] == Words5()[4];
    } else if i == 85 {
      assert Table()[85] == Words5()[5];
    } else if i == 86 {
      assert Table()[86] == Words5()[6];
    } else if i == 87 {
      assert Table()[87] == Words5()[7];
    } else if i == 88 {
      assert Table()[88] == Words5()[8];
    } else if i == 89 {
      assert Table()[89] == Words5()[9];
    } else if i == 90 {
      assert Table()[90] == Words5()[10];
    } else if i == 91 {
      assert Table()[91] == Words5()[11];
    } else if i == 92 {
      assert Table()[92] == Words5()[12];
    } else if i == 93 {
      assert Table()[93] == Words5()[13];
    } else if i == 94 {
      assert Table()[94] == Words5()[14];
    } else if i == 95 {
      assert Table()[95] == Words5()[15];
    }
  }

  lemma Row6InTable()
    ensures |Table()| == 256 && forall j :: 0 <= j < 16 ==> Table()[96 + j] == Words6()[j]
  {
    hide Words0, Words1, Words2, Words3, Words4, Words5, Words6, Words7;
    hide Words8, Words9, WordsA, WordsB, WordsC, WordsD, WordsE, WordsF;
  }

  lemma Row6(i: bv32)
    requires 96 <= i < 112
    ensures |Table()| == 256 && i as nat < 256 && Table()[i as nat] == ByteStep(i)
  {
    Row6InTable();
    hide Table;
    if i == 96 {
      assert Table()[96] == Words6()[0];
    } else if i == 97 {
      assert Table()[97] == Words6()[1];
    } else if i == 98 {
      assert Table()[98] == Words6()[2];
    } else if i == 99 {
      assert Table()[99] == Words6()[3];
    } else if i == 100 {
      assert Table()[100] == Words6()[4];
    } else if i == 101 {
      assert Table()[101] == Words6()[5];
    } else if i == 102 {
      assert Table()[102] == Words6()[6];
    } else if i == 103 {
      assert Table()[103] == Words6()[7];
    } else if i == 104 {
      assert Table()[104] == Words6()[8];
    } else if i == 105 {
      assert Table()[105] == Words6()[9];
    } else if i == 106 {
      assert Table()[106] == Words6()[10];
    } else if i == 107 {
      assert Table()[107] == Words6()[11];
    } else if i == 108 {
      assert Table()[108] == Words6()[12];
    } else if i == 109 {
      assert Table()[109] == Words6()[13];
    } else if i == 110 {
      assert Table()[110] == Words6()[14];
    } else if i == 111 {
      assert Table()[111] == Words6()[15];
    }
  }

  lemma Row7InTable()
    ensures |Table()| == 256 && forall j :: 0 <= j < 16 ==> Table()[112 + j] == Words7()[j]
  {
    hide Words0, Words1, Words2, Words3, Words4, Words5, Words6, Words7;
    hide Words8, Words9, WordsA, WordsB, WordsC, WordsD, WordsE, WordsF;
  }

  lemma Row7(i: bv32)
    requires 112 <= i < 128
    ensures |Table()| == 256 && i as nat < 256 && Table()[i as nat] == ByteStep(i)
  {
    Row7InTable();
    hide Table;
    if i == 112 {
      assert Table()[112] == Words7()[0];
    } else if i == 113 {
      assert Table()[113] == Words7()[1];
    } else if i == 114 {
      assert Table()[114] == Words7()[2];
    } else if i == 115 {
      assert Table()[115] == Words7()[3];
    } else if i == 116 {
      assert Table()[116] == Words7()[4];
    } else if i == 117 {
      assert Table()[117] == Words7()[5];
    } else if i == 118 {
      assert Table()[118] == Words7()[6];
    } else if i == 119 {
      assert Table()[119] == Words7()[7];
    } else if i == 120 {
      assert Table()[120] == Words7()[8];
    } else if i == 121 {
      assert Table()[121] == Words7()[9];
    } else if i == 122 {
      assert Table()[122] == Words7()[10];
    } else if i == 123 {
      assert Table()[123] == Words7()[11];
    } else if i == 124 {
      assert Table()[124] == Words7()[12];
    } else if i == 125 {
      assert Table()[125] == Words7()[13];
    } else if i == 126 {
      assert Table()[126] == Words7()[14];
    } else if i == 127 {
      assert Table()[127] == Words7()[15];
    }
  }

  lemma Row8InTable()
    ensures |Table()| == 256 && forall j :: 0 <= j < 16 ==> Table()[128 + j] == Words8()[j]
  {
    hide Words0, Words1, Words2, Words3, Words4, Words5, Words6, Words7;
    hide Words8, Words9, WordsA, WordsB, WordsC, WordsD, WordsE, WordsF;
  }

  lemma Row8(i: bv32)
    requires 128 <= i < 144
    ensures |Table()| == 256 && i as nat < 256 && Table()[i as nat] == ByteStep(i)
  {
    Row8InTable();
    hide Table;
    if i == 128 {
      assert Table()[128] == Words8()[0];
    } else if i == 129 {
      assert Table()[129] == Words8()[1];
    } else if i == 130 {
      assert Table()[130] == Words8()[2];
    } else if i == 131 {
      assert Table()[131] == Words8()[3];
    } else if i == 132 {
      assert Table()[132] == Words8()[4];
    } else if i == 133 {
      assert Table()[133] == Words8()[5];
    } else if i == 134 {
      assert Table()[134] == Words8()[6];
    } else if i == 135 {
      assert Table()[135] == Words8()[7];
    } else if i == 136 {
      assert Table()[136] == Words8()[8];
    } else if i == 137 {
      assert Table()[137] == Words8()[9];
    } else if i == 138 {
      assert Table()[138] == Words8()[10];
    } else if i == 139 {
      assert Table()[139] == Words8()[11];
    } else if i == 140 {
      assert Table()[140] == Words8()[12];
    } else if i == 141 {
      assert Table()[141] == Words8()[13];
    } else if i == 142 {
      assert Table()[142] == Words8()[14];
    } else if i == 143 {
      assert Table()[143] == Words8()[15];
    }
  }

  lemma Row9InTable()
    ensures |Table()| == 256 && forall j :: 0 <= j < 16 ==> Table()[144 + j] == Words9()[j]
  {
    hide Words0, Words1, Words2, Words3, Words4, Words5, Words6, Words7;
    hide Words8, Words9, WordsA, WordsB, WordsC, WordsD, WordsE, WordsF;
  }

  lemma Row9(i: bv32)
    requires 144 <= i < 160
    ensures |Table()| == 256 && i as nat < 256 && Table()[i as nat] == ByteStep(i)
  {
    Row9InTable();
    hide Table;
    if i == 144 {
      assert Table()[144] == Words9()[0];
    } else if i == 145 {
      assert Table()[145] == Words9()[1];
    } else if i == 146 {
      assert Table()[146] == Words9()[2];
    } else if i == 147 {
      assert Table()[147] == Words9()[3];
    } else if i == 148 {
      assert Table()[148] == Words9()[4];
    } else if i == 149 {
      assert Table()[149] == Words9()[5];
    } else if i == 150 {
      assert Table()[150] == Words9()[6];
    } else if i == 151 {
      assert Table()[151] == Words9()[7];
    } else if i == 152 {
      assert Table()[152] == Words9()[8];
    } else if i == 153 {
      assert Table()[153] == Words9()[9];
    } else if i == 154 {
      assert Table()[154] == Words9()[10];
    } else if i == 155 {
      assert Table()[155] == Words9()[11];
    } else if i == 156 {
      assert Table()[156] == Words9()[12];
    } else if i == 157 {
      assert Table()[157] == Words9()[13];
    } else if i == 158 {
      assert Table()[158] == Words9()[14];
    } else if i == 159 {
      assert Table()[159] == Words9()[15];
    }
  }

  lemma RowAInTable()
    ensures |Table()| == 256 && forall j :: 0 <= j < 16 ==> Table()[160 + j] == WordsA()[j]
  {
    hide Words0, Words1, Words2, Words3, Words4, Words5, Words6, Words7;
    hide Words8, Words9, WordsA, WordsB, WordsC, WordsD, WordsE, WordsF;
  }

  lemma RowA(i: bv32)
    requires 160 <= i < 176
    ensures |Table()| == 256 && i as nat < 256 && Table()[i as nat] == ByteStep(i)
  {
    RowAInTable();
    hide Table;
    if i == 160 {
      assert Table()[160] == WordsA()[0];
    } else if i == 161 {
      assert Table()[161] == WordsA()[1];
    } else if i == 162 {
      assert Table()[162] == WordsA()[2];
    } else if i == 163 {
      assert Table()[163] == WordsA()[3];
    } else if i == 164 {
      assert Table()[164] == WordsA()[4];
    } else if i == 165 {
      assert Table()[165] == WordsA()[5];
    } else if i == 166 {
      assert Table()[166] == WordsA()[6];
    } else if i == 167 {
      assert Table()[167] == WordsA()[7];
    } else if i == 168 {
      assert Table()[168] == WordsA()[8];
    } else if i == 169 {
      assert Table()[169] == WordsA()[9];
    } else if i == 170 {
      assert Table()[170] == WordsA()[10];
    } else if i == 171 {
      assert Table()[171] == WordsA()[11];
    } else if i == 172 {
      assert Table()[172] == WordsA()[12];
    } else if i == 173 {
      assert Table()[173] == WordsA()[13];
    } else if i == 174 {
      assert Table()[174] == WordsA()[14];
    } else if i == 175 {
      assert Table()[175] == WordsA()[15];
    }
  }

  lemma RowBInTable()
    ensures |Table()| == 256 && forall j :: 0 <= j < 16 ==> Table()[176 + j] == WordsB()[j]
  {
    hide Words0, Words1, Words2, Words3, Words4, Words5, Words6, Words7;
    hide Words8, Words9, WordsA, WordsB, WordsC, WordsD, WordsE, WordsF;
  }

  lemma RowB(i: bv32)
    requires 176 <= i < 192
    ensures |Table()| == 256 && i as nat < 256 && Table()[i as nat] == ByteStep(i)
  {
    RowBInTable();
    hide Table;
    if i == 176 {
      assert Table()[176] == WordsB()[0];
    } else if i == 177 {
      assert Table()[177] == WordsB()[1];
    } else if i == 178 {
      assert Table()[178] == WordsB()[2];
    } else if i == 179 {
      assert Table()[179] == WordsB()[3];
    } else if i == 180 {
      assert Table()[180] == WordsB()[4];
    } else if i == 181 {
      assert Table()[181] == WordsB()[5];
    } else if i == 182 {
      assert Table()[182] == WordsB()[6];
    } else if i == 183 {
      assert Table()[183] == WordsB()[7];
    } else if i == 184 {
      assert Table()[184] == WordsB()[8];
    } else if i == 185 {
      assert Table()[185] == WordsB()[9];
    } else if i == 186 {
      assert Table()[186] == WordsB()[10];
    } else if i == 187 {
      assert Table()[187] == WordsB()[11];
    } else if i == 188 {
      assert Table()[188] == WordsB()[12];
    } else if i == 189 {
      assert Table()[189] == WordsB()[13];
    } else if i == 190 {
      assert Table()[190] == WordsB()[14];
    } else if i == 191 {
      assert Table()[191] == WordsB()[15];
    }
  }

  lemma RowCInTable()
    ensures |Table()| == 256 && forall j :: 0 <= j < 16 ==> Table()[192 + j] == WordsC()[j]
  {
    hide Words0, Words1, Words2, Words3, Words4, Words5, Words6, Words7;
    hide Words8, Words9, WordsA, WordsB, WordsC, WordsD, WordsE, WordsF;
  }

  lemma RowC(i: bv32)
    requires 192 <= i < 208
    ensures |Table()| == 256 && i as nat < 256 && Table()[i as nat] == ByteStep(i)
  {
    RowCInTable();
    hide Table;
    if i == 192 {
      assert Table()[192] == WordsC()[0];
    } else if i == 193 {
      assert Table()[193] == WordsC()[1];
    } else if i == 194 {
      assert Table()[194] == WordsC()[2];
    } else if i == 195 {
      assert Table()[195] == WordsC()[3];
    } else if i == 196 {
      assert Table()[196] == WordsC()[4];
    } else if i == 197 {
      assert Table()[197] == WordsC()[5];
    } else if i == 198 {
      assert Table()[198] == WordsC()[6];
    } else if i == 199 {
      assert Table()[199] == WordsC()[7];
    } else if i == 200 {
      assert Table()[200] == WordsC()[8];
    } else if i == 201 {
      assert Table()[201] == WordsC()[9];
    } else if i == 202 {
      assert Table()[202] == WordsC()[10];
    } else if i == 203 {
      assert Table()[203] == WordsC()[11];
    } else if i == 204 {
      assert Table()[204] == WordsC()[12];
    } else if i == 205 {
      assert Table()[205] == WordsC()[13];
    } else if i == 206 {
      assert Table()[206] == WordsC()[14];
    } else if i == 207 {
      assert Table()[207] == WordsC()[15];
    }
  }

  lemma RowDInTable()
    ensures |Table()| == 256 && forall j :: 0 <= j < 16 ==> Table()[208 + j] == WordsD()[j]
  {
    hide Words0, Words1, Words2, Words3, Words4, Words5, Words6, Words7;
    hide Words8, Words9, WordsA, WordsB, WordsC, WordsD, WordsE, WordsF;
  }

  lemma RowD(i: bv32)
    requires 208 <= i < 224
    ensures |Table()| == 256 && i as nat < 256 && Table()[i as nat] == ByteStep(i)
  {
    RowDInTable();
    hide Table;
    if i == 208 {
      assert Table()[208] == WordsD()[0];
    } else if i == 209 {
      assert Table()[209] == WordsD()[1];
    } else if i == 210 {
      assert Table()[210] == WordsD()[2];
    } else if i == 211 {
      assert Table()[211] == WordsD()[3];
    } else if i == 212 {
      assert Table()[212] == WordsD()[4];
    } else if i == 213 {
      assert Table()[213] == WordsD()[5];
    } else if i == 214 {
      assert Table()[214] == WordsD()[6];
    } else if i == 215 {
      assert Table()[215] == WordsD()[7];
    } else if i == 216 {
      assert Table()[216] == WordsD()[8];
    } else if i == 217 {
      assert Table()[217] == WordsD()[9];
    } else if i == 218 {
      assert Table()[218] == WordsD()[10];
    } else if i == 219 {
      assert Table()[219] == WordsD()[11];
    } else if i == 220 {
      assert Table()[220] == WordsD()[12];
    } else if i == 221 {
      assert Table()[221] == WordsD()[13];
    } else if i == 222 {
      assert Table()[222] == WordsD()[14];
    } else if i == 223 {
      assert Table()[223] == WordsD()[15];
    }
  }

  lemma RowEInTable()
    ensures |Table()| == 256 && forall j :: 0 <= j < 16 ==> Table()[224 + j] == WordsE()[j]
  {
    hide Words0, Words1, Words2, Words3, Words4, Words5, Words6, Words7;
    hide Words8, Words9, WordsA, WordsB, WordsC, WordsD, WordsE, WordsF;
  }

  lemma RowE(i: bv32)
    requires 224 <= i < 240
    ensures |Table()| == 256 && i as nat < 256 && Table()[i as nat] == ByteStep(i)
  {
    RowEInTable();
    hide Table;
    if i == 224 {
      assert Table()[224] == WordsE()[0];
    } else if i == 225 {
      assert Table()[225] == WordsE()[1];
    } else if i == 226 {
      assert Table()[226] == WordsE()[2];
    } else if i == 227 {
      assert Table()[227] == WordsE()[3];
    } else if i == 228 {
      assert Table()[228] == WordsE()[4];
    } else if i == 229 {
      assert Table()[229] == WordsE()[5];
    } else if i == 230 {
      assert Table()[230] == WordsE()[6];
    } else if i == 231 {
      assert Table()[231] == WordsE()[7];
    } else if i == 232 {
      assert Table()[232] == WordsE()[8];
    } else if i == 233 {
      assert Table()[233] == WordsE()[9];
    } else if i == 234 {
      assert Table()[234] == WordsE()[10];
    } else if i == 235 {
      assert Table()[235] == WordsE()[11];
    } else if i == 236 {
      assert Table()[236] == WordsE()[12];
    } else if i == 237 {
      assert Table()[237] == WordsE()[13];
    } else if i == 238 {
      assert Table()[238] == WordsE()[14];
    } else if i == 239 {
      assert Table()[239] == WordsE()[15];
    }
  }

  lemma RowFInTable()
    ensures |Table()| == 256 && forall j :: 0 <= j < 16 ==> Table()[240 + j] == WordsF()[j]
  {
    hide Words0, Words1, Words2, Words3, Words4, Words5, Words6, Words7;
    hide Words8, Words9, WordsA, WordsB, WordsC, WordsD, WordsE, WordsF;
  }

  lemma RowF(i: bv32)
    requires 240 <= i < 256
    ensures |Table()| == 256 && i as nat < 256 && Table()[i as nat] == ByteStep(i)
  {
    RowFInTable();
    hide Table;
    if i == 240 {
      assert Table()[240] == WordsF()[0];
    } else if i == 241 {
      assert Table()[241] == WordsF()[1];
    } else if i == 242 {
      assert Table()[242] == WordsF()[2];
    } else if i == 243 {
      assert Table()[243] == WordsF()[3];
    } else if i == 244 {
      assert Table()[244] == WordsF()[4];
    } else if i == 245 {
      assert Table()[245] == WordsF()[5];
    } else if i == 246 {
      assert Table()[246] == WordsF()[6];
    } else if i == 247 {
      assert Table()[247] == WordsF()[7];
    } else if i == 248 {
      assert Table()[248] == WordsF()[8];
    } else if i == 249 {
      assert Table()[249] == WordsF()[9];
    } else if i == 250 {
      assert Table()[250] == WordsF()[10];
    } else if i == 251 {
      assert Table()[251] == WordsF()[11];
    } else if i == 252 {
      assert Table()[252] == WordsF()[12];
    } else if i == 253 {
      assert Table()[253] == WordsF()[13];
    } else if i == 254 {
      assert Table()[254] == WordsF()[14];
    } else if i == 255 {
      assert Table()[255] == WordsF()[15];
    }
  }

  /** Every entry of the table is the register after eight bit steps from its index. */
  lemma TableIsByteStep(i: bv32)
    requires i < 256
    ensures |Table()| == 256 && i as nat < 256 && Table()[i as nat] == ByteStep(i)
  {
    hide Table, ByteStep;
    if i < 16 { Row0(i); }
    else if i < 32 { Row1(i); }
    else if i < 48 { Row2(i); }
    else if i < 64 { Row3(i); }
    else if i < 80 { Row4(i); }
    else if i < 96 { Row5(i); }
    else if i < 112 { Row6(i); }
    else if i < 128 { Row7(i); }
    else if i < 144 { Row8(i); }
    else if i < 160 { Row9(i); }
    else if i < 176 { RowA(i); }
    else if i < 192 { RowB(i); }
    else if i < 208 { RowC(i); }
    else if i < 224 { RowD(i); }
    else if i < 240 { RowE(i); }
    else if i < 256 { RowF(i); }
  }
}
