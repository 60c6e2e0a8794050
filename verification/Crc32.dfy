/** The CRC-32 under FINGERPRINT: the table-driven loop, and the bit-at-a-time definition it must equal. */
module Crc32 {
  import opened Bytes

  /** The reflected generator polynomial. */
  const POLYNOMIAL: bv32 := 0xEDB88320

  // ---- reference: one bit at a time -------------------------------------------------------------

  /** Exclusive or under a name, so that proofs can hide its bits and use its laws. */
  function Xor(a: bv32, b: bv32): bv32 {
    a ^ b
  }

  function Word(b: byte): bv32 {
    b as bv32
  }

  function Low(x: bv32): byte {
    (x & 0xFF) as byte
  }

  function High(x: bv32): bv32 {
    x & 0xFFFF_FF00
  }

  /** What is left of a register once its low octet is gone. */
  function Rest(x: bv32): bv32 {
    x >> 8
  }

  function BitStep(c: bv32): bv32 {
    if c & 1 == 1 then Xor(c >> 1, POLYNOMIAL) else c >> 1
  }

  function Shift8(c: bv32): bv32 {
    BitStep(BitStep(BitStep(BitStep(BitStep(BitStep(BitStep(BitStep(c))))))))
  }

  /** The register after feeding `s` into it, starting from `c`. */
  function Register(c: bv32, s: seq<byte>): bv32 {
    if s == [] then c else Shift8(Xor(Register(c, s[..|s| - 1]), Word(s[|s| - 1])))
  }

  /** CRC-32 of a byte string, with the usual initial and final inversion. */
  function Crc(s: seq<byte>): bv32 {
    Xor(Register(0xFFFF_FFFF, s), 0xFFFF_FFFF)
  }

  // ---- the table, eight entries a line as in the source -----------------------------------------

  function Pick8(i: byte, a: bv32, b: bv32, c: bv32, d: bv32, e: bv32, f: bv32, g: bv32, h: bv32): bv32 {
    var k := i & 7;
    if k < 4 then if k < 2 then if k == 0 then a else b else if k == 2 then c else d
    else if k < 6 then if k == 4 then e else f else if k == 6 then g else h
  }

  function Table00(i: byte): bv32 {
    if i < 0x08 then
      Pick8(i, 0x00000000, 0x77073096, 0xee0e612c, 0x990951ba, 0x076dc419, 0x706af48f, 0xe963a535, 0x9e6495a3)
    else if i < 0x10 then
      Pick8(i, 0x0edb8832, 0x79dcb8a4, 0xe0d5e91e, 0x97d2d988, 0x09b64c2b, 0x7eb17cbd, 0xe7b82d07, 0x90bf1d91)
    else if i < 0x18 then
      Pick8(i, 0x1db71064, 0x6ab020f2, 0xf3b97148, 0x84be41de, 0x1adad47d, 0x6ddde4eb, 0xf4d4b551, 0x83d385c7)
    else if i < 0x20 then
      Pick8(i, 0x136c9856, 0x646ba8c0, 0xfd62f97a, 0x8a65c9ec, 0x14015c4f, 0x63066cd9, 0xfa0f3d63, 0x8d080df5)
    else if i < 0x28 then
      Pick8(i, 0x3b6e20c8, 0x4c69105e, 0xd56041e4, 0xa2677172, 0x3c03e4d1, 0x4b04d447, 0xd20d85fd, 0xa50ab56b)
    else if i < 0x30 then
      Pick8(i, 0x35b5a8fa, 0x42b2986c, 0xdbbbc9d6, 0xacbcf940, 0x32d86ce3, 0x45df5c75, 0xdcd60dcf, 0xabd13d59)
    else if i < 0x38 then
      Pick8(i, 0x26d930ac, 0x51de003a, 0xc8d75180, 0xbfd06116, 0x21b4f4b5, 0x56b3c423, 0xcfba9599, 0xb8bda50f)
    else
      Pick8(i, 0x2802b89e, 0x5f058808, 0xc60cd9b2, 0xb10be924, 0x2f6f7c87, 0x58684c11, 0xc1611dab, 0xb6662d3d)
  }

  function Table40(i: byte): bv32 {
    if i < 0x48 then
      Pick8(i, 0x76dc4190, 0x01db7106, 0x98d220bc, 0xefd5102a, 0x71b18589, 0x06b6b51f, 0x9fbfe4a5, 0xe8b8d433)
    else if i < 0x50 then
      Pick8(i, 0x7807c9a2, 0x0f00f934, 0x9609a88e, 0xe10e9818, 0x7f6a0dbb, 0x086d3d2d, 0x91646c97, 0xe6635c01)
    else if i < 0x58 then
      Pick8(i, 0x6b6b51f4, 0x1c6c6162, 0x856530d8, 0xf262004e, 0x6c0695ed, 0x1b01a57b, 0x8208f4c1, 0xf50fc457)
    else if i < 0x60 then
      Pick8(i, 0x65b0d9c6, 0x12b7e950, 0x8bbeb8ea, 0xfcb9887c, 0x62dd1ddf, 0x15da2d49, 0x8cd37cf3, 0xfbd44c65)
    else if i < 0x68 then
      Pick8(i, 0x4db26158, 0x3ab551ce, 0xa3bc0074, 0xd4bb30e2, 0x4adfa541, 0x3dd895d7, 0xa4d1c46d, 0xd3d6f4fb)
    else if i < 0x70 then
      Pick8(i, 0x4369e96a, 0x346ed9fc, 0xad678846, 0xda60b8d0, 0x44042d73, 0x33031de5, 0xaa0a4c5f, 0xdd0d7cc9)
    else if i < 0x78 then
      Pick8(i, 0x5005713c, 0x270241aa, 0xbe0b1010, 0xc90c2086, 0x5768b525, 0x206f85b3, 0xb966d409, 0xce61e49f)
    else
      Pick8(i, 0x5edef90e, 0x29d9c998, 0xb0d09822, 0xc7d7a8b4, 0x59b33d17, 0x2eb40d81, 0xb7bd5c3b, 0xc0ba6cad)
  }

  function Table80(i: byte): bv32 {
    if i < 0x88 then
      Pick8(i, 0xedb88320, 0x9abfb3b6, 0x03b6e20c, 0x74b1d29a, 0xead54739, 0x9dd277af, 0x04db2615, 0x73dc1683)
    else if i < 0x90 then
      Pick8(i, 0xe3630b12, 0x94643b84, 0x0d6d6a3e, 0x7a6a5aa8, 0xe40ecf0b, 0x9309ff9d, 0x0a00ae27, 0x7d079eb1)
    else if i < 0x98 then
      Pick8(i, 0xf00f9344, 0x8708a3d2, 0x1e01f268, 0x6906c2fe, 0xf762575d, 0x806567cb, 0x196c3671, 0x6e6b06e7)
    else if i < 0xa0 then
      Pick8(i, 0xfed41b76, 0x89d32be0, 0x10da7a5a, 0x67dd4acc, 0xf9b9df6f, 0x8ebeeff9, 0x17b7be43, 0x60b08ed5)
    else if i < 0xa8 then
      Pick8(i, 0xd6d6a3e8, 0xa1d1937e, 0x38d8c2c4, 0x4fdff252, 0xd1bb67f1, 0xa6bc5767, 0x3fb506dd, 0x48b2364b)
    else if i < 0xb0 then
      Pick8(i, 0xd80d2bda, 0xaf0a1b4c, 0x36034af6, 0x41047a60, 0xdf60efc3, 0xa867df55, 0x316e8eef, 0x4669be79)
    else if i < 0xb8 then
      Pick8(i, 0xcb61b38c, 0xbc66831a, 0x256fd2a0, 0x5268e236, 0xcc0c7795, 0xbb0b4703, 0x220216b9, 0x5505262f)
    else
      Pick8(i, 0xc5ba3bbe, 0xb2bd0b28, 0x2bb45a92, 0x5cb36a04, 0xc2d7ffa7, 0xb5d0cf31, 0x2cd99e8b, 0x5bdeae1d)
  }

  function TableC0(i: byte): bv32 {
    if i < 0xc8 then
      Pick8(i, 0x9b64c2b0, 0xec63f226, 0x756aa39c, 0x026d930a, 0x9c0906a9, 0xeb0e363f, 0x72076785, 0x05005713)
    else if i < 0xd0 then
      Pick8(i, 0x95bf4a82, 0xe2b87a14, 0x7bb12bae, 0x0cb61b38, 0x92d28e9b, 0xe5d5be0d, 0x7cdcefb7, 0x0bdbdf21)
    else if i < 0xd8 then
      Pick8(i, 0x86d3d2d4, 0xf1d4e242, 0x68ddb3f8, 0x1fda836e, 0x81be16cd, 0xf6b9265b, 0x6fb077e1, 0x18b74777)
    else if i < 0xe0 then
      Pick8(i, 0x88085ae6, 0xff0f6a70, 0x66063bca, 0x11010b5c, 0x8f659eff, 0xf862ae69, 0x616bffd3, 0x166ccf45)
    else if i < 0xe8 then
      Pick8(i, 0xa00ae278, 0xd70dd2ee, 0x4e048354, 0x3903b3c2, 0xa7672661, 0xd06016f7, 0x4969474d, 0x3e6e77db)
    else if i < 0xf0 then
      Pick8(i, 0xaed16a4a, 0xd9d65adc, 0x40df0b66, 0x37d83bf0, 0xa9bcae53, 0xdebb9ec5, 0x47b2cf7f, 0x30b5ffe9)
    else if i < 0xf8 then
      Pick8(i, 0xbdbdf21c, 0xcabac28a, 0x53b39330, 0x24b4a3a6, 0xbad03605, 0xcdd70693, 0x54de5729, 0x23d967bf)
    else
      Pick8(i, 0xb3667a2e, 0xc4614ab8, 0x5d681b02, 0x2a6f2b94, 0xb40bbe37, 0xc30c8ea1, 0x5a05df1b, 0x2d02ef8d)
  }

  function Table(i: byte): bv32 {
    if i < 0x40 then Table00(i) else if i < 0x80 then Table40(i) else if i < 0xC0 then Table80(i) else TableC0(i)
  }

  lemma Table00Correct(i: byte)
    requires i < 0x40
    ensures Table00(i) == Shift8(Word(i))
  {
    if i < 0x08 {
    } else if i < 0x10 {
    } else if i < 0x18 {
    } else if i < 0x20 {
    } else if i < 0x28 {
    } else if i < 0x30 {
    } else if i < 0x38 {
    }
  }

  lemma Table40Correct(i: byte)
    requires 0x40 <= i < 0x80
    ensures Table40(i) == Shift8(Word(i))
  {
    if i < 0x48 {
    } else if i < 0x50 {
    } else if i < 0x58 {
    } else if i < 0x60 {
    } else if i < 0x68 {
    } else if i < 0x70 {
    } else if i < 0x78 {
    }
  }

  lemma Table80Correct(i: byte)
    requires 0x80 <= i < 0xC0
    ensures Table80(i) == Shift8(Word(i))
  {
    if i < 0x88 {
    } else if i < 0x90 {
    } else if i < 0x98 {
    } else if i < 0xa0 {
    } else if i < 0xa8 {
    } else if i < 0xb0 {
    } else if i < 0xb8 {
    }
  }

  lemma TableC0Correct(i: byte)
    requires 0xC0 <= i
    ensures TableC0(i) == Shift8(Word(i))
  {
    if i < 0xc8 {
    } else if i < 0xd0 {
    } else if i < 0xd8 {
    } else if i < 0xe0 {
    } else if i < 0xe8 {
    } else if i < 0xf0 {
    } else if i < 0xf8 {
    }
  }

  /** All 256 entries are the bitwise remainder of their index. */
  lemma TableCorrect(i: byte)
    ensures Table(i) == Shift8(Word(i))
  {
    hide Table00, Table40, Table80, TableC0, Shift8, Word;
    if i < 0x40 {
      Table00Correct(i);
    } else if i < 0x80 {
      Table40Correct(i);
    } else if i < 0xC0 {
      Table80Correct(i);
    } else {
      TableC0Correct(i);
    }
  }

  // ---- the shift step is linear over exclusive or, and loses nothing ----------------------------

  lemma XorShift(a: bv32, b: bv32)
    ensures Xor(a, b) >> 1 == Xor(a >> 1, b >> 1)
  {
    ShiftBits(a, b, Xor(a, b), Xor(a >> 1, b >> 1));
  }

  lemma ShiftBits(a: bv32, b: bv32, x: bv32, y: bv32)
    requires x == a ^ b && y == (a >> 1) ^ (b >> 1)
    ensures x >> 1 == y
  {
  }

  lemma XorLowBit(a: bv32, b: bv32)
    ensures (Xor(a, b) & 1 == 1) == ((a & 1 == 1) != (b & 1 == 1))
  {
  }

  lemma XorCommutes(a: bv32, b: bv32)
    ensures Xor(a, b) == Xor(b, a)
  {
  }

  lemma XorAssociates(a: bv32, b: bv32, c: bv32)
    ensures Xor(Xor(a, b), c) == Xor(a, Xor(b, c))
  {
    AssociateBits(a, b, c, Xor(a, b), Xor(b, c));
  }

  lemma AssociateBits(a: bv32, b: bv32, c: bv32, ab: bv32, bc: bv32)
    requires ab == a ^ b && bc == b ^ c
    ensures ab ^ c == a ^ bc
  {
  }

  lemma XorSelf(a: bv32)
    ensures Xor(a, a) == 0
  {
  }

  lemma ZeroXor(a: bv32)
    ensures Xor(0, a) == a
  {
  }

  lemma XorMoves(p: bv32, q: bv32, k: bv32)
    ensures Xor(p, Xor(q, k)) == Xor(Xor(p, q), k)
    ensures Xor(Xor(p, k), q) == Xor(Xor(p, q), k)
    ensures Xor(Xor(p, k), Xor(q, k)) == Xor(p, q)
  {
    hide Xor;
    XorAssociates(p, q, k);
    XorCommutes(q, k);
    XorAssociates(p, k, q);
    XorAssociates(p, k, Xor(q, k));
    XorAssociates(k, k, q);
    XorSelf(k);
    ZeroXor(q);
  }

  lemma BitStepLinear(a: bv32, b: bv32)
    ensures BitStep(Xor(a, b)) == Xor(BitStep(a), BitStep(b))
  {
    hide Xor;
    XorShift(a, b);
    XorLowBit(a, b);
    XorMoves(a >> 1, b >> 1, POLYNOMIAL);
  }

  lemma BitStepInjective(a: bv32, b: bv32)
    requires BitStep(a) == BitStep(b)
    ensures a == b
  {
  }

  lemma Shift8Linear(a: bv32, b: bv32)
    ensures Shift8(Xor(a, b)) == Xor(Shift8(a), Shift8(b))
  {
    hide Xor, BitStep;
    var x, y := a, b;
    BitStepLinear(a, b);
    BitStepLinear(BitStep(a), BitStep(b));
    BitStepLinear(BitStep(BitStep(a)), BitStep(BitStep(b)));
    x, y := BitStep(BitStep(BitStep(a))), BitStep(BitStep(BitStep(b)));
    BitStepLinear(x, y);
    BitStepLinear(BitStep(x), BitStep(y));
    BitStepLinear(BitStep(BitStep(x)), BitStep(BitStep(y)));
    x, y := BitStep(BitStep(BitStep(x))), BitStep(BitStep(BitStep(y)));
    BitStepLinear(x, y);
    BitStepLinear(BitStep(x), BitStep(y));
  }

  lemma Shift8Injective(a: bv32, b: bv32)
    requires Shift8(a) == Shift8(b)
    ensures a == b
  {
    hide BitStep;
    var x, y := BitStep(BitStep(BitStep(BitStep(a)))), BitStep(BitStep(BitStep(BitStep(b))));
    BitStepInjective(BitStep(BitStep(BitStep(x))), BitStep(BitStep(BitStep(y))));
    BitStepInjective(BitStep(BitStep(x)), BitStep(BitStep(y)));
    BitStepInjective(BitStep(x), BitStep(y));
    BitStepInjective(x, y);
    BitStepInjective(BitStep(BitStep(BitStep(a))), BitStep(BitStep(BitStep(b))));
    BitStepInjective(BitStep(BitStep(a)), BitStep(BitStep(b)));
    BitStepInjective(BitStep(a), BitStep(b));
    BitStepInjective(a, b);
  }

  lemma Shift8Clear(x: bv32)
    requires Low(x) == 0
    ensures Shift8(x) == Rest(x)
  {
  }

  // ---- table loop == bitwise definition ---------------------------------------------------------

  lemma SplitLow(crc: bv32, b: byte, x: bv32)
    requires x == Xor(crc, Word(b))
    ensures x == Xor(Word(Low(x)), High(x)) && Low(High(x)) == 0 && Rest(High(x)) == Rest(crc)
  {
    hide Xor, Word, Low, High, Rest;
    LowAndHigh(x);
    RestKept(crc, b, x);
  }

  lemma LowAndHigh(x: bv32)
    ensures x == Xor(Word(Low(x)), High(x)) && Low(High(x)) == 0
  {
  }

  lemma RestKept(crc: bv32, b: byte, x: bv32)
    requires x == Xor(crc, Word(b))
    ensures Rest(High(x)) == Rest(crc)
  {
  }

  /** One iteration of the table loop is eight steps of the reference. */
  lemma TableStep(crc: bv32, b: byte, x: bv32)
    requires x == Xor(crc, Word(b))
    ensures Xor(Table(Low(x)), Rest(crc)) == Shift8(x)
  {
    hide *;
    SplitLow(crc, b, x);
    TableCorrect(Low(x));
    Combine(x, Word(Low(x)), High(x));
  }

  lemma Combine(x: bv32, low: bv32, high: bv32)
    requires x == Xor(low, high) && Low(high) == 0
    ensures Shift8(x) == Xor(Shift8(low), Rest(high))
  {
    hide *;
    Shift8Linear(low, high);
    Shift8Clear(high);
  }

  method GetCRC32(data: array<byte>, size: nat) returns (r: bv32)
    requires size <= data.Length
    ensures r == Crc(data[..size])
  {
    hide Word, Low, Rest, Xor, Shift8, Table;
    var crc: bv32 := 0xFFFF_FFFF;
    var p := 0;
    while p < size
      invariant 0 <= p <= size
      invariant crc == Register(0xFFFF_FFFF, data[..p])
    {
      assert data[..p + 1][..p] == data[..p];
      TableStep(crc, data[p], Xor(crc, Word(data[p])));
      crc := Xor(Table(Low(Xor(crc, Word(data[p])))), Rest(crc));
      p := p + 1;
    }
    r := Xor(crc, 0xFFFF_FFFF);
  }

  // ---- error detection --------------------------------------------------------------------------

  lemma {:induction false} RegisterConcat(c: bv32, a: seq<byte>, b: seq<byte>)
    ensures Register(c, a + b) == Register(Register(c, a), b)
  {
    hide Word, Xor, Shift8;
    if b == [] {
      assert a + b == a;
    } else {
      assert (a + b)[..|a + b| - 1] == a + b[..|b| - 1];
      RegisterConcat(c, a, b[..|b| - 1]);
    }
  }

  lemma XorCancel(a: bv32, b: bv32, x: bv32)
    requires Xor(a, x) == Xor(b, x)
    ensures a == b
  {
  }

  /** The same bytes never bring two different registers back together. */
  lemma {:induction false} RegisterInjective(c: bv32, d: bv32, s: seq<byte>)
    requires Register(c, s) == Register(d, s)
    ensures c == d
  {
    hide Word, Xor, Shift8;
    if s != [] {
      var i, x := s[..|s| - 1], Word(s[|s| - 1]);
      Shift8Injective(Xor(Register(c, i), x), Xor(Register(d, i), x));
      XorCancel(Register(c, i), Register(d, i), x);
      RegisterInjective(c, d, i);
    }
  }

  lemma Shift8Back(x: bv32, y: bv32)
    requires Shift8(x) == y && y < 0x100_0000
    ensures x == y << 8
  {
    hide Shift8;
    LeftRight(y, y << 8);
    Shift8Clear(y << 8);
    Shift8Injective(x, y << 8);
  }

  lemma LeftRight(y: bv32, z: bv32)
    requires y < 0x100_0000 && z == y << 8
    ensures Low(z) == 0 && Rest(z) == y
  {
  }

  /** How the difference of two registers evolves under two different bytes. */
  lemma Difference(c: bv32, d: bv32, x: bv32, y: bv32)
    ensures Xor(Shift8(Xor(c, x)), Shift8(Xor(d, y))) == Shift8(Xor(Xor(c, d), Xor(x, y)))
  {
    hide Word, Shift8, Xor;
    Shift8Linear(Xor(c, x), Xor(d, y));
    XorRegroup(c, d, x, y);
  }

  lemma XorRegroup(c: bv32, d: bv32, x: bv32, y: bv32)
    ensures Xor(Xor(c, x), Xor(d, y)) == Xor(Xor(c, d), Xor(x, y))
  {
    hide Xor;
    XorMoves(Xor(c, x), d, y);
    XorMoves(c, d, x);
    XorMoves(Xor(c, d), x, y);
  }

  /** Four byte differences that cancel in the register are all zero. */
  lemma NoCancellation(e0: bv32, e1: bv32, e2: bv32, e3: bv32)
    requires e0 < 256 && e1 < 256 && e2 < 256 && e3 < 256
    requires Shift8(Xor(Shift8(Xor(Shift8(Xor(Shift8(e0), e1)), e2)), e3)) == 0
    ensures e0 == 0 && e1 == 0 && e2 == 0 && e3 == 0
  {
    hide Word, Shift8, Xor;
    var s0 := Shift8(e0);
    var s1 := Shift8(Xor(s0, e1));
    var s2 := Shift8(Xor(s1, e2));
    Shift8Back(Xor(s2, e3), 0);
    XorZero(s2, e3);
    Shift8Back(Xor(s1, e2), e3);
    XorMove(s1, e2, e3, e3 << 8);
    Shift8Back(Xor(s0, e1), s1);
    XorMove(s0, e1, s1, s1 << 8);
    Shift8Back(e0, s0);
    AllZero(e0, e1, e2, e3, s0, s1);
  }

  lemma XorZero(a: bv32, b: bv32)
    requires Xor(a, b) == 0
    ensures a == b
  {
  }

  lemma XorMove(s: bv32, e: bv32, t: bv32, u: bv32)
    requires e < 256 && t < 0x1_0000 && u == t << 8 && Xor(s, e) == u
    ensures s == u | e && s < 0x100_0000 && (t < 0x100 ==> s < 0x1_0000)
  {
  }

  lemma AllZero(e0: bv32, e1: bv32, e2: bv32, e3: bv32, s0: bv32, s1: bv32)
    requires e0 < 256 && e1 < 256 && e2 < 256 && e3 < 256
    requires s1 == (e3 << 8) | e2 && s0 == (s1 << 8) | e1 && e0 == s0 << 8
    ensures e0 == 0 && e1 == 0 && e2 == 0 && e3 == 0
  {
  }

  function Register4(c: bv32, a: bv32, b: bv32, d: bv32, e: bv32): bv32 {
    Shift8(Xor(Shift8(Xor(Shift8(Xor(Shift8(Xor(c, a)), b)), d)), e))
  }

  lemma RegisterUnrolled(c: bv32, v: seq<byte>)
    requires |v| == 4
    ensures Register(c, v) == Register4(c, Word(v[0]), Word(v[1]), Word(v[2]), Word(v[3]))
  {
    hide Word, Shift8, Xor;
    assert v[..1][..0] == [];
    assert Register(c, v[..1]) == Shift8(Xor(c, Word(v[0])));
    assert v[..2][..1] == v[..1];
    assert Register(c, v[..2]) == Shift8(Xor(Register(c, v[..1]), Word(v[1])));
    assert v[..3][..2] == v[..2];
    assert Register(c, v[..3]) == Shift8(Xor(Register(c, v[..2]), Word(v[2])));
  }

  lemma Register4Difference(c: bv32, v0: bv32, v1: bv32, v2: bv32, v3: bv32, w0: bv32, w1: bv32, w2: bv32, w3: bv32)
    requires Register4(c, v0, v1, v2, v3) == Register4(c, w0, w1, w2, w3)
    ensures Shift8(Xor(Shift8(Xor(Shift8(Xor(Shift8(Xor(v0, w0)), Xor(v1, w1))), Xor(v2, w2))), Xor(v3, w3))) == 0
  {
    hide Word, Shift8, Xor;
    XorSelf(c);
    XorSelf(Register4(c, v0, v1, v2, v3));
    ZeroXor(Xor(v0, w0));
    Difference(c, c, v0, w0);
    var a, b := Shift8(Xor(c, v0)), Shift8(Xor(c, w0));
    Difference(a, b, v1, w1);
    a, b := Shift8(Xor(a, v1)), Shift8(Xor(b, w1));
    Difference(a, b, v2, w2);
    a, b := Shift8(Xor(a, v2)), Shift8(Xor(b, w2));
    Difference(a, b, v3, w3);
  }

  lemma ByteDifference(x: byte, y: byte)
    ensures Xor(Word(x), Word(y)) < 256
    ensures Xor(Word(x), Word(y)) == 0 ==> x == y
  {
  }

  /** Two different four-byte words never take one register to the same register. */
  lemma WindowDetected(c: bv32, v: seq<byte>, w: seq<byte>)
    requires |v| == |w| == 4 && Register(c, v) == Register(c, w)
    ensures v == w
  {
    hide Word, Shift8, Xor, Register4;
    RegisterUnrolled(c, v);
    RegisterUnrolled(c, w);
    Register4Difference(c, Word(v[0]), Word(v[1]), Word(v[2]), Word(v[3]),
                        Word(w[0]), Word(w[1]), Word(w[2]), Word(w[3]));
    ByteDifference(v[0], w[0]);
    ByteDifference(v[1], w[1]);
    ByteDifference(v[2], w[2]);
    ByteDifference(v[3], w[3]);
    NoCancellation(Xor(Word(v[0]), Word(w[0])), Xor(Word(v[1]), Word(w[1])),
                   Xor(Word(v[2]), Word(w[2])), Xor(Word(v[3]), Word(w[3])));
  }

  /** Any change confined to four adjacent bytes changes the CRC. */
  lemma BurstDetected(s: seq<byte>, t: seq<byte>, k: nat)
    requires |s| == |t| && k + 4 <= |s|
    requires s[..k] == t[..k] && s[k + 4..] == t[k + 4..] && Crc(s) == Crc(t)
    ensures s == t
  {
    hide Word, Shift8, Xor;
    var c := Register(0xFFFF_FFFF, s[..k]);
    forall u | u == s || u == t
      ensures Register(0xFFFF_FFFF, u) == Register(Register(c, u[k..k + 4]), u[k + 4..])
    {
      assert u == (u[..k] + u[k..k + 4]) + u[k + 4..];
      RegisterConcat(0xFFFF_FFFF, u[..k] + u[k..k + 4], u[k + 4..]);
      RegisterConcat(0xFFFF_FFFF, u[..k], u[k..k + 4]);
    }
    XorCancel(Register(0xFFFF_FFFF, s), Register(0xFFFF_FFFF, t), 0xFFFF_FFFF);
    RegisterInjective(Register(c, s[k..k + 4]), Register(c, t[k..k + 4]), s[k + 4..]);
    WindowDetected(c, s[k..k + 4], t[k..k + 4]);
    assert s == s[..k] + s[k..k + 4] + s[k + 4..];
    assert t == t[..k] + t[k..k + 4] + t[k + 4..];
  }

  // ---- the residue law --------------------------------------------------------------------------

  /** A word in four octets, lowest first. */
  function LittleEndian(w: bv32): seq<byte> {
    [(w & 0xFF) as byte, ((w >> 8) & 0xFF) as byte, ((w >> 16) & 0xFF) as byte, ((w >> 24) & 0xFF) as byte]
  }

  /** Feeding the low octet of a word, and keeping the rest of it for later, is feeding the word at once. */
  lemma FeedOctet(c: bv32, w: bv32)
    ensures Xor(Shift8(Xor(c, Word(Low(w)))), Rest(w)) == Shift8(Xor(c, w))
  {
    hide *;
    LowAndHigh(w);
    RestOfHigh(w);
    XorAssociates(c, Word(Low(w)), High(w));
    Shift8Linear(Xor(c, Word(Low(w))), High(w));
    Shift8Clear(High(w));
  }

  lemma RestOfHigh(w: bv32)
    ensures Rest(High(w)) == Rest(w)
  {
  }

  lemma FeedWord(c: bv32, w: bv32)
    ensures Register(c, LittleEndian(w)) == Shift8(Shift8(Shift8(Shift8(Xor(c, w)))))
  {
    hide *;
    var w1, w2, w3 := Rest(w), Rest(Rest(w)), Rest(Rest(Rest(w)));
    LittleEndianOctets(w);
    RegisterUnrolled(c, LittleEndian(w));
    var c1 := Shift8(Xor(c, Word(Low(w))));
    var c2 := Shift8(Xor(c1, Word(Low(w1))));
    var c3 := Shift8(Xor(c2, Word(Low(w2))));
    FeedOctet(c, w);
    FeedOctet(c1, w1);
    FeedOctet(c2, w2);
    FeedOctet(c3, w3);
    Register4Is(c, Word(Low(w)), Word(Low(w1)), Word(Low(w2)), Word(Low(w3)));
    NothingLeft(w);
    XorCommutes(Shift8(Xor(c3, Word(Low(w3)))), 0);
    ZeroXor(Shift8(Xor(c3, Word(Low(w3)))));
  }

  lemma LittleEndianOctets(w: bv32)
    ensures LittleEndian(w) == [Low(w), Low(Rest(w)), Low(Rest(Rest(w))), Low(Rest(Rest(Rest(w))))]
  {
  }

  lemma Register4Is(c: bv32, a: bv32, b: bv32, d: bv32, e: bv32)
    ensures Register4(c, a, b, d, e) == Shift8(Xor(Shift8(Xor(Shift8(Xor(Shift8(Xor(c, a)), b)), d)), e))
  {
  }

  lemma NothingLeft(w: bv32)
    ensures Rest(Rest(Rest(Rest(w)))) == 0
  {
  }

  lemma AllOnesShifted()
    ensures Shift8(Shift8(Shift8(Shift8(0xFFFF_FFFF)))) == 0xDEBB_20E3
  {
    assert Shift8(0xFFFF_FFFF) == 0x2DFD_1072;
    assert Shift8(0x2DFD_1072) == 0xBE26_ED00;
    assert Shift8(0xBE26_ED00) == 0x00BE_26ED;
  }

  /** A byte string followed by its own CRC has the same CRC as every other: the fixed residue of CRC-32. */
  lemma Residue(s: seq<byte>)
    ensures Crc(s + LittleEndian(Crc(s))) == 0x2144_DF1C
  {
    hide LittleEndian, Shift8, Xor, Register;
    var c := Register(0xFFFF_FFFF, s);
    RegisterConcat(0xFFFF_FFFF, s, LittleEndian(Crc(s)));
    FeedWord(c, Crc(s));
    InvertedAgainst(c);
    AllOnesShifted();
    ResidueInverted();
  }

  lemma InvertedAgainst(c: bv32)
    ensures Xor(c, Xor(c, 0xFFFF_FFFF)) == 0xFFFF_FFFF
  {
  }

  lemma ResidueInverted()
    ensures Xor(0xDEBB_20E3, 0xFFFF_FFFF) == 0x2144_DF1C
  {
  }

  lemma CrcOfNothing()
    ensures Crc([]) == 0
  {
  }
}
