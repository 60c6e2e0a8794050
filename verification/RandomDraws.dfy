/** What the generator's draws can be: in numbers, for all seeds and bounds. */
module RandomDraws {
  import opened Bytes
  import opened Random

  // ---- masking ----------------------------------------------------------------------------------

  lemma QuotientUnique(a: int, d: int, q: int, r: int)
    requires d > 0 && 0 <= r < d && a == d * q + r
    ensures a / d == q && a % d == r
  {
    var e := a / d - q;
    Distribute(d, a / d, -q);
    assert d * e == r - a % d;
    NoSmallMultiple(d, e);
  }

  lemma NoSmallMultiple(d: int, e: int)
    requires d > 0 && -d < d * e < d
    ensures e == 0
  {
    if e >= 1 {
      AtLeastOnce(d, e);
    } else if e <= -1 {
      AtLeastOnce(d, -e);
    }
  }

  lemma AtLeastOnce(d: int, e: int)
    requires d > 0 && e >= 1
    ensures d * e >= d
  {
    Distribute(d, 1, e - 1);
  }

  /** Division under a name, so that proofs need not look into it. */
  function Quotient(a: nat, p: nat): (q: nat)
    requires p > 0
  {
    a / p
  }

  function Remainder(a: nat, p: nat): (r: nat)
    requires p > 0
  {
    a % p
  }

  lemma Division(a: nat, p: nat)
    requires p > 0
    ensures Quotient(a, p) == a / p && a == p * Quotient(a, p) + Remainder(a, p) && Remainder(a, p) < p
  {
  }

  /** Dividing by 2p is dividing by two and then by p. */
  lemma HalfFirst(a: nat, p: nat)
    requires p > 0
    ensures Quotient(a, 2 * p) == Quotient(a / 2, p) && Remainder(a, 2 * p) == a % 2 + 2 * Remainder(a / 2, p)
  {
    hide Quotient;
    var q, r := Quotient(a / 2, p), Remainder(a / 2, p);
    Division(a, 2 * p);
    Division(a / 2, p);
    hide Remainder;
    Twice(p, q);
    QuotientUnique(a, 2 * p, q, a % 2 + 2 * r);
  }

  /** A mask with k ones put behind it. */
  function WithOnes(m: nat, k: nat): nat {
    if k == 0 then m else 2 * WithOnes(m, k - 1) + 1
  }

  /** A mask that ends in k ones keeps the k low bits. */
  lemma {:induction false} PeelOnes(a: nat, m: nat, k: nat)
    ensures BitAnd(a, WithOnes(m, k)) == Remainder(a, Pow2(k)) + Pow2(k) * BitAnd(Quotient(a, Pow2(k)), m)
  {
    hide BitAnd, Quotient, Remainder;
    if k == 0 {
      Division(a, 1);
    } else {
      PeelOnes(a / 2, m, k - 1);
      PeelOne(a, m, WithOnes(m, k - 1), Pow2(k - 1));
    }
  }

  lemma PeelOne(a: nat, m: nat, low: nat, p: nat)
    requires p > 0 && BitAnd(a / 2, low) == Remainder(a / 2, p) + p * BitAnd(Quotient(a / 2, p), m)
    ensures BitAnd(a, 2 * low + 1) == Remainder(a, 2 * p) + (2 * p) * BitAnd(Quotient(a, 2 * p), m)
  {
    hide BitAnd, Quotient, Remainder;
    OddMask(a, low);
    HalfFirst(a, p);
    Twice(p, BitAnd(Quotient(a / 2, p), m));
  }

  lemma Twice(p: int, x: int)
    ensures (2 * p) * x == 2 * (p * x)
  {
  }

  lemma OddMask(a: nat, m: nat)
    ensures BitAnd(a, 2 * m + 1) == a % 2 + 2 * BitAnd(a / 2, m)
  {
    assert (2 * m + 1) / 2 == m;
  }

  lemma EvenMask(a: nat, m: nat)
    ensures BitAnd(a, 2 * m) == 2 * BitAnd(a / 2, m)
  {
  }

  lemma {:induction false} NoMask(a: nat)
    ensures BitAnd(a, 0) == 0
  {
    if a != 0 {
      NoMask(a / 2);
    }
  }

  /** Bits 4 to 18 of the seed, a gap, and bits 20 to 31. */
  lemma DrawBitsAre(seed: nat)
    requires seed < 0x1_0000_0000
    ensures DrawBits(seed) == seed / 16 % 0x8000 + 0x1_0000 * (seed / 0x10_0000)
  {
    hide BitAnd, Pow2, WithOnes;
    var x := seed / 16;
    FifteenBits();
    PeelOnes(x, 0xFFFE, 15);
    EvenMask(x / 0x8000, 0x7FFF);
    PeelOnes(x / 0x8000 / 2, 0, 15);
    NoMask(x / 0x8000 / 2 / 0x8000);
  }

  lemma FifteenBits()
    ensures Pow2(15) == 0x8000 && WithOnes(0, 15) == 0x7FFF && WithOnes(0xFFFE, 15) == 0x7FFF_7FFF
  {
    assert Pow2(8) == 256;
    assert WithOnes(0, 8) == 0xFF;
    assert WithOnes(0xFFFE, 8) == 0xFF_FEFF;
  }

  // ---- draws ------------------------------------------------------------------------------------

  /** A draw in numbers, also where the bounds are out of order or the upper one is the largest number. */
  lemma DrawIs(seed: nat, min: nat, max: nat)
    requires seed < 0x1_0000_0000 && min < 0x1_0000_0000 && max < 0x1_0000_0000
    ensures var bits := seed / 16 % 0x8000 + 0x1_0000 * (seed / 0x10_0000);
            Draw(seed, min, max) == if max == 0xFFFF_FFFF then if min == max then max - 1 else bits % (max - min) + min
                                    else if min > max then max else bits % (max - min + 1) + min
  {
    hide DrawBits;
    DrawBitsAre(seed);
  }

  /** Every value within bounds less than 2^15 apart is drawn from some seed. */
  lemma DrawReaches(min: nat, max: nat, v: nat) returns (seed: nat)
    requires min <= v <= max < 0xFFFF_FFFF && max - min < 0x8000
    ensures seed < MODULUS && Draw(Next(seed), min, max) == v
  {
    hide Iterate, Next, DrawBits;
    var after := 16 * (v - min);
    seed := Before(after);
    SmallDraw(v - min, max - min + 1);
  }

  lemma SmallDraw(i: nat, n: nat)
    requires i < n <= 0x8000
    ensures DrawBits(16 * i) == i && i % n == i
  {
    hide DrawBits;
    DrawBitsAre(16 * i);
    QuotientUnique(i, n, 0, i);
  }

  /** Every seed is the update of some seed: go round once, one step short. */
  lemma Before(seed: nat) returns (s: nat)
    requires seed < MODULUS
    ensures s < MODULUS && Next(s) == seed
  {
    hide Next;
    s := IterateBound(seed, MODULUS - 1);
    FullPeriod(seed, MODULUS);
  }

  /** From seed zero: the first update, and the first draw for a credential. */
  lemma FirstDraw()
    ensures Next(0) == 2531011 && Next(1) == 2745024 && Draw(Next(0), 0, 35) == 4
  {
    hide Draw;
    DrawIs(2531011, 0, 35);
  }

  // ---- symbols ----------------------------------------------------------------------------------

  /** The place of a symbol in the alphabet. */
  function Digit(b: byte): (d: nat)
    requires IsSymbol(b)
    ensures d < 36
  {
    if b <= 0x39 then b as int - 0x30 else b as int - 0x61 + 10
  }

  lemma DigitDetermines(a: byte, b: byte)
    requires IsSymbol(a) && IsSymbol(b) && Digit(a) == Digit(b)
    ensures a == b
  {
    SameByte(a, b);
  }

  lemma SymbolOfDigit(b: byte)
    requires IsSymbol(b)
    ensures Symbol(Digit(b)) == b
  {
    hide ToByte;
    SameByte(Symbol(Digit(b)), b);
  }

  /** Each symbol of a drawn string comes from its own update of the seed. */
  lemma {:induction false} SymbolAt(seed: nat, n: nat, i: nat)
    requires seed < MODULUS && i < n
    ensures Symbols(seed, n)[i] == Symbol(Draw(IterateBound(seed, i + 1), 0, 35))
  {
    hide Symbol, Draw, Iterate;
    if i < n - 1 {
      SymbolAt(seed, n - 1, i);
    }
  }

  /** Every digit and every lower-case letter is drawn from some seed. */
  lemma EverySymbolDrawn(b: byte) returns (seed: nat)
    requires 0x30 <= b <= 0x39 || 0x61 <= b <= 0x7A
    ensures seed < MODULUS && Symbols(seed, 1) == [b]
  {
    hide Symbol, Digit, Next, Draw;
    seed := DrawReaches(0, 35, Digit(b));
    SymbolOfDigit(b);
    SymbolAt(seed, 1, 0);
    IterateOnce(seed);
  }

  lemma IterateOnce(seed: nat)
    ensures Iterate(seed, 1) == Next(seed)
  {
  }

  lemma {:induction false} SymbolsConcat(seed: nat, m: nat, n: nat)
    requires seed < MODULUS
    ensures Symbols(seed, m + n) == Symbols(seed, m) + Symbols(IterateBound(seed, m), n)
  {
    hide Symbol, Draw, Iterate;
    if n == 0 {
      assert Symbols(seed, m) + [] == Symbols(seed, m);
    } else {
      SymbolsConcat(seed, m, n - 1);
      IterateAdd(seed, m, n);
    }
  }

  /** Fragment and password are the next 28 symbols of the stream, in one order or the other. */
  lemma CredentialsAreConsecutive(seed: nat)
    requires seed < MODULUS
    ensures DrawnFragment(seed, true) + DrawnPassword(seed, true) == Symbols(seed, 28)
    ensures DrawnPassword(seed, false) + DrawnFragment(seed, false) == Symbols(seed, 28)
    ensures forall first :: |DrawnFragment(seed, first)| == 4 && |DrawnPassword(seed, first)| == 24
  {
    hide Symbols, Iterate;
    SymbolsConcat(seed, 4, 24);
    SymbolsConcat(seed, 24, 4);
  }
}
