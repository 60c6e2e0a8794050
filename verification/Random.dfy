/** The linear congruential generator behind ICE credentials. */
module Random {
  import opened Bytes

  const MODULUS := 0x1_0000_0000
  const MULTIPLIER := 214013
  const INCREMENT := 2531011

  /** The seed update, truncated to 32 bits. */
  function Next(seed: nat): (r: nat)
    ensures r < MODULUS
  {
    (MULTIPLIER * seed + INCREMENT) % MODULUS
  }

  function Iterate(seed: nat, n: nat): nat {
    if n == 0 then seed else Next(Iterate(seed, n - 1))
  }

  lemma IterateNone(s: nat)
    ensures Iterate(s, 0) == s
  {
  }

  lemma {:induction false} IterateAdd(s: nat, a: nat, b: nat)
    ensures Iterate(Iterate(s, a), b) == Iterate(s, a + b)
  {
    if b != 0 {
      IterateAdd(s, a, b - 1);
    }
  }

  // ---- full period -----------------------------------------------------------------------------

  function Pow2(k: nat): (r: nat)
    ensures r > 0
  {
    if k == 0 then 1 else 2 * Pow2(k - 1)
  }

  lemma {:induction false} Pow2Add(a: nat, b: nat)
    ensures Pow2(a + b) == Pow2(a) * Pow2(b)
  {
    if b != 0 {
      Pow2Add(a, b - 1);
      assert Pow2(a + b) == 2 * (Pow2(a) * Pow2(b - 1));
      assert 2 * (Pow2(a) * Pow2(b - 1)) == Pow2(a) * (2 * Pow2(b - 1));
    }
  }

  /** The map s -> mul * s + add before reduction. */
  datatype Affine = Affine(mul: nat, add: nat) {
    function Apply(s: nat): nat {
      mul * s + add
    }
  }

  /** The (2^k)-fold composition of the seed update, by repeated squaring. */
  function Doubled(k: nat): Affine {
    if k == 0 then Affine(MULTIPLIER, INCREMENT)
    else var h := Doubled(k - 1); Affine(h.mul * h.mul, h.add * (h.mul + 1))
  }

  /** The shape every power-of-two iterate has: multiplier 1 + 4*2^k*t, increment 2^k times an odd number. */
  ghost predicate Shape(f: Affine, k: nat, t: nat, o: nat) {
    f.mul == 1 + 4 * Pow2(k) * t && f.add == Pow2(k) * (2 * o + 1)
  }

  lemma {:induction false} DoubledShape(k: nat) returns (t: nat, o: nat)
    ensures Shape(Doubled(k), k, t, o)
  {
    if k == 0 {
      t, o := (MULTIPLIER - 1) / 4, INCREMENT / 2;
    } else {
      var u, q := DoubledShape(k - 1);
      t, o := Square(Doubled(k - 1), Pow2(k - 1), u, q);
    }
  }

  /** Squaring a map of the given shape gives the next shape. */
  lemma Square(h: Affine, p: nat, u: nat, q: nat) returns (t: nat, o: nat)
    requires h.mul == 1 + 4 * p * u && h.add == p * (2 * q + 1)
    ensures h.mul * h.mul == 1 + 4 * (2 * p) * t
    ensures h.add * (h.mul + 1) == (2 * p) * (2 * o + 1)
  {
    var x := p * u;
    t := u + 2 * (u * x);
    o := q + x * (2 * q + 1);
    SquareOfOnePlus(p, u, x, h.mul);
    ProductOfOdds(p, q, x, h.mul, h.add);
  }

  lemma SquareOfOnePlus(p: nat, u: nat, x: nat, m: nat)
    requires x == p * u && m == 1 + 4 * p * u
    ensures m * m == 1 + 4 * (2 * p) * (u + 2 * (u * x))
  {
    assert m == 1 + 4 * x;
    assert m * m == 1 + 8 * x + 16 * (x * x);
    calc {
      4 * (2 * p) * (u + 2 * (u * x));
      8 * (p * (u + 2 * (u * x)));
      { Distribute(p, u, 2 * (u * x)); }
      8 * (p * u) + 8 * (p * (2 * (u * x)));
      { assert p * (2 * (u * x)) == 2 * ((p * u) * x); }
      8 * x + 16 * (x * x);
    }
  }

  lemma Distribute(a: int, b: int, c: int)
    ensures a * (b + c) == a * b + a * c
  {
  }

  lemma ProductOfOdds(p: nat, q: nat, x: nat, m: nat, c: nat)
    requires m == 1 + 4 * x && c == p * (2 * q + 1)
    ensures c * (m + 1) == (2 * p) * (2 * (q + x * (2 * q + 1)) + 1)
  {
    calc {
      c * (m + 1);
      (p * (2 * q + 1)) * (2 * (1 + 2 * x));
      { Reassociate(p, 2 * q + 1, 1 + 2 * x); }
      (2 * p) * ((2 * q + 1) * (1 + 2 * x));
      { Distribute(2 * q + 1, 1, 2 * x); assert (2 * q + 1) * (2 * x) == 2 * (x * (2 * q + 1)); }
      (2 * p) * (2 * (q + x * (2 * q + 1)) + 1);
    }
  }

  lemma Reassociate(p: int, a: int, b: int)
    ensures (p * a) * (2 * b) == (2 * p) * (a * b)
  {
  }

  /** The orbit without reduction; Iterate is its residue. */
  function Orbit(s: nat, n: nat): nat {
    if n == 0 then s else MULTIPLIER * Orbit(s, n - 1) + INCREMENT
  }

  lemma {:induction false} IterateIsResidue(s: nat, n: nat)
    requires s < MODULUS
    ensures Iterate(s, n) == Orbit(s, n) % MODULUS
  {
    if n != 0 {
      IterateIsResidue(s, n - 1);
      StepResidue(Orbit(s, n - 1));
    }
  }

  lemma StepResidue(x: nat)
    ensures Next(x % MODULUS) == Next(x)
  {
    var q := x / MODULUS;
    var y := MULTIPLIER * (x % MODULUS) + INCREMENT;
    assert MULTIPLIER * x + INCREMENT == y + (MULTIPLIER * q) * MODULUS;
    ResidueOfSum(y, MULTIPLIER * q);
  }

  lemma {:induction false} ResidueOfSum(y: nat, k: nat)
    ensures (y + k * MODULUS) % MODULUS == y % MODULUS
  {
    if k != 0 {
      ResidueOfSum(y, k - 1);
      assert y + k * MODULUS == (y + (k - 1) * MODULUS) + MODULUS;
    }
  }

  lemma {:induction false} OrbitAdd(s: nat, a: nat, b: nat)
    ensures Orbit(s, a + b) == Orbit(Orbit(s, a), b)
  {
    if b != 0 {
      OrbitAdd(s, a, b - 1);
    }
  }

  lemma {:induction false} OrbitDoubled(s: nat, k: nat)
    ensures Orbit(s, Pow2(k)) == Doubled(k).Apply(s)
    decreases k
  {
    if k == 0 {
      assert Orbit(s, 1) == MULTIPLIER * Orbit(s, 0) + INCREMENT;
    } else {
      OrbitDoubled(s, k - 1);
      OrbitDoubled(Doubled(k - 1).Apply(s), k - 1);
      OrbitDoubledStep(s, k, Pow2(k - 1));
    }
  }

  lemma OrbitDoubledStep(s: nat, k: nat, p: nat)
    requires k > 0 && p == Pow2(k - 1) && Orbit(s, p) == Doubled(k - 1).Apply(s)
    requires Orbit(Orbit(s, p), p) == Doubled(k - 1).Apply(Orbit(s, p))
    ensures Orbit(s, Pow2(k)) == Doubled(k).Apply(s)
  {
    hide Orbit, Affine.Apply;
    OrbitAdd(s, p, p);
    ApplyDoubled(k, s);
  }

  lemma ApplyDoubled(k: nat, s: nat)
    requires k > 0
    ensures Doubled(k).Apply(s) == Doubled(k - 1).Apply(Doubled(k - 1).Apply(s))
  {
    var h := Doubled(k - 1);
    assert Doubled(k) == Affine(h.mul * h.mul, h.add * (h.mul + 1));
    ComposeTwice(h.mul, h.add, s);
  }

  lemma ComposeTwice(m: nat, c: nat, s: nat)
    ensures m * (m * s + c) + c == (m * m) * s + c * (m + 1)
  {
    Distribute(m, m * s, c);
    assert m * (m * s) == (m * m) * s;
  }

  /** 2^k updates move the unreduced seed by an odd multiple of 2^k. */
  lemma OddStep(s: nat, k: nat) returns (d: nat)
    ensures Orbit(s, Pow2(k)) == s + Pow2(k) * d && d % 2 == 1
  {
    hide Orbit, Pow2, Doubled;
    var t, o := DoubledShape(k);
    OrbitDoubled(s, k);
    var x := t * s;
    d := 4 * x + (2 * o + 1);
    ApplyShape(Doubled(k).mul, Pow2(k), t, o, s, x);
  }

  lemma ApplyShape(mul: nat, p: nat, t: nat, o: nat, s: nat, x: nat)
    requires mul == 1 + 4 * p * t && x == t * s
    ensures mul * s + p * (2 * o + 1) == s + p * (4 * x + (2 * o + 1))
  {
    assert 4 * p * t == 4 * (p * t);
    Distribute(s, 1, 4 * (p * t));
    assert s * (4 * (p * t)) == p * (4 * (t * s));
    Distribute(p, 4 * x, 2 * o + 1);
  }

  /** m blocks of 2^k updates move it by 2^k times a number of the parity of m. */
  lemma {:induction false} BlockSteps(s: nat, k: nat, m: nat) returns (d: nat)
    ensures Orbit(s, Pow2(k) * m) == s + Pow2(k) * d && d % 2 == m % 2
  {
    if m == 0 {
      d := 0;
      assert Pow2(k) * m == 0;
    } else {
      var e := BlockSteps(s, k, m - 1);
      d := AddBlock(s, k, Pow2(k), m, e, Pow2(k) * (m - 1));
    }
  }

  lemma AddBlock(s: nat, k: nat, p: nat, m: nat, e: nat, n: nat) returns (d: nat)
    requires p == Pow2(k) && m > 0 && n == p * (m - 1) && Orbit(s, n) == s + p * e && e % 2 == (m - 1) % 2
    ensures Orbit(s, p * m) == s + p * d && d % 2 == m % 2
  {
    hide *;
    OneMoreBlock(s, p, m, n);
    var f := OddStep(Orbit(s, n), k);
    d := e + f;
    AddSteps(s, p, e, f, Orbit(s, n));
    OddFlips(e, f, m);
  }

  lemma AddSteps(s: int, p: int, e: int, f: int, y: int)
    requires y == s + p * e
    ensures y + p * f == s + p * (e + f)
  {
    Distribute(p, e, f);
  }

  lemma OddFlips(e: int, f: int, m: int)
    requires e % 2 == (m - 1) % 2 && f % 2 == 1
    ensures (e + f) % 2 == m % 2
  {
  }

  lemma OneMoreBlock(s: nat, p: nat, m: nat, n: nat)
    requires m > 0 && n == p * (m - 1)
    ensures Orbit(s, p * m) == Orbit(Orbit(s, n), p)
  {
    hide Orbit;
    Distribute(p, m - 1, 1);
    OrbitAdd(s, n, p);
  }

  lemma {:induction false} OddPart(n: nat) returns (k: nat, m: nat)
    requires n > 0
    ensures n == Pow2(k) * m && m % 2 == 1
  {
    if n % 2 == 1 {
      k, m := 0, n;
    } else {
      var j;
      j, m := OddPart(n / 2);
      k := j + 1;
      assert Pow2(k) * m == 2 * (Pow2(j) * m);
    }
  }

  lemma ModulusIsPow2()
    ensures MODULUS == Pow2(32)
  {
    assert Pow2(8) == 256;
    Pow2Add(8, 8);
    Pow2Add(16, 16);
  }

  /** An odd multiple of 2^k is a multiple of 2^32 exactly when k is at least 32. */
  lemma OddMultiple(k: nat, d: nat)
    requires d % 2 == 1
    ensures (Pow2(k) * d) % MODULUS == 0 <==> k >= 32
  {
    ModulusIsPow2();
    hide Pow2;
    if k >= 32 {
      Pow2Add(32, k - 32);
      Regroup(Pow2(32), Pow2(k - 32), d);
      ResidueOfSum(0, Pow2(k - 32) * d);
    } else if (Pow2(k) * d) % MODULUS == 0 {
      var j := (Pow2(k) * d) / MODULUS;
      Pow2Add(k, 32 - k);
      Regroup(Pow2(k), Pow2(32 - k), j);
      Cancel(Pow2(k), d, Pow2(32 - k) * j);
      EvenPower(32 - k, j);
    }
  }

  lemma Regroup(a: int, b: int, c: int)
    ensures (a * b) * c == a * (b * c) == (b * c) * a
  {
  }

  lemma EvenPower(k: nat, j: nat)
    requires k > 0
    ensures (Pow2(k) * j) % 2 == 0
  {
    Regroup(2, Pow2(k - 1), j);
  }

  lemma Cancel(p: int, a: int, b: int)
    requires p > 0 && p * a == p * b
    ensures a == b
  {
    Distribute(p, a, -b);
    var e := a - b;
    assert p * e == 0;
  }

  /** Full period: from any seed, n > 0 updates come back to it exactly when 2^32 divides n. */
  lemma FullPeriod(s: nat, n: nat)
    requires s < MODULUS && n > 0
    ensures Iterate(s, n) == s <==> n % MODULUS == 0
  {
    var k, m := OddPart(n);
    var d := BlockSteps(s, k, m);
    IterateIsResidue(s, n);
    OddMultiple(k, m);
    OddMultiple(k, d);
    SameResidue(s, Pow2(k) * d);
  }

  lemma SameResidue(s: nat, x: nat)
    requires s < MODULUS
    ensures (s + x) % MODULUS == s <==> x % MODULUS == 0
  {
  }

  // ---- draws and random strings ----------------------------------------------------------------

  /** `a & b`, one bit at a time. */
  function BitAnd(a: nat, b: nat): nat {
    if a == 0 then 0 else (if a % 2 == 1 && b % 2 == 1 then 1 else 0) + 2 * BitAnd(a / 2, b / 2)
  }

  /** The seed bits a draw looks at: `(seed >> 4) & 0x7FFF7FFF`. */
  function DrawBits(seed: nat): nat {
    BitAnd(seed / 16, 0x7FFF_7FFF)
  }

  function Highest(max: nat): nat {
    if max == 0xFFFF_FFFF then max - 1 else max
  }

  function Lowest(min: nat, max: nat): nat {
    if min > Highest(max) then Highest(max) else min
  }

  /** What a draw returns from the updated seed: never outside the (corrected) bounds. */
  function Draw(seed: nat, min: nat, max: nat): (r: nat)
    requires seed < MODULUS && min < MODULUS && max < MODULUS
    ensures Lowest(min, max) <= r <= Highest(max)
  {
    DrawBits(seed) % (Highest(max) - Lowest(min, max) + 1) + Lowest(min, max)
  }

  /** The 36-character alphabet of ICE credentials: digits, then lower-case letters. */
  function Symbol(i: nat): (b: byte)
    requires i < 36
  {
    if i < 10 then ToByte(0x30 + i) else ToByte(0x61 + i - 10)
  }

  predicate IsSymbol(b: byte) {
    0x30 <= b <= 0x39 || 0x61 <= b <= 0x7A
  }

  lemma SymbolInRange(i: nat)
    requires i < 36
    ensures IsSymbol(Symbol(i))
  {
    var b := Symbol(i);
    assert (b as int) as bv8 == b;
  }

  /** The string drawn from a seed, one symbol per update. */
  function Symbols(seed: nat, n: nat): (s: seq<byte>)
    requires seed < MODULUS
    ensures |s| == n
  {
    if n == 0 then []
    else Symbols(seed, n - 1) + [Symbol(Draw(IterateBound(seed, n), 0, 35))]
  }

  function IterateBound(seed: nat, n: nat): (r: nat)
    requires seed < MODULUS
    ensures r == Iterate(seed, n) && r < MODULUS
  {
    Iterate(seed, n)
  }

  lemma {:induction false} SymbolsInAlphabet(seed: nat, n: nat)
    requires seed < MODULUS
    ensures forall i :: 0 <= i < n ==> IsSymbol(Symbols(seed, n)[i])
  {
    hide Symbol, IsSymbol, Draw, Iterate;
    if n != 0 {
      SymbolsInAlphabet(seed, n - 1);
      SymbolInRange(Draw(IterateBound(seed, n), 0, 35));
    }
  }

  /**
   * A transport's fragment and password are two draws in one call's argument list; `fragmentFirst` is the order,
   * which C++ leaves to the compiler.
   */
  function DrawnFragment(seed: nat, fragmentFirst: bool): seq<byte>
    requires seed < MODULUS
  {
    Symbols(if fragmentFirst then seed else IterateBound(seed, 24), 4)
  }

  function DrawnPassword(seed: nat, fragmentFirst: bool): seq<byte>
    requires seed < MODULUS
  {
    Symbols(if fragmentFirst then IterateBound(seed, 4) else seed, 24)
  }

  class Crypto {
    var seed: nat

    constructor (initial: nat)
      requires initial < MODULUS
      ensures seed == initial
    {
      seed := initial;
    }

    method GetRandomUInt(min: nat, max: nat) returns (r: nat)
      requires seed < MODULUS && min < MODULUS && max < MODULUS
      modifies this
      ensures seed == Next(old(seed)) && r == Draw(seed, min, max)
    {
      seed := (MULTIPLIER * seed + INCREMENT) % MODULUS;
      var hi := max;
      if hi == 0xFFFF_FFFF {
        hi := hi - 1;
      }
      var lo := min;
      if lo > hi {
        lo := hi;
      }
      r := DrawBits(seed) % (hi - lo + 1) + lo;
    }

    method GetRandomString(len: nat) returns (s: seq<byte>)
      requires seed < MODULUS
      modifies this
      ensures |s| == (if len > 64 then 64 else len) && seed == Iterate(old(seed), |s|) && seed < MODULUS
      ensures s == Symbols(old(seed), |s|)
      ensures forall i :: 0 <= i < |s| ==> IsSymbol(s[i])
    {
      var n := len;
      if n > 64 {
        n := 64;
      }
      s := [];
      for i := 0 to n
        invariant |s| == i && seed == Iterate(old(seed), i) && seed < MODULUS
        invariant s == Symbols(old(seed), i)
      {
        var k := GetRandomUInt(0, 35);
        s := s + [Symbol(k)];
      }
      SymbolsInAlphabet(old(seed), n);
    }

    /** The credentials of one transport. */
    method GetCredentials(fragmentFirst: bool) returns (ufrag: seq<byte>, pwd: seq<byte>)
      requires seed < MODULUS
      modifies this
      ensures ufrag == DrawnFragment(old(seed), fragmentFirst) && pwd == DrawnPassword(old(seed), fragmentFirst)
      ensures seed == Iterate(old(seed), 28) && seed < MODULUS
    {
      hide Iterate, Symbols, IsSymbol;
      if fragmentFirst {
        ufrag := GetRandomString(4);
        pwd := GetRandomString(24);
        IterateAdd(old(seed), 4, 24);
      } else {
        pwd := GetRandomString(24);
        ufrag := GetRandomString(4);
        IterateAdd(old(seed), 24, 4);
      }
    }
  }
}
