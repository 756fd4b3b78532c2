/** The multiply-with-carry generator: two 32-bit halves, each x -> a * (x mod 2^16) + x div 2^16. */
module Random {
  const B: nat := 0x1_0000
  const U32: nat := 0x1_0000_0000

  type Word = x: int | 0 <= x < 0x1_0000_0000

  /** The multipliers the seeding can choose. */
  predicate Multiplier(a: int) {
    || a == 36969 || a == 18000 || a == 31083 || a == 18030 || a == 31059
    || a == 18513 || a == 30714 || a == 19098 || a == 30345 || a == 21723
  }

  /** One half-step, in uint32_t. */
  function Next(a: Word, x: Word): Word {
    (a * (x % B) + x / B) % U32
  }

  /** The modulus the generator works in. */
  function Modulus(a: nat): int { a * B - 1 }

  /** A step never overflows 32 bits. */
  lemma NoOverflow(a: Word, x: Word)
    requires Multiplier(a)
    ensures Next(a, x) == a * (x % B) + x / B
  {
    assert a * (x % B) <= 36969 * 65535 by {
      Bound(a, 36969, x % B, 65535);
    }
  }

  lemma Bound(a: nat, b: nat, x: nat, y: nat)
    requires a <= b && x <= y
    ensures a * x <= b * y
  {
    assert a * x <= a * y <= b * y;
  }

  predicate InRange(a: Word, x: Word) { x < a * B }

  lemma StaysInRange(a: Word, x: Word)
    requires Multiplier(a) && InRange(a, x)
    ensures InRange(a, Next(a, x))
  {
    NoOverflow(a, x);
  }

  /** The state one step earlier. */
  function Previous(a: Word, y: Word): Word
    requires Multiplier(a) && InRange(a, y)
  {
    y % a * B + y / a
  }

  /** Division by a undoes multiplication by a. */
  lemma DivMod(a: Word, l: nat, h: nat)
    requires Multiplier(a) && h < a
    ensures (a * l + h) / a == l && (a * l + h) % a == h
  {
  }

  lemma ForthAndBack(a: Word, x: Word)
    requires Multiplier(a) && InRange(a, x)
    ensures InRange(a, Next(a, x)) && Previous(a, Next(a, x)) == x
  {
    StaysInRange(a, x);
    NoOverflow(a, x);
    DivMod(a, x % B, x / B);
  }

  lemma BackAndForth(a: Word, y: Word)
    requires Multiplier(a) && InRange(a, y)
    ensures InRange(a, Previous(a, y)) && Next(a, Previous(a, y)) == y
  {
    var x := Previous(a, y);
    assert y / a < B;
    assert x / B == y % a && x % B == y / a;
    NoOverflow(a, x);
    assert a * (y / a) + y % a == y;
  }

  /** The step is a bijection of [0, a * 2^16): it has an inverse on either side. */
  lemma Bijective(a: Word, x: Word)
    requires Multiplier(a) && InRange(a, x)
    ensures InRange(a, Next(a, x)) && Previous(a, Next(a, x)) == x
    ensures InRange(a, Previous(a, x)) && Next(a, Previous(a, x)) == x
  {
    ForthAndBack(a, x);
    BackAndForth(a, x);
  }

  /** Any seed is in the range two steps later. */
  lemma EntersRange(a: Word, x: Word)
    requires Multiplier(a)
    ensures InRange(a, Next(a, Next(a, x)))
  {
    var y := Next(a, x);
    NoOverflow(a, x);
    NoOverflow(a, y);
  }

  function Iterate(a: Word, x: Word, k: nat): Word {
    if k == 0 then x else Next(a, Iterate(a, x, k - 1))
  }

  function PowB(k: nat): nat {
    if k == 0 then 1 else B * PowB(k - 1)
  }

  /** Multiplying by 2^16 undoes a step modulo a * 2^16 - 1. */
  lemma StepCongruence(a: Word, x: Word)
    requires Multiplier(a)
    ensures B * Next(a, x) == x + Modulus(a) * (x % B)
  {
    NoOverflow(a, x);
  }

  /** The closed form: 2^(16k) times the k-th state is the seed plus a multiple of the modulus. */
  lemma {:induction false} Congruence(a: Word, x: Word, k: nat) returns (q: int)
    requires Multiplier(a)
    ensures PowB(k) * Iterate(a, x, k) == x + Modulus(a) * q
  {
    if k == 0 {
      q := 0;
    } else {
      var q' := Congruence(a, x, k - 1);
      var y, p := Iterate(a, x, k - 1), PowB(k - 1);
      StepCongruence(a, y);
      q := q' + p * (y % B);
      Chain(p, y, Next(a, y), x, Modulus(a), q', y % B);
    }
  }

  lemma Chain(p: int, y: int, n: int, x: int, m: int, q: int, l: int)
    requires p * y == x + m * q && B * n == y + m * l
    ensures B * p * n == x + m * (q + p * l)
  {
    assert B * p * n == p * (B * n);
    Distribute(p, y, m, l);
    Distribute(1, m * q, m, p * l);
    assert m * (q + p * l) == m * q + m * (p * l);
  }

  lemma Distribute(p: int, y: int, m: int, l: int)
    ensures p * (y + m * l) == p * y + m * (p * l)
  {
    assert p * (m * l) == m * (p * l);
  }

  ghost predicate Divides(m: int, x: int) {
    exists q: int :: Times(m, q) == x
  }

  function Times(m: int, q: int): int { m * q }

  /** With a B = m + 1 and B y = x + m l, the number m divides x exactly when it divides y. */
  lemma Forward(a: int, m: int, x: int, y: int, l: int, q: int)
    requires a * B == m + 1 && B * y == x + m * l && m * q == x
    ensures y == m * (a * (q + l) - y)
  {
    assert m * (q + l) == x + m * l;
    assert m * (a * (q + l)) == a * (m * (q + l)) == a * (B * y);
    assert a * (B * y) == (a * B) * y == m * y + y;
    assert m * (a * (q + l) - y) == m * (a * (q + l)) - m * y;
  }

  lemma Backward(m: int, x: int, y: int, l: int, q: int)
    requires B * y == x + m * l && m * q == y
    ensures x == m * (B * q - l)
  {
    assert m * (B * q - l) == m * (B * q) - m * l;
    assert m * (B * q) == B * (m * q);
  }

  /** A step keeps divisibility by the modulus, in both directions. */
  lemma StepDivides(a: Word, x: Word)
    requires Multiplier(a)
    ensures Divides(Modulus(a), x) <==> Divides(Modulus(a), Next(a, x))
  {
    StepCongruence(a, x);
    hide Next, Multiplier;
    var m, y, l := Modulus(a), Next(a, x), x % B;
    if Divides(m, x) {
      var q :| Times(m, q) == x;
      Forward(a, m, x, y, l, q);
      assert Times(m, a * (q + l) - y) == y;
    }
    if Divides(m, y) {
      var q :| Times(m, q) == y;
      Backward(m, x, y, l, q);
      assert Times(m, B * q - l) == x;
    }
  }

  lemma {:induction false} IterateDivides(a: Word, x: Word, k: nat)
    requires Multiplier(a)
    ensures Divides(Modulus(a), x) <==> Divides(Modulus(a), Iterate(a, x, k))
  {
    if k > 0 {
      IterateDivides(a, x, k - 1);
      StepDivides(a, Iterate(a, x, k - 1));
    }
  }

  /** Within the range the multiples of the modulus are its two ends. */
  lemma EndsOfRange(a: Word, x: Word)
    requires Multiplier(a) && InRange(a, x)
    ensures Divides(Modulus(a), x) <==> x == 0 || x == Modulus(a)
  {
    var m := Modulus(a);
    assert Times(m, 0) == 0 && Times(m, 1) == m;
    if Divides(m, x) {
      var q :| Times(m, q) == x;
      assert q < 0 ==> m * q <= -m;
      assert q >= 2 ==> m * q >= 2 * m;
    }
  }

  lemma {:induction false} InRangeFromTwo(a: Word, x: Word, k: nat)
    requires Multiplier(a) && k >= 2
    ensures InRange(a, Iterate(a, x, k))
    decreases k
  {
    if k == 2 {
      EntersRange(a, x);
      assert Iterate(a, x, 1) == Next(a, x);
    } else {
      InRangeFromTwo(a, x, k - 1);
      StaysInRange(a, Iterate(a, x, k - 1));
    }
  }

  /** The generator is stuck at 0 or a * 2^16 - 1 from the second step on exactly when the modulus divides the seed. */
  lemma StuckIff(a: Word, x: Word, k: nat)
    requires Multiplier(a) && k >= 2
    ensures InRange(a, Iterate(a, x, k))
    ensures Iterate(a, x, k) == 0 || Iterate(a, x, k) == Modulus(a) <==> Divides(Modulus(a), x)
  {
    InRangeFromTwo(a, x, k);
    IterateDivides(a, x, k);
    EndsOfRange(a, Iterate(a, x, k));
  }

  /** Both ends of the range are fixed points. */
  lemma EndsAreFixed(a: Word)
    requires Multiplier(a)
    ensures Next(a, 0) == 0 && Next(a, Modulus(a)) == Modulus(a)
  {
    NoOverflow(a, 0);
    NoOverflow(a, Modulus(a));
  }

  /** Shifting left by 16 in uint32_t keeps the low half. */
  lemma HighHalf(z: Word)
    ensures (z * B) % U32 == z % B * B
  {
    assert z * B == U32 * (z / B) + z % B * B;
  }

  // The generator as it runs

  /** The pair of multipliers for a quarter of the seed range. */
  function Constants(n: nat): (c: (Word, Word))
    ensures Multiplier(c.0) && Multiplier(c.1) && c.0 != c.1
  {
    match n
    case 0 => (31083, 18030)
    case 1 => (31059, 18513)
    case 2 => (30714, 19098)
    case 3 => (30345, 21723)
    case _ => (36969, 18000)
  }

  /** Which pair belongs to which quarter. */
  lemma ConstantsTable(n: nat)
    ensures var c := Constants(n);
            && (c == (31083, 18030) <==> n == 0) && (c == (31059, 18513) <==> n == 1)
            && (c == (30714, 19098) <==> n == 2) && (c == (30345, 21723) <==> n == 3)
            && (c == (36969, 18000) <==> n >= 4)
  {
  }

  class Generator {
    var z: Word
    var w: Word
    var zConst: Word
    var wConst: Word

    ghost predicate Valid()
      reads this
    {
      Multiplier(zConst) && Multiplier(wConst)
    }

    /** The choice of constants by the seed's quarter, and the skipped first numbers. */
    constructor (z0: Word, w0: Word, n: nat, skip: nat)
      ensures Valid() && (zConst, wConst) == Constants(n)
      ensures z == Iterate(zConst, z0, skip) && w == Iterate(wConst, w0, skip)
    {
      z, w := z0, w0;
      if n == 0 {
        zConst, wConst := 31083, 18030;
      } else if n == 1 {
        zConst, wConst := 31059, 18513;
      } else if n == 2 {
        zConst, wConst := 30714, 19098;
      } else if n == 3 {
        zConst, wConst := 30345, 21723;
      } else {
        zConst, wConst := 36969, 18000;
      }
      new;
      for i := 0 to skip
        invariant Valid() && (zConst, wConst) == Constants(n)
        invariant z == Iterate(zConst, z0, i) && w == Iterate(wConst, w0, i)
      {
        var _ := NextRandom();
      }
    }

    method NextRandom() returns (r: Word)
      requires Valid()
      modifies this`z, this`w
      ensures Valid() && z == Next(zConst, old(z)) && w == Next(wConst, old(w))
      ensures r == z % B * B + w % B
    {
      z := (zConst * (z % B) + z / B) % U32;
      w := (wConst * (w % B) + w / B) % U32;
      HighHalf(z);
      r := (z * B) % U32 + w % B;
    }
  }
}
