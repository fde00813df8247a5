/** The linear congruential generator of src/lib/random.c and its full period. */
module Random {
  import opened Powers
  import opened Ranges

  const A: nat := 1103515245
  const C: nat := 12345

  /** One step in 32-bit arithmetic, reduced modulo LCG_M = 2^31. */
  function Next(s: nat): nat {
    ((1103515245 * s) % 0x1_0000_0000 + 12345) % 0x1_0000_0000 % 0x8000_0000
  }

  /** The state after `n` calls of `rand_next` from seed `s`. */
  function Nth(s: nat, n: nat): nat {
    if n == 0 then s else Next(Nth(s, n - 1))
  }

  class Rng {
    var state: nat

    constructor ()
      ensures state == 12345
    {
      state := 12345;
    }

    method RandSeed(seed: nat)
      modifies this
      ensures state == seed
    {
      state := seed;
    }

    method RandNext() returns (r: nat)
      modifies this
      ensures r == state == Next(old(state)) && r < 0x8000_0000
    {
      state := (A * state % 0x1_0000_0000 + C) % 0x1_0000_0000 % 0x8000_0000;
      r := state;
    }

    method RandMax(max: nat) returns (r: nat)
      modifies this
      ensures max == 0 ==> r == 0 && state == old(state)
      ensures max > 0 ==> state == Next(old(state)) && r == state % max < max
    {
      if max == 0 { return 0; }
      var x := RandNext();
      r := x % max;
    }

    method RandRange(min: nat, max: nat) returns (r: nat)
      modifies this
      ensures min >= max ==> r == min && state == old(state)
      ensures min < max ==> state == Next(old(state)) && r == min + state % (max - min) && min <= r < max
    {
      if min >= max { return min; }
      var x := RandNext();
      r := min + x % (max - min);
    }
  }

  // ---------------------------------------------------------------- divisibility by powers of two

  /** 2^k divides `x`. */
  predicate Divides(k: nat, x: int) {
    k == 0 || (x % 2 == 0 && Divides(k - 1, x / 2))
  }

  lemma {:induction false} DividesIsMod(k: nat, x: int)
    ensures Divides(k, x) <==> x % Pow2(k) == 0
  {
    if k > 0 {
      DividesIsMod(k - 1, x / 2);
      HalfMod(x, Pow2(k - 1));
    }
  }

  lemma HalfMod(x: int, m: nat)
    requires m > 0
    ensures x % (2 * m) == 0 <==> x % 2 == 0 && x / 2 % m == 0
  {
    if x % (2 * m) == 0 {
      var q := x / (2 * m);
      assert x == 2 * m * q;
      TwiceProduct(m, q);
      MultipleMod(x / 2, q, m);
    }
    if x % 2 == 0 && x / 2 % m == 0 {
      var q := x / 2 / m;
      assert x / 2 == m * q;
      TwiceProduct(m, q);
      MultipleMod(x, q, 2 * m);
    }
  }

  lemma TwiceProduct(m: int, q: int)
    ensures 2 * m * q == 2 * (m * q) == q * (2 * m)
  {
  }

  lemma MultipleMod(x: int, q: int, m: nat)
    requires m > 0 && x == q * m
    ensures x % m == 0
  {
    var d := x / m;
    assert x == d * m + x % m;
    MulDistributes(q, d, m);
    SmallMultiple(q - d, m);
  }

  lemma ModEqual(x: int, y: int, m: nat)
    requires m > 0
    ensures (x - y) % m == 0 <==> x % m == y % m
  {
    assert x == x / m * m + x % m && y == y / m * m + y % m;
    MulDistributes(x / m, y / m, m);
    if (x - y) % m == 0 {
      var q := (x - y) / m;
      assert x - y == q * m;
      MulDistributes(q, x / m - y / m, m);
      SmallMultiple(q - (x / m - y / m), m);
    }
    if x % m == y % m {
      MultipleMod(x - y, x / m - y / m, m);
    }
  }

  lemma {:induction false} DividesLess(k: nat, k': nat, x: int)
    requires k' <= k && Divides(k, x)
    ensures Divides(k', x)
  {
    if k' > 0 {
      DividesLess(k - 1, k' - 1, x / 2);
    }
  }

  lemma {:induction false} DividesSum(k: nat, x: int, y: int)
    requires Divides(k, x)
    ensures Divides(k, y) <==> Divides(k, x + y)
  {
    if k > 0 && y % 2 == 0 {
      assert (x + y) / 2 == x / 2 + y / 2;
      DividesSum(k - 1, x / 2, y / 2);
    }
  }

  lemma {:induction false} DividesNegated(k: nat, x: int)
    ensures Divides(k, -x) <==> Divides(k, x)
  {
    if k > 0 && x % 2 == 0 {
      assert -x / 2 == -(x / 2);
      DividesNegated(k - 1, x / 2);
    }
  }

  lemma OddTimesEven(q: int, y: int)
    ensures q * (2 * y) == 2 * (q * y)
  {
  }

  lemma OddTimesOdd(r: int, y: int)
    ensures (2 * r + 1) * (2 * y + 1) == 2 * (2 * (r * y) + r + y) + 1
  {
  }

  /** An odd factor does not change which powers of two divide. */
  lemma {:induction false} OddFactor(k: nat, q: int, x: int)
    requires q % 2 == 1
    ensures Divides(k, q * x) <==> Divides(k, x)
  {
    if k > 0 {
      var y := x / 2;
      if x % 2 == 0 {
        assert x == 2 * y;
        OddTimesEven(q, y);
        OddFactor(k - 1, q, y);
      } else {
        assert x == 2 * y + 1 && q == 2 * (q / 2) + 1;
        OddTimesOdd(q / 2, y);
      }
    }
  }

  // ---------------------------------------------------------------- powers and geometric sums

  function Pow(n: nat): nat {
    if n == 0 then 1 else A * Pow(n - 1)
  }

  /** 1 + A + ... + A^(n-1). */
  function Geom(n: nat): nat {
    if n == 0 then 0 else A * Geom(n - 1) + 1
  }

  lemma {:induction false} PowIsOneModFour(n: nat)
    ensures Pow(n) % 4 == 1
  {
    if n > 0 {
      PowIsOneModFour(n - 1);
      var q := Pow(n - 1) / 4;
      assert 1103515245 * (4 * q + 1) == 4 * (1103515245 * q + 275878811) + 1;
    }
  }

  lemma {:induction false} GeomAdds(m: nat, n: nat)
    ensures Geom(m + n) == Pow(n) * Geom(m) + Geom(n)
  {
    if n == 0 {
      assert Pow(0) * Geom(m) == Geom(m);
    } else {
      GeomAdds(m, n - 1);
      Distribute(A, Pow(n - 1), Geom(m), Geom(n - 1));
    }
  }

  lemma Distribute(a: int, p: int, g: int, h: int)
    ensures a * (p * g + h) == (a * p) * g + a * h
  {
  }

  lemma GeomEven(i: nat)
    ensures Geom(2 * i) == (Pow(i) + 1) * Geom(i)
  {
    GeomAdds(i, i);
    assert (Pow(i) + 1) * Geom(i) == Pow(i) * Geom(i) + Geom(i);
  }

  lemma GeomOdd(i: nat)
    ensures Geom(2 * i) % 2 == 0 && Geom(2 * i + 1) % 2 == 1
  {
    assert Geom(2 * i + 1) == A * Geom(2 * i) + 1;
    HalfOfGeom(i);
    hide Pow, Geom;
    EvenThenOdd(Geom(2 * i), (Pow(i) + 1) / 2 * Geom(i), Geom(2 * i + 1));
  }

  lemma EvenThenOdd(g: int, x: int, next: int)
    requires g == 2 * x && next == A * g + 1
    ensures g % 2 == 0 && next % 2 == 1
  {
    EvenPlusOne(x);
  }

  lemma HalfIsOdd(p: nat)
    requires p % 4 == 1
    ensures (p + 1) / 2 % 2 == 1 && p + 1 == 2 * ((p + 1) / 2)
  {
  }

  lemma HalfOfGeom(i: nat)
    ensures var h := (Pow(i) + 1) / 2; h % 2 == 1 && Geom(2 * i) == 2 * (h * Geom(i))
  {
    hide Pow, Geom;
    PowIsOneModFour(i);
    HalfIsOdd(Pow(i));
    GeomEven(i);
    TwiceProduct((Pow(i) + 1) / 2, Geom(i));
  }

  lemma EvenPlusOne(x: int)
    ensures (A * (2 * x) + 1) % 2 == 1
  {
  }

  /** 2^k divides the sum of the first `d` powers exactly when it divides `d`. */
  lemma {:induction false} DividesGeom(k: nat, d: nat)
    ensures Divides(k, Geom(d)) <==> Divides(k, d)
    decreases k
  {
    hide Geom, Pow;
    if k > 0 {
      var i := d / 2;
      GeomOdd(i);
      if d % 2 == 0 {
        assert d == 2 * i;
        HalfOfGeom(i);
        var h := (Pow(i) + 1) / 2;
        assert Geom(d) / 2 == h * Geom(i);
        OddFactor(k - 1, h, Geom(i));
        DividesGeom(k - 1, i);
      } else {
        assert d == 2 * i + 1;
      }
    }
  }

  // ---------------------------------------------------------------- the exact recurrence

  /** The recurrence over the integers, without any reduction. */
  function Exact(s: nat, n: nat): nat {
    if n == 0 then s else A * Exact(s, n - 1) + C
  }

  lemma Pow2Of31()
    ensures Pow2(31) == 0x8000_0000
  {
    assert Pow2(10) == 1024;
    Pow2Adds(10, 10);
    Pow2Adds(20, 10);
  }

  lemma DropWord(z: nat)
    ensures z % 0x1_0000_0000 % 0x8000_0000 == z % 0x8000_0000
  {
  }

  /** Both 32-bit reductions and the final one drop multiples of 2^31 only. */
  lemma NextIsMod(x: nat)
    ensures Next(x) == (1103515245 * x + 12345) % 0x8000_0000
  {
    var z := 1103515245 * x;
    var q := z / 0x1_0000_0000;
    DropWord(z % 0x1_0000_0000 + 12345);
    assert z + 12345 - (z % 0x1_0000_0000 + 12345) == (2 * q) * 0x8000_0000;
    MultipleMod(z + 12345 - (z % 0x1_0000_0000 + 12345), 2 * q, 0x8000_0000);
    ModEqual(z + 12345, z % 0x1_0000_0000 + 12345, 0x8000_0000);
  }

  lemma DividesRemainder(z: nat)
    ensures Divides(31, z % 0x8000_0000 - z)
  {
    var m: nat := 0x8000_0000;
    Pow2Of31();
    assert z % m - z == -(z / m) * m;
    MultipleMod(z % m - z, -(z / m), m);
    hide Pow2;
    DividesIsMod(31, z % m - z);
  }

  lemma StepCongruent(x: nat, y: nat)
    requires Divides(31, x - y)
    ensures Divides(31, Next(x) - (A * y + C))
  {
    hide Divides;
    var z := 1103515245 * x + 12345;
    NextIsMod(x);
    DividesRemainder(z);
    OddFactor(31, 1103515245, x - y);
    hide Next;
    DividesSum(31, Next(x) - z, 1103515245 * (x - y));
    assert Next(x) - z + 1103515245 * (x - y) == Next(x) - (A * y + C);
  }

  lemma {:induction false} NthCongruent(s: nat, n: nat)
    ensures Divides(31, Nth(s, n) - Exact(s, n))
  {
    if n == 0 {
      DividesIsMod(31, 0);
    } else {
      NthCongruent(s, n - 1);
      StepCongruent(Nth(s, n - 1), Exact(s, n - 1));
    }
  }

  lemma Regroup(a: int, p: int, g: int)
    ensures a * (p * g) == a * p * g
  {
  }

  lemma {:induction false} ExactGap(s: nat, n: nat, d: nat)
    ensures Exact(s, n + d) - Exact(s, n) == Pow(n) * (Exact(s, d) - s)
  {
    if n == 0 {
      assert Pow(0) * (Exact(s, d) - s) == Exact(s, d) - s;
    } else {
      ExactGap(s, n - 1, d);
      var g := Exact(s, d) - s;
      assert Exact(s, n + d) == A * Exact(s, n - 1 + d) + C && Exact(s, n) == A * Exact(s, n - 1) + C;
      assert Pow(n) == A * Pow(n - 1);
      hide Exact, Pow;
      MulDistributes(Exact(s, n - 1 + d), Exact(s, n - 1), A);
      Regroup(A, Pow(n - 1), g);
    }
  }

  /** How far the first call moves the seed `s`, before reduction: an odd distance. */
  function Drift(s: nat): (g: nat)
    ensures g % 2 == 1
  {
    1103515244 * s + 12345
  }

  lemma {:induction false} ExactFromSeed(s: nat, d: nat)
    ensures Exact(s, d) - s == Drift(s) * Geom(d)
  {
    if d > 0 {
      ExactFromSeed(s, d - 1);
      var e := Geom(d - 1);
      assert Exact(s, d) - s == A * (Drift(s) * e) + Drift(s);
      SumOut(Drift(s), A, e);
    }
  }

  lemma SumOut(g: int, a: int, e: int)
    ensures a * (g * e) + g == g * (a * e + 1)
  {
  }

  /** `d` calls apart, two states agree modulo 2^k exactly when 2^k divides `d`. */
  lemma GapDivides(s: nat, n: nat, d: nat, k: nat)
    ensures Divides(k, Exact(s, n + d) - Exact(s, n)) <==> Divides(k, d)
  {
    hide Pow, Geom, Exact, Divides;
    ExactGap(s, n, d);
    ExactFromSeed(s, d);
    PowIsOneModFour(n);
    OddFactor(k, Pow(n), Drift(s) * Geom(d));
    OddFactor(k, Drift(s), Geom(d));
    DividesGeom(k, d);
  }

  // ---------------------------------------------------------------- the period

  lemma GapOfStates(s: nat, n: nat, d: nat, k: nat)
    requires k <= 31
    ensures Divides(k, Nth(s, n + d) - Nth(s, n)) <==> Divides(k, d)
  {
    var x, y := Nth(s, n + d) - Exact(s, n + d), Nth(s, n) - Exact(s, n);
    NthCongruent(s, n + d);
    NthCongruent(s, n);
    DividesLess(31, k, x);
    DividesLess(31, k, y);
    DividesNegated(k, y);
    GapDivides(s, n, d, k);
    var gap := Exact(s, n + d) - Exact(s, n);
    DividesSum(k, x, gap);
    DividesSum(k, -y, x + gap);
    assert -y + (x + gap) == Nth(s, n + d) - Nth(s, n);
  }

  /** From every seed and for every k up to 31, the states modulo 2^k repeat with period exactly 2^k. */
  lemma PeriodModPow2(s: nat, n: nat, m: nat, k: nat)
    requires k <= 31 && n <= m
    ensures Nth(s, n) % Pow2(k) == Nth(s, m) % Pow2(k) <==> (m - n) % Pow2(k) == 0
  {
    hide Nth, Pow2, Divides;
    GapOfStates(s, n, m - n, k);
    DividesIsMod(k, Nth(s, m) - Nth(s, n));
    DividesIsMod(k, m - n);
    ModEqual(Nth(s, m), Nth(s, n), Pow2(k));
  }

  /** The state after `m` calls, modulo 2^k. */
  function Residue(s: nat, m: nat, k: nat): nat {
    Nth(s, m) % Pow2(k)
  }

  /** The states modulo 2^k after calls `n` up to, but not including, `e`. */
  function Residues(s: nat, n: nat, e: nat, k: nat): set<nat>
    decreases e
  {
    if e <= n then {} else Residues(s, n, e - 1, k) + {Residue(s, e - 1, k)}
  }

  lemma {:induction false} ResidueMember(s: nat, n: nat, e: nat, k: nat, v: nat)
    ensures v in Residues(s, n, e, k) <==> exists m: nat :: n <= m < e && Residue(s, m, k) == v
    decreases e
  {
    if n < e {
      ResidueMember(s, n, e - 1, k, v);
      hide Residue;
      assert Residue(s, e - 1, k) == v ==> v in Residues(s, n, e, k);
    }
  }

  lemma ResidueIsNew(s: nat, n: nat, e: nat, k: nat)
    requires k <= 31 && n < e <= n + Pow2(k)
    ensures Residue(s, e - 1, k) !in Residues(s, n, e - 1, k)
  {
    hide Nth, Pow2, Residues;
    var v := Residue(s, e - 1, k);
    ResidueMember(s, n, e - 1, k, v);
    forall m: nat | n <= m < e - 1
      ensures Residue(s, m, k) != v
    {
      PeriodModPow2(s, m, e - 1, k);
      QuotientRemainder(e - 1 - m, Pow2(k), 0, e - 1 - m);
    }
  }

  lemma {:induction false} ResiduesAreNew(s: nat, n: nat, e: nat, k: nat)
    requires k <= 31 && n <= e <= n + Pow2(k)
    ensures |Residues(s, n, e, k)| == e - n
    ensures Residues(s, n, e, k) <= Range(0, Pow2(k))
    decreases e
  {
    hide Nth, Pow2, Range;
    if n < e {
      ResiduesAreNew(s, n, e - 1, k);
      ResidueIsNew(s, n, e, k);
    }
  }

  /** Any 2^k calls in a row pass through every residue modulo 2^k exactly once. */
  lemma EveryResidueOnce(s: nat, n: nat, k: nat, v: nat)
    requires k <= 31 && v < Pow2(k)
    ensures exists m: nat :: n <= m < n + Pow2(k) && Residue(s, m, k) == v
    ensures forall m: nat, m': nat :: n <= m < m' < n + Pow2(k) ==> Residue(s, m, k) != Residue(s, m', k)
  {
    hide Nth, Pow2, Range, Residues;
    var e := n + Pow2(k);
    ResiduesAreNew(s, n, e, k);
    RangeSize(0, Pow2(k));
    SubsetSize(Residues(s, n, e, k), Range(0, Pow2(k)));
    ResidueMember(s, n, e, k, v);
    forall m: nat, m': nat | n <= m < m' < e
      ensures Residue(s, m, k) != Residue(s, m', k)
    {
      PeriodModPow2(s, m, m', k);
      QuotientRemainder(m' - m, Pow2(k), 0, m' - m);
    }
  }

  lemma {:induction false} NthBelow(s: nat, m: nat)
    requires m > 0
    ensures Nth(s, m) < 0x8000_0000
  {
  }

  /** Any 2^31 calls of `rand_next` in a row return each value below 2^31 exactly once. */
  lemma EveryValueOnce(s: nat, n: nat, v: nat)
    requires n > 0 && v < 0x8000_0000
    ensures exists m: nat :: n <= m < n + 0x8000_0000 && Nth(s, m) == v
    ensures forall m: nat, m': nat :: n <= m < m' < n + 0x8000_0000 ==> Nth(s, m) != Nth(s, m')
  {
    Pow2Of31();
    hide Nth, Pow2;
    EveryResidueOnce(s, n, 31, v);
    forall m: nat | n <= m
      ensures Residue(s, m, 31) == Nth(s, m)
    {
      NthBelow(s, m);
    }
    var m: nat :| n <= m < n + 0x8000_0000 && Residue(s, m, 31) == v;
    assert Nth(s, m) == v;
  }
}
