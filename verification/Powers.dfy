/** Powers of two and the few facts about division by them that block arithmetic rests on. */
module Powers {

  function Pow2(n: nat): (p: nat)
    ensures p > 0
  {
    if n == 0 then 1 else 2 * Pow2(n - 1)
  }

  lemma Pow2Doubles(n: nat)
    ensures Pow2(n + 1) == 2 * Pow2(n)
  {
  }

  lemma {:induction false} Pow2Monotone(a: nat, b: nat)
    requires a <= b
    ensures Pow2(a) <= Pow2(b)
    decreases b
  {
    if a < b {
      Pow2Monotone(a, b - 1);
    }
  }

  lemma Pow2Order(a: nat, b: nat)
    ensures Pow2(a) < Pow2(b) <==> a < b
  {
  }

  lemma {:induction false} Pow2Adds(a: nat, b: nat)
    ensures Pow2(a + b) == Pow2(a) * Pow2(b)
  {
    if b > 0 {
      Pow2Adds(a, b - 1);
    }
  }

  lemma MulDistributes(a: int, b: int, m: int)
    ensures (a - b) * m == a * m - b * m
  {
  }

  /** A multiple of `m` smaller in size than `m` is zero. */
  lemma SmallMultiple(k: int, m: int)
    requires m > 0 && -m < k * m < m
    ensures k == 0
  {
  }

  lemma DivisionForm(x: nat, m: nat)
    requires m > 0
    ensures x == x / m * m + x % m && 0 <= x % m < m
  {
  }

  /** `x == q * m + r` with a small remainder determines quotient and remainder. */
  lemma QuotientRemainder(x: nat, m: nat, q: nat, r: nat)
    requires m > 0 && x == q * m + r && r < m
    ensures x % m == r && x / m == q
  {
    DivisionForm(x, m);
    MulDistributes(q, x / m, m);
    SmallMultiple(q - x / m, m);
  }

  lemma QuotientWitness(x: nat, m: nat, q: nat)
    requires m > 0 && x == q * m
    ensures x % m == 0 && x / m == q
  {
    QuotientRemainder(x, m, q, 0);
  }

  /** Two multiples of `m` closer than `m` are equal. */
  lemma MultiplesApart(a: nat, b: nat, m: nat)
    requires m > 0 && a % m == 0 && b % m == 0
    requires a < b + m && b < a + m
    ensures a == b
  {
    DivisionForm(a, m);
    DivisionForm(b, m);
    MulDistributes(a / m, b / m, m);
    SmallMultiple(a / m - b / m, m);
  }
}
