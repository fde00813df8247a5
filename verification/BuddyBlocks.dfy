/**
 The geometry of buddy blocks: a block of order `o` is a run of 2^o pages whose first page
 number, counted from the start of the heap, is a multiple of 2^o.
 */
module BuddyBlocks {
  import opened Powers

  predicate Aligned(b: nat, o: nat) {
    b % Pow2(o) == 0
  }

  /** Page `p` lies in the block of order `o` that starts at `b`. */
  predicate Covers(b: nat, o: nat, p: nat) {
    b <= p < b + Pow2(o)
  }

  predicate Apart(b1: nat, o1: nat, b2: nat, o2: nat) {
    b1 + Pow2(o1) <= b2 || b2 + Pow2(o2) <= b1
  }

  lemma CommonPage(b1: nat, o1: nat, b2: nat, o2: nat) returns (p: nat)
    requires !Apart(b1, o1, b2, o2)
    ensures Covers(b1, o1, p) && Covers(b2, o2, p)
  {
    p := if b1 <= b2 then b2 else b1;
  }

  /** `b` with bit `o` flipped, that is `b ^ (1 << o)`. */
  function Buddy(b: nat, o: nat): (c: nat) {
    if b / Pow2(o) % 2 == 0 then b + Pow2(o)
    else
      assert b >= Pow2(o) by {
        if b < Pow2(o) { assert b / Pow2(o) == 0; }
      }
      b - Pow2(o)
  }

  function Min(a: nat, b: nat): nat {
    if a < b then a else b
  }

  lemma AlignedHalves(b: nat, o: nat)
    requires Aligned(b, o + 1)
    ensures Aligned(b, o) && Aligned(b + Pow2(o), o)
    ensures Buddy(b, o) == b + Pow2(o) && Buddy(b + Pow2(o), o) == b
  {
    var q := b / Pow2(o + 1);
    DivisionForm(b, Pow2(o + 1));
    EvenOddMultiples(q, Pow2(o));
    QuotientWitness(b, Pow2(o), 2 * q);
    QuotientWitness(b + Pow2(o), Pow2(o), 2 * q + 1);
  }

  lemma EvenOddMultiples(q: nat, m: nat)
    ensures q * (2 * m) == (2 * q) * m
    ensures q * (2 * m) + m == (2 * q + 1) * m
  {
  }

  /** An aligned block is one half of an aligned parent, and its buddy is the other half. */
  lemma AlignedBuddy(b: nat, o: nat)
    requires Aligned(b, o)
    ensures var c := Buddy(b, o);
            && Aligned(Min(b, c), o + 1)
            && (c == b + Pow2(o) || b == c + Pow2(o))
            && Aligned(c, o) && Buddy(c, o) == b
  {
    var q := b / Pow2(o);
    var p := q / 2 * Pow2(o + 1);
    DivisionForm(b, Pow2(o));
    EvenOddMultiples(q / 2, Pow2(o));
    QuotientWitness(p, Pow2(o + 1), q / 2);
    AlignedHalves(p, o);
  }

  lemma {:induction false} AlignedDown(b: nat, big: nat, small: nat)
    requires small <= big && Aligned(b, big)
    ensures Aligned(b, small)
    decreases big
  {
    if small < big {
      AlignedHalves(b, big - 1);
      AlignedDown(b, big - 1, small);
    }
  }

  /** Aligned blocks are nested or apart: a block that meets a larger one lies inside it. */
  lemma {:induction false} NestedOrApart(b1: nat, o1: nat, b2: nat, o2: nat)
    requires o1 <= o2 && Aligned(b1, o1) && Aligned(b2, o2)
    ensures Apart(b1, o1, b2, o2) || (b2 <= b1 && b1 + Pow2(o1) <= b2 + Pow2(o2))
    decreases o2
  {
    if o1 == o2 {
      if !Apart(b1, o1, b2, o2) {
        MultiplesApart(b1, b2, Pow2(o1));
      }
    } else {
      AlignedHalves(b2, o2 - 1);
      NestedOrApart(b1, o1, b2, o2 - 1);
      NestedOrApart(b1, o1, b2 + Pow2(o2 - 1), o2 - 1);
    }
  }
}
