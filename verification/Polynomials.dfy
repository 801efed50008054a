/** Polynomials over the two-element field: bit k of a number is the coefficient of x^k. */
module Polynomials {
  import opened Bits

  /** The sum of two polynomials, C's exclusive or. */
  function Xor(x: nat, y: nat): (r: nat) {
    if x == 0 then y else if y == 0 then x
    else 2 * Xor(x / 2, y / 2) + (if x % 2 != y % 2 then 1 else 0)
  }

  /** The product of two polynomials. */
  function Product(q: nat, g: nat): nat {
    if q == 0 then 0 else Xor(2 * Product(q / 2, g), if q % 2 == 1 then g else 0)
  }

  lemma XorParts(x: nat, y: nat)
    ensures Xor(x, y) / 2 == Xor(x / 2, y / 2)
    ensures (Xor(x, y) % 2 == 1) == ((x % 2 == 1) != (y % 2 == 1))
  {
  }

  lemma {:induction false} XorBit(x: nat, y: nat, k: nat)
    ensures Bit(Xor(x, y), k) == (Bit(x, k) != Bit(y, k))
  {
    XorParts(x, y);
    if k > 0 { XorBit(x / 2, y / 2, k - 1); }
  }

  lemma {:induction false} XorCommutes(x: nat, y: nat)
    ensures Xor(x, y) == Xor(y, x)
  {
    if x > 0 && y > 0 { XorCommutes(x / 2, y / 2); }
  }

  lemma {:induction false} XorSelf(x: nat)
    ensures Xor(x, x) == 0
  {
    if x > 0 { XorSelf(x / 2); }
  }

  /** Two numbers with the same half and the same parity are one number. */
  lemma SameParts(x: nat, y: nat)
    requires x / 2 == y / 2 && (x % 2 == 1) == (y % 2 == 1)
    ensures x == y
  {
  }

  lemma {:induction false} XorAssociates(x: nat, y: nat, z: nat)
    ensures Xor(Xor(x, y), z) == Xor(x, Xor(y, z))
    decreases x + y + z
  {
    if x > 0 && y > 0 && z > 0 {
      XorAssociates(x / 2, y / 2, z / 2);
      XorParts(x, y);
      XorParts(Xor(x, y), z);
      XorParts(y, z);
      XorParts(x, Xor(y, z));
      SameParts(Xor(Xor(x, y), z), Xor(x, Xor(y, z)));
    }
  }

  /** A number with the half and the parity of a sum is that sum. */
  lemma XorFromParts(x: nat, y: nat, z: nat)
    requires z / 2 == Xor(x / 2, y / 2) && (z % 2 == 1) == ((x % 2 == 1) != (y % 2 == 1))
    ensures z == Xor(x, y)
  {
    XorParts(x, y);
    SameParts(z, Xor(x, y));
  }

  /** The four terms of a sum of two sums can be paired the other way. */
  lemma XorPairs(a: nat, b: nat, c: nat, d: nat)
    ensures Xor(Xor(a, b), Xor(c, d)) == Xor(Xor(a, c), Xor(b, d))
  {
    XorAssociates(a, b, Xor(c, d));
    XorAssociates(b, c, d);
    XorCommutes(b, c);
    XorAssociates(c, b, d);
    XorAssociates(a, c, Xor(b, d));
  }

  lemma {:induction false} XorBound(x: nat, y: nat, n: nat)
    requires x <= Ones(n) && y <= Ones(n)
    ensures Xor(x, y) <= Ones(n)
  {
    if n > 0 { XorBound(x / 2, y / 2, n - 1); }
  }

  /** A lower polynomial does not touch the leading terms of a higher one. */
  lemma {:induction false} XorKeepsHigh(x: nat, y: nat, n: nat)
    requires x > Ones(n) && y <= Ones(n)
    ensures Xor(x, y) > Ones(n)
  {
    if n > 0 { XorKeepsHigh(x / 2, y / 2, n - 1); }
  }

  /** Sums of polynomials with no common term are sums of numbers. */
  lemma {:induction false} XorDisjoint(h: nat, l: nat, n: nat)
    requires l <= Ones(n)
    ensures Xor(Shl(h, n), l) == Shl(h, n) + l
  {
    if n > 0 {
      XorDisjoint(h, l / 2, n - 1);
      XorParts(Shl(h, n), l);
    }
  }

  lemma {:induction false} ProductAdds(p: nat, q: nat, g: nat)
    ensures Product(Xor(p, q), g) == Xor(Product(p, g), Product(q, g))
  {
    if p > 0 && q > 0 {
      ProductAdds(p / 2, q / 2, g);
      ProductStep(p, g);
      ProductStep(q, g);
      ProductStep(Xor(p, q), g);
      XorParts(p, q);
      XorPairs(2 * Product(p / 2, g), Term(p, g), 2 * Product(q / 2, g), Term(q, g));
      XorDoubles(Product(p / 2, g), Product(q / 2, g));
      XorSelf(g);
    }
  }

  function Term(q: nat, g: nat): nat {
    if q % 2 == 1 then g else 0
  }

  lemma ProductStep(q: nat, g: nat)
    ensures Product(q, g) == Xor(2 * Product(q / 2, g), Term(q, g))
  {
  }

  lemma XorDoubles(x: nat, y: nat)
    ensures Xor(2 * x, 2 * y) == 2 * Xor(x, y)
  {
    XorParts(2 * x, 2 * y);
  }

  /** A multiple of g. */
  ghost predicate Multiple(x: nat, g: nat) {
    exists q: nat :: x == Product(q, g)
  }

  lemma MultipleOfSum(x: nat, y: nat, g: nat)
    requires Multiple(x, g) && Multiple(y, g)
    ensures Multiple(Xor(x, y), g)
  {
    var p: nat, q: nat :| x == Product(p, g) && y == Product(q, g);
    ProductAdds(p, q, g);
  }

  lemma MultipleDoubles(x: nat, g: nat)
    requires Multiple(x, g)
    ensures Multiple(2 * x, g)
  {
    var q: nat :| x == Product(q, g);
    ProductStep(2 * q, g);
  }

  /** A multiple of g that is of lower degree than g is zero. */
  lemma {:induction false} LowMultipleIsZero(q: nat, g: nat, n: nat)
    requires Ones(n) < g <= Ones(n + 1) && Product(q, g) <= Ones(n)
    ensures q == 0
  {
    if q > 0 {
      ProductStep(q, g);
      if q / 2 > 0 {
        if Product(q / 2, g) <= Ones(n) { LowMultipleIsZero(q / 2, g, n); }
        XorKeepsHigh(2 * Product(q / 2, g), Term(q, g), n + 1);
      }
    }
  }

  /** x and y leave the same remainder modulo g. */
  ghost predicate Congruent(x: nat, y: nat, g: nat) {
    Multiple(Xor(x, y), g)
  }

  lemma CongruentDoubles(x: nat, y: nat, g: nat)
    requires Congruent(x, y, g)
    ensures Congruent(2 * x, 2 * y, g)
  {
    XorDoubles(x, y);
    MultipleDoubles(Xor(x, y), g);
  }

  lemma CongruentAdds(x: nat, y: nat, b: nat, g: nat)
    requires Congruent(x, y, g)
    ensures Congruent(Xor(x, b), Xor(y, b), g)
  {
    XorPairs(x, b, y, b);
    XorSelf(b);
  }

  lemma CongruentChains(x: nat, y: nat, z: nat, g: nat)
    requires Congruent(x, y, g) && Congruent(y, z, g)
    ensures Congruent(x, z, g)
  {
    MultipleOfSum(Xor(x, y), Xor(y, z), g);
    XorAssociates(x, y, Xor(y, z));
    XorAssociates(y, y, z);
    XorSelf(y);
  }

  /** Remainders are unique: congruent polynomials of lower degree than g are equal. */
  lemma RemainderIsUnique(x: nat, y: nat, g: nat, n: nat)
    requires Ones(n) < g <= Ones(n + 1) && x <= Ones(n) && y <= Ones(n)
    requires Congruent(x, y, g)
    ensures x == y
  {
    XorBound(x, y, n);
    var q: nat :| Xor(x, y) == Product(q, g);
    LowMultipleIsZero(q, g, n);
    XorAssociates(x, y, y);
    XorSelf(y);
  }
}
