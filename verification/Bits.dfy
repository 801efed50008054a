/** C's bit operators on non-negative numbers, bit by bit. */
module Bits {
  predicate Bit(x: nat, k: nat) {
    if k == 0 then x % 2 == 1 else Bit(x / 2, k - 1)
  }

  function And(x: nat, y: nat): nat {
    if x == 0 then 0
    else 2 * And(x / 2, y / 2) + (if x % 2 == 1 && y % 2 == 1 then 1 else 0)
  }

  function Or(x: nat, y: nat): nat {
    if x == 0 then y
    else 2 * Or(x / 2, y / 2) + (if x % 2 == 1 || y % 2 == 1 then 1 else 0)
  }

  function Shl(x: nat, n: nat): nat {
    if n == 0 then x else 2 * Shl(x, n - 1)
  }

  function Shr(x: nat, n: nat): nat {
    if n == 0 then x else Shr(x / 2, n - 1)
  }

  /** n one bits: 2^n - 1. */
  function Ones(n: nat): nat {
    if n == 0 then 0 else 2 * Ones(n - 1) + 1
  }

  lemma {:induction false} ZeroBit(k: nat)
    ensures !Bit(0, k)
  {
    if k > 0 { ZeroBit(k - 1); }
  }

  lemma {:induction false} AndBit(x: nat, y: nat, k: nat)
    ensures Bit(And(x, y), k) == (Bit(x, k) && Bit(y, k))
  {
    if x == 0 {
      ZeroBit(k);
    } else if k > 0 {
      AndBit(x / 2, y / 2, k - 1);
      assert And(x, y) / 2 == And(x / 2, y / 2);
    }
  }

  lemma {:induction false} OrBit(x: nat, y: nat, k: nat)
    ensures Bit(Or(x, y), k) == (Bit(x, k) || Bit(y, k))
  {
    if x == 0 {
      ZeroBit(k);
    } else if k > 0 {
      OrBit(x / 2, y / 2, k - 1);
      assert Or(x, y) / 2 == Or(x / 2, y / 2);
    }
  }

  lemma {:induction false} ShlZero(n: nat)
    ensures Shl(0, n) == 0
  {
    if n > 0 { ShlZero(n - 1); }
  }

  lemma {:induction false} ShlBit(x: nat, n: nat, k: nat)
    ensures Bit(Shl(x, n), k) == (k >= n && Bit(x, k - n))
  {
    if n > 0 && k > 0 {
      ShlBit(x, n - 1, k - 1);
      assert Shl(x, n) / 2 == Shl(x, n - 1);
    }
  }

  lemma {:induction false} ShrBit(x: nat, n: nat, k: nat)
    ensures Bit(Shr(x, n), k) == Bit(x, k + n)
  {
    if n > 0 { ShrBit(x / 2, n - 1, k); }
  }

  lemma {:induction false} OnesBit(n: nat, k: nat)
    ensures Bit(Ones(n), k) == (k < n)
  {
    if n == 0 {
      ZeroBit(k);
    } else if k > 0 {
      OnesBit(n - 1, k - 1);
      assert Ones(n) / 2 == Ones(n - 1);
    }
  }

  /** A number below 2^n has no bit at n or above. */
  lemma {:induction false} NoHighBit(x: nat, n: nat, k: nat)
    requires x <= Ones(n) && k >= n
    ensures !Bit(x, k)
  {
    if n == 0 {
      ZeroBit(k);
    } else {
      NoHighBit(x / 2, n - 1, k - 1);
    }
  }

  /** And the converse: with no bit at n or above it is below 2^n. */
  lemma {:induction false} BitsBound(x: nat, n: nat)
    requires forall k :: k >= n ==> !Bit(x, k)
    ensures x <= Ones(n)
    decreases x, n
  {
    if x > 0 {
      if n == 0 {
        SomeBit(x);
      } else {
        forall k | k >= n - 1 ensures !Bit(x / 2, k) {
          assert Bit(x / 2, k) == Bit(x, k + 1);
        }
        BitsBound(x / 2, n - 1);
      }
    }
  }

  lemma {:induction false} SomeBit(x: nat)
    requires x > 0
    ensures exists k: nat :: Bit(x, k)
  {
    if x % 2 == 1 {
      assert Bit(x, 0);
    } else {
      SomeBit(x / 2);
      var k: nat :| Bit(x / 2, k);
      assert Bit(x, k + 1);
    }
  }

  /** The number whose bits, lowest first, are bits. */
  function FromBits(bits: seq<bool>): (x: nat)
    ensures x <= Ones(|bits|)
  {
    if bits == [] then 0 else (if bits[0] then 1 else 0) + 2 * FromBits(bits[1..])
  }

  /** The low n bits of x, lowest first. */
  function BitsOf(x: nat, n: nat): (bits: seq<bool>)
    ensures |bits| == n
  {
    if n == 0 then [] else [x % 2 == 1] + BitsOf(x / 2, n - 1)
  }

  lemma {:induction false} BitsOfAt(x: nat, n: nat, k: nat)
    requires k < n
    ensures BitsOf(x, n)[k] == Bit(x, k)
  {
    if k > 0 { BitsOfAt(x / 2, n - 1, k - 1); }
  }

  lemma {:induction false} FromBitsOf(x: nat, n: nat)
    requires x <= Ones(n)
    ensures FromBits(BitsOf(x, n)) == x
  {
    if n > 0 { FromBitsOf(x / 2, n - 1); }
  }

  /** A number is determined by its bits. */
  lemma {:induction false} IsFromBits(x: nat, bits: seq<bool>)
    requires forall k: nat :: Bit(x, k) == (k < |bits| && bits[k])
    ensures x == FromBits(bits)
    decreases |bits|
  {
    if bits == [] {
      if x > 0 { SomeBit(x); }
    } else {
      assert Bit(x, 0) == bits[0];
      forall k: nat ensures Bit(x / 2, k) == (k < |bits[1..]| && bits[1..][k]) {
        assert Bit(x / 2, k) == Bit(x, k + 1);
      }
      IsFromBits(x / 2, bits[1..]);
    }
  }

  /** Adding a multiple of 2^n to a number below 2^n puts the bits side by side. */
  lemma {:induction false} FromBitsAppend(a: seq<bool>, b: seq<bool>)
    ensures FromBits(a + b) == FromBits(a) + Shl(FromBits(b), |a|)
  {
    if a == [] {
      assert a + b == b;
    } else {
      assert (a + b)[1..] == a[1..] + b;
      FromBitsAppend(a[1..], b);
    }
  }

  lemma {:induction false} SameBits(x: nat, y: nat)
    requires forall k: nat :: Bit(x, k) == Bit(y, k)
    ensures x == y
    decreases x
  {
    assert Bit(x, 0) == Bit(y, 0);
    if x == 0 {
      if y > 0 {
        SomeBit(y);
        var k: nat :| Bit(y, k);
        ZeroBit(k);
      }
    } else {
      forall k: nat ensures Bit(x / 2, k) == Bit(y / 2, k) {
        assert Bit(x / 2, k) == Bit(x, k + 1) && Bit(y / 2, k) == Bit(y, k + 1);
      }
      SameBits(x / 2, y / 2);
    }
  }

  lemma {:induction false} OnesMonotone(m: nat, n: nat)
    requires m <= n
    ensures Ones(m) <= Ones(n)
  {
    if m > 0 { OnesMonotone(m - 1, n - 1); }
  }
}
