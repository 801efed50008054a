/** Bytes and the few C operators on them that the rest of the model shares. */
module Bytes {

  type byte = i: int | 0 <= i < 256

  const NUL: byte := 0
  const LF: byte := 10
  const CR: byte := 13
  const SPACE: byte := 32

  /** C's remainder: it takes the sign of the dividend. */
  function CRem(a: int, b: int): int
    requires b != 0
  {
    if a >= 0 then a % b else -((-a) % b)
  }

  function Abs(a: int): nat {
    if a < 0 then -a else a
  }

  lemma Quotient(a: nat, b: int) returns (q: int)
    requires b != 0
    ensures a == q * b + a % b && 0 <= a % b < Abs(b)
  {
    q := a / b;
  }

  lemma NegatedProduct(q: int, b: int)
    ensures (-q) * b == -(q * b)
  {
  }

  /** The remainder is that of a division that truncates towards zero. */
  lemma CRemIsC(a: int, b: int) returns (q: int)
    requires b != 0
    ensures a == q * b + CRem(a, b) && Abs(CRem(a, b)) < Abs(b)
    ensures if a < 0 then CRem(a, b) <= 0 else CRem(a, b) >= 0
  {
    q := Quotient(Abs(a), b);
    if a < 0 {
      NegatedProduct(q, b);
      q := -q;
    }
  }

  function Min(a: int, b: int): int {
    if a <= b then a else b
  }

  /** Storing an int into an unsigned char. */
  function Truncate(a: int): byte {
    a % 256
  }

  /** No byte is the string terminator, so the bytes are one C string. */
  predicate NulFree(s: seq<byte>) {
    forall i :: 0 <= i < |s| ==> s[i] != NUL
  }

  /** What a reader of a NUL-terminated buffer sees. */
  function CString(s: seq<byte>): (r: seq<byte>) {
    if s == [] || s[0] == NUL then [] else [s[0]] + CString(s[1..])
  }

  lemma {:induction false} CStringOf(s: seq<byte>, rest: seq<byte>)
    requires NulFree(s)
    ensures CString(s + [NUL] + rest) == s
  {
    if s == [] {
      assert (s + [NUL] + rest)[0] == NUL;
    } else {
      CStringOf(s[1..], rest);
      assert (s + [NUL] + rest)[1..] == s[1..] + [NUL] + rest;
    }
  }

  lemma Assoc<T>(a: seq<T>, b: seq<T>, c: seq<T>)
    ensures a + b + c == a + (b + c)
  {
  }

  lemma HeadFirst<T>(a: seq<T>, b: seq<T>)
    requires a != []
    ensures [a[0]] + (a[1..] + b) == a + b
  {
  }

  lemma TakeFirst<T>(a: seq<T>, b: seq<T>)
    requires b != []
    ensures a + [b[0]] + b[1..] == a + b
  {
  }

  lemma SameLists<T>(x: T, xs: seq<T>, y: T, ys: seq<T>)
    ensures [x] + xs == [y] + ys <==> x == y && xs == ys
  {
    assert ([x] + xs)[0] == x && ([y] + ys)[0] == y;
    assert ([x] + xs)[1..] == xs && ([y] + ys)[1..] == ys;
  }
}
