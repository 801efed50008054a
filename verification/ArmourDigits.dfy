/** What the armour is, without its routines: the digits to the base 64 of each group
    of three bytes, in the source's alphabet. */
module ArmourDigits {
  import opened Bytes
  import opened Armour

  const ALPHABET: string := "ABCDEFGHIJKLMNOPQRSTUVWXYZ" + "abcdefghijklmnopqrstuvwxyz" + "0123456789+-"

  lemma UpperPlace(x: six)
    requires x < 26
    ensures |ALPHABET| == 64 && Charset(x) == ALPHABET[x] as int
  {
  }

  lemma LowerPlace(x: six)
    requires 26 <= x < 52
    ensures |ALPHABET| == 64 && Charset(x) == ALPHABET[x] as int
  {
  }

  lemma OtherPlace(x: six)
    requires 52 <= x
    ensures |ALPHABET| == 64 && Charset(x) == ALPHABET[x] as int
  {
  }

  /** The character for x is the one at place x of the alphabet. */
  lemma CharsetIsAlphabet(x: six)
    ensures |ALPHABET| == 64 && Charset(x) == ALPHABET[x] as int
  {
    if x < 26 { UpperPlace(x); } else if x < 52 { LowerPlace(x); } else { OtherPlace(x); }
  }

  /** A character of the alphabet reads as its place, any other as 0. */
  lemma ReverseIsPlace(c: byte)
    ensures forall x: six :: Charset(x) == c ==> Reverse(c) == x
    ensures (forall x: six :: Charset(x) != c) ==> Reverse(c) == 0
  {
    forall x: six | Charset(x) == c ensures Reverse(c) == x { CharsetInverse(x); }
    if Reverse(c) != 0 { assert Charset(Reverse(c)) == c; }
  }

  /** Byte j, or 0 behind the end. */
  function ByteAt(b: seq<byte>, j: nat): byte {
    if j < |b| then b[j] else 0
  }

  /** What character k stands for, or 0 behind the end. */
  function SixAt(c: seq<byte>, k: nat): six {
    if k < |c| then Reverse(c[k]) else 0
  }

  /** Digit r of four, the most significant first. */
  function Digit64(n: nat, r: nat): six {
    if r == 0 then n / 262144 % 64 else if r == 1 then n / 4096 % 64 else if r == 2 then n / 64 % 64 else n % 64
  }

  /** Byte r of three, the most significant first. */
  function Digit256(n: nat, r: nat): nat {
    if r == 0 then n / 65536 % 256 else if r == 1 then n / 256 % 256 else n % 256
  }

  lemma Digit0(a: byte, b: byte, c: byte)
    ensures (65536 * a + 256 * b + c) / 262144 % 64 == Out1(a)
  {
  }

  lemma Digit1(a: byte, b: byte, c: byte)
    ensures (65536 * a + 256 * b + c) / 4096 % 64 == Out2(a, b)
  {
    var h, l, m := a / 4, a % 4, b / 16;
    assert a == 4 * h + l && b == 16 * m + b % 16;
    SecondOf64(65536 * a + 256 * b + c, h, 16 * l + m, 256 * (b % 16) + c);
  }

  lemma SecondOf64(n: nat, high: nat, middle: nat, low: nat)
    requires n == 262144 * high + 4096 * middle + low && middle < 64 && low < 4096
    ensures n / 4096 % 64 == middle
  {
    assert n / 4096 == 64 * high + middle;
  }

  lemma Digit2(a: byte, b: byte, c: byte)
    ensures (65536 * a + 256 * b + c) / 64 % 64 == Out3(b, c)
  {
    var h, l, m := b / 16, b % 16, c / 64;
    assert b == 16 * h + l && c == 64 * m + c % 64;
    ThirdOf64(65536 * a + 256 * b + c, 16 * a + h, 4 * l + m, c % 64);
  }

  lemma ThirdOf64(n: nat, high: nat, middle: nat, low: nat)
    requires n == 4096 * high + 64 * middle + low && middle < 64 && low < 64
    ensures n / 64 % 64 == middle
  {
    assert n / 64 == 64 * high + middle;
  }

  lemma Digit3(a: byte, b: byte, c: byte)
    ensures (65536 * a + 256 * b + c) % 64 == Out4(c)
  {
  }

  lemma GroupDigit(b: seq<byte>, i: nat)
    requires 1 <= |b| <= 3 && i <= |b|
    ensures Sixes(b)[i] == Digit64(65536 * ByteAt(b, 0) + 256 * ByteAt(b, 1) + ByteAt(b, 2), i)
  {
    var x, y, z := ByteAt(b, 0), ByteAt(b, 1), ByteAt(b, 2);
    if i == 0 { Digit0(x, y, z); } else if i == 1 { Digit1(x, y, z); }
    else if i == 2 { Digit2(x, y, z); } else { Digit3(x, y, z); }
  }

  /** The number that three bytes from place j make. */
  function Number256(b: seq<byte>, j: nat): nat {
    65536 * ByteAt(b, j) + 256 * ByteAt(b, j + 1) + ByteAt(b, j + 2)
  }

  /** The number that four characters from place k make. */
  function Number64(c: seq<byte>, k: nat): nat {
    262144 * SixAt(c, k) + 4096 * SixAt(c, k + 1) + 64 * SixAt(c, k + 2) + SixAt(c, k + 3)
  }

  lemma NextGroup(b: seq<byte>, g: nat)
    requires |b| >= 3 && g >= 1
    ensures Number256(b[3..], 3 * (g - 1)) == Number256(b, 3 * g)
  {
  }

  /** Character i = 4g + r is digit r of the number that the g-th three bytes make. */
  lemma {:induction false} ArmouredDigit(b: seq<byte>, g: nat, r: nat)
    requires r < 4 && 4 * g + r < |Armoured(b)|
    ensures Armoured(b)[4 * g + r] == ALPHABET[Digit64(Number256(b, 3 * g), r)] as int
    decreases g
  {
    CharsetIsAlphabet(Digit64(Number256(b, 3 * g), r));
    ArmouredUnfold(b);
    if g == 0 {
      FirstGroup(b, r);
    } else {
      NextGroup(b, g);
      ArmouredDigit(b[3..], g - 1, r);
    }
  }

  lemma FirstGroup(b: seq<byte>, r: nat)
    requires b != [] && r < 4 && r < |Armoured(b)|
    ensures Armoured(b)[r] == Charset(Digit64(Number256(b, 0), r))
  {
    var n := Min(|b|, 3);
    ArmouredUnfold(b);
    GroupDigit(b[..n], r);
    CharsAt(Sixes(b[..n]), r);
  }

  lemma Place0(x: six, y: six, z: six, u: six)
    ensures (262144 * x + 4096 * y + 64 * z + u) / 65536 % 256 == Back1(x, y)
  {
    var h, l := y / 16, y % 16;
    assert y == 16 * h + l;
    Highest(262144 * x + 4096 * y + 64 * z + u, 4 * x + h, 4096 * l + 64 * z + u);
  }

  lemma Highest(n: nat, high: nat, low: nat)
    requires n == 65536 * high + low && high < 256 && low < 65536
    ensures n / 65536 % 256 == high
  {
    assert n / 65536 == high;
  }

  lemma Place1(x: six, y: six, z: six, u: six)
    ensures (262144 * x + 4096 * y + 64 * z + u) / 256 % 256 == Back2(y, z)
  {
    var h, l, q := y / 16, y % 16, z / 4;
    assert y == 16 * h + l;
    Middle(262144 * x + 4096 * y + 64 * z + u, 4 * x + h, 16 * l + q, 64 * (z % 4) + u);
  }

  lemma Middle(n: nat, high: nat, middle: nat, low: nat)
    requires n == 65536 * high + 256 * middle + low && middle < 256 && low < 256
    ensures n / 256 % 256 == middle
  {
    assert n / 256 == 256 * high + middle;
  }

  lemma Place2(x: six, y: six, z: six, u: six)
    ensures (262144 * x + 4096 * y + 64 * z + u) % 256 == Back3(z, u)
  {
    var q, m := z / 4, z % 4;
    assert z == 4 * q + m;
    Lowest(262144 * x + 4096 * y + 64 * z + u, 1024 * x + 16 * y + q, 64 * m + u);
  }

  lemma Lowest(n: nat, high: nat, low: nat)
    requires n == 256 * high + low && low < 256
    ensures n % 256 == low
  {
  }

  function SixOf(x: seq<six>, k: nat): six {
    if k < |x| then x[k] else 0
  }

  lemma SixesByte(xs: seq<six>, r: nat, n: nat)
    requires 2 <= |xs| <= 4 && r + 1 < |xs|
    requires n == 262144 * SixOf(xs, 0) + 4096 * SixOf(xs, 1) + 64 * SixOf(xs, 2) + SixOf(xs, 3)
    ensures Bytes3(xs)[r] == Digit256(n, r)
  {
    var x, y, z, u := SixOf(xs, 0), SixOf(xs, 1), SixOf(xs, 2), SixOf(xs, 3);
    if r == 0 {
      Place0(x, y, z, u);
    } else if r == 1 {
      Place1(x, y, z, u);
    } else {
      Place2(x, y, z, u);
    }
  }

  lemma ReversedIsSix(c: seq<byte>, k: nat)
    ensures SixOf(Reversed(c), k) == SixAt(c, k)
  {
    if k < |c| { ReversedAt(c, k); }
  }

  lemma NumberOfReversed(c: seq<byte>) returns (n: nat)
    ensures n == Number64(c, 0)
    ensures var xs := Reversed(c);
            n == 262144 * SixOf(xs, 0) + 4096 * SixOf(xs, 1) + 64 * SixOf(xs, 2) + SixOf(xs, 3)
  {
    n := Number64(c, 0);
    ReversedIsSix(c, 0);
    ReversedIsSix(c, 1);
    ReversedIsSix(c, 2);
    ReversedIsSix(c, 3);
  }

  lemma GroupByte(c: seq<byte>, r: nat, n: nat)
    requires 2 <= |c| <= 4 && r + 1 < |c| && n == Number64(c, 0)
    ensures Bytes3(Reversed(c))[r] == Digit256(n, r)
  {
    var m := NumberOfReversed(c);
    SixesByte(Reversed(c), r, m);
  }

  lemma NextFour(c: seq<byte>, g: nat)
    requires |c| >= 4 && g >= 1
    ensures Number64(c[4..], 4 * (g - 1)) == Number64(c, 4 * g)
  {
  }

  lemma LaterBytes(c: seq<byte>, j: nat)
    requires 3 <= j < |Unarmoured(c)|
    ensures |c| >= 4 && |Unarmoured(c[4..])| == |Unarmoured(c)| - 3
    ensures Unarmoured(c)[j] == Unarmoured(c[4..])[j - 3]
  {
    UnarmouredUnfold(c);
  }

  /** Byte j = 3g + r is byte r of the number that the g-th four characters make. */
  lemma {:induction false} UnarmouredByte(c: seq<byte>, g: nat, r: nat)
    requires r < 3 && 3 * g + r < |Unarmoured(c)|
    ensures Unarmoured(c)[3 * g + r] == Digit256(Number64(c, 4 * g), r)
    decreases g
  {
    if g == 0 {
      FirstFour(c, r);
    } else {
      LaterBytes(c, 3 * g + r);
      NextFour(c, g);
      UnarmouredByte(c[4..], g - 1, r);
    }
  }

  lemma SameSixes(c: seq<byte>, n: nat, k: nat)
    requires n == Min(|c|, 4) && k < 4
    ensures SixAt(c[..n], k) == SixAt(c, k)
  {
  }

  lemma SameNumber(c: seq<byte>, n: nat)
    requires n == Min(|c|, 4)
    ensures Number64(c[..n], 0) == Number64(c, 0)
  {
    SameSixes(c, n, 0);
    SameSixes(c, n, 1);
    SameSixes(c, n, 2);
    SameSixes(c, n, 3);
  }

  lemma FirstFour(c: seq<byte>, r: nat)
    requires r < 3 && r < |Unarmoured(c)|
    ensures Unarmoured(c)[r] == Digit256(Number64(c, 0), r)
  {
    var n := Min(|c|, 4);
    UnarmouredUnfold(c);
    SameNumber(c, n);
    GroupByte(c[..n], r, Number64(c, 0));
  }
}
