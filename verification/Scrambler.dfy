/** jEncode and jDecode: a keyed scrambler with a checksum byte in the middle. */
module Scrambler {
  import opened Bytes

  /** The bytes whose complement is sent. */
  predicate Flipped(key: int, i: nat) {
    CRem(key, 7) == i % 5 || CRem(key, 2) == i % 2
  }

  /** ~b in a char. */
  function Complement(b: byte): byte {
    255 - b
  }

  function Mangle(key: int, i: nat, b: byte): byte {
    if Flipped(key, i) then Complement(b) else b
  }

  function Mangled(s: seq<byte>, key: int): (r: seq<byte>)
    ensures |r| == |s|
  {
    seq(|s|, i requires 0 <= i < |s| => Mangle(key, i, s[i]))
  }

  /** The sum of the bytes in a char. */
  function Sum(s: seq<byte>): byte {
    if s == [] then 0 else (Sum(s[..|s| - 1]) + s[|s| - 1]) % 256
  }

  /** Where the sum is inserted among n bytes. */
  function SumAt(key: int, n: nat): (p: nat)
    requires n > 0
    ensures p < n
  {
    Abs(CRem(key, n))
  }

  /** Encoded byte i when the sum goes to p. */
  function Encode(m: seq<byte>, sum: byte, p: nat, i: nat): byte
    requires p < |m| && i <= |m|
  {
    if p > i then Truncate(m[i] + sum * (i * i % 3))
    else if p == i then sum
    else Truncate(m[i - 1] + sum * (i * i % 7))
  }

  function Scrambled(s: seq<byte>, key: int): (r: seq<byte>)
    requires s != []
    ensures |r| == |s| + 1
  {
    var p := SumAt(key, |s|);
    seq(|s| + 1, i requires 0 <= i <= |s| => Encode(Mangled(s, key), Sum(s), p, i))
  }

  /** Decoded byte j, before complementing, when the sum was at p. */
  function Decode(t: seq<byte>, sum: byte, p: nat, j: nat): byte
    requires j + 1 < |t|
  {
    if p > j then Truncate(t[j] - sum * (j * j % 3))
    else Truncate(t[j + 1] - sum * ((j + 1) * (j + 1) % 7))
  }

  function Unscrambled(t: seq<byte>, key: int): (r: seq<byte>)
    requires |t| > 1
    ensures |r| == |t| - 1
  {
    var p := SumAt(key, |t| - 1);
    seq(|t| - 1, j requires 0 <= j < |t| - 1 => Mangle(key, j, Decode(t, t[p], p, j)))
  }

  /** The sum of the bytes. */
  function Total(s: seq<byte>): nat {
    if s == [] then 0 else s[0] + Total(s[1..])
  }

  /** t is b, complemented first if the key picks place i by its remainders by 7 and
      by 2, plus x. */
  predicate Follows(t: byte, b: byte, key: int, i: nat, x: int) {
    t == ((if CRem(key, 7) == i % 5 || CRem(key, 2) == i % 2 then -1 - b else b) + x) % 256
  }

  /** How the bytes of t follow from those of s and the byte that stands at p, the
      magnitude of key rem |s|.  In front of p byte i of s is shifted by i*i rem 3 times
      that byte; from p on it moves up one place and is shifted by the square of its new
      place rem 7 times it. */
  predicate PositionLaw(s: seq<byte>, key: int, t: seq<byte>)
    requires s != [] && |t| == |s| + 1
  {
    var p := Abs(CRem(key, |s|));
    && p < |s|
    && (forall i :: 0 <= i < p ==> Follows(t[i], s[i], key, i, t[p] * (i * i % 3)))
    && (forall i :: p <= i < |s| ==> Follows(t[i + 1], s[i], key, i, t[p] * ((i + 1) * (i + 1) % 7)))
  }

  lemma {:induction false} SumFromFront(s: seq<byte>)
    requires s != []
    ensures Sum(s) == (s[0] + Sum(s[1..])) % 256
  {
    if |s| > 1 {
      var n := |s| - 1;
      SumFromFront(s[..n]);
      assert s[..n][1..] == s[1..][..n - 1];
      assert s[1..][n - 1] == s[n];
      CarryOver(s[0], Sum(s[1..][..n - 1]), s[n]);
    } else {
      assert s[..0] == [] && s[1..] == [];
    }
  }

  lemma CarryOver(a: nat, b: nat, c: nat)
    ensures ((a + b) % 256 + c) % 256 == (a + (b + c) % 256) % 256
  {
  }

  lemma {:induction false} SumIsTotal(s: seq<byte>)
    ensures Sum(s) == Total(s) % 256
  {
    if s != [] {
      SumFromFront(s);
      SumIsTotal(s[1..]);
      CarryOver(s[0], Total(s[1..]), 0);
    }
  }

  lemma ShiftedByte(b: byte, key: int, i: nat, x: int)
    ensures Follows(Truncate(Mangle(key, i, b) + x), b, key, i, x)
  {
  }

  lemma ByteInFront(s: seq<byte>, key: int, i: nat)
    requires s != [] && i < SumAt(key, |s|)
    ensures var t := Scrambled(s, key);
            Follows(t[i], s[i], key, i, t[SumAt(key, |s|)] * (i * i % 3))
  {
    ShiftedByte(s[i], key, i, Sum(s) * (i * i % 3));
  }

  lemma ByteBehind(s: seq<byte>, key: int, i: nat)
    requires s != [] && SumAt(key, |s|) <= i < |s|
    ensures var t := Scrambled(s, key);
            Follows(t[i + 1], s[i], key, i, t[SumAt(key, |s|)] * ((i + 1) * (i + 1) % 7))
  {
    ShiftedByte(s[i], key, i, Sum(s) * ((i + 1) * (i + 1) % 7));
  }

  /** What the encoder writes: the sum at its place, and the position law around it. */
  lemma ScrambledLaw(s: seq<byte>, key: int)
    requires s != []
    ensures Scrambled(s, key)[Abs(CRem(key, |s|))] == Total(s) % 256
    ensures PositionLaw(s, key, Scrambled(s, key))
  {
    SumIsTotal(s);
    forall i | 0 <= i < SumAt(key, |s|)
      ensures var t := Scrambled(s, key);
              Follows(t[i], s[i], key, i, t[SumAt(key, |s|)] * (i * i % 3))
    {
      ByteInFront(s, key, i);
    }
    forall i | SumAt(key, |s|) <= i < |s|
      ensures var t := Scrambled(s, key);
              Follows(t[i + 1], s[i], key, i, t[SumAt(key, |s|)] * ((i + 1) * (i + 1) % 7))
    {
      ByteBehind(s, key, i);
    }
  }

  /** t = m + x, and m is b or its complement, says what t follows from. */
  lemma Reshifted(t: byte, key: int, i: nat, x: int)
    ensures Follows(t, Mangle(key, i, Truncate(t - x)), key, i, x)
  {
    var q := (t - x) / 256;
    assert Truncate(t - x) + x == t - 256 * q;
  }

  /** Of whatever bytes are decoded, the result is related to them by the same law. */
  lemma UnscrambledLaw(t: seq<byte>, key: int)
    requires |t| > 1
    ensures PositionLaw(Unscrambled(t, key), key, t)
  {
    var s, p := Unscrambled(t, key), SumAt(key, |t| - 1);
    forall i | 0 <= i < p ensures Follows(t[i], s[i], key, i, t[p] * (i * i % 3)) {
      Reshifted(t[i], key, i, t[p] * (i * i % 3));
    }
    forall i | p <= i < |s| ensures Follows(t[i + 1], s[i], key, i, t[p] * ((i + 1) * (i + 1) % 7)) {
      Reshifted(t[i + 1], key, i, t[p] * ((i + 1) * (i + 1) % 7));
    }
  }

  lemma ExampleTotal(s: seq<byte>)
    requires s == [4, 65, 66, 0]
    ensures Total(s) == 135
  {
    var a, b, c := s[1..], s[2..], s[3..];
    assert c[1..] == [] && Total(c) == 0;
    assert b[1..] == c && Total(b) == 66;
    assert a[1..] == b && Total(a) == 131;
  }

  lemma ExampleByte(s: seq<byte>, i: nat) returns (t: seq<byte>)
    requires s == [4, 65, 66, 0] && i < 4
    ensures t == Scrambled(s, 1000) && |t| == 5 && t[0] == 135
    ensures Follows(t[i + 1], s[i], 1000, i, 135 * ((i + 1) * (i + 1) % 7))
  {
    t := Scrambled(s, 1000);
    ExampleTotal(s);
    SumIsTotal(s);
    ByteBehind(s, 1000, i);
  }

  lemma ExampleBytes(a: byte, b: byte, c: byte, d: byte)
    requires Follows(a, 4, 1000, 0, 135 * (1 * 1 % 7)) && Follows(b, 65, 1000, 1, 135 * (2 * 2 % 7))
    requires Follows(c, 66, 1000, 2, 135 * (3 * 3 % 7)) && Follows(d, 0, 1000, 3, 135 * (4 * 4 % 7))
    ensures a == 130 && b == 93 && c == 203 && d == 14
  {
  }

  /** The stored block of the string "AB" under the source's default key. */
  lemma DefaultKeyExample()
    ensures Scrambled([4, 65, 66, 0], 1000) == [135, 130, 93, 203, 14]
  {
    var s: seq<byte> := [4, 65, 66, 0];
    var t := ExampleByte(s, 0);
    var t1 := ExampleByte(s, 1);
    var t2 := ExampleByte(s, 2);
    var t3 := ExampleByte(s, 3);
    ExampleBytes(t[1], t[2], t[3], t[4]);
  }

  lemma AddSubtract(b: byte, x: int)
    ensures Truncate(Truncate(b + x) - x) == b
  {
    var q := (b + x) / 256;
    assert Truncate(b + x) - x == b - 256 * q;
  }

  lemma DecodeEncode(m: seq<byte>, sum: byte, p: nat, t: seq<byte>, j: nat)
    requires p < |m| && |t| == |m| + 1 && j < |m|
    requires t[j] == Encode(m, sum, p, j) && t[j + 1] == Encode(m, sum, p, j + 1)
    ensures Decode(t, sum, p, j) == m[j]
  {
    if p > j {
      AddSubtract(m[j], sum * (j * j % 3));
    } else {
      AddSubtract(m[j], sum * ((j + 1) * (j + 1) % 7));
    }
  }

  /** The scrambler is undone by its partner, for every key. */
  lemma RoundTrip(s: seq<byte>, key: int)
    requires s != []
    ensures Unscrambled(Scrambled(s, key), key) == s
  {
    var p, m, t := SumAt(key, |s|), Mangled(s, key), Scrambled(s, key);
    assert t[p] == Sum(s);
    forall j | 0 <= j < |s| ensures Unscrambled(t, key)[j] == s[j] {
      DecodeEncode(m, Sum(s), p, t, j);
    }
  }

  /** The first loop of jEncode: sum the bytes and complement some in place. */
  method MangleInPlace(src: array<byte>, srclen: nat, key: int) returns (sum: byte)
    requires srclen <= src.Length
    modifies src
    ensures sum == Sum(old(src[..srclen])) && src[..srclen] == Mangled(old(src[..srclen]), key)
    ensures sum == Total(old(src[..srclen])) % 256
    ensures forall j :: 0 <= j < srclen ==>
              src[j] == if CRem(key, 7) == j % 5 || CRem(key, 2) == j % 2 then 255 - old(src[j]) else old(src[j])
    ensures src[srclen..] == old(src[srclen..])
  {
    sum := 0;
    ghost var s := src[..srclen];
    for i := 0 to srclen
      invariant sum == Sum(s[..i])
      invariant forall j :: 0 <= j < i ==> src[j] == Mangle(key, j, s[j])
      invariant forall j :: i <= j < srclen ==> src[j] == s[j]
      invariant src[srclen..] == old(src[srclen..])
    {
      assert s[..i + 1][..i] == s[..i];
      sum := Truncate(sum + src[i]);
      if Flipped(key, i) {
        src[i] := Complement(src[i]);
      }
    }
    assert s[..srclen] == s;
    SumIsTotal(s);
  }

  /** jEncode; with too little room it copies what fits, unscrambled. */
  method JEncode(src: array<byte>, srclen: nat, key: int, encoded: array<byte>, maxencodedlen: nat)
      returns (encodedlen: nat)
    requires 1 <= srclen <= src.Length && maxencodedlen <= encoded.Length && src != encoded
    modifies src, encoded
    ensures srclen + 1 > maxencodedlen ==>
              && encodedlen == maxencodedlen && src[..] == old(src[..])
              && encoded[..encodedlen] == old(src[..maxencodedlen])
    ensures srclen + 1 <= maxencodedlen ==>
              && encodedlen == srclen + 1 && src[..srclen] == Mangled(old(src[..srclen]), key)
              && encoded[..encodedlen] == Scrambled(old(src[..srclen]), key)
              && encoded[Abs(CRem(key, srclen))] == Total(old(src[..srclen])) % 256
              && PositionLaw(old(src[..srclen]), key, encoded[..encodedlen])
  {
    if srclen + 1 > maxencodedlen {
      encodedlen := maxencodedlen;
      for i := 0 to encodedlen
        invariant encoded[..i] == src[..i]
        invariant src[..] == old(src[..])
      {
        encoded[i] := src[i];
      }
    } else {
      encodedlen := srclen + 1;
      ghost var s := src[..srclen];
      var sum := MangleInPlace(src, srclen, key);
      var p := SumAt(key, srclen);
      for i := 0 to encodedlen
        invariant src[..srclen] == Mangled(s, key)
        invariant forall j :: 0 <= j < i ==> encoded[j] == Encode(src[..srclen], sum, p, j)
      {
        if p > i {
          encoded[i] := Truncate(src[i] + sum * (i * i % 3));
        }
        if p == i {
          encoded[i] := sum;
        }
        if p < i {
          encoded[i] := Truncate(src[i - 1] + sum * (i * i % 7));
        }
      }
      assert encoded[..encodedlen] == Scrambled(s, key);
      ScrambledLaw(s, key);
    }
  }

  /** The source's only callers pass the output of decode64; with nothing or
      one byte in it there is nothing to decode. */
  method JDecode(src: array<byte>, srclen: nat, key: int, decoded: array<byte>) returns (decodedlen: int)
    requires srclen <= src.Length && srclen <= decoded.Length + 1 && src != decoded
    modifies decoded
    ensures decodedlen == srclen - 1
    ensures decodedlen > 0 ==> decoded[..decodedlen] == Unscrambled(src[..srclen], key)
    ensures decodedlen > 0 ==> PositionLaw(decoded[..decodedlen], key, src[..srclen])
    ensures forall j :: 0 <= j < decoded.Length && j >= decodedlen ==> decoded[j] == old(decoded[j])
  {
    decodedlen := srclen - 1;
    if decodedlen <= 0 {
      return;
    }
    var p := SumAt(key, decodedlen);
    var sum := src[p];
    ghost var t := src[..srclen];
    for i := 0 to srclen
      invariant forall j :: 0 <= j < decodedlen && (j < p ==> j < i) && (j >= p ==> j + 1 < i) ==>
                              decoded[j] == Decode(t, sum, p, j)
      invariant forall j :: decodedlen <= j < decoded.Length ==> decoded[j] == old(decoded[j])
    {
      if p > i {
        decoded[i] := Truncate(src[i] - sum * (i * i % 3));
      }
      if p < i {
        decoded[i - 1] := Truncate(src[i] - sum * (i * i % 7));
      }
    }
    for i := 0 to decodedlen
      invariant forall j :: 0 <= j < i ==> decoded[j] == Mangle(key, j, Decode(t, sum, p, j))
      invariant forall j :: i <= j < decodedlen ==> decoded[j] == Decode(t, sum, p, j)
      invariant forall j :: decodedlen <= j < decoded.Length ==> decoded[j] == old(decoded[j])
    {
      if Flipped(key, i) {
        decoded[i] := Complement(decoded[i]);
      }
    }
    assert decoded[..decodedlen] == Unscrambled(t, key);
    UnscrambledLaw(t, key);
  }
}
