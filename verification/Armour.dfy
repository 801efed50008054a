/** encode64 and decode64: 64 printable characters, no padding.

    The fields that the source masks, shifts and ORs together never overlap, so
    they are written here as quotients, remainders and sums. */
module Armour {
  import opened Bytes

  type six = x: int | 0 <= x < 64

  /** charset[x] */
  function Charset(x: six): byte {
    if x < 26 then 65 + x             // 'A'..'Z'
    else if x < 52 then 97 + (x - 26) // 'a'..'z'
    else if x < 62 then 48 + (x - 52) // '0'..'9'
    else if x == 62 then 43           // '+'
    else 45                           // '-'
  }

  /** reversecharset[c]; characters outside the set read as 0 */
  function Reverse(c: byte): six {
    if 65 <= c <= 90 then c - 65
    else if 97 <= c <= 122 then 26 + (c - 97)
    else if 48 <= c <= 57 then 52 + (c - 48)
    else if c == 43 then 62
    else if c == 45 then 63
    else 0
  }

  /** A character that armoured text can contain: never NUL, CR, LF or space. */
  predicate Printable(c: byte) {
    c == 43 || c == 45 || 48 <= c <= 57 || 65 <= c <= 90 || 97 <= c <= 122
  }

  predicate AllPrintable(s: seq<byte>) {
    forall i :: 0 <= i < |s| ==> Printable(s[i])
  }

  function Out1(in1: byte): six { in1 / 4 }
  function Out2(in1: byte, in2: byte): six { in1 % 4 * 16 + in2 / 16 }
  function Out3(in2: byte, in3: byte): six { in2 % 16 * 4 + in3 / 64 }
  function Out4(in3: byte): six { in3 % 64 }

  function Back1(in1: six, in2: six): byte { in1 * 4 + in2 / 16 }
  function Back2(in2: six, in3: six): byte { in2 % 16 * 16 + in3 / 4 }
  function Back3(in3: six, in4: six): byte { in3 % 4 * 64 + in4 }

  /** One to three bytes as two to four six-bit numbers. */
  function Sixes(b: seq<byte>): (r: seq<six>)
    requires 1 <= |b| <= 3
    ensures |r| == |b| + 1
  {
    if |b| == 1 then [Out1(b[0]), Out2(b[0], 0)]
    else if |b| == 2 then [Out1(b[0]), Out2(b[0], b[1]), Out3(b[1], 0)]
    else [Out1(b[0]), Out2(b[0], b[1]), Out3(b[1], b[2]), Out4(b[2])]
  }

  /** Two to four six-bit numbers back to bytes. */
  function Bytes3(x: seq<six>): (r: seq<byte>)
    requires 2 <= |x| <= 4
    ensures |r| == |x| - 1
  {
    if |x| == 2 then [Back1(x[0], x[1])]
    else if |x| == 3 then [Back1(x[0], x[1]), Back2(x[1], x[2])]
    else [Back1(x[0], x[1]), Back2(x[1], x[2]), Back3(x[2], x[3])]
  }

  function Chars(xs: seq<six>): (r: seq<byte>)
    ensures |r| == |xs|
  {
    if xs == [] then [] else [Charset(xs[0])] + Chars(xs[1..])
  }

  function Reversed(cs: seq<byte>): (r: seq<six>)
    ensures |r| == |cs|
  {
    if cs == [] then [] else [Reverse(cs[0])] + Reversed(cs[1..])
  }

  function Armoured(b: seq<byte>): (r: seq<byte>)
    ensures |r| == (4 * |b| + 2) / 3
  {
    if b == [] then []
    else if |b| <= 3 then Chars(Sixes(b))
    else Chars(Sixes(b[..3])) + Armoured(b[3..])
  }

  function Unarmoured(c: seq<byte>): (r: seq<byte>)
    ensures |r| == 3 * |c| / 4
  {
    if |c| < 2 then []
    else if |c| < 4 then Bytes3(Reversed(c))
    else Bytes3(Reversed(c[..4])) + Unarmoured(c[4..])
  }

  lemma CharsetInverse(x: six)
    ensures Reverse(Charset(x)) == x && Printable(Charset(x))
  {
  }

  lemma {:induction false} CharsInverse(xs: seq<six>)
    ensures Reversed(Chars(xs)) == xs && AllPrintable(Chars(xs))
  {
    if xs != [] {
      CharsetInverse(xs[0]);
      CharsInverse(xs[1..]);
    }
  }

  lemma Low16(a: nat, q: nat)
    requires q < 16
    ensures (a * 16 + q) % 16 == q && (a * 16 + q) / 16 == a
  {
  }

  lemma Low4(a: nat, q: nat)
    requires q < 4
    ensures (a * 4 + q) % 4 == q && (a * 4 + q) / 4 == a
  {
  }

  lemma Back1Out(in1: byte, in2: byte)
    ensures Back1(Out1(in1), Out2(in1, in2)) == in1
  {
    Low16(in1 % 4, in2 / 16);
  }

  lemma Back2Out(in1: byte, in2: byte, in3: byte)
    ensures Back2(Out2(in1, in2), Out3(in2, in3)) == in2
  {
    Low16(in1 % 4, in2 / 16);
    Low4(in2 % 16, in3 / 64);
  }

  lemma Back3Out(in2: byte, in3: byte)
    ensures Back3(Out3(in2, in3), Out4(in3)) == in3
  {
    Low4(in2 % 16, in3 / 64);
  }

  lemma SixesInverse(b: seq<byte>)
    requires 1 <= |b| <= 3
    ensures Bytes3(Sixes(b)) == b
  {
    var x := Sixes(b);
    if |b| == 1 {
      Back1Out(b[0], 0);
      assert Bytes3(x) == [Back1(x[0], x[1])];
    } else if |b| == 2 {
      Back1Out(b[0], b[1]);
      Back2Out(b[0], b[1], 0);
      assert Bytes3(x) == [Back1(x[0], x[1]), Back2(x[1], x[2])];
    } else {
      Back1Out(b[0], b[1]);
      Back2Out(b[0], b[1], b[2]);
      Back3Out(b[1], b[2]);
      assert Bytes3(x) == [Back1(x[0], x[1]), Back2(x[1], x[2]), Back3(x[2], x[3])];
    }
  }

  lemma GroupInverse(b: seq<byte>)
    requires 1 <= |b| <= 3
    ensures Bytes3(Reversed(Chars(Sixes(b)))) == b && AllPrintable(Chars(Sixes(b)))
  {
    CharsInverse(Sixes(b));
    SixesInverse(b);
  }

  /** The armour is undone by its partner, for all three tail lengths. */
  lemma {:induction false} RoundTrip(b: seq<byte>)
    ensures Unarmoured(Armoured(b)) == b && AllPrintable(Armoured(b))
  {
    if b == [] {
    } else if |b| <= 3 {
      GroupInverse(b);
      var g := Chars(Sixes(b));
      assert |b| == 3 ==> g[..4] == g && g[4..] == [];
    } else {
      var g, r := Chars(Sixes(b[..3])), Armoured(b[3..]);
      GroupInverse(b[..3]);
      RoundTrip(b[3..]);
      assert (g + r)[..4] == g && (g + r)[4..] == r;
    }
  }

  lemma CharsUnfold(xs: seq<six>)
    ensures forall i :: 0 <= i < |xs| ==> Chars(xs)[i] == Charset(xs[i])
  {
    forall i | 0 <= i < |xs| ensures Chars(xs)[i] == Charset(xs[i]) { CharsAt(xs, i); }
  }

  lemma {:induction false} CharsAt(xs: seq<six>, i: nat)
    requires i < |xs|
    ensures Chars(xs)[i] == Charset(xs[i])
  {
    if i > 0 { CharsAt(xs[1..], i - 1); }
  }

  lemma ReversedUnfold(cs: seq<byte>)
    ensures forall i :: 0 <= i < |cs| ==> Reversed(cs)[i] == Reverse(cs[i])
  {
    forall i | 0 <= i < |cs| ensures Reversed(cs)[i] == Reverse(cs[i]) { ReversedAt(cs, i); }
  }

  lemma {:induction false} ReversedAt(cs: seq<byte>, i: nat)
    requires i < |cs|
    ensures Reversed(cs)[i] == Reverse(cs[i])
  {
    if i > 0 { ReversedAt(cs[1..], i - 1); }
  }

  /** One turn of encode64's loop: the characters of the group at input[i..]. */
  method PutGroup(input: array<byte>, i: nat, len: nat, output: array<byte>, address: nat) returns (address': nat)
    requires i < len <= input.Length && input != output
    requires address + Min(len - i, 3) + 1 < output.Length
    modifies output
    ensures address' == address + Min(len - i, 3) + 1
    ensures output[..address'] == old(output[..address]) + Chars(Sixes(input[i..i + Min(len - i, 3)]))
    ensures output[address'] == NUL
  {
    var in1: byte, in2: byte, in3: byte := input[i], 0, 0;
    var use_bytes;
    if i >= len - 1 {
      use_bytes := 2;
    } else if i >= len - 2 {
      in2 := input[i + 1];
      use_bytes := 3;
    } else {
      in2, in3 := input[i + 1], input[i + 2];
      use_bytes := 4;
    }
    output[address] := Charset(Out1(in1));
    output[address + 1] := Charset(Out2(in1, in2));
    if use_bytes >= 3 {
      output[address + 2] := Charset(Out3(in2, in3));
    }
    if use_bytes >= 4 {
      output[address + 3] := Charset(Out4(in3));
    }
    address' := address + use_bytes;
    output[address'] := NUL;
    CharsUnfold(Sixes(input[i..i + Min(len - i, 3)]));
    assert output[address..address'] == Chars(Sixes(input[i..i + Min(len - i, 3)]));
  }

  lemma ArmouredUnfold(b: seq<byte>)
    requires b != []
    ensures var n := Min(|b|, 3); Armoured(b) == Chars(Sixes(b[..n])) + Armoured(b[n..])
  {
    if |b| <= 3 {
      assert b[..|b|] == b && Armoured(b[|b|..]) == [];
    }
  }

  method EncodeStep(input: array<byte>, i: nat, len: nat, output: array<byte>, address: nat, ghost full: seq<byte>)
      returns (address': nat)
    requires i < len <= input.Length && input != output
    requires address < output.Length && |full| < output.Length
    requires output[..address] + Armoured(input[i..len]) == full
    modifies output
    ensures address' < output.Length && output[address'] == NUL
    ensures output[..address'] + Armoured(input[Min(i + 3, len)..len]) == full
  {
    ghost var rest, n, before := input[i..len], Min(len - i, 3), output[..address];
    ArmouredUnfold(rest);
    assert rest[..n] == input[i..i + n] && rest[n..] == input[i + n..len];
    Assoc(before, Chars(Sixes(rest[..n])), Armoured(rest[n..]));
    assert |full| == address + (n + 1) + |Armoured(rest[n..])|;
    address' := PutGroup(input, i, len, output, address);
  }

  method Encode64(input: array<byte>, len: nat, output: array<byte>)
    requires len <= input.Length && (4 * len + 2) / 3 < output.Length && input != output
    modifies output
    ensures output[..(4 * len + 2) / 3] == Armoured(input[..len])
    ensures output[(4 * len + 2) / 3] == NUL
  {
    var address: nat, i: nat := 0, 0;
    output[0] := NUL;
    ghost var full := Armoured(input[..len]);
    assert input[0..len] == input[..len];
    while i < len
      invariant address < output.Length && output[address] == NUL
      invariant output[..address] + Armoured(input[Min(i, len)..len]) == full
    {
      address := EncodeStep(input, i, len, output, address, full);
      i := i + 3;
    }
    assert output[..address] + [] == output[..address];
  }

  lemma UnarmouredUnfold(c: seq<byte>)
    requires |c| >= 2
    ensures var n := Min(|c|, 4);
            Unarmoured(c) == Bytes3(Reversed(c[..n])) + (if n == 4 then Unarmoured(c[4..]) else [])
  {
    if |c| < 4 {
      assert c[..|c|] == c;
    }
  }

  /** One turn of decode64's loop: the bytes of the count characters at i. */
  method TakeGroup(input: array<byte>, i: nat, count: nat, output: array<byte>, address: nat) returns (address': nat)
    requires 2 <= count <= 4 && i + count <= input.Length && input != output
    requires address + count - 1 <= output.Length
    modifies output
    ensures address' == address + count - 1
    ensures output[..address'] == old(output[..address]) + Bytes3(Reversed(input[i..i + count]))
  {
    var in1, in2 := Reverse(input[i]), Reverse(input[i + 1]);
    var in3: six := if count >= 3 then Reverse(input[i + 2]) else 0;
    var in4: six := if count >= 4 then Reverse(input[i + 3]) else 0;
    output[address] := Back1(in1, in2);
    if count >= 3 {
      output[address + 1] := Back2(in2, in3);
    }
    if count >= 4 {
      output[address + 2] := Back3(in3, in4);
    }
    address' := address + (count - 1);
    ReversedUnfold(input[i..i + count]);
    assert output[address..address'] == Bytes3(Reversed(input[i..i + count]));
  }

  method DecodeStep(input: array<byte>, i: nat, count: nat, ghost n: nat,
                    output: array<byte>, address: nat, ghost full: seq<byte>)
      returns (address': nat)
    requires i + count <= n < input.Length && count == Min(n - i, 4) && count >= 2
    requires input != output && address <= output.Length && |full| <= output.Length
    requires output[..address] + Unarmoured(input[i..n]) == full
    modifies output
    ensures address' <= output.Length
    ensures output[..address'] + (if count == 4 then Unarmoured(input[i + 4..n]) else []) == full
  {
    ghost var rest, before := input[i..n], output[..address];
    UnarmouredUnfold(rest);
    ghost var more := if count == 4 then Unarmoured(rest[4..]) else [];
    assert forall k :: 0 <= k < count ==> rest[..count][k] == input[i + k];
    assert rest[..count] == input[i..i + count];
    assert count == 4 ==> rest[4..] == input[i + 4..n];
    Assoc(before, Bytes3(Reversed(rest[..count])), more);
    assert |full| == address + (count - 1) + |more|;
    address' := TakeGroup(input, i, count, output, address);
  }

  /** decode64 of the string input[..n]: how many bytes it wrote. */
  method Decode64(input: array<byte>, ghost n: nat, output: array<byte>) returns (address: nat)
    requires n < input.Length && input[n] == NUL && forall j :: 0 <= j < n ==> input[j] != NUL
    requires 3 * n / 4 <= output.Length && input != output
    modifies output
    ensures address == 3 * n / 4 && output[..address] == Unarmoured(input[..n])
  {
    address := 0;
    var i := 0;
    ghost var full := Unarmoured(input[..n]);
    assert input[0..n] == input[..n];
    while true
      invariant i <= n && address <= output.Length
      invariant output[..address] + Unarmoured(input[i..n]) == full
      decreases n - i
    {
      if input[i] == NUL || input[i + 1] == NUL {
        break;
      }
      var count := if input[i + 2] == NUL then 2 else if input[i + 3] == NUL then 3 else 4;
      address := DecodeStep(input, i, count, n, output, address, full);
      if count < 4 {
        break;
      }
      i := i + 4;
    }
    assert output[..address] + [] == output[..address];
  }
}
