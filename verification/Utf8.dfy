/** Character names: the strict UTF-8 validator, checkStringErr, and the looser
    code-point counter for pet names. */
module Utf8 {
  import opened Bytes

  /** A Unicode scalar value (section 3 of RFC 3629). */
  predicate Scalar(cp: int) {
    0 <= cp <= 0x10ffff && !(0xd800 <= cp <= 0xdfff)
  }

  /** The characters a name may contain: no space, control or DEL. */
  predicate Allowed(cp: int) {
    Scalar(cp) && cp > 0x20 && cp != 0x7f
  }

  /** The encoding of a scalar value (section 3 of RFC 3629). */
  function Encode(cp: int): (bytes: seq<byte>)
    requires Scalar(cp)
    ensures 1 <= |bytes| <= 4
  {
    var hi, lo := cp / 64, cp % 64;
    if cp < 0x80 then [cp]
    else if cp < 0x800 then [0xc0 + hi, 0x80 + lo]
    else if cp < 0x10000 then [0xe0 + hi / 64, 0x80 + hi % 64, 0x80 + lo]
    else [0xf0 + hi / 64 / 64, 0x80 + hi / 64 % 64, 0x80 + hi % 64, 0x80 + lo]
  }

  predicate AllScalar(cps: seq<int>) {
    forall i :: 0 <= i < |cps| ==> Scalar(cps[i])
  }

  predicate AllAllowed(cps: seq<int>) {
    forall i :: 0 <= i < |cps| ==> Allowed(cps[i])
  }

  function EncodeAll(cps: seq<int>): (bytes: seq<byte>)
    requires AllScalar(cps)
  {
    if cps == [] then [] else Encode(cps[0]) + EncodeAll(cps[1..])
  }

  /** (b & 0xc0) == 0x80 */
  predicate Continuation(b: byte) {
    b / 64 == 2
  }

  /** Byte i of a C string. */
  function At(s: seq<byte>, i: nat): byte {
    if i < |s| then s[i] else NUL
  }

  /** How many bytes the validator steps over at the start of s, 0 if it
      rejects. */
  function StrictLen(s: seq<byte>): (n: nat)
    requires s != []
  {
    var b := s[0];
    if b <= 0x20 || b == 0x7f then 0
    else if b < 0x80 then 1
    else if 0xc2 <= b <= 0xdf then
      if !Continuation(At(s, 1)) then 0 else 2
    else if 0xe0 <= b <= 0xef then
      if !Continuation(At(s, 1)) || !Continuation(At(s, 2)) then 0
      else if (b == 0xe0 && s[1] < 0xa0) || (b == 0xed && s[1] >= 0xa0) then 0
      else 3
    else if 0xf0 <= b <= 0xf4 then
      if !Continuation(At(s, 1)) || !Continuation(At(s, 2)) || !Continuation(At(s, 3)) then 0
      else if (b == 0xf0 && s[1] < 0x90) || (b == 0xf4 && s[1] > 0x8f) then 0
      else 4
    else 0
  }

  predicate Valid(s: seq<byte>)
    decreases |s|
  {
    s == [] || (0 < StrictLen(s) <= |s| && Valid(s[StrictLen(s)..]))
  }

  function Sub(b: byte, base: int): int {
    b - base
  }

  /** hi, then six more bits from a continuation byte. */
  function Join(hi: int, b: byte): int {
    hi * 64 + (b - 0x80)
  }

  /** The character that an accepted sequence stands for. */
  function Decoded(s: seq<byte>): (cp: int)
    requires s != [] && 0 < StrictLen(s) <= |s|
  {
    match StrictLen(s)
    case 1 => s[0]
    case 2 => Join(Sub(s[0], 0xc0), s[1])
    case 3 => Join(Join(Sub(s[0], 0xe0), s[1]), s[2])
    case _ => Join(Join(Join(Sub(s[0], 0xf0), s[1]), s[2]), s[3])
  }

  lemma JoinSplits(hi: int, b: byte)
    requires Continuation(b)
    ensures Join(hi, b) / 64 == hi && Join(hi, b) % 64 == b - 0x80
  {
  }

  /** What the validator steps over is the encoding of an allowed character. */
  lemma StrictIsEncoding(s: seq<byte>)
    requires s != [] && StrictLen(s) > 0
    ensures StrictLen(s) <= |s| && Allowed(Decoded(s)) && Encode(Decoded(s)) == s[..StrictLen(s)]
  {
    var n := StrictLen(s);
    if n == 2 {
      JoinSplits(Sub(s[0], 0xc0), s[1]);
    } else if n == 3 {
      JoinSplits(Sub(s[0], 0xe0), s[1]);
      JoinSplits(Join(Sub(s[0], 0xe0), s[1]), s[2]);
    } else if n == 4 {
      JoinSplits(Sub(s[0], 0xf0), s[1]);
      JoinSplits(Join(Sub(s[0], 0xf0), s[1]), s[2]);
      JoinSplits(Join(Join(Sub(s[0], 0xf0), s[1]), s[2]), s[3]);
    }
  }

  /** And every allowed character's encoding is stepped over, whatever follows. */
  lemma EncodingIsStrict(cp: int, more: seq<byte>)
    requires Allowed(cp)
    ensures StrictLen(Encode(cp) + more) == |Encode(cp)|
    ensures Decoded(Encode(cp) + more) == cp
  {
  }

  lemma {:induction false} ValidDecodes(s: seq<byte>) returns (cps: seq<int>)
    requires Valid(s)
    ensures AllAllowed(cps) && EncodeAll(cps) == s
    decreases |s|
  {
    if s == [] {
      cps := [];
    } else {
      StrictIsEncoding(s);
      var n := StrictLen(s);
      var rest := ValidDecodes(s[n..]);
      cps := [Decoded(s)] + rest;
      assert s[..n] + s[n..] == s;
    }
  }

  lemma {:induction false} EncodedIsValid(cps: seq<int>)
    requires AllAllowed(cps)
    ensures Valid(EncodeAll(cps))
  {
    if cps != [] {
      var first, rest := Encode(cps[0]), EncodeAll(cps[1..]);
      EncodingIsStrict(cps[0], rest);
      EncodedIsValid(cps[1..]);
      assert (first + rest)[|first|..] == rest;
    }
  }

  /** The validator accepts exactly the encodings of allowed characters. */
  lemma ValidExactly(s: seq<byte>)
    ensures Valid(s) <==> exists cps :: AllAllowed(cps) && EncodeAll(cps) == s
  {
    if Valid(s) {
      var cps := ValidDecodes(s);
    }
    forall cps | AllAllowed(cps) && EncodeAll(cps) == s ensures Valid(s) {
      EncodedIsValid(cps);
    }
  }

  /** A name is the encoding of only one string of characters. */
  lemma {:induction false} DecodingIsUnique(a: seq<int>, b: seq<int>)
    requires AllAllowed(a) && AllAllowed(b) && EncodeAll(a) == EncodeAll(b)
    ensures a == b
  {
    if a != [] && b != [] {
      EncodingIsStrict(a[0], EncodeAll(a[1..]));
      EncodingIsStrict(b[0], EncodeAll(b[1..]));
      var n := |Encode(a[0])|;
      assert EncodeAll(a)[n..] == EncodeAll(a[1..]);
      assert EncodeAll(b)[n..] == EncodeAll(b[1..]);
      DecodingIsUnique(a[1..], b[1..]);
    }
  }

  method IsValidCharacterName(name: seq<byte>) returns (valid: bool)
    requires NulFree(name)
    ensures valid == Valid(name)
  {
    var p := 0;
    while At(name, p) != NUL
      invariant 0 <= p <= |name| && Valid(name) == Valid(name[p..])
      decreases |name| - p
    {
      ghost var s := name[p..];
      assert forall i :: 0 <= i < 4 ==> At(s, i) == At(name, p + i);
      var b := At(name, p);
      if b <= 0x20 || b == 0x7f {
        return false;
      }
      if b < 0x80 {
        p := p + 1;
        continue;
      }
      if b >= 0xc2 && b <= 0xdf {
        if At(name, p + 1) == NUL || !Continuation(At(name, p + 1)) {
          return false;
        }
        p := p + 2;
        continue;
      }
      if b >= 0xe0 && b <= 0xef {
        if At(name, p + 1) == NUL || At(name, p + 2) == NUL ||
           !Continuation(At(name, p + 1)) || !Continuation(At(name, p + 2)) {
          return false;
        }
        if (b == 0xe0 && At(name, p + 1) < 0xa0) || (b == 0xed && At(name, p + 1) >= 0xa0) {
          return false;
        }
        p := p + 3;
        continue;
      }
      if b >= 0xf0 && b <= 0xf4 {
        if At(name, p + 1) == NUL || At(name, p + 2) == NUL || At(name, p + 3) == NUL ||
           !Continuation(At(name, p + 1)) || !Continuation(At(name, p + 2)) || !Continuation(At(name, p + 3)) {
          return false;
        }
        if (b == 0xf0 && At(name, p + 1) < 0x90) || (b == 0xf4 && At(name, p + 1) > 0x8f) {
          return false;
        }
        p := p + 4;
        continue;
      }
      return false;
    }
    assert name[p..] == [];
    return true;
  }

  const QUOTE: byte := 39
  const SEMICOLON: byte := 59

  predicate Plain(s: seq<byte>) {
    forall i :: 0 <= i < |s| ==> s[i] != QUOTE && s[i] != SEMICOLON
  }

  /** checkStringErr of a string that is there: true means refused. */
  method CheckStringErr(s: seq<byte>) returns (err: bool)
    requires NulFree(s)
    ensures err == !(Valid(s) && Plain(s))
  {
    var valid := IsValidCharacterName(s);
    if !valid {
      return true;
    }
    for i := 0 to |s|
      invariant Plain(s[..i])
    {
      if s[i] == QUOTE || s[i] == SEMICOLON {
        return true;
      }
    }
    assert s[..|s|] == s;
    return false;
  }

  /** The characters of an accepted string. */
  predicate Acceptable(cps: seq<int>) {
    AllAllowed(cps) && forall i :: 0 <= i < |cps| ==> cps[i] != 39 && cps[i] != 59
  }

  lemma EncodePlain(cp: int)
    requires Allowed(cp)
    ensures Plain(Encode(cp)) <==> cp != 39 && cp != 59
  {
    var bytes := Encode(cp);
    if cp < 0x80 { assert bytes[0] == cp; }
  }

  /** A quote or semicolon byte is never part of a longer sequence. */
  lemma {:induction false} PlainExactly(cps: seq<int>)
    requires AllAllowed(cps)
    ensures Plain(EncodeAll(cps)) <==> Acceptable(cps)
  {
    if cps != [] {
      var first, rest := Encode(cps[0]), EncodeAll(cps[1..]);
      EncodePlain(cps[0]);
      PlainExactly(cps[1..]);
      assert Plain(first + rest) <==> Plain(first) && Plain(rest) by {
        assert (first + rest)[..|first|] == first && (first + rest)[|first|..] == rest;
      }
    }
  }

  /** The length bits of a first byte: 0xxxxxxx, 110xxxxx, 1110xxxx or 11110xxx. */
  function LeadBytes(b: byte): nat {
    if b < 0x80 then 1
    else if b / 32 == 6 then 2
    else if b / 16 == 14 then 3
    else if b / 8 == 30 then 4
    else 0
  }

  /** How many bytes the pet-name counter steps over; 0 if it gives up. */
  function LaxLen(s: seq<byte>): (n: nat)
    requires s != []
  {
    var bytes := LeadBytes(s[0]);
    if (bytes > 1 && !Continuation(At(s, 1))) || (bytes > 2 && !Continuation(At(s, 2))) ||
       (bytes > 3 && !Continuation(At(s, 3)))
    then 0 else bytes
  }

  datatype Counted = Malformed | TooMany | Count(n: nat)

  const PET_NAME_CHARACTERS: nat := 16

  /** The counter, with count characters behind it. */
  function LaxCount(s: seq<byte>, count: nat): (r: Counted)
    decreases |s|
  {
    if s == [] then Count(count)
    else if LaxLen(s) == 0 || LaxLen(s) > |s| then Malformed
    else if count + 1 > PET_NAME_CHARACTERS then TooMany
    else LaxCount(s[LaxLen(s)..], count + 1)
  }

  /** The inner loop of the counter, for the character at data[p..]. */
  method ScanCharacter(data: seq<byte>, p: nat) returns (bytes: nat)
    requires p < |data| && NulFree(data)
    ensures bytes == LaxLen(data[p..]) <= |data| - p
  {
    ghost var s := data[p..];
    assert forall i :: 0 <= i < 4 ==> At(s, i) == At(data, p + i);
    bytes := LeadBytes(data[p]);
    if bytes == 0 {
      return;
    }
    for i := 1 to bytes
      invariant forall j :: 1 <= j < i ==> Continuation(At(s, j))
    {
      if At(data, p + i) == NUL || !Continuation(At(data, p + i)) {
        return 0;
      }
    }
  }

  /** The head of KN_recv: may the name go on to the other checks? */
  method CountCharacters(data: seq<byte>) returns (ok: bool)
    requires NulFree(data)
    ensures ok == LaxCount(data, 0).Count?
  {
    var p, characters := 0, 0;
    while At(data, p) != NUL
      invariant 0 <= p <= |data| && 0 <= characters <= PET_NAME_CHARACTERS
      invariant LaxCount(data, 0) == LaxCount(data[p..], characters)
      decreases |data| - p
    {
      var bytes := ScanCharacter(data, p);
      if bytes == 0 {
        return false;
      }
      assert data[p..][bytes..] == data[p + bytes..];
      p := p + bytes;
      characters := characters + 1;
      if characters > PET_NAME_CHARACTERS {
        return false;
      }
    }
    assert data[p..] == [];
    return true;
  }

  /** Where the strict scan accepts, the lax one steps just as far. */
  lemma StrictIsLax(s: seq<byte>)
    requires s != [] && StrictLen(s) > 0
    ensures LaxLen(s) == StrictLen(s)
  {
  }

  /** On a valid name the lax scan never finds a malformed sequence, and its
      count is the number of characters. */
  lemma {:induction false} CountsCharacters(cps: seq<int>, count: nat)
    requires AllAllowed(cps) && count <= PET_NAME_CHARACTERS
    ensures LaxCount(EncodeAll(cps), count) ==
            if count + |cps| <= PET_NAME_CHARACTERS then Count(count + |cps|) else TooMany
    decreases |cps|
  {
    if cps != [] {
      var first, rest := Encode(cps[0]), EncodeAll(cps[1..]);
      EncodingIsStrict(cps[0], rest);
      StrictIsLax(first + rest);
      assert (first + rest)[|first|..] == rest;
      if count + 1 <= PET_NAME_CHARACTERS {
        CountsCharacters(cps[1..], count + 1);
      }
    }
  }

  /** The two checks of KN_recv together accept exactly the encodings of at most
      sixteen acceptable characters. */
  lemma PetNamesExactly(s: seq<byte>)
    ensures (LaxCount(s, 0).Count? && Valid(s) && Plain(s)) <==>
            exists cps :: Acceptable(cps) && EncodeAll(cps) == s && |cps| <= PET_NAME_CHARACTERS
  {
    if Valid(s) && Plain(s) {
      var cps := ValidDecodes(s);
      PlainExactly(cps);
      CountsCharacters(cps, 0);
    }
    forall cps | Acceptable(cps) && EncodeAll(cps) == s && |cps| <= PET_NAME_CHARACTERS
      ensures LaxCount(s, 0).Count? && Valid(s) && Plain(s)
    {
      EncodedIsValid(cps);
      PlainExactly(cps);
      CountsCharacters(cps, 0);
    }
  }

  /** One character as the counter sees it: a lead byte, and as many bytes from 0x80 to
      0xBF as that asks for. */
  predicate LaxCharacter(c: seq<byte>) {
    && c != []
    && |c| == (if c[0] < 0x80 then 1 else if 0xC0 <= c[0] < 0xE0 then 2
               else if 0xE0 <= c[0] < 0xF0 then 3 else if 0xF0 <= c[0] < 0xF8 then 4 else 0)
    && forall i :: 1 <= i < |c| ==> 0x80 <= c[i] < 0xC0
  }

  predicate AllLax(cs: seq<seq<byte>>) {
    forall i :: 0 <= i < |cs| ==> LaxCharacter(cs[i])
  }

  function Flat(cs: seq<seq<byte>>): seq<byte> {
    if cs == [] then [] else cs[0] + Flat(cs[1..])
  }

  lemma LaxStep(c: seq<byte>, rest: seq<byte>)
    requires LaxCharacter(c)
    ensures LaxLen(c + rest) == |c|
  {
    assert forall i :: 0 <= i < |c| ==> At(c + rest, i) == c[i];
  }

  lemma LaxHead(s: seq<byte>)
    requires s != [] && 0 < LaxLen(s) <= |s|
    ensures LaxCharacter(s[..LaxLen(s)])
  {
    assert forall i :: 0 <= i < |s| ==> At(s, i) == s[i];
  }

  lemma {:induction false} LaxAccepts(cs: seq<seq<byte>>, count: nat)
    requires AllLax(cs) && count <= 16
    ensures LaxCount(Flat(cs), count) == if count + |cs| <= 16 then Count(count + |cs|) else TooMany
    decreases |cs|
  {
    if cs != [] {
      LaxStep(cs[0], Flat(cs[1..]));
      assert (cs[0] + Flat(cs[1..]))[|cs[0]|..] == Flat(cs[1..]);
      if count + 1 <= 16 { LaxAccepts(cs[1..], count + 1); }
    }
  }

  lemma LaxGoesOn(s: seq<byte>, count: nat) returns (first: seq<byte>, rest: seq<byte>)
    requires s != [] && LaxCount(s, count).Count?
    ensures s == first + rest && first != [] && LaxCharacter(first)
    ensures count + 1 <= 16 && LaxCount(rest, count + 1).Count?
  {
    first, rest := s[..LaxLen(s)], s[LaxLen(s)..];
    LaxHead(s);
  }

  lemma {:induction false} LaxSplits(s: seq<byte>, count: nat) returns (cs: seq<seq<byte>>)
    requires count <= 16 && LaxCount(s, count).Count?
    ensures AllLax(cs) && Flat(cs) == s && count + |cs| <= 16
    decreases |s|
  {
    if s == [] {
      cs := [];
    } else {
      var first, rest := LaxGoesOn(s, count);
      var more := LaxSplits(rest, count + 1);
      cs := [first] + more;
      assert cs[1..] == more;
    }
  }

  /** Whatever the bytes, the counter lets through exactly up to sixteen such characters. */
  lemma CountsExactly(s: seq<byte>)
    ensures LaxCount(s, 0).Count? <==> exists cs :: AllLax(cs) && Flat(cs) == s && |cs| <= 16
  {
    if LaxCount(s, 0).Count? { var cs := LaxSplits(s, 0); }
    forall cs | AllLax(cs) && Flat(cs) == s && |cs| <= 16 ensures LaxCount(s, 0).Count? { LaxAccepts(cs, 0); }
  }
}
