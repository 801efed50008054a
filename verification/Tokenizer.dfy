/** SplitString: cutting a decoded message into tokens where it lies. */
module Tokenizer {
  import opened Bytes

  const WORKSPACE_TOKEN_CAPACITY: nat := 32

  /** A null pointer in token_list; other entries are offsets into the message. */
  const NULL: int := -1

  predicate IsBreak(b: byte) {
    b == SPACE || b == LF || b == CR
  }

  /** The message once its separators have been overwritten. */
  function Cut(s: seq<byte>): (r: seq<byte>)
    ensures |r| == |s|
    ensures forall i :: 0 <= i < |s| ==> r[i] == if IsBreak(s[i]) then NUL else s[i]
  {
    if s == [] then [] else [if IsBreak(s[0]) then NUL else s[0]] + Cut(s[1..])
  }

  /** The places that follow a space, s lying at offset base. */
  function Marks(s: seq<byte>, base: nat): seq<int> {
    if s == [] then [] else (if s[0] == SPACE then [base + 1] else []) + Marks(s[1..], base + 1)
  }

  /** Where the tokens start. */
  function Starts(s: seq<byte>): seq<int> {
    if s == [] then [] else [0] + Marks(s, 0)
  }

  /** The fields between spaces, empty ones kept. */
  function Fields(s: seq<byte>): (f: seq<seq<byte>>)
    ensures f != []
  {
    if s == [] then [[]]
    else if s[0] == SPACE then [[]] + Fields(s[1..])
    else [[s[0]] + Fields(s[1..])[0]] + Fields(s[1..])[1..]
  }

  function Joined(f: seq<seq<byte>>): seq<byte>
    requires f != []
  {
    if |f| == 1 then f[0] else f[0] + [SPACE] + Joined(f[1..])
  }

  /** Up to the first line feed or carriage return. */
  function LinePart(s: seq<byte>): seq<byte> {
    if s == [] || s[0] == LF || s[0] == CR then [] else [s[0]] + LinePart(s[1..])
  }

  function Spaces(s: seq<byte>): nat {
    if s == [] then 0 else (if s[0] == SPACE then 1 else 0) + Spaces(s[1..])
  }

  /** What a token pointer shows after the overwriting. */
  function TextAt(buf: seq<byte>, start: int): seq<byte> {
    if 0 <= start <= |buf| then CString(buf[start..]) else []
  }

  // ---- what the tokens are

  lemma {:induction false} MarksCount(s: seq<byte>, base: nat)
    ensures |Marks(s, base)| == Spaces(s) == |Fields(s)| - 1
    ensures forall k :: 0 <= k < Spaces(s) ==> base < Marks(s, base)[k] <= base + |s|
  {
    if s != [] { MarksCount(s[1..], base + 1); }
  }

  lemma {:induction false} FieldsJoin(s: seq<byte>)
    ensures Joined(Fields(s)) == s
    ensures forall k :: 0 <= k < |Fields(s)| ==> SPACE !in Fields(s)[k]
  {
    if s != [] {
      var rest := Fields(s[1..]);
      FieldsJoin(s[1..]);
      if s[0] == SPACE {
        assert ([[]] + rest)[1..] == rest;
      } else if |rest| > 1 {
        assert ([[s[0]] + rest[0]] + rest[1..])[1..] == rest[1..];
      }
    }
  }

  /** Fields is the only list of spaceless pieces that joins to the message. */
  lemma {:induction false} FieldsUnique(f: seq<seq<byte>>)
    requires f != [] && forall k :: 0 <= k < |f| ==> SPACE !in f[k]
    ensures Fields(Joined(f)) == f
    decreases |f|, |f[0]|
  {
    if f[0] != [] {
      var g := [f[0][1..]] + f[1..];
      assert g[1..] == f[1..];
      forall k | 0 <= k < |g| ensures SPACE !in g[k] {
        if k > 0 { assert g[k] == f[k]; }
      }
      FieldsUnique(g);
      assert Joined(f)[1..] == Joined(g);
      assert Joined(f)[0] == f[0][0] && f[0][0] in f[0];
      assert [f[0][0]] + g[0] == f[0];
    } else if |f| > 1 {
      FieldsUnique(f[1..]);
      assert Joined(f)[1..] == Joined(f[1..]);
    }
  }

  /** The texts of a list of fields, each cut at its first line end. */
  function LineParts(f: seq<seq<byte>>): (r: seq<seq<byte>>)
    ensures |r| == |f|
  {
    seq(|f|, k requires 0 <= k < |f| => LinePart(f[k]))
  }

  /** The first text: s cut and terminated shows the line part of its first field. */
  lemma {:induction false} FirstText(s: seq<byte>, rest: seq<byte>)
    requires NulFree(s)
    ensures CString(Cut(s) + [NUL] + rest) == LinePart(Fields(s)[0])
  {
    if s == [] {
      assert (Cut(s) + [NUL] + rest)[0] == NUL;
    } else {
      var all := Cut(s) + [NUL] + rest;
      assert all[0] == Cut(s)[0];
      if !IsBreak(s[0]) {
        assert all[1..] == Cut(s[1..]) + [NUL] + rest;
        FirstText(s[1..], rest);
        assert ([s[0]] + Fields(s[1..])[0])[1..] == Fields(s[1..])[0];
      }
    }
  }

  /** The text at every later start is the line part of the field that follows the space. */
  lemma {:induction false} LaterText(before: seq<byte>, s: seq<byte>, rest: seq<byte>, k: nat)
    requires NulFree(s) && k < Spaces(s)
    requires |Marks(s, |before|)| == Spaces(s) == |Fields(s)| - 1
    requires |before| < Marks(s, |before|)[k] <= |before| + |s|
    ensures TextAt(before + Cut(s) + [NUL] + rest, Marks(s, |before|)[k]) == LinePart(Fields(s)[k + 1])
    decreases |s|
  {
    var cut, tail := Cut(s), s[1..];
    var buf := before + cut + [NUL] + rest;
    HeadOver(before, cut, rest);
    MarksCount(tail, |before| + 1);
    if s[0] == SPACE && k == 0 {
      assert buf[|before| + 1..] == cut[1..] + [NUL] + rest;
      FirstText(tail, rest);
    } else {
      LaterText(before + [cut[0]], tail, rest, if s[0] == SPACE then k - 1 else k);
    }
  }

  lemma HeadOver(before: seq<byte>, cut: seq<byte>, rest: seq<byte>)
    requires cut != []
    ensures before + cut + [NUL] + rest == before + [cut[0]] + cut[1..] + [NUL] + rest
  {
    Assoc(before, [cut[0]], cut[1..]);
    assert [cut[0]] + cut[1..] == cut;
  }

  /** The texts that the pointers show, in order. */
  function Texts(buf: seq<byte>, starts: seq<int>): (r: seq<seq<byte>>)
    ensures |r| == |starts|
  {
    seq(|starts|, k requires 0 <= k < |starts| => TextAt(buf, starts[k]))
  }

  /** After SplitString every token shows its field up to a line end. */
  lemma TokensAreFields(s: seq<byte>, rest: seq<byte>)
    requires NulFree(s) && s != []
    ensures |Starts(s)| == 1 + Spaces(s)
    ensures forall k :: 0 <= k < |Starts(s)| ==> 0 <= Starts(s)[k] <= |s|
    ensures Texts(Cut(s) + [NUL] + rest, Starts(s)) == LineParts(Fields(s))
  {
    MarksCount(s, 0);
    forall k | 0 <= k < |Starts(s)| ensures TextAt(Cut(s) + [NUL] + rest, Starts(s)[k]) == LinePart(Fields(s)[k]) {
      OneText(s, rest, k);
    }
  }

  lemma OneText(s: seq<byte>, rest: seq<byte>, k: nat)
    requires NulFree(s) && s != [] && k <= Spaces(s) == |Marks(s, 0)| == |Fields(s)| - 1
    ensures TextAt(Cut(s) + [NUL] + rest, Starts(s)[k]) == LinePart(Fields(s)[k])
  {
    var buf := Cut(s) + [NUL] + rest;
    if k == 0 {
      assert buf[0..] == buf;
      FirstText(s, rest);
    } else {
      assert Starts(s)[k] == Marks(s, 0)[k - 1];
      MarksCount(s, 0);
      assert [] + Cut(s) == Cut(s);
      LaterText([], s, rest, k - 1);
    }
  }

  predicate NoLineEnd(s: seq<byte>) {
    forall i :: 0 <= i < |s| ==> s[i] != LF && s[i] != CR
  }

  lemma {:induction false} LinePartWhole(s: seq<byte>)
    requires NoLineEnd(s)
    ensures LinePart(s) == s
  {
    if s != [] { LinePartWhole(s[1..]); }
  }

  lemma {:induction false} LinePartEnds(s: seq<byte>, e: byte)
    requires NoLineEnd(s) && (e == LF || e == CR)
    ensures LinePart(s + [e]) == s
  {
    if s != [] {
      assert (s + [e])[1..] == s[1..] + [e];
      LinePartEnds(s[1..], e);
    }
  }

  lemma {:induction false} FieldsNoLineEnd(s: seq<byte>)
    requires NoLineEnd(s)
    ensures forall k :: 0 <= k < |Fields(s)| ==> NoLineEnd(Fields(s)[k])
  {
    if s != [] { FieldsNoLineEnd(s[1..]); }
  }

  /** A trailing line end belongs to the last field. */
  lemma {:induction false} FieldsOfLine(s: seq<byte>, e: byte)
    requires e != SPACE
    ensures var f := Fields(s); Fields(s + [e]) == f[..|f| - 1] + [f[|f| - 1] + [e]]
  {
    if s == [] {
      assert s + [e] == [e] && [e][1..] == [];
      assert Fields(s) == [[]];
      assert [e] + [] == [e] && [] + [e] == [e];
      assert Fields([e]) == [[e]];
    } else {
      var t, n := Fields(s[1..]), |Fields(s[1..])|;
      assert (s + [e])[1..] == s[1..] + [e];
      FieldsOfLine(s[1..], e);
      var u := t[..n - 1] + [t[n - 1] + [e]];
      assert Fields(s[1..] + [e]) == u;
      if s[0] == SPACE {
        assert [[]] + u == ([[]] + t)[..n] + [t[n - 1] + [e]];
      } else {
        GrowFirst(s[0], t, e);
      }
    }
  }

  /** A byte in front of the first field and one behind the last. */
  lemma GrowFirst(b: byte, t: seq<seq<byte>>, e: byte)
    requires t != []
    ensures var u := t[..|t| - 1] + [t[|t| - 1] + [e]];
            var f := [[b] + t[0]] + t[1..];
            [[b] + u[0]] + u[1..] == f[..|f| - 1] + [f[|f| - 1] + [e]]
  {
    var u := t[..|t| - 1] + [t[|t| - 1] + [e]];
    if |t| == 1 {
      assert [b] + (t[0] + [e]) == [b] + t[0] + [e];
    } else {
      assert u[0] == t[0] && u[1..] == t[1..|t| - 1] + [t[|t| - 1] + [e]];
    }
  }

  /** A message without line ends: the tokens joined by single spaces are the message. */
  lemma TokensJoin(s: seq<byte>, rest: seq<byte>)
    requires NulFree(s) && s != [] && NoLineEnd(s)
    ensures Texts(Cut(s) + [NUL] + rest, Starts(s)) == Fields(s) && Joined(Fields(s)) == s
  {
    TokensAreFields(s, rest);
    FieldsJoin(s);
    FieldsNoLineEnd(s);
    forall k | 0 <= k < |Fields(s)| ensures LinePart(Fields(s)[k]) == Fields(s)[k] {
      LinePartWhole(Fields(s)[k]);
    }
  }

  /** And so is a message that ends in one line end, but for that. */
  lemma TokensOfLine(s: seq<byte>, e: byte, rest: seq<byte>)
    requires NulFree(s) && NoLineEnd(s) && (e == LF || e == CR)
    ensures Texts(Cut(s + [e]) + [NUL] + rest, Starts(s + [e])) == Fields(s) && Joined(Fields(s)) == s
  {
    TokensAreFields(s + [e], rest);
    FieldsJoin(s);
    FieldsNoLineEnd(s);
    FieldsOfLine(s, e);
    var f, n := Fields(s), |Fields(s)|;
    forall k | 0 <= k < n ensures LinePart(Fields(s + [e])[k]) == f[k] {
      if k < n - 1 { LinePartWhole(f[k]); } else { LinePartEnds(f[k], e); }
    }
  }

  // ---- the routine

  lemma {:induction false} MarksPrefix(s: seq<byte>, t: seq<byte>, base: nat)
    ensures Marks(s + t, base) == Marks(s, base) + Marks(t, base + |s|)
  {
    if s == [] {
      assert s + t == t;
    } else {
      var first := if s[0] == SPACE then [base + 1] else [];
      assert (s + t)[1..] == s[1..] + t;
      MarksPrefix(s[1..], t, base + 1);
      Assoc(first, Marks(s[1..], base + 1), Marks(t, base + |s|));
    }
  }

  lemma MarksAppend(s: seq<byte>, b: byte, base: nat)
    ensures Marks(s + [b], base) == Marks(s, base) + if b == SPACE then [base + |s| + 1] else []
  {
    MarksPrefix(s, [b], base);
    assert [b][1..] == [];
  }

  lemma StartsAppend(s: seq<byte>, b: byte)
    ensures Starts(s + [b]) == (if s == [] then [0] else Starts(s)) + if b == SPACE then [|s| + 1] else []
  {
    MarksAppend(s, b, 0);
  }

  /** token_list filled up to its capacity. */
  function Padded(starts: seq<int>): (r: seq<int>)
    requires |starts| <= WORKSPACE_TOKEN_CAPACITY + 1
    ensures |r| == WORKSPACE_TOKEN_CAPACITY + 1
  {
    starts + seq(WORKSPACE_TOKEN_CAPACITY + 1 - |starts|, _ => NULL)
  }

  lemma PaddedGrows(starts: seq<int>, v: int)
    requires |starts| <= WORKSPACE_TOKEN_CAPACITY
    ensures Padded(starts)[|starts| := v] == Padded(starts + [v])
  {
  }

  /** token_list after SplitString of s. */
  function TokenList(s: seq<byte>): seq<int> {
    if |Starts(s)| <= WORKSPACE_TOKEN_CAPACITY then Padded(Starts(s))
    else Padded(Starts(s)[..WORKSPACE_TOKEN_CAPACITY])[0 := NULL]
  }

  /** buf holds the string s and its terminator. */
  ghost predicate Holds(buf: seq<byte>, s: seq<byte>) {
    NulFree(s) && |buf| > |s| && buf[..|s|] == s && buf[|s|] == NUL
  }

  /** The first loop: note where tokens start. */
  method MarkTokens(decoded: array<byte>, token_list: array<int>, ghost s: seq<byte>) returns (c: int)
    requires token_list.Length == WORKSPACE_TOKEN_CAPACITY + 1 && Holds(decoded[..], s)
    modifies token_list
    ensures token_list[..] == TokenList(s)
    ensures c == if |Starts(s)| <= WORKSPACE_TOKEN_CAPACITY then |Starts(s)| else -1
  {
    for j := 0 to token_list.Length
      invariant forall k :: 0 <= k < j ==> token_list[k] == NULL
    {
      token_list[j] := NULL;
    }
    c := 0;
    var i := 0;
    assert token_list[..] == Padded([]);
    while decoded[i] != NUL
      invariant 0 <= i <= |s| && 0 <= c <= WORKSPACE_TOKEN_CAPACITY
      invariant c == |Starts(s[..i])| && token_list[..] == Padded(Starts(s[..i]))
      decreases |s| - i
    {
      ghost var done := Starts(s[..i]);
      StartsAppend(s[..i], decoded[i]);
      assert s[..i + 1] == s[..i] + [decoded[i]];
      if i == 0 {
        PaddedGrows([], 0);
        token_list[c] := 0;
        c := c + 1;
        done := [0];
      }
      if decoded[i] == SPACE {
        if c >= WORKSPACE_TOKEN_CAPACITY {
          token_list[0] := NULL;
          TooMany(s, i);
          return -1;
        }
        PaddedGrows(done, i + 1);
        token_list[c] := i + 1;
        c := c + 1;
      }
      i := i + 1;
    }
    assert s[..i] == s;
  }

  /** One space too many for the table. */
  lemma TooMany(s: seq<byte>, i: nat)
    requires i < |s| && s[i] == SPACE && i > 0 && |Starts(s[..i])| == WORKSPACE_TOKEN_CAPACITY
    ensures |Starts(s)| > WORKSPACE_TOKEN_CAPACITY
    ensures Starts(s)[..WORKSPACE_TOKEN_CAPACITY] == Starts(s[..i])
  {
    assert s == s[..i] + s[i..];
    MarksPrefix(s[..i], s[i..], 0);
  }

  /** The second loop: overwrite the separators. */
  method BlankSeparators(decoded: array<byte>, ghost s: seq<byte>)
    requires Holds(decoded[..], s)
    modifies decoded
    ensures decoded[..] == Cut(s) + [NUL] + old(decoded[..])[|s| + 1..]
  {
    ghost var was, cut := decoded[..], Cut(s);
    var i := 0;
    while decoded[i] != NUL
      invariant 0 <= i <= |s|
      invariant decoded[..i] == cut[..i] && decoded[i..] == was[i..]
      decreases |s| - i
    {
      assert decoded[i] == was[i] == s[i];
      if decoded[i] == SPACE || decoded[i] == LF || decoded[i] == CR {
        decoded[i] := NUL;
      }
      assert decoded[i] == cut[i];
      assert decoded[..i + 1] == decoded[..i] + [decoded[i]];
      i := i + 1;
    }
    assert decoded[..] == decoded[..i] + [NUL] + decoded[i + 1..];
  }

  /** SplitString of the message in decoded, without the decoding that may come first. */
  method SplitString(decoded: array<byte>, token_list: array<int>, ghost s: seq<byte>) returns (c: int)
    requires token_list.Length == WORKSPACE_TOKEN_CAPACITY + 1 && Holds(decoded[..], s)
    modifies decoded, token_list
    ensures s == [] ==> c == 0
    ensures s != [] ==> c == if 1 + Spaces(s) <= WORKSPACE_TOKEN_CAPACITY then 1 + Spaces(s) else -1
    ensures c == -1 ==> token_list[0] == NULL && decoded[..] == old(decoded[..])
    ensures token_list[..] == TokenList(s) && (c != -1 ==> token_list[c] == NULL)
    ensures c != -1 ==> decoded[..] == Cut(s) + [NUL] + old(decoded[|s| + 1..])
    ensures c > 0 ==> Texts(decoded[..], token_list[..c]) == LineParts(Fields(s))
  {
    MarksCount(s, 0);
    c := MarkTokens(decoded, token_list, s);
    if c == -1 {
      return;
    }
    BlankSeparators(decoded, s);
    token_list[c] := NULL;
    assert token_list[..] == Padded(Starts(s));
    if c > 0 { TokensAreFields(s, decoded[|s| + 1..]); }
  }
}
