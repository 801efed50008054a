/** The compressor cuts the text into the longest words it knows, and learns each of
    them extended by the byte that follows. */
module LzwGreedy {
  import opened Bytes
  import opened Lzw
  import opened LzwRoundTrip

  /** Code c stands for a beginning of text, and no word of d stands for a longer one. */
  ghost predicate LongestWord(d: Dict, c: nat, text: seq<byte>)
    requires WellFormed(d)
  {
    && IsWord(|d|, c) && Expand(d, c) <= text
    && forall e :: IsWord(|d|, e) && Expand(d, e) <= text ==> |Expand(d, e)| <= |Expand(d, c)|
  }

  /** The first n + 1 bytes of text have become the next word, unless there is no room
      or no such byte. */
  ghost predicate Learned(d: Dict, d': Dict, text: seq<byte>, n: nat)
    requires WellFormed(d) && n <= |text|
  {
    if n == |text| || |d| == 255 then d' == d
    else d <= d' && |d'| == |d| + 1 && WellFormed(d') && Expand(d', 257 + |d|) == text[..n + 1]
  }

  /** es cuts text greedily, from dictionary d on. */
  ghost predicate Greedy(d: Dict, text: seq<byte>, es: seq<Emission>)
    requires WellFormed(d)
    decreases |es|
  {
    if text == [] then es == [] else
      es != [] && LongestWord(d, es[0].code, text) &&
      var n := |Expand(d, es[0].code)|;
      && WellFormed(es[0].dict) && Learned(d, es[0].dict, text, n)
      && Greedy(es[0].dict, text[n..], es[1..])
  }

  /** No two codes stand for the same word. */
  ghost predicate Injective(d: Dict)
    requires WellFormed(d)
  {
    forall a, b :: IsWord(|d|, a) && IsWord(|d|, b) && Expand(d, a) == Expand(d, b) ==> a == b
  }

  /** Every beginning of a word is a word, and its continuation is registered with it. */
  lemma {:induction false} PathThrough(d: Dict, c: nat, n: nat) returns (j: nat)
    requires WellFormed(d) && IsWord(|d|, c) && 1 <= n < |Expand(d, c)|
    ensures j < |d| && IsWord(|d|, d[j].parent)
    ensures Expand(d, d[j].parent) == Expand(d, c)[..n] && d[j].chr == Expand(d, c)[n]
    decreases c
  {
    j := c - FIRST_FREE;
    var w := Expand(d, d[j].parent);
    assert Expand(d, c) == w + [d[j].chr];
    if n < |w| {
      j := PathThrough(d, d[j].parent, n);
      assert Expand(d, c)[..n] == w[..n];
    } else {
      assert Expand(d, c)[..n] == w;
    }
  }

  /** When w followed by k is not registered, no word goes on from w with k. */
  lemma NoneIsLonger(d: Dict, w: nat, rest: seq<byte>, e: nat)
    requires WellFormed(d) && Injective(d) && IsWord(|d|, w) && rest != [] && Find(d, w, rest[0]) == 0
    requires IsWord(|d|, e) && Expand(d, e) <= Expand(d, w) + rest
    ensures |Expand(d, e)| <= |Expand(d, w)|
  {
    var n := |Expand(d, w)|;
    if |Expand(d, e)| > n {
      var j := PathThrough(d, e, n);
      assert Expand(d, e)[..n] == Expand(d, w);
      assert Expand(d, e)[n] == (Expand(d, w) + rest)[n];
      FindIsExact(d, |d|, w, rest[0]);
      assert false;
    }
  }

  lemma WordIsLongest(d: Dict, w: nat, rest: seq<byte>)
    requires WellFormed(d) && Injective(d) && IsWord(|d|, w) && (rest == [] || Find(d, w, rest[0]) == 0)
    ensures LongestWord(d, w, Expand(d, w) + rest)
  {
    forall e | IsWord(|d|, e) && Expand(d, e) <= Expand(d, w) + rest
      ensures |Expand(d, e)| <= |Expand(d, w)|
    {
      if rest != [] { NoneIsLonger(d, w, rest, e); }
    }
  }

  /** What is learned is new. */
  lemma NewWordIsNew(d: Dict, w: nat, k: byte, e: nat)
    requires WellFormed(d) && Injective(d) && IsWord(|d|, w) && Find(d, w, k) == 0 && IsWord(|d|, e)
    ensures Expand(d, e) != Expand(d, w) + [k]
  {
    if Expand(d, e) == Expand(d, w) + [k] {
      var n := |Expand(d, w)|;
      NoneIsLonger(d, w, [k], e);
    }
  }

  lemma RegisterKeepsInjective(d: Dict, w: nat, k: byte)
    requires WellFormed(d) && Injective(d) && IsWord(|d|, w) && Find(d, w, k) == 0
    ensures WellFormed(Register(d, w, k)) && Injective(Register(d, w, k))
  {
    var r := Register(d, w, k);
    if |d| < MAX_ENTRIES {
      ExpandInPrefix(d, r, w);
      forall a, b | IsWord(|r|, a) && IsWord(|r|, b) && Expand(r, a) == Expand(r, b) ensures a == b {
        if IsWord(|d|, a) { ExpandInPrefix(d, r, a); NewWordIsNew(d, w, k, a); }
        if IsWord(|d|, b) { ExpandInPrefix(d, r, b); NewWordIsNew(d, w, k, b); }
      }
    }
  }

  lemma RegisterLearns(d: Dict, w: nat, rest: seq<byte>)
    requires WellFormed(d) && IsWord(|d|, w) && rest != []
    ensures Learned(d, Register(d, w, rest[0]), Expand(d, w) + rest, |Expand(d, w)|)
  {
    ExpandInPrefix(d, Register(d, w, rest[0]), w);
    assert (Expand(d, w) + rest)[..|Expand(d, w)| + 1] == Expand(d, w) + [rest[0]];
  }

  lemma GreedyLast(d: Dict, w: nat)
    requires WellFormed(d) && Injective(d) && IsWord(|d|, w)
    ensures Greedy(d, Expand(d, w) + [], Emissions(d, w, []))
  {
    WordIsLongest(d, w, []);
    assert (Expand(d, w) + [])[|Expand(d, w)|..] == [];
  }

  lemma {:induction false} GreedyFrom(d: Dict, w: nat, rest: seq<byte>)
    requires WellFormed(d) && Injective(d) && IsWord(|d|, w)
    ensures Greedy(d, Expand(d, w) + rest, Emissions(d, w, rest))
    decreases |rest|
  {
    if rest == [] {
      GreedyLast(d, w);
    } else if Find(d, w, rest[0]) > 0 {
      FindExtends(d, w, rest[0]);
      GreedyFrom(d, Find(d, w, rest[0]), rest[1..]);
      TakeFirst(Expand(d, w), rest);
    } else {
      var d' := Register(d, w, rest[0]);
      RegisterKeepsInjective(d, w, rest[0]);
      GreedyFrom(d', rest[0], rest[1..]);
      assert Expand(d', rest[0]) + rest[1..] == rest;
      GreedyCons(d, w, rest, Emissions(d', rest[0], rest[1..]));
    }
  }

  lemma GreedyCons(d: Dict, w: nat, rest: seq<byte>, es: seq<Emission>)
    requires WellFormed(d) && Injective(d) && IsWord(|d|, w) && rest != [] && Find(d, w, rest[0]) == 0
    requires var d' := Register(d, w, rest[0]); WellFormed(d') && Greedy(d', rest, es)
    ensures Greedy(d, Expand(d, w) + rest, [Emission(w, Register(d, w, rest[0]))] + es)
  {
    var all := [Emission(w, Register(d, w, rest[0]))] + es;
    WordIsLongest(d, w, rest);
    RegisterLearns(d, w, rest);
    assert all[1..] == es;
    assert (Expand(d, w) + rest)[|Expand(d, w)|..] == rest;
  }

  lemma BytesAreInjective()
    ensures Injective([])
  {
  }

  /** At every emission the word is the longest known one that the unread text begins
      with, and that word and the next byte are learned. */
  lemma WordsAreGreedy(text: seq<byte>)
    requires text != []
    ensures Greedy([], text, Words(text))
  {
    BytesAreInjective();
    GreedyFrom([], text[0], text[1..]);
    assert [text[0]] + text[1..] == text;
  }

  // ---- there is only one greedy cut

  lemma LongestIsOne(d: Dict, a: nat, b: nat, text: seq<byte>)
    requires WellFormed(d) && Injective(d) && LongestWord(d, a, text) && LongestWord(d, b, text)
    ensures a == b
  {
    assert Expand(d, a) == text[..|Expand(d, a)|] && Expand(d, b) == text[..|Expand(d, b)|];
  }

  lemma SameLast(a: seq<byte>, x: byte, b: seq<byte>, y: byte)
    requires a + [x] == b + [y]
    ensures a == b && x == y
  {
    assert (a + [x])[..|a|] == a && (a + [x])[|a|] == x;
    assert (b + [y])[..|b|] == b && (b + [y])[|b|] == y;
  }

  lemma NewEntry(d: Dict, d': Dict) returns (e: Entry)
    requires WellFormed(d) && WellFormed(d') && d <= d' && |d'| == |d| + 1
    ensures d' == d + [e] && IsWord(|d|, e.parent)
    ensures Expand(d', 257 + |d|) == Expand(d, e.parent) + [e.chr]
  {
    e := d'[|d|];
    ExpandInPrefix(d, d', e.parent);
  }

  /** The learned entry is the one that Register makes. */
  lemma LearnedIsRegistered(d: Dict, c: nat, text: seq<byte>, d': Dict)
    requires WellFormed(d) && Injective(d) && LongestWord(d, c, text)
    requires Learned(d, d', text, |Expand(d, c)|) && |Expand(d, c)| < |text|
    ensures d' == Register(d, c, text[|Expand(d, c)|])
  {
    if |d| < MAX_ENTRIES {
      var w := Expand(d, c);
      var e := NewEntry(d, d');
      OneMore(text, w);
      SameLast(Expand(d, e.parent), e.chr, w, text[|w|]);
    }
  }

  lemma OneMore(text: seq<byte>, w: seq<byte>)
    requires w < text
    ensures text[..|w| + 1] == w + [text[|w|]]
  {
  }

  lemma LongestIsNotRegistered(d: Dict, c: nat, text: seq<byte>)
    requires WellFormed(d) && LongestWord(d, c, text) && |Expand(d, c)| < |text|
    ensures Find(d, c, text[|Expand(d, c)|]) == 0
  {
    var n := |Expand(d, c)|;
    FindExtends(d, c, text[n]);
    OneMore(text, Expand(d, c));
  }

  lemma {:induction false} GreedyIsOne(d: Dict, text: seq<byte>, es: seq<Emission>, fs: seq<Emission>)
    requires WellFormed(d) && Injective(d) && Greedy(d, text, es) && Greedy(d, text, fs)
    ensures es == fs
    decreases |es|
  {
    if text != [] {
      var c := es[0].code;
      var n := |Expand(d, c)|;
      LongestIsOne(d, c, fs[0].code, text);
      if n < |text| {
        LearnedIsRegistered(d, c, text, es[0].dict);
        LearnedIsRegistered(d, c, text, fs[0].dict);
        LongestIsNotRegistered(d, c, text);
        RegisterKeepsInjective(d, c, text[n]);
      }
      GreedyIsOne(es[0].dict, text[n..], es[1..], fs[1..]);
      assert es == [es[0]] + es[1..] && fs == [fs[0]] + fs[1..];
    }
  }

  /** So the emissions are all that the greedy cut can be. */
  lemma OnlyGreedyCut(text: seq<byte>, es: seq<Emission>)
    requires text != [] && Greedy([], text, es)
    ensures es == Words(text)
  {
    WordsAreGreedy(text);
    BytesAreInjective();
    GreedyIsOne([], text, es, Words(text));
  }

  /** The decompressor learns likewise: after the first code every code that it reads
      adds the word before it extended by the first byte of the new one, if there is room. */
  lemma ReadLearns(s: Decoder, c: nat)
    requires Sound(s) && CanRead(s, c) && s.len >= 1
    ensures var d, d' := s.dict, Read(s, c).dict;
            if |d| == 255 then d' == d
            else d <= d' && |d'| == |d| + 1 && Expand(d', 257 + |d|) == Expand(d, s.w) + [WordOf(s, c)[0]]
    ensures Expand(Read(s, c).dict, c) == WordOf(s, c)
  {
    var d' := Read(s, c).dict;
    ExpandInPrefix(s.dict, d', s.w);
    if IsWord(|s.dict|, c) { ExpandInPrefix(s.dict, d', c); }
  }

  /** Three equal bytes take two codes and the end-of-text code. */
  lemma ThreeEqualBytes()
    ensures Compressed([97, 97, 97]) == [97, 257, 256]
  {
    var text: seq<byte>, d := [97, 97, 97], [Entry(97, 97)];
    assert text[1..] == [97, 97] && [97, 97][1..] == [97];
    EmitFirst([], 97, text[1..]);
    assert Register([], 97, 97) == d && Find(d, 97, 97) == 257;
    EmitNone(d, 97, [97]);
    EmitLast(d, 257);
  }
}
