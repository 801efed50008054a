/** The two LZW loops keep their dictionaries in step, one entry apart. */
module LzwRoundTrip {
  import opened Bytes
  import opened Lzw

  lemma FindExtends(d: Dict, w: nat, k: byte)
    requires WellFormed(d) && IsWord(|d|, w)
    ensures var rv := Find(d, w, k);
            rv > 0 ==> IsWord(|d|, rv) && Expand(d, rv) == Expand(d, w) + [k]
  {
  }

  lemma RegisterKeeps(d: Dict, w: nat, k: byte)
    requires WellFormed(d) && IsWord(|d|, w)
    ensures var r := Register(d, w, k);
            WellFormed(r) && d <= r && Expand(r, w) == Expand(d, w)
  {
    ExpandInPrefix(d, Register(d, w, k), w);
  }

  /** The compressor is about to emit or extend w, the decompressor has read
      everything emitted so far: it lacks exactly the compressor's last entry. */
  ghost predicate OneBehind(s: Decoder, d: Dict, w: nat) {
    && Sound(s) && s.len >= 1
    && WellFormed(d) && IsWord(|d|, w)
    && d == Register(s.dict, s.w, Expand(d, w)[0])
  }

  /** Reading the pending code yields its word and catches the dictionary up. */
  lemma ReadPending(s: Decoder, d: Dict, w: nat)
    requires OneBehind(s, d, w)
    ensures CanRead(s, w) && WordOf(s, w) == Expand(d, w)
    ensures Read(s, w).dict == d
  {
    RegisterKeeps(s.dict, s.w, Expand(d, w)[0]);
    if IsWord(|s.dict|, w) {
      ExpandInPrefix(s.dict, d, w);
    }
  }

  lemma EmitKeepsOneBehind(s: Decoder, d: Dict, w: nat, k: byte)
    requires OneBehind(s, d, w)
    ensures CanRead(s, w) && OneBehind(Read(s, w), Register(d, w, k), k)
  {
    ReadPending(s, d, w);
    RegisterKeeps(d, w, k);
  }

  lemma ExtendKeepsOneBehind(s: Decoder, d: Dict, w: nat, k: byte)
    requires OneBehind(s, d, w) && Find(d, w, k) > 0
    ensures OneBehind(s, d, Find(d, w, k))
    ensures Expand(d, Find(d, w, k)) == Expand(d, w) + [k]
  {
    FindExtends(d, w, k);
  }

  lemma ReadCons(s: Decoder, c: nat, cs: seq<nat>)
    requires Sound(s) && CanRead(s, c) && Legal(Read(s, c), cs)
    ensures Legal(s, [c] + cs)
    ensures ReadAll(s, [c] + cs) == ReadAll(Read(s, c), cs)
    ensures Output(s, [c] + cs) == WordOf(s, c) + Output(Read(s, c), cs)
  {
    assert ([c] + cs)[1..] == cs;
  }

  lemma CodesCons(e: Emission, es: seq<Emission>)
    ensures CodesOf([e] + es) == [e.code] + CodesOf(es)
  {
    assert ([e] + es)[1..] == es;
  }

  /** A run that emits its pending code first. */
  lemma EmitFirst(d: Dict, w: nat, rest: seq<byte>)
    requires rest != [] && Find(d, w, rest[0]) == 0
    ensures var d' := Register(d, w, rest[0]);
            && Emissions(d, w, rest) == [Emission(w, d')] + Emissions(d', rest[0], rest[1..])
            && CodesOf(Emissions(d, w, rest)) == [w] + CodesOf(Emissions(d', rest[0], rest[1..]))
  {
    var d' := Register(d, w, rest[0]);
    CodesCons(Emission(w, d'), Emissions(d', rest[0], rest[1..]));
  }

  lemma EmitLast(d: Dict, w: nat)
    ensures Emissions(d, w, []) == [Emission(w, d)] && CodesOf(Emissions(d, w, [])) == [w] + []
  {
  }

  /** From s the codes still to come write out exactly text. */
  ghost predicate Yields(s: Decoder, cs: seq<nat>, text: seq<byte>)
    requires Sound(s)
  {
    Legal(s, cs) && Output(s, cs) == text
  }

  lemma YieldsCons(s: Decoder, c: nat, cs: seq<nat>, text: seq<byte>)
    requires Sound(s) && CanRead(s, c) && Yields(Read(s, c), cs, text)
    ensures Yields(s, [c] + cs, WordOf(s, c) + text)
  {
    ReadCons(s, c, cs);
  }

  lemma ReadsBackLast(s: Decoder, d: Dict, w: nat)
    requires OneBehind(s, d, w)
    ensures Yields(s, CodesOf(Emissions(d, w, [])), Expand(d, w) + [])
  {
    ReadPending(s, d, w);
    EmitLast(d, w);
    YieldsCons(s, w, [], []);
  }

  lemma {:induction false} ReadsBack(s: Decoder, d: Dict, w: nat, rest: seq<byte>)
    requires OneBehind(s, d, w)
    ensures Yields(s, CodesOf(Emissions(d, w, rest)), Expand(d, w) + rest)
    decreases |rest|, 1
  {
    if rest == [] {
      ReadsBackLast(s, d, w);
    } else if Find(d, w, rest[0]) > 0 {
      ReadsBackExtended(s, d, w, rest);
    } else {
      ReadsBackEmitted(s, d, w, rest);
    }
  }

  lemma {:induction false} ReadsBackExtended(s: Decoder, d: Dict, w: nat, rest: seq<byte>)
    requires OneBehind(s, d, w) && rest != [] && Find(d, w, rest[0]) > 0
    ensures Yields(s, CodesOf(Emissions(d, w, rest)), Expand(d, w) + rest)
    decreases |rest|, 0
  {
    var rv := Find(d, w, rest[0]);
    ExtendKeepsOneBehind(s, d, w, rest[0]);
    ReadsBack(s, d, rv, rest[1..]);
    EmitNone(d, w, rest);
    TakeFirst(Expand(d, w), rest);
  }

  /** A run that extends its pending code first. */
  lemma EmitNone(d: Dict, w: nat, rest: seq<byte>)
    requires rest != [] && Find(d, w, rest[0]) > 0
    ensures Emissions(d, w, rest) == Emissions(d, Find(d, w, rest[0]), rest[1..])
  {
  }

  lemma {:induction false} ReadsBackEmitted(s: Decoder, d: Dict, w: nat, rest: seq<byte>)
    requires OneBehind(s, d, w) && rest != [] && Find(d, w, rest[0]) == 0
    ensures Yields(s, CodesOf(Emissions(d, w, rest)), Expand(d, w) + rest)
    decreases |rest|, 0
  {
    var d' := Register(d, w, rest[0]);
    ReadPending(s, d, w);
    EmitKeepsOneBehind(s, d, w, rest[0]);
    ReadsBack(Read(s, w), d', rest[0], rest[1..]);
    assert Expand(d', rest[0]) + rest[1..] == rest;
    YieldsCons(s, w, CodesOf(Emissions(d', rest[0], rest[1..])), rest);
    EmitFirst(d, w, rest);
  }

  /** The first code is a lone byte and registers nothing. */
  lemma FirstCode(k: byte)
    ensures Read(START, k) == Decoder([], k, k, 1) && WordOf(START, k) == [k]
  {
  }

  /** After the first emission the decompressor is one entry behind. */
  lemma FirstEmission(text: seq<byte>)
    requires |text| > 1
    ensures var d := [Entry(text[0], text[1])];
            && OneBehind(Read(START, text[0]), d, text[1])
            && Words(text) == [Emission(text[0], d)] + Emissions(d, text[1], text[2..])
  {
    FirstCode(text[0]);
    assert text[1..][0] == text[1] && text[1..][1..] == text[2..];
    assert Find([], text[0], text[1]) == 0;
    assert [] + [Entry(text[0], text[1])] == [Entry(text[0], text[1])];
  }

  /** Decompressing what the compressor emits gives the text back. */
  lemma RoundTrip(text: seq<byte>)
    requires text != []
    ensures var cs := CodesOf(Words(text));
            Legal(START, cs) && Output(START, cs) == text
  {
    FirstCode(text[0]);
    if |text| == 1 {
      YieldsCons(START, text[0], [], []);
      assert CodesOf(Words(text)) == [text[0]] + [];
    } else {
      FirstEmission(text);
      var d := [Entry(text[0], text[1])];
      var es := Emissions(d, text[1], text[2..]);
      ReadsBack(Read(START, text[0]), d, text[1], text[2..]);
      CodesCons(Emission(text[0], d), es);
      YieldsCons(START, text[0], CodesOf(es), [text[1]] + text[2..]);
      assert [text[0]] + ([text[1]] + text[2..]) == text;
    }
  }

  lemma {:induction false} LegalPrefix(s: Decoder, cs: seq<nat>, n: nat)
    requires Sound(s) && Legal(s, cs) && n <= |cs|
    ensures Legal(s, cs[..n])
    decreases n
  {
    if n > 0 {
      LegalPrefix(Read(s, cs[0]), cs[1..], n - 1);
      assert cs[..n][1..] == cs[1..][..n - 1];
    }
  }

  /** A decompressor that has read n codes holds the first min(n - 1, 255)
      entries of the compressor's dictionary. */
  ghost predicate Lags(decoder: Dict, compressor: Dict, n: nat)
    requires n >= 1
  {
    decoder <= compressor && |decoder| == Min(n - 1, MAX_ENTRIES)
  }

  ghost predicate InStepAt(s: Decoder, es: seq<Emission>, before: nat, n: nat)
    requires Sound(s) && 1 <= n <= |es|
  {
    Legal(s, CodesOf(es)[..n]) &&
    Lags(ReadAll(s, CodesOf(es)[..n]).dict, es[n - 1].dict, before + n)
  }

  lemma InStepFirst(s: Decoder, e: Emission, es: seq<Emission>, before: nat)
    requires Sound(s) && CanRead(s, e.code) && Lags(Read(s, e.code).dict, e.dict, before + 1)
    ensures InStepAt(s, [e] + es, before, 1)
  {
    CodesCons(e, es);
    ReadCons(s, e.code, []);
    assert CodesOf([e] + es)[..1] == [e.code] + [];
  }

  lemma InStepCons(s: Decoder, e: Emission, es: seq<Emission>, before: nat, n: nat)
    requires Sound(s) && CanRead(s, e.code) && 1 < n <= |es| + 1
    requires InStepAt(Read(s, e.code), es, before + 1, n - 1)
    ensures InStepAt(s, [e] + es, before, n)
  {
    CodesCons(e, es);
    ReadCons(s, e.code, CodesOf(es)[..n - 1]);
    assert CodesOf([e] + es)[..n] == [e.code] + CodesOf(es)[..n - 1];
  }

  lemma PendingLags(s: Decoder, d: Dict, w: nat, e: Emission, before: nat)
    requires OneBehind(s, d, w) && |d| == Min(before, MAX_ENTRIES)
    requires e.code == w && d <= e.dict
    ensures CanRead(s, w) && Lags(Read(s, w).dict, e.dict, before + 1)
  {
    ReadPending(s, d, w);
  }

  lemma {:induction false} InStepFrom(s: Decoder, d: Dict, w: nat, rest: seq<byte>, before: nat, n: nat)
    requires OneBehind(s, d, w) && |d| == Min(before, MAX_ENTRIES)
    requires 1 <= n <= |Emissions(d, w, rest)|
    ensures InStepAt(s, Emissions(d, w, rest), before, n)
    decreases |rest|, 1
  {
    if rest == [] {
      EmitLast(d, w);
      PendingLags(s, d, w, Emission(w, d), before);
      InStepFirst(s, Emission(w, d), [], before);
    } else if Find(d, w, rest[0]) > 0 {
      ExtendKeepsOneBehind(s, d, w, rest[0]);
      InStepFrom(s, d, Find(d, w, rest[0]), rest[1..], before, n);
    } else if n == 1 {
      var e := Emission(w, Register(d, w, rest[0]));
      EmitFirst(d, w, rest);
      PendingLags(s, d, w, e, before);
      InStepFirst(s, e, Emissions(e.dict, rest[0], rest[1..]), before);
    } else {
      InStepLater(s, d, w, rest, before, n);
    }
  }

  lemma {:induction false} InStepLater(s: Decoder, d: Dict, w: nat, rest: seq<byte>, before: nat, n: nat)
    requires OneBehind(s, d, w) && |d| == Min(before, MAX_ENTRIES)
    requires rest != [] && Find(d, w, rest[0]) == 0
    requires 1 < n <= |Emissions(d, w, rest)|
    ensures InStepAt(s, Emissions(d, w, rest), before, n)
    decreases |rest|, 0
  {
    var e := Emission(w, Register(d, w, rest[0]));
    EmitFirst(d, w, rest);
    EmitKeepsOneBehind(s, d, w, rest[0]);
    InStepFrom(Read(s, w), e.dict, rest[0], rest[1..], before + 1, n - 1);
    InStepCons(s, e, Emissions(e.dict, rest[0], rest[1..]), before, n);
  }

  lemma DictionariesInStep(text: seq<byte>, n: nat)
    requires text != [] && 1 <= n <= |Words(text)|
    ensures var es := Words(text);
            && Legal(START, CodesOf(es)[..n])
            && Lags(ReadAll(START, CodesOf(es)[..n]).dict, es[n - 1].dict, n)
  {
    FirstCode(text[0]);
    if |text| == 1 {
      InStepFirst(START, Emission(text[0], []), [], 0);
    } else {
      FirstEmission(text);
      InStepFromFirst(text, n);
    }
  }

  lemma InStepFromFirst(text: seq<byte>, n: nat)
    requires |text| > 1
    requires var d := [Entry(text[0], text[1])];
             OneBehind(Read(START, text[0]), d, text[1]) && 1 <= n <= |Emissions(d, text[1], text[2..])| + 1
    ensures var d := [Entry(text[0], text[1])];
            InStepAt(START, [Emission(text[0], d)] + Emissions(d, text[1], text[2..]), 0, n)
  {
    var e := Emission(text[0], [Entry(text[0], text[1])]);
    var es := Emissions(e.dict, text[1], text[2..]);
    if n == 1 {
      FirstCode(text[0]);
      InStepFirst(START, e, es, 0);
    } else {
      InStepFrom(Read(START, text[0]), e.dict, text[1], text[2..], 1, n - 1);
      InStepCons(START, e, es, 0, n);
    }
  }

  /** No compressed word needs more than 256 cells of the decompressor's
      stack, so neither the stack guards nor the node guard can fire on it. */
  lemma {:induction false} WordsFitTheStack(s: Decoder, cs: seq<nat>, i: nat)
    requires Sound(s) && Legal(s, cs) && i < |cs|
    ensures Legal(s, cs[..i]) && CanRead(ReadAll(s, cs[..i]), cs[i])
    ensures cs[i] < NODE_SIZE && |WordOf(ReadAll(s, cs[..i]), cs[i])| <= 256
    decreases i
  {
    LegalPrefix(s, cs, i);
    if i > 0 {
      WordsFitTheStack(Read(s, cs[0]), cs[1..], i - 1);
      assert cs[..i][1..] == cs[1..][..i - 1];
    }
  }
}
