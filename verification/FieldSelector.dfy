/** Selecting one field of a delimited string. */
module FieldSelector {
  import opened Bytes

  /** delim starts at place k of s. */
  predicate OccursAt(s: seq<byte>, delim: seq<byte>, k: nat) {
    k + |delim| <= |s| && s[k..k + |delim|] == delim
  }

  /** strstr: the first occurrence, or -1. */
  function Find(s: seq<byte>, delim: seq<byte>): (k: int)
    requires delim != []
    ensures k == -1 || 0 <= k <= |s| - |delim|
  {
    FindFrom(s, delim, 0)
  }

  function FindFrom(s: seq<byte>, delim: seq<byte>, i: nat): (k: int)
    requires delim != []
    ensures k == -1 || i <= k <= |s| - |delim|
    decreases |s| - i
  {
    if i + |delim| > |s| then -1
    else if OccursAt(s, delim, i) then i
    else FindFrom(s, delim, i + 1)
  }

  lemma {:induction false} FindFromIsFirst(s: seq<byte>, delim: seq<byte>, i: nat)
    requires delim != []
    requires forall j: nat :: j < i ==> !OccursAt(s, delim, j)
    ensures var k := FindFrom(s, delim, i);
            if k == -1 then forall j: nat :: !OccursAt(s, delim, j)
            else 0 <= k && OccursAt(s, delim, k) && forall j: nat :: j < k ==> !OccursAt(s, delim, j)
    decreases |s| - i
  {
    if i + |delim| <= |s| && !OccursAt(s, delim, i) { FindFromIsFirst(s, delim, i + 1); }
  }

  lemma FindIsFirst(s: seq<byte>, delim: seq<byte>)
    requires delim != []
    ensures var k := Find(s, delim);
            if k == -1 then forall j: nat :: !OccursAt(s, delim, j)
            else 0 <= k && OccursAt(s, delim, k) && forall j: nat :: j < k ==> !OccursAt(s, delim, j)
  {
    FindFromIsFirst(s, delim, 0);
  }

  /** The leftmost non-overlapping split. */
  function Split(s: seq<byte>, delim: seq<byte>): (fields: seq<seq<byte>>)
    requires delim != []
    ensures fields != []
    decreases |s|
  {
    var k := Find(s, delim);
    if k == -1 then [s] else [s[..k]] + Split(s[k + |delim|..], delim)
  }

  function Joined(fields: seq<seq<byte>>, delim: seq<byte>): seq<byte>
    requires fields != []
  {
    if |fields| == 1 then fields[0] else fields[0] + delim + Joined(fields[1..], delim)
  }

  /** fields are cut at every leftmost occurrence: delim is not in the last one,
      and after any other it occurs nowhere earlier than its end. */
  ghost predicate LeftmostCut(fields: seq<seq<byte>>, delim: seq<byte>)
    requires fields != [] && delim != []
  {
    (forall i :: 0 <= i < |fields| - 1 ==> Find(fields[i] + delim, delim) == |fields[i]|)
    && Find(fields[|fields| - 1], delim) == -1
  }

  lemma FirstIs(s: seq<byte>, delim: seq<byte>, k: nat)
    requires delim != [] && OccursAt(s, delim, k) && forall j: nat :: j < k ==> !OccursAt(s, delim, j)
    ensures Find(s, delim) == k
  {
    FindIsFirst(s, delim);
  }

  /** What follows the first occurrence does not move it. */
  lemma FirstOfPrefix(f: seq<byte>, delim: seq<byte>, more: seq<byte>)
    requires delim != []
    ensures Find(f + delim, delim) == |f| <==> Find(f + delim + more, delim) == |f|
  {
    var s, t := f + delim, f + delim + more;
    forall j: nat | j <= |f| ensures OccursAt(s, delim, j) == OccursAt(t, delim, j) {
      assert s[j..j + |delim|] == t[j..j + |delim|];
    }
    assert s[|f|..|f| + |delim|] == delim;
    FindIsFirst(s, delim);
    FindIsFirst(t, delim);
    if Find(s, delim) == |f| { FirstIs(t, delim, |f|); }
    if Find(t, delim) == |f| { FirstIs(s, delim, |f|); }
  }

  /** The fields joined by the delimiter give the string back, and they are cut leftmost. */
  lemma {:induction false} SplitCuts(s: seq<byte>, delim: seq<byte>)
    requires delim != []
    ensures Joined(Split(s, delim), delim) == s
    ensures LeftmostCut(Split(s, delim), delim)
    decreases |s|
  {
    var k := Find(s, delim);
    if k != -1 {
      var f, rest := s[..k], s[k + |delim|..];
      FindIsFirst(s, delim);
      SplitCuts(rest, delim);
      assert f + delim + rest == s;
      FirstOfPrefix(f, delim, rest);
      CutGrows(f, Split(rest, delim), delim);
    }
  }

  lemma CutGrows(f: seq<byte>, fields: seq<seq<byte>>, delim: seq<byte>)
    requires delim != [] && fields != [] && LeftmostCut(fields, delim) && Find(f + delim, delim) == |f|
    ensures LeftmostCut([f] + fields, delim)
    ensures Joined([f] + fields, delim) == f + delim + Joined(fields, delim)
  {
    var all := [f] + fields;
    assert all[1..] == fields;
    forall i | 0 <= i < |all| - 1 ensures Find(all[i] + delim, delim) == |all[i]| {
      if i > 0 { assert all[i] == fields[i - 1]; }
    }
  }

  lemma TakeField(f: seq<byte>, delim: seq<byte>, more: seq<byte>)
    ensures (f + delim + more)[..|f|] == f && (f + delim + more)[|f| + |delim|..] == more
  {
  }

  /** It is the only such list. */
  lemma {:induction false} SplitIsUnique(fields: seq<seq<byte>>, delim: seq<byte>)
    requires delim != [] && fields != [] && LeftmostCut(fields, delim)
    ensures Split(Joined(fields, delim), delim) == fields
    decreases |fields|
  {
    if |fields| > 1 {
      var rest := fields[1..];
      CutShrinks(fields, delim);
      SplitIsUnique(rest, delim);
      var f, more := fields[0], Joined(rest, delim);
      FirstOfPrefix(f, delim, more);
      TakeField(f, delim, more);
    }
  }

  lemma CutShrinks(fields: seq<seq<byte>>, delim: seq<byte>)
    requires delim != [] && |fields| > 1 && LeftmostCut(fields, delim)
    ensures LeftmostCut(fields[1..], delim)
  {
    forall i | 0 <= i < |fields| - 2 ensures Find(fields[1..][i] + delim, delim) == |fields[1..][i]| {
      assert fields[1..][i] == fields[i + 1];
    }
  }

  lemma SplitStep(s: seq<byte>, delim: seq<byte>, fields: seq<seq<byte>>, i: nat, k: nat)
    requires delim != [] && i < |fields| && fields[i..] == Split(s, delim) && Find(s, delim) == k
    ensures i + 1 < |fields| && fields[i] == s[..k] && fields[i + 1..] == Split(s[k + |delim|..], delim)
  {
    assert fields[i] == fields[i..][0];
    assert fields[i + 1..] == fields[i..][1..];
  }

  lemma SplitEnd(s: seq<byte>, delim: seq<byte>, fields: seq<seq<byte>>, i: nat)
    requires delim != [] && i < |fields| && fields[i..] == Split(s, delim) && Find(s, delim) == -1
    ensures i + 1 == |fields| && fields[i] == s
  {
    assert fields[i] == fields[i..][0];
  }

  /** getStringFromIndexWithDelim_body: whether there is an index-th field, and what is
      copied to the buffer (the last field when there are too few). */
  method GetStringFromIndexWithDelim(src: seq<byte>, delim: seq<byte>, index: int) returns (found: bool, buf: seq<byte>)
    requires delim != []
    ensures found == (index <= |Split(src, delim)|)
    ensures 1 <= index <= |Split(src, delim)| ==> buf == Split(src, delim)[index - 1]
    ensures index > |Split(src, delim)| ==> buf == Split(src, delim)[|Split(src, delim)| - 1]
    ensures index <= 0 ==> buf == []
  {
    ghost var fields := Split(src, delim);
    var rest, length, addlen := src, 0, 0;
    var i := 0;
    while i < index
      invariant 0 <= i && (i <= index || i == 0) && 0 <= length <= addlen <= |rest|
      invariant i <= |fields| - 1 && fields[i..] == Split(rest[addlen..], delim)
      invariant if i == 0 then length == 0 else rest[..length] == fields[i - 1]
    {
      rest := rest[addlen..];
      var last := Find(rest, delim);
      if last == -1 {
        SplitEnd(rest, delim, fields, i);
        return i == index - 1, rest;
      }
      SplitStep(rest, delim, fields, i, last);
      length := last;
      addlen := length + |delim|;
      i := i + 1;
    }
    return true, rest[..length];
  }
}
