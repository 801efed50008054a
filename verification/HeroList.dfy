/** The hero leaderboard of SaacServer_UpdataStele_recv: a hundred slots,
    updated in place by one scan. */
module HeroList {

  const MAX_HERO_LIST: nat := 100
  const CEILING: int := 140   // the scan's initial minimum

  /** One row of Herolist, its number columns read with atoi; also what a game
      server submits. */
  datatype Hero = Hero(cdkey: string, name: string, title: string, level: int, trns: int, time: int, floor: int)

  datatype Player = Player(cdkey: string, name: string)

  function Who(h: Hero): Player {
    Player(h.cdkey, h.name)
  }

  /** Unused slots have neither key nor name. */
  predicate Named(p: Player) {
    p != Player("", "")
  }

  /** The request for the whole list that a game server sends when it starts. */
  predicate IsQuery(h: Hero) {
    h.cdkey == "FirstLoad" && h.name == "LoadHerolist" && h.floor == 999
  }

  /** The scan after n slots: the least floor below the ceiling ... */
  function ScanMin(l: seq<Hero>, n: nat): (min: int)
    requires n <= |l|
    ensures min <= CEILING
    ensures forall i :: 0 <= i < n ==> min <= l[i].floor
  {
    if n == 0 then CEILING
    else if l[n - 1].floor < ScanMin(l, n - 1) then l[n - 1].floor
    else ScanMin(l, n - 1)
  }

  /** ... the slot it is in ... */
  function ScanMinNum(l: seq<Hero>, n: nat): (minnum: int)
    requires n <= |l|
    ensures -1 <= minnum < n
    ensures minnum >= 0 ==> l[minnum].floor == ScanMin(l, n) < CEILING
    ensures minnum == -1 ==> ScanMin(l, n) == CEILING
  {
    if n == 0 then -1
    else if l[n - 1].floor < ScanMin(l, n - 1) then n - 1
    else ScanMinNum(l, n - 1)
  }

  /** ... and the last slot of player p. */
  function ScanName(l: seq<Hero>, n: nat, p: Player): (flag: int)
    requires n <= |l|
    ensures -1 <= flag < n
    ensures flag >= 0 ==> Who(l[flag]) == p
    ensures flag == -1 ==> forall i :: 0 <= i < n ==> Who(l[i]) != p
  {
    if n == 0 then -1 else if Who(l[n - 1]) == p then n - 1 else ScanName(l, n - 1, p)
  }

  predicate Listed(l: seq<Hero>, p: Player) {
    exists i :: 0 <= i < |l| && Who(l[i]) == p
  }

  /** The submissions for which the source writes to slot -1. */
  predicate OutOfBounds(l: seq<Hero>, h: Hero) {
    && !IsQuery(h) && !Listed(l, Who(h)) && h.floor > CEILING
    && forall i :: 0 <= i < |l| ==> l[i].floor >= CEILING
  }

  /** The slot the source overwrites, or none. */
  datatype Slot = Untouched | Overwrite(index: int)

  function Target(l: seq<Hero>, h: Hero): Slot {
    var flag, n := ScanName(l, |l|, Who(h)), |l|;
    if IsQuery(h) then Untouched
    else if flag != -1 && h.floor > l[flag].floor then Overwrite(flag)
    else if flag == -1 && h.floor > ScanMin(l, n) then Overwrite(ScanMinNum(l, n))
    else Untouched
  }

  /** A submission goes to slot -1 exactly when it is out of bounds; no floor up
      to the ceiling ever is. */
  lemma TargetInRange(l: seq<Hero>, h: Hero)
    ensures Target(l, h) == Overwrite(-1) <==> OutOfBounds(l, h)
    ensures h.floor <= CEILING ==> !OutOfBounds(l, h)
    ensures var t := Target(l, h); t.Overwrite? ==> -1 <= t.index < |l|
  {
    var minnum := ScanMinNum(l, |l|);
    if minnum >= 0 { assert l[minnum].floor < CEILING; }
  }

  lemma OutOfBoundsHappens(l: seq<Hero>, h: Hero)
    requires |l| == MAX_HERO_LIST && forall i :: 0 <= i < |l| ==> l[i].floor == CEILING && l[i].name != "new"
    requires h == Hero("key", "new", "", 1, 0, 0, 141)
    ensures Target(l, h) == Overwrite(-1)
  {
    TargetInRange(l, h);
  }

  /** Slot i is the last one of player p. */
  ghost predicate LastOf(l: seq<Hero>, p: Player, i: nat)
    requires i < |l|
  {
    Who(l[i]) == p && forall j :: i < j < |l| ==> Who(l[j]) != p
  }

  /** Slot i is the first of those with the least floor. */
  ghost predicate FirstLeast(l: seq<Hero>, i: nat)
    requires i < |l|
  {
    && (forall j :: 0 <= j < |l| ==> l[i].floor <= l[j].floor)
    && (forall j :: 0 <= j < i ==> l[i].floor < l[j].floor)
  }

  /** Submission h takes slot i: its player's last slot, or, for a player who is not
      listed, the first of the lowest slots, if that is below 140; in either case
      only if h does better than what is there.  The one exception is the query. */
  ghost predicate Takes(l: seq<Hero>, h: Hero, i: nat)
    requires i < |l|
  {
    && !(h.cdkey == "FirstLoad" && h.name == "LoadHerolist" && h.floor == 999)
    && h.floor > l[i].floor
    && if Listed(l, Who(h)) then LastOf(l, Who(h), i) else FirstLeast(l, i) && l[i].floor < 140
  }

  lemma {:induction false} ScanNameIsLast(l: seq<Hero>, n: nat, p: Player)
    requires n <= |l|
    ensures var f := ScanName(l, n, p); forall j :: f < j < n && 0 <= j ==> Who(l[j]) != p
  {
    if n > 0 { ScanNameIsLast(l, n - 1, p); }
  }

  lemma {:induction false} ScanMinNumIsFirst(l: seq<Hero>, n: nat)
    requires n <= |l|
    ensures var m := ScanMinNum(l, n); forall j :: 0 <= j < m ==> ScanMin(l, n) < l[j].floor
    ensures ScanMinNum(l, n) == -1 ==> forall j :: 0 <= j < n ==> 140 <= l[j].floor
  {
    if n > 0 { ScanMinNumIsFirst(l, n - 1); }
  }

  /** The scan finds the slot that the submission takes, if there is one. */
  lemma TargetIsTaken(l: seq<Hero>, h: Hero, i: nat)
    requires i < |l|
    ensures Target(l, h) == Overwrite(i) <==> Takes(l, h, i)
  {
    ScanNameIsLast(l, |l|, Who(h));
    ScanMinNumIsFirst(l, |l|);
    var flag, minnum := ScanName(l, |l|, Who(h)), ScanMinNum(l, |l|);
    if flag >= 0 {
      assert Listed(l, Who(h));
    } else if minnum >= 0 && FirstLeast(l, i) {
      assert l[i].floor <= l[minnum].floor && l[minnum].floor <= l[i].floor;
    }
  }

  function Updated(l: seq<Hero>, h: Hero): (l': seq<Hero>)
    requires !OutOfBounds(l, h)
    ensures |l'| == |l|
  {
    TargetInRange(l, h);
    match Target(l, h)
    case Untouched => l
    case Overwrite(i) => l[i := h]
  }

  /** What the handler sends: the list, one changed row, or nothing. */
  datatype Reply = Nothing | WholeList | OneRow(replaced: Player, row: Hero)

  class Board {
    const list: array<Hero>

    ghost predicate Valid() {
      list.Length == MAX_HERO_LIST
    }

    method UpdataStele(h: Hero) returns (reply: Reply)
      requires Valid() && !OutOfBounds(list[..], h)
      modifies list
      ensures list[..] == Updated(old(list[..]), h)
      ensures reply == if IsQuery(h) then WholeList
                       else match Target(old(list[..]), h)
                            case Untouched => Nothing
                            case Overwrite(i) => OneRow(Who(old(list[i])), h)
      ensures forall i :: 0 <= i < list.Length ==>
                if Takes(old(list[..]), h, i) then list[i] == h && reply == OneRow(Who(old(list[i])), h)
                else list[i] == old(list[i])
      ensures reply.OneRow? ==> exists i :: 0 <= i < list.Length && Takes(old(list[..]), h, i)
      ensures reply.WholeList? <==> h.cdkey == "FirstLoad" && h.name == "LoadHerolist" && h.floor == 999
    {
      ghost var l := list[..];
      TargetInRange(l, h);
      var min, minnum, nameflag := CEILING, -1, -1;
      for i := 0 to MAX_HERO_LIST
        invariant min == ScanMin(l, i) && minnum == ScanMinNum(l, i) && nameflag == ScanName(l, i, Who(h))
        invariant list[..] == l
      {
        if list[i].floor < min {
          min, minnum := list[i].floor, i;
        }
        if list[i].cdkey == h.cdkey && list[i].name == h.name {
          nameflag := i;
        }
      }
      reply := Nothing;
      if h.cdkey == "FirstLoad" && h.name == "LoadHerolist" && h.floor == 999 {
        reply := WholeList;
      } else if nameflag != -1 && h.floor > list[nameflag].floor {
        reply := OneRow(Who(list[nameflag]), h);
        list[nameflag] := list[nameflag].(title := h.title, level := h.level, trns := h.trns,
                                          time := h.time, floor := h.floor);
      } else if nameflag == -1 && h.floor > min {
        reply := OneRow(Who(list[minnum]), h);
        list[minnum] := h;
      }
      forall i | 0 <= i < list.Length ensures Target(l, h) == Overwrite(i) <==> Takes(l, h, i) {
        TargetIsTaken(l, h, i);
      }
    }
  }

  predicate NoDuplicates(l: seq<Hero>) {
    forall i, j :: 0 <= i < j < |l| && Named(Who(l[i])) ==> Who(l[i]) != Who(l[j])
  }

  /** f is the best floor of player p in history. */
  ghost predicate IsBest(history: seq<Hero>, p: Player, f: int) {
    && (exists i :: 0 <= i < |history| && Who(history[i]) == p && history[i].floor == f)
    && Bounded(history, p, f)
  }

  predicate Bounded(history: seq<Hero>, p: Player, f: int) {
    forall i :: 0 <= i < |history| && Who(history[i]) == p ==> history[i].floor <= f
  }

  predicate AtMostAll(f: int, l: seq<Hero>) {
    forall i :: 0 <= i < |l| ==> f <= l[i].floor
  }

  /** The list is the top of history: nobody is listed twice, whoever is listed
      is listed with their best floor, and nobody left out ever did better than
      anybody listed. */
  ghost predicate IsTop(l: seq<Hero>, history: seq<Hero>) {
    && NoDuplicates(l)
    && (forall i :: 0 <= i < |l| && Named(Who(l[i])) ==> IsBest(history, Who(l[i]), l[i].floor))
    && (forall j :: 0 <= j < |history| && Named(Who(history[j])) && !Listed(l, Who(history[j])) ==>
                      AtMostAll(history[j].floor, l))
  }

  /** The rows that make up history: everything but queries. */
  function Extended(history: seq<Hero>, h: Hero): seq<Hero> {
    if IsQuery(h) then history else history + [h]
  }

  lemma BoundedExtends(history: seq<Hero>, h: Hero, p: Player, f: int)
    requires Bounded(history, p, f) && (Who(h) == p ==> h.floor <= f)
    ensures Bounded(history + [h], p, f)
  {
  }

  lemma BestExtends(history: seq<Hero>, h: Hero, p: Player, f: int)
    requires IsBest(history, p, f) && (Who(h) == p ==> h.floor <= f)
    ensures IsBest(history + [h], p, f)
  {
    var i :| 0 <= i < |history| && Who(history[i]) == p && history[i].floor == f;
    assert (history + [h])[i] == history[i];
    BoundedExtends(history, h, p, f);
  }

  lemma NewBest(history: seq<Hero>, h: Hero)
    requires Bounded(history, Who(h), h.floor)
    ensures IsBest(history + [h], Who(h), h.floor)
  {
    assert (history + [h])[|history|] == h;
    BoundedExtends(history, h, Who(h), h.floor);
  }

  lemma UpdateKeepsNoDuplicates(l: seq<Hero>, h: Hero)
    requires NoDuplicates(l) && Named(Who(h)) && !OutOfBounds(l, h)
    ensures NoDuplicates(Updated(l, h))
  {
    TargetInRange(l, h);
  }

  /** No slot's floor ever goes down, so neither does the minimum. */
  lemma FloorsNeverDrop(l: seq<Hero>, h: Hero, i: nat)
    requires !OutOfBounds(l, h) && i < |l|
    ensures Updated(l, h)[i].floor >= l[i].floor
  {
    TargetInRange(l, h);
  }

  /** Replaced, or new: the slot's row is h, and h beats everything before it. */
  lemma OverwriteIsBest(l: seq<Hero>, history: seq<Hero>, h: Hero)
    requires IsTop(l, history) && Named(Who(h)) && !OutOfBounds(l, h) && Target(l, h).Overwrite?
    ensures IsBest(history + [h], Who(h), h.floor)
  {
    TargetInRange(l, h);
    var flag := ScanName(l, |l|, Who(h));
    if flag != -1 {
      assert Bounded(history, Who(h), l[flag].floor);
    } else {
      var minnum := ScanMinNum(l, |l|);
      forall j | 0 <= j < |history| && Who(history[j]) == Who(h) ensures history[j].floor <= h.floor {
        assert history[j].floor <= l[minnum].floor;
      }
    }
    NewBest(history, h);
  }

  lemma UntouchedIsBounded(l: seq<Hero>, history: seq<Hero>, h: Hero)
    requires IsTop(l, history) && !IsQuery(h) && Target(l, h).Untouched?
    ensures forall i :: 0 <= i < |l| && Who(l[i]) == Who(h) && NoDuplicates(l) && Named(Who(h)) ==>
              h.floor <= l[i].floor
    ensures !Listed(l, Who(h)) ==> AtMostAll(h.floor, l)
  {
    var flag := ScanName(l, |l|, Who(h));
    if flag != -1 {
      forall i | 0 <= i < |l| && Who(l[i]) == Who(h) && NoDuplicates(l) && Named(Who(h)) ensures h.floor <= l[i].floor {
        assert i == flag;
      }
    }
  }

  lemma ListedKeepBest(l: seq<Hero>, history: seq<Hero>, h: Hero, i: nat)
    requires IsTop(l, history) && Named(Who(h)) && !OutOfBounds(l, h) && !IsQuery(h)
    requires i < |l| && Named(Who(Updated(l, h)[i]))
    ensures IsBest(history + [h], Who(Updated(l, h)[i]), Updated(l, h)[i].floor)
  {
    TargetInRange(l, h);
    match Target(l, h)
    case Untouched =>
      UntouchedIsBounded(l, history, h);
      BestExtends(history, h, Who(l[i]), l[i].floor);
    case Overwrite(t) =>
      if i == t {
        OverwriteIsBest(l, history, h);
      } else {
        assert Who(l[i]) != Who(h) by { OtherSlots(l, h, i); }
        BestExtends(history, h, Who(l[i]), l[i].floor);
      }
  }

  lemma OtherSlots(l: seq<Hero>, h: Hero, i: nat)
    requires NoDuplicates(l) && Named(Who(h)) && !OutOfBounds(l, h)
    requires Target(l, h).Overwrite? && i < |l| && i != Target(l, h).index
    ensures Who(l[i]) != Who(h)
  {
    TargetInRange(l, h);
  }

  lemma StaysListed(l: seq<Hero>, h: Hero, i: nat)
    requires !OutOfBounds(l, h) && i < |l| && Target(l, h) != Overwrite(i)
    ensures Listed(Updated(l, h), Who(l[i]))
  {
    TargetInRange(l, h);
    assert Who(Updated(l, h)[i]) == Who(l[i]);
  }

  lemma UnlistedStayBelow(l: seq<Hero>, history: seq<Hero>, h: Hero, j: nat)
    requires IsTop(l, history) && Named(Who(h)) && !OutOfBounds(l, h) && !IsQuery(h)
    requires j <= |history| && Named(Who((history + [h])[j])) && !Listed(Updated(l, h), Who((history + [h])[j]))
    ensures AtMostAll((history + [h])[j].floor, Updated(l, h))
  {
    TargetInRange(l, h);
    var l', q := Updated(l, h), (history + [h])[j];
    match Target(l, h)
    case Untouched =>
      if j == |history| { UntouchedIsBounded(l, history, h); }
    case Overwrite(t) =>
      assert Who(l'[t]) == Who(h);
      assert j < |history| && q == history[j];
      if Listed(l, Who(q)) {
        var i :| 0 <= i < |l| && Who(l[i]) == Who(q);
        if Target(l, h) != Overwrite(i) { StaysListed(l, h, i); }
        assert i == t;
        EvictedWasLeast(l, history, h, j);
      }
      forall i | 0 <= i < |l'| ensures q.floor <= l'[i].floor {
        FloorsNeverDrop(l, h, i);
      }
  }

  /** A player who loses the slot had the least floor of all. */
  lemma EvictedWasLeast(l: seq<Hero>, history: seq<Hero>, h: Hero, j: nat)
    requires IsTop(l, history) && Named(Who(h)) && !OutOfBounds(l, h) && j < |history|
    requires Target(l, h).Overwrite? && 0 <= Target(l, h).index < |l|
    requires Named(Who(history[j])) && Who(history[j]) == Who(l[Target(l, h).index]) != Who(h)
    ensures AtMostAll(history[j].floor, l)
  {
    var t := Target(l, h).index;
    assert IsBest(history, Who(l[t]), l[t].floor);
    assert history[j].floor <= l[t].floor == ScanMin(l, |l|);
  }

  lemma UpdateKeepsTop(l: seq<Hero>, history: seq<Hero>, h: Hero)
    requires IsTop(l, history) && Named(Who(h)) && !OutOfBounds(l, h)
    ensures IsTop(Updated(l, h), Extended(history, h))
  {
    if !IsQuery(h) {
      UpdateKeepsNoDuplicates(l, h);
      forall i | 0 <= i < |l| && Named(Who(Updated(l, h)[i]))
        ensures IsBest(history + [h], Who(Updated(l, h)[i]), Updated(l, h)[i].floor)
      {
        ListedKeepBest(l, history, h, i);
      }
      forall j |
        0 <= j <= |history| && Named(Who((history + [h])[j])) && !Listed(Updated(l, h), Who((history + [h])[j]))
        ensures AtMostAll((history + [h])[j].floor, Updated(l, h))
      {
        UnlistedStayBelow(l, history, h, j);
      }
    }
  }

  /** A run of submissions, none of them out of bounds when it is made. */
  predicate Playable(l: seq<Hero>, hs: seq<Hero>)
    decreases |hs|
  {
    hs == [] || (Named(Who(hs[0])) && !OutOfBounds(l, hs[0]) && Playable(Updated(l, hs[0]), hs[1..]))
  }

  /** Floors up to the ceiling never leave the list. */
  lemma {:induction false} LowFloorsPlayable(l: seq<Hero>, hs: seq<Hero>)
    requires forall h :: h in hs ==> Named(Who(h)) && h.floor <= CEILING
    ensures Playable(l, hs)
    decreases |hs|
  {
    if hs != [] {
      TargetInRange(l, hs[0]);
      LowFloorsPlayable(Updated(l, hs[0]), hs[1..]);
    }
  }

  function Played(l: seq<Hero>, hs: seq<Hero>): (l': seq<Hero>)
    requires Playable(l, hs)
    ensures |l'| == |l|
    decreases |hs|
  {
    if hs == [] then l else Played(Updated(l, hs[0]), hs[1..])
  }

  function HistoryOf(history: seq<Hero>, hs: seq<Hero>): seq<Hero>
    decreases |hs|
  {
    if hs == [] then history else HistoryOf(Extended(history, hs[0]), hs[1..])
  }

  lemma {:induction false} PlayKeepsTop(l: seq<Hero>, history: seq<Hero>, hs: seq<Hero>)
    requires IsTop(l, history) && Playable(l, hs)
    ensures IsTop(Played(l, hs), HistoryOf(history, hs))
    ensures forall i :: 0 <= i < |l| ==> l[i].floor <= Played(l, hs)[i].floor
    decreases |hs|
  {
    if hs != [] {
      UpdateKeepsTop(l, history, hs[0]);
      forall i | 0 <= i < |l| ensures l[i].floor <= Updated(l, hs[0])[i].floor {
        FloorsNeverDrop(l, hs[0], i);
      }
      PlayKeepsTop(Updated(l, hs[0]), Extended(history, hs[0]), hs[1..]);
    }
  }

  /** Every row of the list is a whole row of the initial list or a whole submission. */
  lemma {:induction false} RowsAreWhole(l: seq<Hero>, hs: seq<Hero>, i: nat)
    requires Playable(l, hs) && i < |l|
    ensures Played(l, hs)[i] == l[i] || Played(l, hs)[i] in hs
    decreases |hs|
  {
    if hs != [] {
      TargetInRange(l, hs[0]);
      RowsAreWhole(Updated(l, hs[0]), hs[1..], i);
    }
  }

  /** From any list without duplicates, any run of named submissions keeps it the
      top of the initial rows and everything submitted since, and the floor that a
      newcomer has to beat never drops. */
  lemma TopHundred(l: seq<Hero>, hs: seq<Hero>)
    requires NoDuplicates(l) && Playable(l, hs)
    ensures IsTop(Played(l, hs), HistoryOf(l, hs))
    ensures forall floor: int :: AtMostAll(floor, l) ==> AtMostAll(floor, Played(l, hs))
    ensures forall i :: 0 <= i < |l| ==> Played(l, hs)[i] == l[i] || Played(l, hs)[i] in hs
  {
    forall i | 0 <= i < |l| && Named(Who(l[i])) ensures IsBest(l, Who(l[i]), l[i].floor) {
      forall j | 0 <= j < |l| && Who(l[j]) == Who(l[i]) ensures l[j].floor <= l[i].floor {
        assert i == j;
      }
    }
    PlayKeepsTop(l, l, hs);
    forall i | 0 <= i < |l| ensures Played(l, hs)[i] == l[i] || Played(l, hs)[i] in hs {
      RowsAreWhole(l, hs, i);
    }
  }
}
