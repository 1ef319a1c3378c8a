/** What the shuffle's reassignment loop does to the board's occupancy, as a
    function of the occupancy before it, and what that outcome is: the last
    write to each cell wins, so a cell cleared for a later gem loses the gem
    an earlier iteration put there. */
module Reassignment {
  import opened Board
  import opened FisherYates

  /** The first index at which x occurs in s. */
  ghost function IndexOf(s: seq<Coord>, x: Coord): (k: nat)
    requires x in s
    ensures k < |s| && s[k] == x
    ensures forall j :: 0 <= j < k ==> s[j] != x
  {
    if s[0] == x then 0 else 1 + IndexOf(s[1..], x)
  }

  /** `to` is an ordering of the distinct coordinates `from`. */
  ghost predicate Permutes(to: seq<Coord>, from: seq<Coord>) {
    |to| == |from| && Distinct(from) && Distinct(to) && multiset(to) == multiset(from)
  }

  /** An ordering has the same elements as what it orders. */
  lemma {:induction false} PermutesSameElements(to: seq<Coord>, from: seq<Coord>, x: Coord)
    requires Permutes(to, from)
    ensures x in to <==> x in from
  {
    assert x in to <==> x in multiset(to);
    assert x in from <==> x in multiset(from);
  }

  /** No gem is held by two cells. */
  ghost predicate SingleOwner(occ: map<Coord, Gem?>) {
    forall p, q :: p in occ && q in occ && p != q && occ[p] != null ==> occ[p] != occ[q]
  }

  lemma {:induction false} SingleOwnerAt(occ: map<Coord, Gem?>, p: Coord, q: Coord)
    requires SingleOwner(occ) && p in occ && q in occ && occ[p] != null && occ[p] == occ[q]
    ensures p == q
  {
  }

  /** The occupancy after the single pass of the source: for i = 0, 1, ...
      in turn, the cell at from[i] is cleared and then the cell at to[i] is
      given gems[i]. Every coordinate named must be a cell of the board. */
  ghost function OnePass(occ: map<Coord, Gem?>, gems: seq<Gem>, from: seq<Coord>, to: seq<Coord>): (r: map<Coord, Gem?>)
    requires |gems| == |from| == |to|
    requires forall k :: 0 <= k < |from| ==> from[k] in occ && to[k] in occ
    ensures r.Keys == occ.Keys
    decreases |gems|
  {
    if gems == [] then occ
    else OnePass(occ[from[0] := null][to[0] := gems[0]], gems[1..], from[1..], to[1..])
  }

  /** The tail of a list without repetitions has none either, and does not
      contain the head; an element of the tail is found one place further on
      in the whole list. */
  lemma {:induction false} DistinctTail(s: seq<Coord>)
    requires |s| > 0 && Distinct(s)
    ensures Distinct(s[1..]) && s[0] !in s[1..]
    ensures forall x :: x in s <==> x == s[0] || x in s[1..]
    ensures forall x :: x in s[1..] ==> IndexOf(s, x) == 1 + IndexOf(s[1..], x)
  {
    assert s == [s[0]] + s[1..];
  }

  /** The last write to a cell decides what it holds: the gem written there,
      unless the cell was cleared after that write; empty, if it was only
      cleared; untouched, if the pass never named it. */
  lemma {:induction false} OnePassAt(occ: map<Coord, Gem?>, gems: seq<Gem>, from: seq<Coord>, to: seq<Coord>, q: Coord)
    requires |gems| == |from| == |to| && Distinct(from) && Distinct(to)
    requires forall k :: 0 <= k < |from| ==> from[k] in occ && to[k] in occ
    requires q in occ
    ensures OnePass(occ, gems, from, to)[q] ==
      if q in to && (q !in from || IndexOf(from, q) <= IndexOf(to, q)) then gems[IndexOf(to, q)]
      else if q in from then null
      else occ[q]
    decreases |gems|
  {
    if gems != [] {
      var occ' := occ[from[0] := null][to[0] := gems[0]];
      var gems', from', to' := gems[1..], from[1..], to[1..];
      DistinctTail(from);
      DistinctTail(to);
      OnePassAt(occ', gems', from', to', q);
      assert q in to' ==> gems[IndexOf(to, q)] == gems'[IndexOf(to', q)];
    }
  }

  /** The outcome for a pass whose targets are a reordering of its origins:
      target cell to[j] ends up holding gems[j] when its original occupant
      came no later than j in the list, and empty otherwise; cells outside
      the list keep what they held. */
  lemma {:induction false} OnePassOnPermutation(occ: map<Coord, Gem?>, gems: seq<Gem>, from: seq<Coord>, to: seq<Coord>)
    requires |gems| == |from| && Permutes(to, from)
    requires forall k :: 0 <= k < |from| ==> from[k] in occ
    ensures forall k :: 0 <= k < |to| ==> to[k] in from && to[k] in occ
    ensures forall j :: 0 <= j < |to| ==>
      OnePass(occ, gems, from, to)[to[j]] == if IndexOf(from, to[j]) <= j then gems[j] else null
    ensures forall q :: q in occ && q !in from ==> OnePass(occ, gems, from, to)[q] == occ[q]
  {
    forall k | 0 <= k < |to| ensures to[k] in from {
      PermutesSameElements(to, from, to[k]);
    }
    forall j | 0 <= j < |to| ensures OnePass(occ, gems, from, to)[to[j]] == if IndexOf(from, to[j]) <= j then gems[j] else null {
      OnePassAt(occ, gems, from, to, to[j]);
      assert IndexOf(to, to[j]) == j;
    }
    forall q | q in occ && q !in from ensures OnePass(occ, gems, from, to)[q] == occ[q] {
      OnePassAt(occ, gems, from, to, q);
      PermutesSameElements(to, from, q);
    }
  }

  /** Who may hold a cell after the gems of the list have been sent from
      `from` to `to`: the gem sent there, in a cell of the list; the old
      occupant, in any other cell. */
  ghost predicate HoldersAre(r: map<Coord, Gem?>, occ: map<Coord, Gem?>, gems: seq<Gem>, from: seq<Coord>, to: seq<Coord>)
    requires |gems| == |to|
  {
    forall q :: q in r && r[q] != null ==>
      if q in from then q in to && r[q] == gems[IndexOf(to, q)] else q in occ && r[q] == occ[q]
  }

  /** In the one-pass outcome every held cell holds the gem sent there or,
      outside the list, what it held before. */
  lemma {:induction false} OnePassHolders(occ: map<Coord, Gem?>, gems: seq<Gem>, from: seq<Coord>, to: seq<Coord>)
    requires |gems| == |from| && Permutes(to, from)
    requires forall k :: 0 <= k < |from| ==> from[k] in occ && to[k] in occ
    ensures HoldersAre(OnePass(occ, gems, from, to), occ, gems, from, to)
  {
    var r := OnePass(occ, gems, from, to);
    forall q | q in r && r[q] != null
      ensures if q in from then q in to && r[q] == gems[IndexOf(to, q)] else q in occ && r[q] == occ[q]
    {
      OnePassAt(occ, gems, from, to, q);
      PermutesSameElements(to, from, q);
    }
  }

  /** The element at index j comes from no later index of `from`. */
  ghost predicate ComesNoLater(from: seq<Coord>, to: seq<Coord>, j: nat)
    requires j < |to|
  {
    to[j] in from && IndexOf(from, to[j]) <= j
  }

  /** A reordering in which every element comes from no later index than its
      own is no reordering at all. */
  lemma {:induction false} OnlyIdentityMovesNothingForward(from: seq<Coord>, to: seq<Coord>, n: nat)
    requires |to| == |from| && Distinct(to) && n <= |to|
    requires forall j :: 0 <= j < |to| ==> ComesNoLater(from, to, j)
    ensures forall j :: 0 <= j < n ==> to[j] == from[j]
  {
    if n > 0 {
      OnlyIdentityMovesNothingForward(from, to, n - 1);
      var m := n - 1;
      assert ComesNoLater(from, to, m);
      var k := IndexOf(from, to[m]);
      assert forall j :: 0 <= j < m ==> to[j] != to[m];
      assert k == m;
    }
  }

  lemma {:induction false} IdentityKeepsEveryGem(occ: map<Coord, Gem?>, gems: seq<Gem>, from: seq<Coord>)
    requires |gems| == |from| && Distinct(from)
    requires forall k :: 0 <= k < |from| ==> from[k] in occ
    ensures forall j :: 0 <= j < |from| ==> OnePass(occ, gems, from, from)[from[j]] == gems[j]
  {
    forall j | 0 <= j < |from| ensures OnePass(occ, gems, from, from)[from[j]] == gems[j] {
      OnePassAt(occ, gems, from, from, from[j]);
      assert IndexOf(from, from[j]) == j;
    }
  }

  lemma {:induction false} OnlyIdentityKeepsEveryGem(occ: map<Coord, Gem?>, gems: seq<Gem>, from: seq<Coord>, to: seq<Coord>)
    requires |gems| == |from| && Permutes(to, from)
    requires forall k :: 0 <= k < |from| ==> from[k] in occ && to[k] in occ
    requires forall j :: 0 <= j < |to| ==> OnePass(occ, gems, from, to)[to[j]] == gems[j]
    ensures to == from
  {
    OnePassOnPermutation(occ, gems, from, to);
    forall j | 0 <= j < |to| ensures ComesNoLater(from, to, j) {
      assert OnePass(occ, gems, from, to)[to[j]] == gems[j];
    }
    OnlyIdentityMovesNothingForward(from, to, |to|);
  }

  /** The guarantee the source's comments give, that after the pass every
      target cell holds the gem sent there, holds exactly when the reordering
      is the identity. */
  lemma {:induction false} EveryTargetHoldsItsGemIffIdentity(occ: map<Coord, Gem?>, gems: seq<Gem>, from: seq<Coord>, to: seq<Coord>)
    requires |gems| == |from| && Permutes(to, from)
    requires forall k :: 0 <= k < |from| ==> from[k] in occ
    ensures forall k :: 0 <= k < |to| ==> to[k] in occ
    ensures (forall j :: 0 <= j < |to| ==> OnePass(occ, gems, from, to)[to[j]] == gems[j]) <==> to == from
  {
    OnePassOnPermutation(occ, gems, from, to);
    if to == from {
      IdentityKeepsEveryGem(occ, gems, from);
    }
    if forall j :: 0 <= j < |to| ==> OnePass(occ, gems, from, to)[to[j]] == gems[j] {
      OnlyIdentityKeepsEveryGem(occ, gems, from, to);
    }
  }

  /** After the pass a gem of the list can only be in its own target cell,
      and only if that cell was not cleared again later. */
  lemma {:induction false} GemOnlyAtItsTarget(occ: map<Coord, Gem?>, gems: seq<Gem>, from: seq<Coord>, to: seq<Coord>, j: nat, q: Coord)
    requires |gems| == |from| && Permutes(to, from) && SingleOwner(occ)
    requires forall k :: 0 <= k < |from| ==> from[k] in occ && occ[from[k]] == gems[k]
    requires forall k :: 0 <= k < |to| ==> to[k] in occ
    requires j < |to| && q in occ
    requires OnePass(occ, gems, from, to)[q] == gems[j]
    ensures q == to[j] && to[j] in from && IndexOf(from, to[j]) <= j
  {
    OnePassOnPermutation(occ, gems, from, to);
    if q in from {
      PermutesSameElements(to, from, q);
      var j' := IndexOf(to, q);
      assert gems[j'] == gems[j];
      SingleOwnerAt(occ, from[j'], from[j]);
      DistinctAt(from, j', j);
    }
  }

  /** A gem of the list is still held by some cell after the pass exactly when
      its target cell was not cleared again by a later iteration. */
  lemma {:induction false} GemKeptIff(occ: map<Coord, Gem?>, gems: seq<Gem>, from: seq<Coord>, to: seq<Coord>, j: nat)
    requires |gems| == |from| && Permutes(to, from) && SingleOwner(occ)
    requires forall k :: 0 <= k < |from| ==> from[k] in occ && occ[from[k]] == gems[k]
    requires j < |to|
    ensures to[j] in from && forall k :: 0 <= k < |to| ==> to[k] in occ
    ensures (exists q :: q in occ && OnePass(occ, gems, from, to)[q] == gems[j]) <==> IndexOf(from, to[j]) <= j
  {
    OnePassOnPermutation(occ, gems, from, to);
    var r := OnePass(occ, gems, from, to);
    if IndexOf(from, to[j]) <= j {
      assert r[to[j]] == gems[j];
    }
    if exists q :: q in occ && r[q] == gems[j] {
      var q :| q in occ && r[q] == gems[j];
      GemOnlyAtItsTarget(occ, gems, from, to, j, q);
    }
  }

  /** Two gems a at p0 and b at p1, sent to [p1, p0] (what a shuffle of two
      cells with draw 0 yields): the pass leaves b at p0, p1 empty, and a in
      no cell at all. */
  lemma {:induction false} TwoGemSwapLosesGem(occ: map<Coord, Gem?>, a: Gem, b: Gem)
    requires Coord(0, 0, 0) in occ && Coord(1, 0, 0) in occ && SingleOwner(occ)
    requires occ[Coord(0, 0, 0)] == a && occ[Coord(1, 0, 0)] == b
    ensures Shuffled([Coord(0, 0, 0), Coord(1, 0, 0)], [0]) == [Coord(1, 0, 0), Coord(0, 0, 0)]
    ensures var r := OnePass(occ, [a, b], [Coord(0, 0, 0), Coord(1, 0, 0)], [Coord(1, 0, 0), Coord(0, 0, 0)]);
      r[Coord(0, 0, 0)] == b && r[Coord(1, 0, 0)] == null && forall q :: q in r ==> r[q] != a
  {
    var p0, p1 := Coord(0, 0, 0), Coord(1, 0, 0);
    assert Swap([p0, p1], 1, 0) == [p1, p0];
    var r := OnePass(occ, [a, b], [p0, p1], [p1, p0]);
    assert [a, b][1..] == [b] && [p0, p1][1..] == [p1] && [p1, p0][1..] == [p0];
    var occ1 := occ[p0 := null][p1 := a];
    assert OnePass(occ, [a, b], [p0, p1], [p1, p0]) == OnePass(occ1, [b], [p1], [p0]);
    assert OnePass(occ1, [b], [p1], [p0]) == OnePass(occ1[p1 := null][p0 := b], [], [], []);
    assert r == occ1[p1 := null][p0 := b];
    forall q | q in r ensures r[q] != a {
      if q != p0 && q != p1 {
        assert occ[q] != occ[p0];
      }
    }
  }

  /** One iteration of the pass, taken from the front of what is left. */
  lemma {:induction false} OnePassStep(occ: map<Coord, Gem?>, gems: seq<Gem>, from: seq<Coord>, to: seq<Coord>, i: nat)
    requires |gems| == |from| == |to| && i < |gems|
    requires forall k :: 0 <= k < |from| ==> from[k] in occ && to[k] in occ
    ensures OnePass(occ, gems[i..], from[i..], to[i..])
      == OnePass(occ[from[i] := null][to[i] := gems[i]], gems[i + 1..], from[i + 1..], to[i + 1..])
  {
    assert gems[i..][1..] == gems[i + 1..] && from[i..][1..] == from[i + 1..] && to[i..][1..] == to[i + 1..];
  }

  /** The iterations i, i + 1, ... of the pass, counted by index. */
  ghost function OnePassFrom(occ: map<Coord, Gem?>, gems: seq<Gem>, from: seq<Coord>, to: seq<Coord>, i: nat): (r: map<Coord, Gem?>)
    requires |gems| == |from| == |to| && i <= |gems|
    requires forall k :: 0 <= k < |from| ==> from[k] in occ && to[k] in occ
    ensures r.Keys == occ.Keys
    decreases |gems| - i
  {
    if i == |gems| then occ else OnePassFrom(occ[from[i] := null][to[i] := gems[i]], gems, from, to, i + 1)
  }

  /** Counting by index gives the same pass as taking the list apart. */
  lemma {:induction false} OnePassFromIsOnePass(occ: map<Coord, Gem?>, gems: seq<Gem>, from: seq<Coord>, to: seq<Coord>, i: nat)
    requires |gems| == |from| == |to| && i <= |gems|
    requires forall k :: 0 <= k < |from| ==> from[k] in occ && to[k] in occ
    ensures OnePassFrom(occ, gems, from, to, i) == OnePass(occ, gems[i..], from[i..], to[i..])
    decreases |gems| - i
  {
    if i < |gems| {
      OnePassStep(occ, gems, from, to, i);
      OnePassFromIsOnePass(occ[from[i] := null][to[i] := gems[i]], gems, from, to, i + 1);
    } else {
      assert gems[i..] == [];
    }
  }

  /** What the pass leaves when nothing is left of it. */
  lemma {:induction false} OnePassDone(occ: map<Coord, Gem?>, gems: seq<Gem>, from: seq<Coord>, to: seq<Coord>)
    requires |gems| == |from| == |to|
    ensures OnePass(occ, gems[|gems|..], from[|gems|..], to[|gems|..]) == occ
  {
    assert gems[|gems|..] == [];
  }

  /** The first phase of the intended reassignment: every cell in `from` is
      cleared. */
  ghost function ClearAll(occ: map<Coord, Gem?>, from: seq<Coord>): (r: map<Coord, Gem?>)
    requires forall k :: 0 <= k < |from| ==> from[k] in occ
    ensures r.Keys == occ.Keys
    decreases |from|
  {
    if from == [] then occ else ClearAll(occ[from[0] := null], from[1..])
  }

  /** The second phase: cell to[k] is given gems[k], for each k in turn. */
  ghost function FillAll(occ: map<Coord, Gem?>, gems: seq<Gem>, to: seq<Coord>): (r: map<Coord, Gem?>)
    requires |gems| == |to|
    requires forall k :: 0 <= k < |to| ==> to[k] in occ
    ensures r.Keys == occ.Keys
    decreases |gems|
  {
    if gems == [] then occ else FillAll(occ[to[0] := gems[0]], gems[1..], to[1..])
  }

  /** The occupancy after the intended two-phase reassignment. */
  ghost function TwoPhases(occ: map<Coord, Gem?>, gems: seq<Gem>, from: seq<Coord>, to: seq<Coord>): (r: map<Coord, Gem?>)
    requires |gems| == |from| == |to|
    requires forall k :: 0 <= k < |from| ==> from[k] in occ && to[k] in occ
    ensures r.Keys == occ.Keys
  {
    FillAll(ClearAll(occ, from), gems, to)
  }

  lemma {:induction false} ClearAllAt(occ: map<Coord, Gem?>, from: seq<Coord>, q: Coord)
    requires forall k :: 0 <= k < |from| ==> from[k] in occ
    requires q in occ
    ensures ClearAll(occ, from)[q] == if q in from then null else occ[q]
    decreases |from|
  {
    if from != [] {
      ClearAllAt(occ[from[0] := null], from[1..], q);
      assert q in from <==> q == from[0] || q in from[1..] by {
        assert from == [from[0]] + from[1..];
      }
    }
  }

  lemma {:induction false} FillAllAt(occ: map<Coord, Gem?>, gems: seq<Gem>, to: seq<Coord>, q: Coord)
    requires |gems| == |to| && Distinct(to)
    requires forall k :: 0 <= k < |to| ==> to[k] in occ
    requires q in occ
    ensures FillAll(occ, gems, to)[q] == if q in to then gems[IndexOf(to, q)] else occ[q]
    decreases |gems|
  {
    if gems != [] {
      DistinctTail(to);
      FillAllAt(occ[to[0] := gems[0]], gems[1..], to[1..], q);
    }
  }

  /** The fills i, i + 1, ... of the second phase, counted by index. */
  ghost function FillFrom(occ: map<Coord, Gem?>, gems: seq<Gem>, to: seq<Coord>, i: nat): (r: map<Coord, Gem?>)
    requires |gems| == |to| && i <= |to|
    requires forall k :: 0 <= k < |to| ==> to[k] in occ
    ensures r.Keys == occ.Keys
    decreases |to| - i
  {
    if i == |to| then occ else FillFrom(occ[to[i] := gems[i]], gems, to, i + 1)
  }

  /** Counting by index gives the same second phase as taking the list apart. */
  lemma {:induction false} FillFromIsFillAll(occ: map<Coord, Gem?>, gems: seq<Gem>, to: seq<Coord>, i: nat)
    requires |gems| == |to| && i <= |to|
    requires forall k :: 0 <= k < |to| ==> to[k] in occ
    ensures FillFrom(occ, gems, to, i) == FillAll(occ, gems[i..], to[i..])
    decreases |to| - i
  {
    if i < |to| {
      FillAllStep(occ, gems, to, i);
      FillFromIsFillAll(occ[to[i] := gems[i]], gems, to, i + 1);
    } else {
      assert gems[i..] == [];
    }
  }

  /** The two-phase reassignment delivers what the source's comments promise:
      every target cell holds the gem sent there, and the cells outside the
      list keep what they held. */
  lemma {:induction false} TwoPhasesKeepsEveryGem(occ: map<Coord, Gem?>, gems: seq<Gem>, from: seq<Coord>, to: seq<Coord>)
    requires |gems| == |from| && Permutes(to, from)
    requires forall k :: 0 <= k < |from| ==> from[k] in occ
    ensures forall k :: 0 <= k < |to| ==> to[k] in occ
    ensures forall j :: 0 <= j < |to| ==> TwoPhases(occ, gems, from, to)[to[j]] == gems[j]
    ensures forall q :: q in occ && q !in from ==> TwoPhases(occ, gems, from, to)[q] == occ[q]
  {
    forall k | 0 <= k < |to| ensures to[k] in from && to[k] in occ {
      PermutesSameElements(to, from, to[k]);
    }
    var cleared := ClearAll(occ, from);
    forall j | 0 <= j < |to| ensures TwoPhases(occ, gems, from, to)[to[j]] == gems[j] {
      FillAllAt(cleared, gems, to, to[j]);
      assert IndexOf(to, to[j]) == j;
    }
    forall q | q in occ && q !in from ensures TwoPhases(occ, gems, from, to)[q] == occ[q] {
      PermutesSameElements(to, from, q);
      FillAllAt(cleared, gems, to, q);
      ClearAllAt(occ, from, q);
    }
  }

  lemma {:induction false} ClearAllStep(occ: map<Coord, Gem?>, from: seq<Coord>, i: nat)
    requires i < |from| && forall k :: 0 <= k < |from| ==> from[k] in occ
    ensures ClearAll(occ, from[i..]) == ClearAll(occ[from[i] := null], from[i + 1..])
  {
    assert from[i..][1..] == from[i + 1..];
  }

  lemma {:induction false} FillAllStep(occ: map<Coord, Gem?>, gems: seq<Gem>, to: seq<Coord>, i: nat)
    requires |gems| == |to| && i < |to| && forall k :: 0 <= k < |to| ==> to[k] in occ
    ensures FillAll(occ, gems[i..], to[i..]) == FillAll(occ[to[i] := gems[i]], gems[i + 1..], to[i + 1..])
  {
    assert gems[i..][1..] == gems[i + 1..] && to[i..][1..] == to[i + 1..];
  }

  /** The same holds of the two-phase outcome. */
  lemma {:induction false} TwoPhasesHolders(occ: map<Coord, Gem?>, gems: seq<Gem>, from: seq<Coord>, to: seq<Coord>)
    requires |gems| == |from| && Permutes(to, from)
    requires forall k :: 0 <= k < |from| ==> from[k] in occ && to[k] in occ
    ensures HoldersAre(TwoPhases(occ, gems, from, to), occ, gems, from, to)
  {
    var r := TwoPhases(occ, gems, from, to);
    var cleared := ClearAll(occ, from);
    forall q | q in r && r[q] != null
      ensures if q in from then q in to && r[q] == gems[IndexOf(to, q)] else q in occ && r[q] == occ[q]
    {
      PermutesSameElements(to, from, q);
      FillAllAt(cleared, gems, to, q);
      ClearAllAt(occ, from, q);
    }
  }
}
