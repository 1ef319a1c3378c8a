/** The Fisher–Yates shuffle as a function of its list and of the values the
    random-number source returns, and what it guarantees: the result is a
    permutation of the input, every permutation is reachable, and distinct
    draw sequences give distinct orderings. */
module FisherYates {

  ghost predicate Distinct<T>(s: seq<T>) {
    forall i, j :: 0 <= i < j < |s| ==> s[i] != s[j]
  }

  /** How many random draws the shuffle makes on a list of n elements:
      one for each i from n - 1 down to 1. */
  function DrawCount(n: nat): nat {
    if n == 0 then 0 else n - 1
  }

  /** The draws for the steps i, i - 1, ..., 1, in the order they are made:
      the first is drawn for index i and lies in [0, i], the rest are the
      draws for the steps below. */
  predicate DrawsFrom(i: nat, draws: seq<int>)
    decreases i
  {
    |draws| == i && (i == 0 || (0 <= draws[0] <= i && DrawsFrom(i - 1, draws[1..])))
  }

  /** Spelled out index by index: draws[k] is drawn for index i - k and lies
      in [0, i - k]. */
  lemma {:induction false} DrawsFromInRange(i: nat, draws: seq<int>)
    ensures DrawsFrom(i, draws) <==> |draws| == i && forall k :: 0 <= k < i ==> 0 <= draws[k] <= i - k
    decreases i
  {
    if i > 0 && |draws| == i {
      DrawsFromInRange(i - 1, draws[1..]);
      if forall k :: 0 <= k < i ==> 0 <= draws[k] <= i - k {
        forall k | 0 <= k < i - 1 ensures 0 <= draws[1..][k] <= i - 1 - k {
          assert draws[1..][k] == draws[k + 1];
        }
      }
      if DrawsFrom(i, draws) {
        forall k | 0 < k < i ensures 0 <= draws[k] <= i - k {
          assert draws[k] == draws[1..][k - 1];
        }
      }
    }
  }

  /** The draws a shuffle of n elements makes, each within its step's range. */
  predicate ValidDraws(n: nat, draws: seq<int>) {
    DrawsFrom(DrawCount(n), draws)
  }

  function Swap<T>(s: seq<T>, i: nat, j: nat): (r: seq<T>)
    requires i < |s| && j < |s|
    ensures |r| == |s| && r[i] == s[j] && r[j] == s[i]
    ensures forall k :: 0 <= k < |s| && k != i && k != j ==> r[k] == s[k]
  {
    s[i := s[j]][j := s[i]]
  }

  lemma {:induction false} SwapPermutes<T>(s: seq<T>, i: nat, j: nat)
    requires i < |s| && j < |s|
    ensures multiset(Swap(s, i, j)) == multiset(s)
  {
  }

  lemma {:induction false} SwapKeepsDistinct<T>(s: seq<T>, i: nat, j: nat)
    requires i < |s| && j < |s| && Distinct(s)
    ensures Distinct(Swap(s, i, j))
  {
  }

  /** The steps i, i - 1, ..., 1 of the shuffle: step i exchanges the element
      at i with the one at the index drawn for it. */
  function ShuffleDown<T>(s: seq<T>, i: nat, draws: seq<int>): (r: seq<T>)
    requires i < |s| && DrawsFrom(i, draws)
    ensures |r| == |s|
    decreases i
  {
    if i == 0 then s else ShuffleDown(Swap(s, i, draws[0]), i - 1, draws[1..])
  }

  /** The steps only exchange elements. */
  lemma {:induction false} ShuffleDownPermutes<T>(s: seq<T>, i: nat, draws: seq<int>)
    requires i < |s| && DrawsFrom(i, draws)
    ensures multiset(ShuffleDown(s, i, draws)) == multiset(s)
    decreases i
  {
    if i == 0 {
      assert ShuffleDown(s, i, draws) == s;
    } else {
      var s' := Swap(s, i, draws[0]);
      ShuffleDownUnfold(s, i, draws);
      ShuffleDownPermutes(s', i - 1, draws[1..]);
      SwapPermutes(s, i, draws[0]);
    }
  }

  /** Exchanging elements keeps them distinct. */
  lemma {:induction false} ShuffleDownKeepsDistinct<T>(s: seq<T>, i: nat, draws: seq<int>)
    requires i < |s| && DrawsFrom(i, draws) && Distinct(s)
    ensures Distinct(ShuffleDown(s, i, draws))
    decreases i
  {
    if i == 0 {
      assert ShuffleDown(s, i, draws) == s;
    } else {
      var s' := Swap(s, i, draws[0]);
      ShuffleDownUnfold(s, i, draws);
      SwapKeepsDistinct(s, i, draws[0]);
      ShuffleDownKeepsDistinct(s', i - 1, draws[1..]);
    }
  }

  /** The steps i, ..., 1 leave the elements above index i where they are. */
  lemma {:induction false} ShuffleDownKeepsAbove<T>(s: seq<T>, i: nat, draws: seq<int>, k: nat)
    requires i < k < |s| && DrawsFrom(i, draws)
    ensures ShuffleDown(s, i, draws)[k] == s[k]
    decreases i
  {
    if i == 0 {
      assert ShuffleDown(s, i, draws) == s;
    } else {
      var s' := Swap(s, i, draws[0]);
      ShuffleDownUnfold(s, i, draws);
      ShuffleDownKeepsAbove(s', i - 1, draws[1..], k);
      assert s'[k] == s[k];
    }
  }

  /** Step i, then the steps below it. */
  lemma {:induction false} ShuffleDownUnfold<T>(s: seq<T>, i: nat, d: seq<int>)
    requires 0 < i < |s| && DrawsFrom(i, d)
    ensures DrawsFrom(i - 1, d[1..]) && 0 <= d[0] <= i
    ensures ShuffleDown(s, i, d) == ShuffleDown(Swap(s, i, d[0]), i - 1, d[1..])
  {
  }

  /** A list obtained from `before` by exchanging the elements at i and at
      the first draw is where the remaining steps start. */
  lemma {:induction false} ShuffleDownAfterSwap<T>(before: seq<T>, after: seq<T>, i: nat, draws: seq<int>)
    requires 0 < i < |before| && DrawsFrom(i, draws) && |after| == |before|
    requires after[i] == before[draws[0]] && after[draws[0]] == before[i]
    requires forall k :: 0 <= k < |after| && k != i && k != draws[0] ==> after[k] == before[k]
    ensures DrawsFrom(i - 1, draws[1..])
    ensures ShuffleDown(after, i - 1, draws[1..]) == ShuffleDown(before, i, draws)
  {
    assert after == Swap(before, i, draws[0]);
    ShuffleDownUnfold(before, i, draws);
  }

  /** The whole shuffle of s under the given draws. */
  function Shuffled<T>(s: seq<T>, draws: seq<int>): (r: seq<T>)
    requires ValidDraws(|s|, draws)
    ensures |r| == |s| && multiset(r) == multiset(s)
    ensures |s| <= 1 ==> r == s
  {
    if |s| == 0 then s
    else
      ShuffleDownPermutes(s, |s| - 1, draws);
      ShuffleDown(s, |s| - 1, draws)
  }

  lemma {:induction false} ShuffledKeepsDistinct<T>(s: seq<T>, draws: seq<int>)
    requires ValidDraws(|s|, draws) && Distinct(s)
    ensures Distinct(Shuffled(s, draws))
  {
    if |s| > 0 {
      ShuffleDownKeepsDistinct(s, |s| - 1, draws);
    }
  }

  lemma {:induction false} MultisetCancel<T>(a: multiset<T>, b: multiset<T>, x: T)
    requires a + multiset{x} == b + multiset{x}
    ensures a == b
  {
    assert forall y :: a[y] == (a + multiset{x})[y] - multiset{x}[y];
  }

  lemma {:induction false} SplitAt<T>(s: seq<T>, i: nat)
    requires i < |s|
    ensures s[..i + 1] == s[..i] + [s[i]] && s[i..] == [s[i]] + s[i + 1..]
  {
  }

  /** A swap within the first i + 1 elements leaves the rest alone. */
  lemma {:induction false} SwapInPrefix<T>(s: seq<T>, i: nat, j: nat)
    requires j <= i < |s|
    ensures Swap(s, i, j)[..i + 1] == Swap(s[..i + 1], i, j)
    ensures Swap(s, i, j)[i + 1..] == s[i + 1..]
  {
  }

  /** Moving the element wanted at index i into place keeps the first i
      elements a rearrangement of the wanted ones. */
  lemma {:induction false} SwapIntoPlace<T>(s: seq<T>, t: seq<T>, i: nat, j: nat)
    requires |s| == |t| && 0 < i < |s| && j <= i && s[j] == t[i]
    requires multiset(s[..i + 1]) == multiset(t[..i + 1]) && s[i + 1..] == t[i + 1..]
    ensures multiset(Swap(s, i, j)[..i]) == multiset(t[..i]) && Swap(s, i, j)[i..] == t[i..]
  {
    var s' := Swap(s, i, j);
    SwapInPrefix(s, i, j);
    SwapPermutes(s[..i + 1], i, j);
    SplitAt(s', i);
    SplitAt(t, i);
    MultisetCancel(multiset(s'[..i]), multiset(t[..i]), t[i]);
  }

  /** One step of the shuffle, followed by the steps below it. */
  lemma {:induction false} ShuffleDownStep<T>(s: seq<T>, i: nat, j: nat, d': seq<int>)
    requires 0 < i < |s| && j <= i && DrawsFrom(i - 1, d')
    ensures DrawsFrom(i, [j] + d')
    ensures ShuffleDown(s, i, [j] + d') == ShuffleDown(Swap(s, i, j), i - 1, d')
  {
    var d := [j] + d';
    assert d[0] == j && d[1..] == d';
    assert DrawsFrom(i, d);
    ShuffleDownUnfold(s, i, d);
  }

  /** With one element left to place, it is already in place. */
  lemma {:induction false} OneLeft<T>(s: seq<T>, t: seq<T>)
    requires |s| == |t| && 0 < |s|
    requires multiset(s[..1]) == multiset(t[..1]) && s[1..] == t[1..]
    ensures s == t
  {
    assert s[..1] == [s[0]] && t[..1] == [t[0]];
    assert s[0] in multiset(t[..1]);
    assert s == s[..1] + s[1..] && t == t[..1] + t[1..];
  }

  /** The element wanted at index i is somewhere among the first i + 1. */
  lemma {:induction false} FindWanted<T>(s: seq<T>, t: seq<T>, i: nat) returns (j: nat)
    requires |s| == |t| && i < |s| && multiset(s[..i + 1]) == multiset(t[..i + 1])
    ensures j <= i && s[j] == t[i]
  {
    assert t[i] == t[..i + 1][i];
    assert t[i] in multiset(s[..i + 1]);
    j :| 0 <= j < i + 1 && s[..i + 1][j] == t[i];
  }

  /** Every ordering of the first i + 1 elements is produced by some draws;
      the draws are built by finding, for i, i - 1, ..., 1 in turn, where the
      element wanted at that index currently is. */
  lemma {:induction false} ShuffleDownReaches<T>(s: seq<T>, t: seq<T>, i: nat) returns (d: seq<int>)
    requires |s| == |t| && i < |s|
    requires multiset(s[..i + 1]) == multiset(t[..i + 1]) && s[i + 1..] == t[i + 1..]
    ensures DrawsFrom(i, d) && ShuffleDown(s, i, d) == t
    decreases i
  {
    if i == 0 {
      OneLeft(s, t);
      d := [];
      assert ShuffleDown(s, 0, d) == s;
    } else {
      var j := FindWanted(s, t, i);
      SwapIntoPlace(s, t, i, j);
      var d' := ShuffleDownReaches(Swap(s, i, j), t, i - 1);
      ShuffleDownStep(s, i, j, d');
      d := [j] + d';
    }
  }

  /** Every rearrangement of s is the outcome of some in-range draws. */
  lemma {:induction false} ShuffledReachesEveryPermutation<T>(s: seq<T>, t: seq<T>)
    requires multiset(s) == multiset(t)
    ensures exists d :: ValidDraws(|s|, d) && Shuffled(s, d) == t
  {
    assert |s| == |multiset(s)| == |t|;
    if |s| == 0 {
      assert ValidDraws(0, []) && Shuffled(s, []) == t;
    } else {
      assert s[..|s|] == s && t[..|t|] == t;
      assert s[|s|..] == [] == t[|t|..];
      var d := ShuffleDownReaches(s, t, |s| - 1);
      assert ValidDraws(|s|, d) && Shuffled(s, d) == t;
    }
  }

  /** On distinct elements, the element that step i leaves at index i tells
      which index was drawn, so different draws give different orderings. */
  lemma {:induction false} ShuffleDownInjective<T>(s: seq<T>, i: nat, d1: seq<int>, d2: seq<int>)
    requires Distinct(s) && i < |s| && DrawsFrom(i, d1) && DrawsFrom(i, d2)
    requires ShuffleDown(s, i, d1) == ShuffleDown(s, i, d2)
    ensures d1 == d2
    decreases i
  {
    if i == 0 {
      assert d1 == [] == d2;
    } else {
      ShuffleDownUnfold(s, i, d1);
      ShuffleDownUnfold(s, i, d2);
      var j1, j2 := d1[0], d2[0];
      ShuffleDownKeepsAbove(Swap(s, i, j1), i - 1, d1[1..], i);
      ShuffleDownKeepsAbove(Swap(s, i, j2), i - 1, d2[1..], i);
      assert s[j1] == s[j2];
      DistinctAt(s, j1, j2);
      SwapKeepsDistinct(s, i, j1);
      ShuffleDownInjective(Swap(s, i, j1), i - 1, d1[1..], d2[1..]);
      SameHeadAndTail(d1, d2);
    }
  }

  lemma {:induction false} DistinctAt<T>(s: seq<T>, j: nat, k: nat)
    requires Distinct(s) && j < |s| && k < |s| && s[j] == s[k]
    ensures j == k
  {
  }

  lemma {:induction false} SameHeadAndTail<T>(a: seq<T>, b: seq<T>)
    requires 0 < |a| && 0 < |b| && a[0] == b[0] && a[1..] == b[1..]
    ensures a == b
  {
    assert a == [a[0]] + a[1..] && b == [b[0]] + b[1..];
  }

  /** Distinct draw sequences give distinct orderings of distinct elements;
      with the previous lemma, the shuffle maps the in-range draw sequences
      one-to-one onto the orderings of s. */
  lemma {:induction false} ShuffledInjective<T>(s: seq<T>, d1: seq<int>, d2: seq<int>)
    requires Distinct(s) && ValidDraws(|s|, d1) && ValidDraws(|s|, d2)
    requires Shuffled(s, d1) == Shuffled(s, d2)
    ensures d1 == d2
  {
    if |s| > 0 {
      ShuffleDownInjective(s, |s| - 1, d1, d2);
    }
  }

  lemma {:induction false} SwapSelf<T>(s: seq<T>, i: nat)
    requires i < |s|
    ensures Swap(s, i, i) == s
  {
  }

  /** The draws that pick, at every step, the index of the step itself:
      i, i - 1, ..., 1. */
  function SelfDraws(i: nat): (d: seq<int>)
    ensures |d| == i && forall k :: 0 <= k < i ==> d[k] == i - k
    decreases i
  {
    if i == 0 then [] else [i] + SelfDraws(i - 1)
  }

  lemma {:induction false} SelfDrawsKeepOrder<T>(s: seq<T>, i: nat)
    requires i < |s|
    ensures DrawsFrom(i, SelfDraws(i)) && ShuffleDown(s, i, SelfDraws(i)) == s
    decreases i
  {
    var d := SelfDraws(i);
    if i == 0 {
      assert ShuffleDown(s, i, d) == s;
    } else {
      assert d[0] == i && d[1..] == SelfDraws(i - 1);
      SwapSelf(s, i);
      SelfDrawsKeepOrder(s, i - 1);
      assert DrawsFrom(i, d);
      ShuffleDownUnfold(s, i, d);
    }
  }

  /** On distinct elements the shuffle leaves the list as it was exactly when
      every draw picked its own step's index. */
  lemma {:induction false} ShuffledIsIdentityIff<T>(s: seq<T>, d: seq<int>)
    requires Distinct(s) && ValidDraws(|s|, d)
    ensures Shuffled(s, d) == s <==> d == SelfDraws(DrawCount(|s|))
  {
    if |s| == 0 {
      assert d == [];
    } else {
      SelfDrawsKeepOrder(s, |s| - 1);
      if Shuffled(s, d) == s {
        ShuffledInjective(s, d, SelfDraws(|s| - 1));
      }
    }
  }
}
