/** The shuffle power-up: collect every movable gem and the cell it sits in,
    shuffle the list of cells with Fisher–Yates, then send each gem to the
    cell at its own index of the shuffled list. The random-number source is
    a sequence of draws given by the caller. */
module ShuffleBonusItem {
  import opened Board
  import opened FisherYates
  import opened Reassignment

  /** Step 1: walk the board's cells, in the dictionary's unspecified order,
      and list each occupied, movable cell with the gem it holds. */
  method CollectMovableGems(board: Board) returns (gems: seq<Gem>, positions: seq<Coord>)
    ensures |gems| == |positions| && Distinct(positions)
    ensures forall i :: 0 <= i < |positions| ==>
      positions[i] in board.cellContent && board.cellContent[positions[i]].containingGem == gems[i]
    ensures forall p :: p in positions <==> board.Eligible(p)
    ensures |positions| == |board.EligiblePositions()|
  {
    gems, positions := [], [];
    var remaining := board.cellContent.Keys;
    while remaining != {}
      invariant remaining <= board.cellContent.Keys
      invariant |gems| == |positions| && Distinct(positions)
      invariant forall i :: 0 <= i < |positions| ==>
        positions[i] in board.cellContent && board.cellContent[positions[i]].containingGem == gems[i]
      invariant forall p :: p in positions <==> board.Eligible(p) && p !in remaining
      invariant |positions| == |set p | p in positions|
      decreases remaining
    {
      var position :| position in remaining;
      var cell := board.cellContent[position];
      if cell.containingGem != null && cell.canBeMoved {
        assert (set p | p in positions + [position]) == (set p | p in positions) + {position};
        gems := gems + [cell.containingGem];
        positions := positions + [position];
      }
      remaining := remaining - {position};
    }
    assert (set p | p in positions) == board.EligiblePositions();
  }

  /** Step 3: Fisher–Yates on the list of positions, in place. The k-th call
      of the random-number source returns draws[k]. */
  method ShufflePositions(positions: array<Coord>, draws: seq<int>)
    requires ValidDraws(positions.Length, draws)
    modifies positions
    ensures positions[..] == Shuffled(old(positions[..]), draws)
  {
    var n := positions.Length;
    ghost var goal := Shuffled(positions[..], draws);
    ghost var rest := draws;
    ghost var cur := positions[..];
    var k := 0;
    var i := n - 1;
    if n > 0 {
      assert ShuffleDown(cur, i, rest) == goal;
    }
    while i > 0
      invariant -1 <= i < n && 0 <= k <= |draws|
      invariant n > 0 ==> 0 <= i && k == n - 1 - i && rest == draws[k..]
      invariant positions[..] == cur
      invariant n > 0 ==> DrawsFrom(i, rest)
      invariant n > 0 ==> ShuffleDown(cur, i, rest) == goal
      invariant n == 0 ==> i == -1 && cur == goal
    {
      var randomIndex := draws[k];
      assert randomIndex == rest[0];
      var temp := positions[i];
      positions[i] := positions[randomIndex];
      positions[randomIndex] := temp;
      ShuffleDownAfterSwap(cur, positions[..], i, rest);
      assert ShuffleDown(positions[..], i - 1, rest[1..]) == ShuffleDown(cur, i, rest);
      assert ShuffleDown(cur, i, rest) == goal;
      cur := positions[..];
      rest := rest[1..];
      k := k + 1;
      i := i - 1;
    }
  }

  /** The grid positions the gems record. */
  ghost function Positions(gems: seq<Gem>): (r: seq<Coord>)
    reads gems
    ensures |r| == |gems| && forall k :: 0 <= k < |gems| ==> r[k] == gems[k].currentIndex
  {
    seq(|gems|, k requires 0 <= k < |gems| reads gems => gems[k].currentIndex)
  }

  /** On a consistent board, distinct cells hold distinct gems, each records
      its own cell, and no other cell holds one of them. */
  lemma {:induction false} OriginsHoldDistinctGems(board: Board, gems: seq<Gem>, origins: seq<Coord>)
    requires board.Valid() && |gems| == |origins| && Distinct(origins)
    requires forall i :: 0 <= i < |origins| ==> origins[i] in board.cellContent && board.cellContent[origins[i]].containingGem == gems[i]
    ensures Distinct(gems) && Positions(gems) == origins
    ensures forall p, k :: p in board.cellContent && p !in origins && 0 <= k < |gems| ==> board.Occupancy()[p] != gems[k]
  {
    forall i | 0 <= i < |gems| ensures gems[i].currentIndex == origins[i] {
      assert board.cellContent[origins[i]].containingGem == gems[i];
    }
    forall p, k | p in board.cellContent && p !in origins && 0 <= k < |gems| ensures board.Occupancy()[p] != gems[k] {
      var g := board.cellContent[p].containingGem;
      if g != null {
        assert g.currentIndex == p && gems[k].currentIndex == origins[k];
      }
    }
  }

  /** The gems are told apart by their index in the list. This states that
      they are distinct one gem at a time, which keeps the solver from
      comparing every pair of gems. */
  ghost predicate IndexedBy(gems: seq<Gem>, index: map<Gem, nat>) {
    forall k :: 0 <= k < |gems| ==> gems[k] in index && index[gems[k]] == k
  }

  lemma {:induction false} GemIndex(gems: seq<Gem>) returns (index: map<Gem, nat>)
    requires Distinct(gems)
    ensures IndexedBy(gems, index)
    decreases |gems|
  {
    if gems == [] {
      index := map[];
    } else {
      var rest := GemIndex(gems[1..]);
      index := (map g | g in rest :: rest[g] + 1)[gems[0] := 0];
      forall k | 0 < k < |gems| ensures gems[k] in index && index[gems[k]] == k {
        assert gems[k] == gems[1..][k - 1] && gems[k] != gems[0];
      }
    }
  }

  /** After a reassignment whose occupancy has the holders HoldersAre
      describes, every held gem records the cell that holds it. */
  lemma {:induction false} HoldersKnowTheirCell(board: Board, gems: seq<Gem>, positions: seq<Coord>, origins: seq<Coord>, occ0: map<Coord, Gem?>)
    requires board.OneCellPerCoord() && |gems| == |positions| && Positions(gems) == positions
    requires HoldersAre(board.Occupancy(), occ0, gems, origins, positions)
    requires forall p :: p in occ0 && p !in origins && occ0[p] != null ==> occ0[p].currentIndex == p
    ensures board.Valid()
  {
    var r := board.Occupancy();
    forall p | p in board.cellContent && board.cellContent[p].containingGem != null
      ensures board.cellContent[p].containingGem.currentIndex == p
    {
      var g := board.cellContent[p].containingGem;
      assert g == r[p];
      if p in origins {
        var j := IndexOf(positions, p);
        assert g == gems[j] && Positions(gems)[j] == p;
      }
    }
  }

  /** The positions the gems record part-way through a reassignment loop:
      the first i gems are at their targets, the rest still at their origins. */
  ghost function Spliced(targets: seq<Coord>, origins: seq<Coord>, i: nat): (r: seq<Coord>)
    requires |targets| == |origins| && i <= |origins|
    ensures |r| == |origins|
    ensures forall k :: 0 <= k < |r| ==> r[k] == if k < i then targets[k] else origins[k]
  {
    seq(|origins|, k requires 0 <= k < |origins| => if k < i then targets[k] else origins[k])
  }

  /** Moving the next gem to its target extends the done prefix. */
  lemma {:induction false} AdvanceSplice(targets: seq<Coord>, origins: seq<Coord>, i: nat)
    requires |targets| == |origins| && i < |origins|
    ensures Spliced(targets, origins, i)[i := targets[i]] == Spliced(targets, origins, i + 1)
  {
  }

  /** Before the loop every gem is at its origin; after it, at its target. */
  lemma {:induction false} SplicedEnds(targets: seq<Coord>, origins: seq<Coord>)
    requires |targets| == |origins|
    ensures Spliced(targets, origins, 0) == origins && Spliced(targets, origins, |origins|) == targets
  {
  }

  /** Source line 52: empty the cell the gem records. No gem moves. */
  method ClearCellOf(board: Board, gems: seq<Gem>, i: nat)
    requires board.OneCellPerCoord() && i < |gems|
    requires gems[i].currentIndex in board.cellContent
    modifies board.cellContent.Values
    ensures board.cellContent == old(board.cellContent)
    ensures board.Occupancy() == old(board.Occupancy())[gems[i].currentIndex := null]
    ensures board.Movability() == old(board.Movability())
    ensures Positions(gems) == old(Positions(gems))
  {
    board.SetContainingGem(gems[i].currentIndex, null);
  }

  /** Source lines 55 and 58: put the gem into the cell at newPosition and
      move it there. */
  method PlaceGem(board: Board, gems: seq<Gem>, ghost index: map<Gem, nat>, i: nat, newPosition: Coord)
    requires IndexedBy(gems, index)
    requires board.OneCellPerCoord() && i < |gems|
    requires newPosition in board.cellContent
    modifies board.cellContent.Values, gems[i]
    ensures board.cellContent == old(board.cellContent)
    ensures board.Occupancy() == old(board.Occupancy())[newPosition := gems[i]]
    ensures board.Movability() == old(board.Movability())
    ensures Positions(gems) == old(Positions(gems))[i := newPosition]
  {
    var gem := gems[i];
    ghost var before := Positions(gems);
    board.SetContainingGem(newPosition, gem);
    assert Positions(gems) == before;
    assert gem as object !in board.cellContent.Values && gem as object != board;
    ghost var occ := board.Occupancy();
    gem.MoveTo(newPosition);
    assert board.Occupancy() == occ;
    assert forall k :: 0 <= k < |gems| && k != i ==> gems[k] != gem;
  }

  /** One iteration of the source's reassignment loop (lines 48-59). */
  method MoveGem(board: Board, gems: seq<Gem>, ghost index: map<Gem, nat>, i: nat, newPosition: Coord)
    requires IndexedBy(gems, index)
    requires board.OneCellPerCoord() && i < |gems|
    requires gems[i].currentIndex in board.cellContent && newPosition in board.cellContent
    modifies board.cellContent.Values, gems[i]
    ensures board.cellContent == old(board.cellContent)
    ensures board.Occupancy() == old(board.Occupancy())[old(gems[i].currentIndex) := null][newPosition := gems[i]]
    ensures board.Movability() == old(board.Movability())
    ensures Positions(gems) == old(Positions(gems))[i := newPosition]
  {
    ClearCellOf(board, gems, i);
    PlaceGem(board, gems, index, i, newPosition);
  }

  /** The loop of step 4 as the source writes it: for each gem in turn, clear
      the cell the gem records, put the gem into its target cell and move it
      there. Gems outside the list stay where they are. */
  method MoveGemsInOnePass(board: Board, gems: seq<Gem>, ghost index: map<Gem, nat>, positions: seq<Coord>, ghost origins: seq<Coord>)
    requires IndexedBy(gems, index)
    requires board.OneCellPerCoord() && |gems| == |origins| == |positions|
    requires forall k :: 0 <= k < |origins| ==> origins[k] in board.cellContent && positions[k] in board.cellContent
    requires Positions(gems) == origins
    modifies board.cellContent.Values, gems
    ensures board.cellContent == old(board.cellContent) && board.OneCellPerCoord()
    ensures board.Occupancy() == OnePass(old(board.Occupancy()), gems, origins, positions)
    ensures Positions(gems) == positions
    ensures board.Movability() == old(board.Movability())
    ensures forall g: Gem | old(allocated(g)) && g !in gems :: g.currentIndex == old(g.currentIndex)
  {
    ghost var occ: map<Coord, Gem?> := board.Occupancy();
    ghost var final := OnePassFrom(occ, gems, origins, positions, 0);
    SplicedEnds(positions, origins);
    for i := 0 to |gems|
      invariant board.cellContent == old(board.cellContent) && board.OneCellPerCoord()
      invariant Positions(gems) == Spliced(positions, origins, i)
      invariant board.Occupancy() == occ && occ.Keys == board.cellContent.Keys
      invariant board.Movability() == old(board.Movability())
      invariant OnePassFrom(occ, gems, origins, positions, i) == final
    {
      MoveGem(board, gems, index, i, positions[i]);
      AdvanceSplice(positions, origins, i);
      occ := occ[origins[i] := null][positions[i] := gems[i]];
    }
    OnePassFromIsOnePass(old(board.Occupancy()), gems, origins, positions, 0);
    assert gems[0..] == gems && origins[0..] == origins && positions[0..] == positions;
  }

  /** Step 4 as the source writes it, on a consistent board whose listed
      cells hold the listed gems. The outcome is the last-write-wins
      occupancy of Reassignment.OnePass, not that every target holds its
      gem; the board stays consistent. */
  method ReassignInOnePass(board: Board, gems: seq<Gem>, positions: seq<Coord>, ghost origins: seq<Coord>)
    requires board.Valid()
    requires |gems| == |origins| && Permutes(positions, origins)
    requires forall i :: 0 <= i < |origins| ==> origins[i] in board.cellContent && board.cellContent[origins[i]].containingGem == gems[i]
    modifies board.cellContent.Values, gems
    ensures forall j :: 0 <= j < |positions| ==> positions[j] in board.cellContent
    ensures board.Occupancy() == OnePass(old(board.Occupancy()), gems, origins, positions)
    ensures Positions(gems) == positions
    ensures board.Movability() == old(board.Movability())
    ensures forall g: Gem | old(allocated(g)) && g !in gems :: g.currentIndex == old(g.currentIndex)
    ensures board.Valid()
  {
    ghost var occ0: map<Coord, Gem?> := board.Occupancy();
    OnePassOnPermutation(occ0, gems, origins, positions);
    OriginsHoldDistinctGems(board, gems, origins);
    ghost var index := GemIndex(gems);
    MoveGemsInOnePass(board, gems, index, positions, origins);
    forall p | p in occ0 && p !in origins && occ0[p] != null
      ensures occ0[p].currentIndex == p
    {
      var g := occ0[p];
      assert old(g.currentIndex) == p;
      assert g !in gems by {
        forall k | 0 <= k < |gems| ensures g != gems[k] {
        }
      }
    }
    OnePassHolders(occ0, gems, origins, positions);
    HoldersKnowTheirCell(board, gems, positions, origins, occ0);
  }

  /** The first loop of the intended reassignment: empty every gem's cell. */
  method ClearOrigins(board: Board, gems: seq<Gem>, ghost origins: seq<Coord>)
    requires board.OneCellPerCoord() && |gems| == |origins|
    requires forall k :: 0 <= k < |origins| ==> origins[k] in board.cellContent
    requires Positions(gems) == origins
    modifies board.cellContent.Values
    ensures board.cellContent == old(board.cellContent) && board.OneCellPerCoord()
    ensures board.Occupancy() == ClearAll(old(board.Occupancy()), origins)
    ensures Positions(gems) == origins
    ensures board.Movability() == old(board.Movability())
    ensures forall g: Gem | old(allocated(g)) :: g.currentIndex == old(g.currentIndex)
  {
    ghost var occ: map<Coord, Gem?> := board.Occupancy();
    ghost var cleared := ClearAll(occ, origins);
    for i := 0 to |gems|
      invariant board.cellContent == old(board.cellContent) && board.OneCellPerCoord()
      invariant Positions(gems) == origins
      invariant board.Occupancy() == occ && occ.Keys == board.cellContent.Keys
      invariant board.Movability() == old(board.Movability())
      invariant ClearAll(occ, origins[i..]) == cleared
    {
      ClearCellOf(board, gems, i);
      ClearAllStep(occ, origins, i);
      occ := occ[origins[i] := null];
    }
    assert origins[|gems|..] == [];
  }

  /** The second loop of the intended reassignment: fill every target cell
      and move its gem there. */
  method FillTargets(board: Board, gems: seq<Gem>, ghost index: map<Gem, nat>, positions: seq<Coord>, ghost origins: seq<Coord>)
    requires IndexedBy(gems, index)
    requires board.OneCellPerCoord() && |gems| == |origins| == |positions|
    requires forall k :: 0 <= k < |positions| ==> positions[k] in board.cellContent
    requires Positions(gems) == origins
    modifies board.cellContent.Values, gems
    ensures board.cellContent == old(board.cellContent) && board.OneCellPerCoord()
    ensures board.Occupancy() == FillAll(old(board.Occupancy()), gems, positions)
    ensures Positions(gems) == positions
    ensures board.Movability() == old(board.Movability())
    ensures forall g: Gem | old(allocated(g)) && g !in gems :: g.currentIndex == old(g.currentIndex)
  {
    ghost var occ: map<Coord, Gem?> := board.Occupancy();
    ghost var final := FillFrom(occ, gems, positions, 0);
    SplicedEnds(positions, origins);
    for i := 0 to |gems|
      invariant board.cellContent == old(board.cellContent) && board.OneCellPerCoord()
      invariant Positions(gems) == Spliced(positions, origins, i)
      invariant board.Occupancy() == occ && occ.Keys == board.cellContent.Keys
      invariant board.Movability() == old(board.Movability())
      invariant FillFrom(occ, gems, positions, i) == final
    {
      PlaceGem(board, gems, index, i, positions[i]);
      AdvanceSplice(positions, origins, i);
      occ := occ[positions[i] := gems[i]];
    }
    FillFromIsFillAll(old(board.Occupancy()), gems, positions, 0);
    assert gems[0..] == gems && positions[0..] == positions;
  }

  /** The two loops of the intended reassignment, one after the other. */
  method MoveGemsInTwoPhases(board: Board, gems: seq<Gem>, ghost index: map<Gem, nat>, positions: seq<Coord>, ghost origins: seq<Coord>)
    requires IndexedBy(gems, index)
    requires board.OneCellPerCoord() && |gems| == |origins| == |positions|
    requires forall k :: 0 <= k < |origins| ==> origins[k] in board.cellContent && positions[k] in board.cellContent
    requires Positions(gems) == origins
    modifies board.cellContent.Values, gems
    ensures board.cellContent == old(board.cellContent) && board.OneCellPerCoord()
    ensures board.Occupancy() == TwoPhases(old(board.Occupancy()), gems, origins, positions)
    ensures Positions(gems) == positions
    ensures board.Movability() == old(board.Movability())
    ensures forall g: Gem | old(allocated(g)) && g !in gems :: g.currentIndex == old(g.currentIndex)
  {
    ClearOrigins(board, gems, origins);
    FillTargets(board, gems, index, positions, origins);
  }

  /** Step 4 as the design intends it: no clear can undo a write, so every
      target cell ends up holding the gem sent there, and the board stays
      consistent. */
  method ReassignInTwoPhases(board: Board, gems: seq<Gem>, positions: seq<Coord>, ghost origins: seq<Coord>)
    requires board.Valid()
    requires |gems| == |origins| && Permutes(positions, origins)
    requires forall i :: 0 <= i < |origins| ==> origins[i] in board.cellContent && board.cellContent[origins[i]].containingGem == gems[i]
    modifies board.cellContent.Values, gems
    ensures forall j :: 0 <= j < |positions| ==> positions[j] in board.cellContent
    ensures board.Occupancy() == TwoPhases(old(board.Occupancy()), gems, origins, positions)
    ensures forall j :: 0 <= j < |positions| ==> board.cellContent[positions[j]].containingGem == gems[j]
    ensures Positions(gems) == positions
    ensures board.Movability() == old(board.Movability())
    ensures forall g: Gem | old(allocated(g)) && g !in gems :: g.currentIndex == old(g.currentIndex)
    ensures board.Valid()
  {
    ghost var occ0: map<Coord, Gem?> := board.Occupancy();
    TwoPhasesKeepsEveryGem(occ0, gems, origins, positions);
    OriginsHoldDistinctGems(board, gems, origins);
    ghost var index := GemIndex(gems);
    MoveGemsInTwoPhases(board, gems, index, positions, origins);
    forall p | p in occ0 && p !in origins && occ0[p] != null
      ensures occ0[p].currentIndex == p
    {
      var g := occ0[p];
      assert old(g.currentIndex) == p;
      assert g !in gems by {
        forall k | 0 <= k < |gems| ensures g != gems[k] {
        }
      }
    }
    TwoPhasesHolders(occ0, gems, origins, positions);
    HoldersKnowTheirCell(board, gems, positions, origins, occ0);
  }

  /** Step 3 on a copy of the collected list, held in an array while the
      shuffle works on it in place. */
  method ShuffledList(positions: seq<Coord>, draws: seq<int>) returns (shuffled: seq<Coord>)
    requires ValidDraws(|positions|, draws)
    ensures shuffled == Shuffled(positions, draws)
  {
    var list := new Coord[|positions|](k requires 0 <= k < |positions| => positions[k]);
    assert list[..] == positions;
    ShufflePositions(list, draws);
    shuffled := list[..];
  }

  /** Steps 3 and 4 on the collected gems and positions. */
  method ShuffleAndReassign(board: Board, gems: seq<Gem>, positions: seq<Coord>, draws: seq<int>) returns (ghost targets: seq<Coord>)
    requires board.Valid()
    requires |gems| == |positions| && Distinct(positions) && ValidDraws(|positions|, draws)
    requires forall i :: 0 <= i < |positions| ==> positions[i] in board.cellContent && board.cellContent[positions[i]].containingGem == gems[i]
    modifies board.cellContent.Values, gems
    ensures targets == Shuffled(positions, draws)
    ensures forall j :: 0 <= j < |targets| ==> targets[j] in board.cellContent
    ensures board.Occupancy() == OnePass(old(board.Occupancy()), gems, positions, targets)
    ensures Positions(gems) == targets
    ensures board.Movability() == old(board.Movability())
    ensures forall g: Gem | old(allocated(g)) && g !in gems :: g.currentIndex == old(g.currentIndex)
    ensures board.Valid()
  {
    var shuffled := ShuffledList(positions, draws);
    assert unchanged(board) && unchanged(board.cellContent.Values);
    assert board.Occupancy() == old(board.Occupancy()) && board.Movability() == old(board.Movability());
    ShuffledKeepsDistinct(positions, draws);
    ReassignInOnePass(board, gems, shuffled, positions);
    targets := shuffled;
  }

  /** The power-up as a whole. gems and origins are the list collected in
      step 1, targets the same positions after the shuffle of step 3. With
      fewer than two movable gems nothing changes; otherwise the board ends
      as the one-pass reassignment of step 4 leaves it. */
  method Use(board: Board, draws: seq<int>) returns (ghost gems: seq<Gem>, ghost origins: seq<Coord>, ghost targets: seq<Coord>)
    requires board.Valid()
    requires ValidDraws(|board.EligiblePositions()|, draws)
    modifies board.cellContent.Values, board.Occupants()
    ensures |gems| == |origins| == old(|board.EligiblePositions()|) && Distinct(origins)
    ensures forall p :: p in origins <==> old(board.Eligible(p))
    ensures forall i :: 0 <= i < |origins| ==> origins[i] in old(board.cellContent) && old(board.Occupancy())[origins[i]] == gems[i]
    ensures targets == Shuffled(origins, draws)
    ensures forall j :: 0 <= j < |targets| ==> targets[j] in old(board.cellContent)
    ensures |origins| < 2 ==> unchanged(board.cellContent.Values) && unchanged(old(board.Occupants()))
    ensures |origins| < 2 ==> board.Occupancy() == old(board.Occupancy())
    ensures forall g: Gem | g in old(board.Occupants()) && g !in gems :: g.currentIndex == old(g.currentIndex)
    ensures |origins| >= 2 ==> board.Occupancy() == OnePass(old(board.Occupancy()), gems, origins, targets)
    ensures Positions(gems) == targets
    ensures board.Movability() == old(board.Movability())
    ensures board.Valid()
  {
    var allGems, allPositions := CollectMovableGems(board);
    assert unchanged(board) && unchanged(board.cellContent.Values);
    assert board.Occupancy() == old(board.Occupancy()) && board.Movability() == old(board.Movability());
    gems, origins, targets := allGems, allPositions, allPositions;
    OriginsHoldDistinctGems(board, allGems, allPositions);
    if |allGems| < 2 {
      return;
    }
    assert forall i :: 0 <= i < |allGems| ==> allGems[i] in board.Occupants();
    targets := ShuffleAndReassign(board, allGems, allPositions, draws);
  }

  /** End to end: after a shuffle of the movable gems, every one of them sits
      in the cell the shuffle assigned it exactly when every draw picked its
      own step's index, so that no gem moved at all. */
  lemma {:induction false} UseKeepsEveryGemIffNothingMoves(occ: map<Coord, Gem?>, gems: seq<Gem>, origins: seq<Coord>, draws: seq<int>)
    requires |gems| == |origins| && Distinct(origins) && ValidDraws(|origins|, draws)
    requires forall k :: 0 <= k < |origins| ==> origins[k] in occ
    ensures forall k :: 0 <= k < |origins| ==> Shuffled(origins, draws)[k] in occ
    ensures (forall j :: 0 <= j < |origins| ==> OnePass(occ, gems, origins, Shuffled(origins, draws))[Shuffled(origins, draws)[j]] == gems[j]) <==> draws == SelfDraws(DrawCount(|origins|))
  {
    var targets := Shuffled(origins, draws);
    ShuffledKeepsDistinct(origins, draws);
    EveryTargetHoldsItsGemIffIdentity(occ, gems, origins, targets);
    ShuffledIsIdentityIff(origins, draws);
  }
}
