/*
 * The Monte Carlo tree search of src/mcts.rs, in its integer parts: the
 * node arena, expansion, child selection, the selection walk, the random
 * playout, backpropagation and the final most-visited choice.
 *
 * The arena is a vector of nodes that only ever grows; a parent names its
 * children by the half-open index range (start, end) they occupy in it.
 * Random draws are nondeterministic choices within the bounds the source
 * gives them.
 */
module Mcts {
  import opened Uttt

  datatype Node = Node(side: Side, nodeMove: Move, wins: nat, visits: nat, children: Option<(nat, nat)>) {
    /** The walk's `is_leaf`: no child range, or an empty one. */
    predicate IsLeaf(): (leaf: bool)
      ensures children.Some? && children.value.0 < children.value.1 ==> !leaf
      ensures children.None? || children.value.0 == children.value.1 ==> leaf
    {
      match children
      case None => true
      case Some(range) => range.1 - range.0 == 0
    }

    /**
     * select: the offset within the child range of the first unvisited
     * child, if there is one; otherwise an absolute index drawn from the
     * range with the UCT weights, and a panic when `WeightedIndex::new`
     * rejects those weights.
     */
    method Select(tree: Tree) returns (r: Result<nat>)
      requires tree.Valid() && children.Some?
      requires children.value.0 <= children.value.1 <= |tree.nodes|
      ensures r.Panic? <==> DrawFails(tree.nodes, children.value.0, children.value.1, visits)
      ensures r.Panic? ==> r.crash == SelectDrawFailed
      ensures r.Ok? ==> SelectOutcome(tree.nodes, children.value.0, children.value.1, r.value)
    {
      var start, end := children.value.0, children.value.1;
      var weights: seq<WeightSign> := [];
      var k := 0;
      while k < end - start
        invariant 0 <= k <= end - start && |weights| == k
        invariant forall j :: start <= j < start + k ==> tree.nodes[j].visits > 0
        invariant forall j :: 0 <= j < k ==> weights[j] == UctSign(tree.nodes[start + j].wins, visits)
      {
        var node := tree.nodes[start + k];
        if node.visits == 0 {
          return Ok(k);
        }
        weights := weights + [UctSign(node.wins, visits)];
        k := k + 1;
      }
      RejectsIffDrawFails(tree.nodes, start, end, visits, weights);
      if IndexRejects(weights) {
        return Panic(SelectDrawFailed);
      }
      var d :| 0 <= d < end - start;
      r := Ok(start + d);
    }
  }

  /**
   * uct_policy(wins, visits, parentVisits) for a visited child is
   * wins / visits + 1.4 * sqrt(ln(parentVisits) / visits). Only its class
   * matters to the draw: ln 0 is minus infinity, so with no parent visit
   * the weight is NaN; ln 1 is 0, so with one parent visit it is
   * wins / visits; from two parent visits on the second term is positive.
   */
  datatype WeightSign = NotANumber | Zero | Positive

  function UctSign(wins: nat, parentVisits: nat): (w: WeightSign)
    ensures w == NotANumber <==> parentVisits == 0
    ensures w == Zero <==> parentVisits == 1 && wins == 0
  {
    if parentVisits == 0 then NotANumber
    else if wins > 0 || parentVisits >= 2 then Positive
    else Zero
  }

  /**
   * `WeightedIndex::new` fails with NoItem on no weight, with InvalidWeight
   * on a NaN, and with AllWeightsZero when the (non-negative) weights sum
   * to 0, that is when none is positive.
   */
  predicate IndexRejects(weights: seq<WeightSign>) {
    weights == [] || NotANumber in weights || Positive !in weights
  }

  /**
   * When select panics for the child range [s, e) of a parent with
   * parentVisits visits: every child has been visited and either the range
   * is empty, the parent has no visit, or it has one and no child has won.
   */
  ghost predicate DrawFails(nodes: seq<Node>, s: nat, e: nat, parentVisits: nat)
    requires s <= e <= |nodes|
  {
    && (forall j :: s <= j < e ==> nodes[j].visits > 0)
    && (s == e || parentVisits == 0 || (parentVisits == 1 && forall j :: s <= j < e ==> nodes[j].wins == 0))
  }

  /** The weights of a fully visited range are rejected exactly when DrawFails holds. */
  lemma RejectsIffDrawFails(nodes: seq<Node>, s: nat, e: nat, parentVisits: nat, weights: seq<WeightSign>)
    requires s <= e <= |nodes| && |weights| == e - s
    requires forall j :: s <= j < e ==> nodes[j].visits > 0
    requires forall j :: 0 <= j < |weights| ==> weights[j] == UctSign(nodes[s + j].wins, parentVisits)
    ensures IndexRejects(weights) <==> DrawFails(nodes, s, e, parentVisits)
  {
    if s < e {
      assert weights[0] == UctSign(nodes[s].wins, parentVisits);
      if parentVisits == 1 {
        if Positive in weights {
          var j :| 0 <= j < |weights| && weights[j] == Positive;
          assert nodes[s + j].wins > 0;
        } else {
          forall j | s <= j < e
            ensures nodes[j].wins == 0
          {
            assert weights[j - s] != Positive;
          }
        }
      } else if parentVisits >= 2 {
        assert NotANumber !in weights;
      }
    }
  }

  /**
   * What select may return for the child range [s, e): the offset of the
   * first unvisited child, or else any index of the range.
   */
  ghost predicate SelectOutcome(nodes: seq<Node>, s: nat, e: nat, idx: nat)
    requires s <= e <= |nodes|
  {
    if exists j :: s <= j < e && nodes[j].visits == 0 then
      s + idx < e && nodes[s + idx].visits == 0 && forall j :: s <= j < s + idx ==> nodes[j].visits > 0
    else
      s <= idx < e
  }

  /** Whatever select returns is an index into the arena. */
  lemma SelectInArena(nodes: seq<Node>, s: nat, e: nat, idx: nat)
    requires s <= e <= |nodes| && SelectOutcome(nodes, s, e, idx)
    ensures idx < e && idx < |nodes|
  {}

  /**
   * When the first child is unvisited, select returns offset 0, which the
   * walk then reads as node 0, the root.
   */
  lemma FreshFirstChildSelectsRoot(nodes: seq<Node>, s: nat, e: nat, idx: nat)
    requires s < e <= |nodes| && nodes[s].visits == 0
    ensures SelectOutcome(nodes, s, e, idx) <==> idx == 0
  {}

  /**
   * The arena's shape: a root, and every child range lies after its parent,
   * is non-empty, stays inside the arena and holds nodes of the opposite side.
   */
  ghost predicate WellFormed(nodes: seq<Node>) {
    && |nodes| >= 1
    && forall i :: 0 <= i < |nodes| ==> RangeOk(nodes, i)
  }

  ghost predicate RangeOk(nodes: seq<Node>, i: nat)
    requires i < |nodes|
  {
    match nodes[i].children
    case None => true
    case Some(range) =>
      && i < range.0 < range.1 <= |nodes|
      && forall j :: range.0 <= j < range.1 ==> nodes[j].side == nodes[i].side.Swap()
  }

  /** In a well-formed arena every child range is non-empty, so a leaf is exactly a node without children. */
  lemma LeafIffNoChildren(nodes: seq<Node>, i: nat)
    requires WellFormed(nodes) && i < |nodes|
    ensures nodes[i].IsLeaf() <==> nodes[i].children.None?
  {
    assert RangeOk(nodes, i);
  }

  /** Two arenas that differ only in wins and visits. */
  ghost predicate SameShape(a: seq<Node>, b: seq<Node>) {
    |a| == |b| && forall i :: 0 <= i < |a| ==> a[i].side == b[i].side && a[i].children == b[i].children
  }

  lemma SameShapeWellFormed(a: seq<Node>, b: seq<Node>)
    requires WellFormed(a) && SameShape(a, b)
    ensures WellFormed(b)
  {
    forall i | 0 <= i < |b| ensures RangeOk(b, i) {
      assert RangeOk(a, i);
    }
  }

  class Tree {
    var nodes: seq<Node>

    ghost predicate Valid()
      reads this
    {
      WellFormed(nodes)
    }

    /** `Tree(vec![root])`. */
    constructor (root: Node)
      requires root.children.None?
      ensures Valid() && nodes == [root]
    {
      nodes := [root];
    }

    /** extend_nodes: appends the nodes in order and returns the old and the new length. */
    method ExtendNodes(newNodes: seq<Node>) returns (range: (nat, nat))
      modifies this
      ensures nodes == old(nodes) + newNodes
      ensures range == (|old(nodes)|, |nodes|)
    {
      var slen := |nodes|;
      nodes := nodes + newNodes;
      range := (slen, |nodes|);
    }

    /**
     * expand: one fresh child per legal move of the board, in the order
     * the moves are listed, recorded as the node's child range; nothing at
     * all when there is no legal move.
     */
    method Expand(nodeIdx: nat, board: Board)
      requires Valid() && nodeIdx < |nodes| && board.Valid()
      modifies this
      ensures Valid() && Grows(old(nodes), nodes)
      ensures nodes == Expanded(old(nodes), nodeIdx, board.GetLegalMoves())
    {
      var node := nodes[nodeIdx];
      var legalMoves := board.GetLegalMoves();
      ExpandedShape(nodes, nodeIdx, legalMoves);
      if legalMoves == [] {
        return;
      }
      ghost var before := nodes;
      var extended := ExtendNodes(FreshChildren(node.side.Swap(), legalMoves));
      nodes := nodes[nodeIdx := nodes[nodeIdx].(children := Some(extended))];
      assert nodes == Expanded(before, nodeIdx, legalMoves);
    }

    /**
     * The backpropagation loop: every occurrence of a node on the path adds
     * one visit and, since `toggle` is never cleared, this side's score.
     */
    method Backpropagate(path: seq<nat>, thisSideScore: nat, opponentScore: nat)
      requires Valid() && forall i :: 0 <= i < |path| ==> path[i] < |nodes|
      modifies this
      ensures Valid() && Grows(old(nodes), nodes)
      ensures nodes == BackedUp(old(nodes), path, thisSideScore)
    {
      var toggle := true;
      var n := 0;
      while n < |path|
        invariant 0 <= n <= |path|
        invariant nodes == BackedUp(old(nodes), path[..n], thisSideScore)
      {
        var i := path[n];
        var node := nodes[i];
        nodes := nodes[i := node.(visits := node.visits + 1,
                                  wins := node.wins + if toggle then thisSideScore else opponentScore)];
        assert path[..n + 1] == path[..n] + [i];
        BackedUpSnoc(old(nodes), path[..n], i, thisSideScore);
        n := n + 1;
      }
      assert path[..n] == path;
      BackedUpShape(old(nodes), path, thisSideScore);
    }

    /**
     * The final choice: seeded with node 1, then over the inclusive slice
     * start..=end of the root's range, a node replaces the current choice
     * only with strictly more visits.
     */
    method FinalChoice() returns (r: Result<Move>)
      requires Valid()
      ensures IsFinalChoice(nodes, r)
    {
      if nodes[0].children.None? {
        return Panic(RootNotExpanded);
      }
      var start, end := nodes[0].children.value.0, nodes[0].children.value.1;
      assert RangeOk(nodes, 0);
      if end >= |nodes| {
        return Panic(FinalSliceOutOfRange);
      }
      ghost var cands := Candidates(nodes, start, end);
      var best := nodes[1];
      ghost var bi := 0;
      var j := start;
      while j <= end
        invariant start <= j <= end + 1
        invariant bi <= j - start && FirstMax(cands[..j - start + 1], bi) && best == cands[bi]
      {
        assert cands[..j - start + 2] == cands[..j - start + 1] + [nodes[j]];
        if nodes[j].visits > best.visits {
          best := nodes[j];
          bi := j - start + 1;
        }
        j := j + 1;
      }
      assert cands[..j - start + 1] == cands;
      r := Ok(best.nodeMove);
    }
  }

  /** Why bot_move can stop without a move (each is a panic in the source). */
  datatype Crash =
    | NoLegalMoves           // the playout found no legal move on an undecided board
    | UndecidedAfterRollout  // 81 playout moves left the board undecided
    | LeafNotExpanded        // `children.unwrap()` right after expanding the leaf
    | RootNotExpanded        // `children.unwrap()` on the root in the final choice
    | FinalSliceOutOfRange   // the inclusive slice `start..=end` reaches past the arena
    | SelectDrawFailed       // `WeightedIndex::new(&v).unwrap()` in select
  {
    /** The panics raised inside the search loop. */
    predicate DuringSearch() {
      this == NoLegalMoves || this == UndecidedAfterRollout || this == LeafNotExpanded || this == SelectDrawFailed
    }
  }

  datatype Result<T> = Ok(value: T) | Panic(crash: Crash)

  /** The nodes the final scan compares: node 1, then nodes start..=end. */
  ghost function Candidates(nodes: seq<Node>, start: nat, end: nat): (c: seq<Node>)
    requires start <= end < |nodes| && 1 < |nodes|
    ensures |c| == end - start + 2 && c[0] == nodes[1]
    ensures forall k :: start <= k <= end ==> c[k - start + 1] == nodes[k]
  {
    [nodes[1]] + nodes[start..end + 1]
  }

  /** c[i] has the most visits, and every earlier candidate strictly fewer. */
  ghost predicate FirstMax(c: seq<Node>, i: int) {
    && 0 <= i < |c|
    && (forall j :: 0 <= j < |c| ==> c[j].visits <= c[i].visits)
    && (forall j :: 0 <= j < i ==> c[j].visits < c[i].visits)
  }

  /** There is only one first maximum, so FirstMax pins the final choice down. */
  lemma FirstMaxUnique(c: seq<Node>, i: int, k: int)
    requires FirstMax(c, i) && FirstMax(c, k)
    ensures i == k
  {
    assert c[i].visits == c[k].visits;
  }

  /** The outcome of the final choice on an arena. */
  ghost predicate IsFinalChoice(nodes: seq<Node>, r: Result<Move>)
    requires WellFormed(nodes)
  {
    match nodes[0].children
    case None => r == Panic(RootNotExpanded)
    case Some(range) =>
      if range.1 >= |nodes| then r == Panic(FinalSliceOutOfRange)
      else
        assert RangeOk(nodes, 0);
        exists i :: FirstMax(Candidates(nodes, range.0, range.1), i) &&
                    r == Ok(Candidates(nodes, range.0, range.1)[i].nodeMove)
  }

  /**
   * The scan compares node end, which lies past the root's children: with
   * a root child range (1, 3), an arena of four nodes and node 3 the most
   * visited, the move chosen is node 3's.
   */
  lemma FinalChoiceCanPickNonChild(nodes: seq<Node>, r: Result<Move>)
    requires WellFormed(nodes) && |nodes| == 4 && nodes[0].children == Some((1, 3))
    requires nodes[1].visits < nodes[3].visits && nodes[2].visits < nodes[3].visits
    requires IsFinalChoice(nodes, r)
    ensures r == Ok(nodes[3].nodeMove)
  {
    var c := Candidates(nodes, 1, 3);
    var i :| FirstMax(c, i) && r == Ok(c[i].nodeMove);
    assert FirstMax(c, 3);
    FirstMaxUnique(c, i, 3);
  }

  /**
   * Scores of a finished playout from the point of view of a side: 1 for a
   * draw, 2 for a win of that side, 0 otherwise.
   */
  function Score(outcome: Outcome, side: Side): (r: nat)
    ensures r <= 2
  {
    if outcome == Outcome.Draw then 1 else if outcome.Matches(side) then 2 else 0
  }

  /**
   * this_side_score and opponent_score of a decided game add up to 2: a
   * draw gives both 1, a win gives the winner 2 and the loser 0.
   */
  lemma ScoresShareTwo(outcome: Outcome, side: Side)
    requires outcome != Outcome.Undecided
    ensures Score(outcome, side) + Score(outcome, side.Swap()) == 2
    ensures Score(outcome, side) == 1 <==> outcome == Outcome.Draw
    ensures Score(outcome, side) == 2 <==> outcome.Matches(side)
  {}

  /**
   * One step of the selection walk: from a node that is not a leaf to what
   * select returned for it, which means the draw did not fail.
   */
  ghost predicate Step(nodes: seq<Node>, from: nat, to: nat) {
    && from < |nodes| && nodes[from].children.Some? && !nodes[from].IsLeaf()
    && var range := nodes[from].children.value;
       && range.0 <= range.1 <= |nodes|
       && !DrawFails(nodes, range.0, range.1, nodes[from].visits)
       && SelectOutcome(nodes, range.0, range.1, to)
  }

  /** Node i is not a leaf, and select panics on it. */
  ghost predicate SelectFails(nodes: seq<Node>, i: nat) {
    && i < |nodes| && nodes[i].children.Some? && !nodes[i].IsLeaf()
    && var range := nodes[i].children.value;
       range.0 <= range.1 <= |nodes| && DrawFails(nodes, range.0, range.1, nodes[i].visits)
  }

  /**
   * A selection walk over the arena: at most 81 steps from the root, and
   * every step places the move of the node it leaves (the parent's move,
   * not the chosen child's).
   */
  ghost predicate IsWalk(nodes: seq<Node>, path: seq<nat>, played: seq<Move>) {
    && 1 <= |path| <= 82 && path[0] == 0 && |played| == |path| - 1
    && (forall i :: 0 <= i < |path| ==> path[i] < |nodes|)
    && forall i :: 0 <= i < |path| - 1 ==>
         Step(nodes, path[i], path[i + 1]) && played[i] == nodes[path[i]].nodeMove
  }

  /** A step from the walk's last node extends the walk by the node it reaches and the move it leaves. */
  lemma WalkSnoc(nodes: seq<Node>, path: seq<nat>, played: seq<Move>, next: nat)
    requires IsWalk(nodes, path, played) && |path| < 82
    requires Step(nodes, path[|path| - 1], next) && next < |nodes|
    ensures IsWalk(nodes, path + [next], played + [nodes[path[|path| - 1]].nodeMove])
  {
    var longer, morePlayed := path + [next], played + [nodes[path[|path| - 1]].nodeMove];
    forall i | 0 <= i < |longer| - 1
      ensures Step(nodes, longer[i], longer[i + 1]) && morePlayed[i] == nodes[longer[i]].nodeMove
    {
      if i < |path| - 1 {
        assert longer[i] == path[i] && longer[i + 1] == path[i + 1] && morePlayed[i] == played[i];
      }
    }
  }

  /**
   * The selection loop of bot_move: walk from the root, stopping at the
   * first leaf or after 81 steps; a panic of select ends the walk at the
   * node it was raised on.
   */
  method Walk(tree: Tree, board: Board) returns (path: seq<nat>, ghost played: seq<Move>, crash: Option<Crash>)
    requires tree.Valid() && board.Valid()
    modifies board
    ensures board.Valid() && IsWalk(tree.nodes, path, played)
    ensures board.Pos() == PlayAll(old(board.Pos()), played)
    ensures crash.None? && |path| < 82 ==> tree.nodes[path[|path| - 1]].IsLeaf()
    ensures crash.Some? ==> crash == Some(SelectDrawFailed) && SelectFails(tree.nodes, path[|path| - 1])
  {
    ghost var start := board.Pos();
    path := [0];
    played := [];
    var n := 0;
    while n < 81
      invariant 0 <= n <= 81 && |path| == n + 1
      invariant IsWalk(tree.nodes, path, played)
      invariant board.Valid() && board.Pos() == PlayAll(start, played)
    {
      var last := path[|path| - 1];
      var lastNode := tree.nodes[last];
      if lastNode.IsLeaf() {
        break;
      }
      assert RangeOk(tree.nodes, last);
      var next := lastNode.Select(tree);
      if next.Panic? {
        return path, played, Some(next.crash);
      }
      SelectInArena(tree.nodes, lastNode.children.value.0, lastNode.children.value.1, next.value);
      WalkSnoc(tree.nodes, path, played, next.value);
      PlayAllSnoc(start, played, lastNode.nodeMove);
      path := path + [next.value];
      played := played + [lastNode.nodeMove];
      board.Place(lastNode.nodeMove);
      n := n + 1;
    }
    crash := None;
  }

  /** get_legal_moves lists m on position p, and p is undecided. */
  ghost predicate ListedOn(p: Position, m: Move)
    requires p.Shaped()
  {
    BoardOutcome(p) == Outcome.Undecided && m in LegalMoves(p)
  }

  /**
   * Every move of a playout from start was listed by get_legal_moves on
   * the board it was placed on, and that board was undecided.
   */
  ghost predicate ListedPlayout(start: Position, moves: seq<Move>)
    requires start.Shaped()
  {
    forall i :: 0 <= i < |moves| ==> ListedOn(PlayAll(start, moves[..i]), moves[i])
  }

  /** A property of every move and the moves before it survives appending a move that has it. */
  lemma PrefixPropertySnoc(moves: seq<Move>, m: Move, ok: (seq<Move>, Move) -> bool)
    requires forall i :: 0 <= i < |moves| ==> ok(moves[..i], moves[i])
    requires ok(moves, m)
    ensures forall i :: 0 <= i < |moves| + 1 ==> ok((moves + [m])[..i], (moves + [m])[i])
  {
    var longer := moves + [m];
    forall i | 0 <= i < |longer|
      ensures ok(longer[..i], longer[i])
    {
      if i < |moves| {
        assert longer[..i] == moves[..i];
      } else {
        assert longer[..i] == moves;
      }
    }
  }

  lemma ListedPlayoutSnoc(start: Position, moves: seq<Move>, m: Move)
    requires start.Shaped() && ListedPlayout(start, moves) && ListedOn(PlayAll(start, moves), m)
    ensures ListedPlayout(start, moves + [m])
  {
    var ok := (before: seq<Move>, x: Move) => start.Shaped() && ListedOn(PlayAll(start, before), x);
    PrefixPropertySnoc(moves, m, ok);
  }

  /**
   * The board p a playout from start reaches with moves: every move listed
   * where it was placed and, when start was consistent, p consistent with
   * one free tile fewer per move.
   */
  ghost predicate InPlayout(start: Position, moves: seq<Move>, p: Position, consistent: bool)
    requires start.Shaped()
  {
    && p == PlayAll(start, moves) && ListedPlayout(start, moves)
    && (consistent ==> p.InRange() && p.Consistent() && p.Free() + |moves| == start.Free())
  }

  /** One playout step: placing a listed move extends the playout by it. */
  lemma PlayoutStep(board: Board, start: Position, moves: seq<Move>, m: Move, consistent: bool)
    requires board.Valid() && start.Shaped() && InPlayout(start, moves, board.Pos(), consistent)
    requires board.CheckBoardOutcome() == Outcome.Undecided && m in board.GetLegalMoves()
    ensures InPlayout(start, moves + [m], Placed(board.Pos(), m), consistent)
  {
    var p := board.Pos();
    if consistent {
      ListedIffLegal(board, m);
    }
    PlaceKeepsInvariants(p, m);
    PlayAllSnoc(start, moves, m);
    ListedPlayoutSnoc(start, moves, m);
  }

  /**
   * The random playout: up to 81 times, stop once the board is decided,
   * otherwise place some listed move; a board still undecided afterwards,
   * or one with no move to list, is a panic. On a consistent board neither
   * panic can happen: every move takes a free tile and at most 81 are free.
   */
  method Rollout(board: Board, ghost consistent: bool) returns (r: Result<Outcome>, ghost moves: seq<Move>)
    requires board.Valid()
    requires consistent ==> board.Pos().InRange() && board.Pos().Consistent()
    modifies board
    ensures board.Valid() && |moves| <= 81
    ensures board.Pos() == PlayAll(old(board.Pos()), moves)
    ensures ListedPlayout(old(board.Pos()), moves)
    ensures r.Ok? ==> r.value == board.CheckBoardOutcome() && r.value != Outcome.Undecided
    ensures r.Panic? ==> r.crash == NoLegalMoves || r.crash == UndecidedAfterRollout
    ensures r == Panic(NoLegalMoves) ==>
      BoardOutcome(board.Pos()) == Outcome.Undecided && LegalMoves(board.Pos()) == []
    ensures r == Panic(UndecidedAfterRollout) ==> |moves| == 81 && BoardOutcome(board.Pos()) == Outcome.Undecided
    ensures consistent ==>
      && r.Ok? && board.Pos().InRange() && board.Pos().Consistent()
      && board.Pos().Free() + |moves| == old(board.Pos().Free())
  {
    ghost var start := board.Pos();
    FreeCellsBound(start.x, start.o);
    moves := [];
    var n := 0;
    while n < 81
      invariant 0 <= n <= 81 && |moves| == n
      invariant board.Valid() && InPlayout(start, moves, board.Pos(), consistent)
    {
      var outcome := board.CheckBoardOutcome();
      if outcome != Outcome.Undecided {
        break;
      }
      var legalMoves := board.GetLegalMoves();
      assert consistent ==> legalMoves != [] by {
        if consistent {
          MovesExistWhileUndecided(board);
        }
      }
      if legalMoves == [] {
        return Panic(NoLegalMoves), moves;
      }
      var k :| 0 <= k < |legalMoves|;
      var m := legalMoves[k];
      PlayoutStep(board, start, moves, m, consistent);
      board.Place(m);
      moves := moves + [m];
      n := n + 1;
    }
    assert consistent ==> board.CheckBoardOutcome() != Outcome.Undecided by {
      if consistent {
        FullBoardIsDecided(board);
      }
    }
    var outcome := board.CheckBoardOutcome();
    if outcome == Outcome.Undecided {
      return Panic(UndecidedAfterRollout), moves;
    }
    r := Ok(outcome);
  }

  /**
   * A playout from q with moves ends as a round sees it: every move listed
   * where it was placed, at most 81 of them, and then either the decided
   * outcome, or an undecided board listing no move (NoLegalMoves), or an
   * undecided board after 81 moves (UndecidedAfterRollout).
   */
  ghost predicate EndsPlayout(q: Position, moves: seq<Move>, crash: Option<Crash>, outcome: Outcome)
    requires q.Shaped()
  {
    && |moves| <= 81 && ListedPlayout(q, moves)
    && var p := PlayAll(q, moves);
       match crash
       case None => outcome != Outcome.Undecided && outcome == BoardOutcome(p)
       case Some(c) =>
         && BoardOutcome(p) == Outcome.Undecided
         && ((c == NoLegalMoves && LegalMoves(p) == []) || (c == UndecidedAfterRollout && |moves| == 81))
  }

  /**
   * The arena a after backing a score up a path, entry by entry: each entry
   * gives its node one more visit and the score (an entry outside the
   * arena changes nothing).
   */
  ghost function BackedUp(a: seq<Node>, path: seq<nat>, score: nat): (b: seq<Node>)
    ensures |b| == |a|
    decreases |path|
  {
    if path == [] then a
    else
      var b := BackedUp(a, path[..|path| - 1], score);
      var i := path[|path| - 1];
      if i < |b| then b[i := b[i].(visits := b[i].visits + 1, wins := b[i].wins + score)] else b
  }

  /** The wins a node gains from a score backed up through it `times` times. */
  function Gain(score: nat, times: nat): nat {
    score * times
  }

  /** One more occurrence on the path adds one more score. */
  lemma OneMoreShare(score: nat, k: nat)
    ensures Gain(score, k + 1) == Gain(score, k) + score
  {}

  /** Backing up one more path entry i updates node i alone. */
  lemma BackedUpSnoc(a: seq<Node>, path: seq<nat>, i: nat, score: nat)
    requires i < |a|
    ensures var b := BackedUp(a, path, score);
      BackedUp(a, path + [i], score) == b[i := b[i].(visits := b[i].visits + 1, wins := b[i].wins + score)]
  {
    assert (path + [i])[..|path|] == path;
  }

  /**
   * After backing up, every node has gained one visit and the score once
   * per occurrence on the path, and is otherwise unchanged.
   */
  lemma {:induction false} BackedUpCounts(a: seq<Node>, path: seq<nat>, score: nat)
    ensures var b := BackedUp(a, path, score);
      forall j :: 0 <= j < |a| ==>
        b[j] == a[j].(visits := a[j].visits + multiset(path)[j], wins := a[j].wins + Gain(score, multiset(path)[j]))
    decreases |path|
  {
    if path != [] {
      var before: seq<nat> := path[..|path| - 1];
      var i: nat := path[|path| - 1];
      assert path == before + [i];
      BackedUpCounts(a, before, score);
      var b := BackedUp(a, path, score);
      forall j | 0 <= j < |a|
        ensures b[j] == a[j].(visits := a[j].visits + multiset(path)[j], wins := a[j].wins + Gain(score, multiset(path)[j]))
      {
        var k := multiset(before)[j];
        if j == i {
          assert multiset(path)[j] == k + 1;
          OneMoreShare(score, k);
        } else {
          assert multiset(path)[j] == k;
        }
      }
    }
  }

  /** Backing up keeps the arena's shape. */
  lemma BackedUpShape(a: seq<Node>, path: seq<nat>, score: nat)
    requires WellFormed(a)
    ensures WellFormed(BackedUp(a, path, score)) && Grows(a, BackedUp(a, path, score))
  {
    BackedUpCounts(a, path, score);
    SameShapeWellFormed(a, BackedUp(a, path, score));
  }

  /**
   * The arena b extends a: it is at least as long, and every node of a keeps
   * its side, its move and, once it has one, a child range.
   */
  ghost predicate Grows(a: seq<Node>, b: seq<Node>) {
    && |a| <= |b|
    && forall i :: 0 <= i < |a| ==>
         && b[i].side == a[i].side && b[i].nodeMove == a[i].nodeMove
         && (a[i].children.Some? ==> b[i].children.Some?)
  }

  lemma GrowsTransitive(a: seq<Node>, b: seq<Node>, c: seq<Node>)
    requires Grows(a, b) && Grows(b, c)
    ensures Grows(a, c)
  {}

  /**
   * The arena after expanding node idx with the moves legal: unchanged when
   * there is none; otherwise one fresh node of the opposite side per move,
   * appended in order, and their range recorded on node idx.
   */
  ghost function Expanded(a: seq<Node>, idx: nat, legal: seq<Move>): (b: seq<Node>)
    requires idx < |a|
    ensures |b| == |a| + |legal|
  {
    if legal == [] then a
    else (a + FreshChildren(a[idx].side.Swap(), legal))[idx := a[idx].(children := Some((|a|, |a| + |legal|)))]
  }

  /** One unvisited leaf of the given side per move, in order. */
  function FreshChildren(side: Side, legal: seq<Move>): (c: seq<Node>)
    ensures |c| == |legal|
    ensures forall k :: 0 <= k < |legal| ==> c[k] == Node(side, legal[k], 0, 0, None)
  {
    seq(|legal|, k requires 0 <= k < |legal| => Node(side, legal[k], 0, 0, None))
  }

  /**
   * Expanding keeps the arena well formed and only grows it: the other old
   * nodes stay as they were, the expanded one changes its child range
   * alone, and the new nodes are the moves' fresh children.
   */
  lemma ExpandedShape(a: seq<Node>, idx: nat, legal: seq<Move>)
    requires WellFormed(a) && idx < |a|
    ensures var b := Expanded(a, idx, legal);
      && WellFormed(b) && Grows(a, b)
      && (forall i :: 0 <= i < |a| && i != idx ==> b[i] == a[i])
      && b[idx] == a[idx].(children := b[idx].children)
      && (legal == [] ==> b[idx] == a[idx])
      && (legal != [] ==> b[idx].children == Some((|a|, |b|)))
      && forall k :: 0 <= k < |legal| ==> b[|a| + k] == Node(a[idx].side.Swap(), legal[k], 0, 0, None)
  {
    var b := Expanded(a, idx, legal);
    if legal != [] {
      forall i | 0 <= i < |b|
        ensures RangeOk(b, i)
      {
        if i < |a| && i != idx {
          assert RangeOk(a, i);
        }
      }
    }
  }

  /**
   * Every child range's first node has been visited. A round visits the
   * first child of the range it creates, so this holds of the arena after
   * every completed round.
   */
  ghost predicate FirstChildrenVisited(nodes: seq<Node>) {
    forall i :: 0 <= i < |nodes| && nodes[i].children.Some? && nodes[i].children.value.0 < |nodes| ==>
      nodes[nodes[i].children.value.0].visits > 0
  }

  /** Once every first child has been visited, a walk step never reads an offset as the root. */
  lemma StepAvoidsRoot(nodes: seq<Node>, from: nat, to: nat)
    requires WellFormed(nodes) && FirstChildrenVisited(nodes) && Step(nodes, from, to)
    ensures to != 0
  {
    assert RangeOk(nodes, from);
  }

  /**
   * The arena b after a round on arena a whose walk took path and reached
   * position p: a itself when p is decided; otherwise a with its leaf
   * expanded by p's legal moves and, unless that left the leaf without
   * children or the playout panicked, the playout's score for the leaf's
   * side backed up the path extended by the leaf's first child (which
   * playout gave the crash or the outcome is PlayoutOf's part).
   */
  ghost predicate RoundEffect(a: seq<Node>, b: seq<Node>, path: seq<nat>, p: Position, crash: Option<Crash>, outcome: Outcome)
    requires p.Shaped() && 1 <= |path| && path[|path| - 1] < |a|
  {
    if BoardOutcome(p) != Outcome.Undecided then crash.None? && b == a
    else
      var leaf := path[|path| - 1];
      var e := Expanded(a, leaf, LegalMoves(p));
      if e[leaf].children.None? then crash == Some(LeafNotExpanded) && b == e
      else if crash.Some? then (crash.value == NoLegalMoves || crash.value == UndecidedAfterRollout) && b == e
      else outcome != Outcome.Undecided && b == BackedUp(e, path + [e[leaf].children.value.0], Score(outcome, e[leaf].side))
  }

  /**
   * Where a round on arena a reaches the undecided position p at the end
   * of path and the expansion gives the leaf children, its crash or outcome
   * is the end of a playout from p with the leaf's own move placed.
   */
  ghost predicate PlayoutOf(a: seq<Node>, path: seq<nat>, p: Position, crash: Option<Crash>, outcome: Outcome)
    requires p.Shaped() && 1 <= |path| && path[|path| - 1] < |a|
  {
    var leaf := path[|path| - 1];
    var e := Expanded(a, leaf, LegalMoves(p));
    BoardOutcome(p) == Outcome.Undecided && e[leaf].children.Some? ==>
      exists moves :: EndsPlayout(Placed(p, e[leaf].nodeMove), moves, crash, outcome)
  }

  /** A round of the search together with the playout that gave its crash or outcome. */
  ghost predicate PlayedRound(a: seq<Node>, b: seq<Node>, start: Position, path: seq<nat>, played: seq<Move>,
                              crash: Option<Crash>, outcome: Outcome)
    requires start.Shaped()
  {
    && Round(a, b, start, path, played, crash, outcome)
    && (crash != Some(SelectDrawFailed) ==> PlayoutOf(a, path, PlayAll(start, played), crash, outcome))
  }

  /**
   * One round of search from the board position start takes arena a to b:
   * a walk, and then either a select panic that leaves a as it was, or the
   * effect of the round on the position the walk reached.
   */
  ghost predicate Round(a: seq<Node>, b: seq<Node>, start: Position, path: seq<nat>, played: seq<Move>,
                        crash: Option<Crash>, outcome: Outcome)
    requires start.Shaped()
  {
    && IsWalk(a, path, played)
    && if crash == Some(SelectDrawFailed) then b == a && SelectFails(a, path[|path| - 1])
       else
         && (|path| < 82 ==> a[path[|path| - 1]].IsLeaf())
         && RoundEffect(a, b, path, PlayAll(start, played), crash, outcome)
  }

  /** A walk ending in a select panic is a round that changes nothing. */
  lemma SelectPanicRound(a: seq<Node>, start: Position, path: seq<nat>, played: seq<Move>, outcome: Outcome)
    requires start.Shaped() && IsWalk(a, path, played) && SelectFails(a, path[|path| - 1])
    ensures Round(a, a, start, path, played, Some(SelectDrawFailed), outcome)
  {}

  /** A walk to a leaf or 81 steps deep, followed by the effect on the position it reached, is a round. */
  lemma WalkThenEffect(a: seq<Node>, b: seq<Node>, start: Position, path: seq<nat>, played: seq<Move>,
                       crash: Option<Crash>, outcome: Outcome)
    requires start.Shaped() && IsWalk(a, path, played) && (|path| < 82 ==> a[path[|path| - 1]].IsLeaf())
    requires RoundEffect(a, b, path, PlayAll(start, played), crash, outcome)
    ensures Round(a, b, start, path, played, crash, outcome)
  {}

  /**
   * One round of the search loop of bot_move on a copy of the board:
   * selection, and unless the copy is then decided, expansion of the leaf,
   * the playout and backpropagation. A panic inside the round is returned
   * as its crash; on a consistent board only select can panic.
   */
  method SearchRound(tree: Tree, board: Board, ghost consistent: bool)
    returns (crash: Option<Crash>, ghost path: seq<nat>, ghost played: seq<Move>, ghost outcome: Outcome)
    requires tree.Valid() && board.Valid()
    requires consistent ==> board.Pos().InRange() && board.Pos().Consistent()
    modifies tree
    ensures tree.Valid() && Grows(old(tree.nodes), tree.nodes)
    ensures crash.Some? ==> crash.value.DuringSearch()
    ensures Round(old(tree.nodes), tree.nodes, old(board.Pos()), path, played, crash, outcome)
    ensures crash != Some(SelectDrawFailed) ==>
      PlayoutOf(old(tree.nodes), path, PlayAll(old(board.Pos()), played), crash, outcome)
    ensures consistent ==> crash.None? || crash == Some(SelectDrawFailed)
  {
    ghost var start := board.Pos();
    var newBoard := new Board.Copy(board);
    outcome := Outcome.Undecided;

    // selection
    var walkPath, walkPlayed, walkCrash := Walk(tree, newBoard);
    path, played := walkPath, walkPlayed;
    if walkCrash.Some? {
      SelectPanicRound(tree.nodes, start, path, played, outcome);
      return walkCrash, path, played, outcome;
    }
    if newBoard.CheckBoardOutcome() != Outcome.Undecided {
      WalkThenEffect(tree.nodes, tree.nodes, start, path, played, None, outcome);
      return None, path, played, outcome;
    }

    if consistent {
      PlayAllKeepsInvariants(start, played);
    }
    ghost var walked := tree.nodes;
    crash, outcome := ExpandAndPlay(tree, newBoard, walkPath, consistent);
    WalkThenEffect(walked, tree.nodes, start, path, played, crash, outcome);
  }

  /** The expanded leaf has children once there are moves, and its first child lies in the arena. */
  lemma ExpandedLeaf(a: seq<Node>, idx: nat, legal: seq<Move>)
    requires WellFormed(a) && idx < |a|
    ensures var e := Expanded(a, idx, legal);
      && |a| <= |e|
      && (legal != [] ==> e[idx].children.Some?)
      && (e[idx].children.Some? ==> e[idx].children.value.0 < |e|)
  {
    ExpandedShape(a, idx, legal);
    assert RangeOk(Expanded(a, idx, legal), idx);
  }

  /** A path inside the arena, extended by a node inside the grown arena, stays inside it. */
  lemma ExtendedPathInRange(path: seq<nat>, next: nat, before: nat, after: nat)
    requires before <= after && next < after
    requires forall i :: 0 <= i < |path| ==> path[i] < before
    ensures forall i :: 0 <= i < |path + [next]| ==> (path + [next])[i] < after
  {}

  /** A playout from the walked position with the leaf's move placed, ending in crash or outcome, is the round's playout. */
  lemma PlayoutWitness(a: seq<Node>, path: seq<nat>, p: Position, crash: Option<Crash>, outcome: Outcome, moves: seq<Move>)
    requires p.Shaped() && 1 <= |path| && path[|path| - 1] < |a|
    requires EndsPlayout(Placed(p, Expanded(a, path[|path| - 1], LegalMoves(p))[path[|path| - 1]].nodeMove), moves, crash, outcome)
    ensures PlayoutOf(a, path, p, crash, outcome)
  {}

  /** The effect of a round on an undecided position whose leaf the expansion gave children. */
  lemma PlayoutEffect(a: seq<Node>, b: seq<Node>, path: seq<nat>, p: Position, crash: Option<Crash>, outcome: Outcome)
    requires p.Shaped() && 1 <= |path| && path[|path| - 1] < |a| && BoardOutcome(p) == Outcome.Undecided
    requires var leaf := path[|path| - 1];
      var e := Expanded(a, leaf, LegalMoves(p));
      && e[leaf].children.Some?
      && (crash.Some? ==> (crash.value == NoLegalMoves || crash.value == UndecidedAfterRollout) && b == e)
      && (crash.None? ==>
            outcome != Outcome.Undecided && b == BackedUp(e, path + [e[leaf].children.value.0], Score(outcome, e[leaf].side)))
    ensures RoundEffect(a, b, path, p, crash, outcome)
  {}

  /**
   * Expansion of the last node of the path on an undecided board, then the
   * rest of the round. `children.unwrap()` on the leaf panics when it got no
   * children; on a consistent board it always gets some.
   */
  method ExpandAndPlay(tree: Tree, board: Board, path: seq<nat>, ghost consistent: bool) returns (crash: Option<Crash>, outcome: Outcome)
    requires tree.Valid() && board.Valid() && board.CheckBoardOutcome() == Outcome.Undecided
    requires consistent ==> board.Pos().InRange() && board.Pos().Consistent()
    requires |path| >= 1 && forall i :: 0 <= i < |path| ==> path[i] < |tree.nodes|
    modifies tree, board
    ensures tree.Valid() && Grows(old(tree.nodes), tree.nodes)
    ensures RoundEffect(old(tree.nodes), tree.nodes, path, old(board.Pos()), crash, outcome)
    ensures PlayoutOf(old(tree.nodes), path, old(board.Pos()), crash, outcome)
    ensures consistent ==> crash.None?
  {
    ghost var start := board.Pos();
    var leafIdx := path[|path| - 1];
    ghost var walked := tree.nodes;
    ghost var legal := LegalMoves(start);
    assert consistent ==> legal != [] by {
      if consistent {
        MovesExistWhileUndecided(board);
      }
    }
    tree.Expand(leafIdx, board);
    ghost var expanded := tree.nodes;
    assert expanded == Expanded(walked, leafIdx, legal);
    ExpandedLeaf(walked, leafIdx, legal);
    outcome := Outcome.Undecided;
    if tree.nodes[leafIdx].children.None? {
      assert RoundEffect(walked, expanded, path, start, Some(LeafNotExpanded), outcome);
      return Some(LeafNotExpanded), outcome;
    }
    var firstChild: nat := tree.nodes[leafIdx].children.value.0;
    var fullPath: seq<nat> := path + [firstChild];
    ExtendedPathInRange(path, firstChild, |walked|, |expanded|);
    assert board.Pos() == start;
    var r, moves := PlayoutAndBackup(tree, board, fullPath, leafIdx, consistent);
    GrowsTransitive(walked, expanded, tree.nodes);
    if r.Panic? {
      crash := Some(r.crash);
    } else {
      crash, outcome := None, r.value;
    }
    PlayoutWitness(walked, path, start, crash, outcome, moves);
    PlayoutEffect(walked, tree.nodes, path, start, crash, outcome);
  }

  /**
   * The rest of a round: place the leaf's move, play out, and back the
   * score of the leaf's side up the path. Only the playout can panic, and
   * not on a consistent board. The moves of the playout are returned as a
   * ghost.
   */
  method PlayoutAndBackup(tree: Tree, board: Board, path: seq<nat>, leafIdx: nat, ghost consistent: bool)
    returns (r: Result<Outcome>, ghost moves: seq<Move>)
    requires tree.Valid() && board.Valid() && leafIdx < |tree.nodes|
    requires consistent ==> board.Pos().InRange() && board.Pos().Consistent()
    requires forall i :: 0 <= i < |path| ==> path[i] < |tree.nodes|
    modifies tree, board
    ensures tree.Valid() && board.Valid() && Grows(old(tree.nodes), tree.nodes)
    ensures r.Panic? ==> (r.crash == NoLegalMoves || r.crash == UndecidedAfterRollout) && tree.nodes == old(tree.nodes)
    ensures r.Ok? ==>
      && r.value != Outcome.Undecided && r.value == board.CheckBoardOutcome()
      && tree.nodes == BackedUp(old(tree.nodes), path, Score(r.value, old(tree.nodes)[leafIdx].side))
    ensures var q := Placed(old(board.Pos()), old(tree.nodes)[leafIdx].nodeMove);
      && board.Pos() == PlayAll(q, moves)
      && if r.Ok? then EndsPlayout(q, moves, None, r.value) else EndsPlayout(q, moves, Some(r.crash), Outcome.Undecided)
    ensures consistent ==> r.Ok?
  {
    ghost var beforeLeaf := board.Pos();
    var leaf := tree.nodes[leafIdx];
    board.Place(leaf.nodeMove);
    PlaceKeepsInvariants(beforeLeaf, leaf.nodeMove);

    // playout
    var outcome;
    outcome, moves := Rollout(board, consistent);
    if outcome.Panic? {
      return outcome, moves;
    }

    // backpropagation
    var thisSideScore := Score(outcome.value, leaf.side);
    var opponentScore := Score(outcome.value, leaf.side.Swap());
    tree.Backpropagate(path, thisSideScore, opponentScore);
    r := outcome;
  }

  /**
   * A round that does not panic on a position the walk left undecided
   * expanded the leaf and backed a decided playout's score up the path
   * extended by the leaf's first child.
   */
  lemma RoundCompleted(a: seq<Node>, b: seq<Node>, start: Position, path: seq<nat>, played: seq<Move>, outcome: Outcome)
    requires start.Shaped() && Round(a, b, start, path, played, None, outcome)
    requires BoardOutcome(PlayAll(start, played)) == Outcome.Undecided
    ensures var leaf := path[|path| - 1];
      var e := Expanded(a, leaf, LegalMoves(PlayAll(start, played)));
      && e[leaf].children.Some? && outcome != Outcome.Undecided
      && b == BackedUp(e, path + [e[leaf].children.value.0], Score(outcome, e[leaf].side))
  {}

  /** A walk on an arena whose root is a leaf stops at the root. */
  lemma LeafRootWalk(a: seq<Node>, path: seq<nat>, played: seq<Move>)
    requires IsWalk(a, path, played) && a[0].IsLeaf()
    ensures path == [0] && played == []
  {
    assert |path| > 1 ==> Step(a, path[0], path[1]);
    assert path == [path[0]];
  }

  /**
   * A round on an arena whose root is a leaf walks no step, cannot panic
   * in select, and changes nothing when the board is already decided.
   */
  lemma LeafRootRound(a: seq<Node>, b: seq<Node>, start: Position, path: seq<nat>, played: seq<Move>,
                      crash: Option<Crash>, outcome: Outcome)
    requires WellFormed(a) && a[0].IsLeaf() && start.Shaped()
    requires Round(a, b, start, path, played, crash, outcome)
    ensures path == [0] && crash != Some(SelectDrawFailed)
    ensures BoardOutcome(start) != Outcome.Undecided ==> crash.None? && b == a
  {
    LeafRootWalk(a, path, played);
    assert PlayAll(start, played) == start;
  }

  /**
   * The root has been expanded with the moves legal: its range is
   * (1, 1 + |legal|) and node 1 + k carries move k.
   */
  ghost predicate RootExpandedWith(nodes: seq<Node>, legal: seq<Move>) {
    && 1 + |legal| <= |nodes|
    && nodes[0].children.Some? && nodes[0].children.value.0 == 1 && nodes[0].children.value.1 == 1 + |legal|
    && forall k :: 0 <= k < |legal| ==> nodes[1 + k].nodeMove == legal[k]
  }

  /** The first round on a fresh root walks [0], expands it, and backs up [0, 1]. */
  lemma FirstRoundBackedUp(root: Node, b: seq<Node>, start: Position, path: seq<nat>, played: seq<Move>, outcome: Outcome)
    requires root.children.None? && start.Shaped()
    requires BoardOutcome(start) == Outcome.Undecided && LegalMoves(start) != []
    requires Round([root], b, start, path, played, None, outcome)
    ensures var e := Expanded([root], 0, LegalMoves(start));
      b == BackedUp(e, [0, 1], Score(outcome, e[0].side))
  {
    assert path == [0] && PlayAll(start, played) == start by {
      LeafRootRound([root], b, start, path, played, None, outcome);
    }
    var e := Expanded([root], 0, LegalMoves(start));
    assert b == BackedUp(e, path + [e[0].children.value.0], Score(outcome, e[0].side)) by {
      RoundCompleted([root], b, start, path, played, outcome);
    }
    assert e[0].children.value.0 == 1 by {
      ExpandedShape([root], 0, LegalMoves(start));
    }
    assert path + [e[0].children.value.0] == [0, 1];
  }

  /**
   * The first round on a fresh root of an undecided board with legal moves
   * that does not panic expands the root with those moves.
   */
  lemma FirstRoundExpandsRoot(root: Node, b: seq<Node>, start: Position, path: seq<nat>, played: seq<Move>, outcome: Outcome)
    requires root.children.None? && start.Shaped()
    requires BoardOutcome(start) == Outcome.Undecided && LegalMoves(start) != []
    requires Round([root], b, start, path, played, None, outcome)
    ensures RootExpandedWith(b, LegalMoves(start))
  {
    FirstRoundBackedUp(root, b, start, path, played, outcome);
    var e := Expanded([root], 0, LegalMoves(start));
    BackedUpRootExpanded(root, LegalMoves(start), Score(outcome, e[0].side));
  }

  /** Backing up [0, 1] after expanding a fresh root keeps the root's range and its children's moves. */
  lemma BackedUpRootExpanded(root: Node, legal: seq<Move>, score: nat)
    requires root.children.None? && legal != []
    ensures RootExpandedWith(BackedUp(Expanded([root], 0, legal), [0, 1], score), legal)
  {
    var e := Expanded([root], 0, legal);
    var b := BackedUp(e, [0, 1], score);
    assert |b| == |e| && forall j :: 0 <= j < |e| ==> b[j].nodeMove == e[j].nodeMove && b[j].children == e[j].children by {
      BackedUpCounts(e, [0, 1], score);
    }
    ExpandedShape([root], 0, legal);
    forall k | 0 <= k < |legal|
      ensures b[1 + k].nodeMove == legal[k]
    {
      assert e[1 + k] == Node(root.side.Swap(), legal[k], 0, 0, None);
    }
  }

  /** Every child range's first node has been visited, except perhaps node x. */
  ghost predicate FirstChildrenVisitedExcept(nodes: seq<Node>, x: nat) {
    forall i :: 0 <= i < |nodes| && nodes[i].children.Some? && nodes[i].children.value.0 < |nodes| ==>
      nodes[nodes[i].children.value.0].visits > 0 || nodes[i].children.value.0 == x
  }

  /** Expanding leaves the new range's first node, node |a|, as the only unvisited first child. */
  lemma ExpandedFirstChildren(a: seq<Node>, leaf: nat, legal: seq<Move>)
    requires WellFormed(a) && FirstChildrenVisited(a) && leaf < |a|
    ensures FirstChildrenVisitedExcept(Expanded(a, leaf, legal), |a|)
  {
    var e := Expanded(a, leaf, legal);
    ExpandedShape(a, leaf, legal);
    forall i | 0 <= i < |e| && e[i].children.Some? && e[i].children.value.0 < |e|
      ensures e[e[i].children.value.0].visits > 0 || e[i].children.value.0 == |a|
    {
      if i < |a| && !(i == leaf && legal != []) {
        assert a[i].children == e[i].children;
        assert RangeOk(a, i);
      }
    }
  }

  /** Backing up a path through node x visits x. */
  lemma BackedUpFirstChildren(e: seq<Node>, path: seq<nat>, score: nat, x: nat)
    requires FirstChildrenVisitedExcept(e, x) && x in path
    ensures FirstChildrenVisited(BackedUp(e, path, score))
  {
    var b := BackedUp(e, path, score);
    BackedUpCounts(e, path, score);
    forall i | 0 <= i < |b| && b[i].children.Some? && b[i].children.value.0 < |b|
      ensures b[b[i].children.value.0].visits > 0
    {
      assert e[i].children == b[i].children;
    }
  }

  /** A round that does not panic keeps every first child visited. */
  lemma RoundKeepsFirstChildrenVisited(a: seq<Node>, b: seq<Node>, start: Position, path: seq<nat>, played: seq<Move>,
                                       outcome: Outcome)
    requires WellFormed(a) && FirstChildrenVisited(a) && start.Shaped()
    requires Round(a, b, start, path, played, None, outcome)
    ensures FirstChildrenVisited(b)
  {
    var p := PlayAll(start, played);
    if BoardOutcome(p) == Outcome.Undecided {
      var leaf := path[|path| - 1];
      var legal := LegalMoves(p);
      var e := Expanded(a, leaf, legal);
      RoundCompleted(a, b, start, path, played, outcome);
      var first := e[leaf].children.value.0;
      var fullPath := path + [first];
      assert fullPath[|path|] == first;
      if legal == [] {
        assert e == a;
      } else {
        ExpandedShape(a, leaf, legal);
        ExpandedFirstChildren(a, leaf, legal);
      }
      BackedUpFirstChildren(e, fullPath, Score(outcome, e[leaf].side), first);
    }
  }

  /**
   * Once the root has children and every first child has been visited, a
   * round leaves the root's child range as it is: the walk leaves the root
   * at once and never returns to it.
   */
  lemma RoundKeepsRoot(a: seq<Node>, b: seq<Node>, start: Position, path: seq<nat>, played: seq<Move>,
                       crash: Option<Crash>, outcome: Outcome)
    requires WellFormed(a) && FirstChildrenVisited(a) && !a[0].IsLeaf() && start.Shaped()
    requires Round(a, b, start, path, played, crash, outcome)
    ensures b[0].children == a[0].children
  {
    if crash != Some(SelectDrawFailed) {
      var leaf := path[|path| - 1];
      assert |path| >= 2;
      StepAvoidsRoot(a, path[|path| - 2], leaf);
      var p := PlayAll(start, played);
      if BoardOutcome(p) == Outcome.Undecided {
        var e := Expanded(a, leaf, LegalMoves(p));
        ExpandedShape(a, leaf, LegalMoves(p));
        if e[leaf].children.Some? {
          BackedUpCounts(e, path + [e[leaf].children.value.0], Score(outcome, e[leaf].side));
        }
      }
    }
  }

  /** A move chosen is one of the moves legal, or the move of node 1 + |legal|. */
  ghost predicate ChosenAmong(nodes: seq<Node>, legal: seq<Move>, r: Result<Move>) {
    r.Ok? ==> r.value in legal || (1 + |legal| < |nodes| && r.value == nodes[1 + |legal|].nodeMove)
  }

  /**
   * With the root expanded by the moves legal, the final choice is one of
   * those moves or the move of node 1 + |legal|, the node just past the
   * root's range that the inclusive scan also compares.
   */
  lemma FinalMoveListed(nodes: seq<Node>, legal: seq<Move>, r: Result<Move>)
    requires WellFormed(nodes) && RootExpandedWith(nodes, legal) && IsFinalChoice(nodes, r)
    ensures ChosenAmong(nodes, legal, r)
  {
    if r.Panic? {
      return;
    }
    assert RangeOk(nodes, 0);
    var c := Candidates(nodes, 1, 1 + |legal|);
    var i :| FirstMax(c, i) && r == Ok(c[i].nodeMove);
    if i == 0 {
      assert c[0] == nodes[1 + 0] && r.value == legal[0];
    } else if i <= |legal| {
      assert c[i] == nodes[1 + (i - 1)] && r.value == legal[i - 1];
    }
  }

  /**
   * With one legal move, the search panics in its second round when the
   * first playout is won by the side to move: the root and node 1 then have
   * one visit each and no win, so every weight of the draw is 0.
   */
  lemma SingleMoveLossPanics(root: Node, b: seq<Node>, start: Position, path: seq<nat>, played: seq<Move>,
                             outcome: Outcome, m: Move)
    requires root.children.None? && root.wins == 0 && root.visits == 0 && start.Shaped()
    requires BoardOutcome(start) == Outcome.Undecided && LegalMoves(start) == [m]
    requires Round([root], b, start, path, played, None, outcome) && outcome.Matches(root.side.Swap())
    ensures SelectFails(b, 0)
  {
    LeafRootRound([root], b, start, path, played, None, outcome);
    assert PlayAll(start, played) == start;
    RoundCompleted([root], b, start, path, played, outcome);
    ExpandedShape([root], 0, [m]);
    var e := Expanded([root], 0, [m]);
    MatchesExactly(outcome, root.side);
    MatchesExactly(outcome, root.side.Swap());
    assert Score(outcome, e[0].side) == 0;
    assert path + [e[0].children.value.0] == [0, 1];
    LostFirstRoundPanics(e);
  }

  /**
   * A root with one fresh child, after a round that backed a score of 0
   * up to both: each has one visit and the child no wins, so select on the
   * root panics.
   */
  lemma LostFirstRoundPanics(e: seq<Node>)
    requires |e| == 2 && e[0].children == Some((1, 2))
    requires e[0].visits == 0 && e[1].visits == 0 && e[1].wins == 0
    ensures SelectFails(BackedUp(e, [0, 1], 0), 0)
  {
    var b := BackedUp(e, [0, 1], 0);
    BackedUpCounts(e, [0, 1], 0);
    assert multiset([0, 1])[0] == 1 && multiset([0, 1])[1] == 1;
    assert b[0].visits == 1 && b[1].visits == 1 && b[1].wins == 0;
  }

  /**
   * The arena between rounds of bot_move, after some rounds from a fresh
   * root: well formed, every first child visited, the root unexpanded
   * while the board is decided and, on a consistent undecided board whose
   * moves are legal, expanded by them from the first round on.
   */
  ghost predicate BetweenRounds(nodes: seq<Node>, root: Node, legal: seq<Move>, rounds: nat, decided: bool, expands: bool) {
    && WellFormed(nodes) && nodes[0].side == root.side && nodes[0].nodeMove == root.nodeMove
    && FirstChildrenVisited(nodes)
    && (rounds == 0 ==> nodes == [root])
    && (decided ==> nodes[0].children.None?)
    && (expands && rounds > 0 ==> RootExpandedWith(nodes, legal))
  }

  /**
   * A round keeps BetweenRounds, panics in select only once the root is
   * expanded, and does nothing at all on a decided board.
   */
  lemma RoundBetweenRounds(a: seq<Node>, b: seq<Node>, start: Position, path: seq<nat>, played: seq<Move>,
                           crash: Option<Crash>, outcome: Outcome, root: Node, legal: seq<Move>, rounds: nat, expands: bool)
    requires start.Shaped() && root.children.None?
    requires BetweenRounds(a, root, legal, rounds, BoardOutcome(start) != Outcome.Undecided, expands)
    requires expands ==> BoardOutcome(start) == Outcome.Undecided && legal == LegalMoves(start) && legal != []
    requires Round(a, b, start, path, played, crash, outcome) && WellFormed(b) && Grows(a, b)
    ensures BoardOutcome(start) != Outcome.Undecided ==> crash.None? && b == a
    ensures crash.None? ==> BetweenRounds(b, root, legal, rounds + 1, BoardOutcome(start) != Outcome.Undecided, expands)
    ensures crash == Some(SelectDrawFailed) && expands ==> RootExpandedWith(b, legal)
  {
    if a[0].IsLeaf() {
      LeafRootRound(a, b, start, path, played, crash, outcome);
    } else {
      RoundKeepsRoot(a, b, start, path, played, crash, outcome);
    }
    if crash.None? {
      RoundKeepsFirstChildrenVisited(a, b, start, path, played, outcome);
      if expands && rounds == 0 {
        FirstRoundExpandsRoot(root, b, start, path, played, outcome);
      }
    }
  }

  /** Some round from the board position start, with its playout, takes arena a to b without a panic. */
  ghost predicate CleanRound(a: seq<Node>, b: seq<Node>, start: Position)
    requires start.Shaped()
  {
    exists path, played, outcome :: PlayedRound(a, b, start, path, played, None, outcome)
  }

  /** Some round from the board position start, with its playout, takes arena a to b and ends in the panic c. */
  ghost predicate CrashedRound(a: seq<Node>, b: seq<Node>, start: Position, c: Crash)
    requires start.Shaped()
  {
    exists path, played, outcome :: PlayedRound(a, b, start, path, played, Some(c), outcome)
  }

  /** Arena i of the sequence comes from arena i - 1 by a round without panic. */
  ghost predicate RoundAt(arenas: seq<seq<Node>>, i: nat, start: Position)
    requires start.Shaped() && 1 <= i < |arenas|
  {
    CleanRound(arenas[i - 1], arenas[i], start)
  }

  /** Each arena of the sequence comes from the one before it by a round without panic. */
  ghost predicate CleanRounds(arenas: seq<seq<Node>>, start: Position)
    requires start.Shaped()
  {
    forall i: nat :: 1 <= i < |arenas| ==> RoundAt(arenas, i, start)
  }

  /** A clean round from the last arena extends the clean rounds; the first arena stays. */
  lemma CleanRoundsSnoc(earlier: seq<seq<Node>>, prev: seq<Node>, b: seq<Node>, start: Position)
    requires start.Shaped() && CleanRounds(earlier + [prev], start) && CleanRound(prev, b, start)
    ensures CleanRounds(earlier + [prev] + [b], start)
    ensures (earlier + [prev] + [b])[0] == (earlier + [prev])[0]
  {
    var arenas := earlier + [prev];
    var longer := arenas + [b];
    assert arenas[|arenas| - 1] == prev;
    forall i: nat | 1 <= i < |longer|
      ensures RoundAt(longer, i, start)
    {
      assert longer[i - 1] == arenas[i - 1];
      if i < |arenas| {
        assert RoundAt(arenas, i, start);
        assert longer[i] == arenas[i];
      } else {
        assert longer[i] == b;
      }
    }
  }

  /** A round ending in a panic after clean rounds from the root alone ends a search history. */
  lemma CrashedHistory(earlier: seq<seq<Node>>, prev: seq<Node>, b: seq<Node>, root: Node, start: Position, c: Crash)
    requires start.Shaped() && |earlier| < 1000 && (earlier + [prev])[0] == [root] && CleanRounds(earlier + [prev], start)
    requires CrashedRound(prev, b, start, c)
    ensures SearchHistory(earlier + [prev] + [b], root, start, Some(c))
  {
    var arenas := earlier + [prev];
    var longer := arenas + [b];
    assert longer[..|longer| - 1] == arenas;
    assert longer[|longer| - 2] == prev && longer[|longer| - 1] == b;
  }

  /** A round without panic is a clean round. */
  lemma CleanRoundOf(a: seq<Node>, b: seq<Node>, start: Position, path: seq<nat>, played: seq<Move>, outcome: Outcome)
    requires start.Shaped() && PlayedRound(a, b, start, path, played, None, outcome)
    ensures CleanRound(a, b, start)
  {}

  /** A round that ends in a panic is a crashed round. */
  lemma CrashedRoundOf(a: seq<Node>, b: seq<Node>, start: Position, path: seq<nat>, played: seq<Move>, c: Crash, outcome: Outcome)
    requires start.Shaped() && PlayedRound(a, b, start, path, played, Some(c), outcome)
    ensures CrashedRound(a, b, start, c)
  {}

  /** 1000 clean rounds from the root alone are a search history without panic. */
  lemma FullHistory(arenas: seq<seq<Node>>, root: Node, start: Position)
    requires start.Shaped() && |arenas| == 1001 && arenas[0] == [root] && CleanRounds(arenas, start)
    ensures SearchHistory(arenas, root, start, None)
  {}

  /**
   * The search after some rounds from start: the arena nodes is between
   * rounds, and the arenas before it, one per round, are its clean history.
   */
  ghost predicate Searched(nodes: seq<Node>, earlier: seq<seq<Node>>, root: Node, start: Position, legal: seq<Move>,
                           decided: bool, expands: bool)
    requires start.Shaped()
  {
    && BetweenRounds(nodes, root, legal, |earlier|, decided, expands)
    && (earlier + [nodes])[0] == [root] && CleanRounds(earlier + [nodes], start)
  }

  /**
   * One more round of the search: without a panic the search goes on from
   * its arena b, and a panic ends the history with b.
   */
  lemma SearchedRound(a: seq<Node>, b: seq<Node>, earlier: seq<seq<Node>>, start: Position, path: seq<nat>, played: seq<Move>,
                      crash: Option<Crash>, outcome: Outcome, root: Node, legal: seq<Move>, expands: bool)
    requires start.Shaped() && root.children.None? && |earlier| < 1000
    requires Searched(a, earlier, root, start, legal, BoardOutcome(start) != Outcome.Undecided, expands)
    requires expands ==> BoardOutcome(start) == Outcome.Undecided && legal == LegalMoves(start) && legal != []
    requires PlayedRound(a, b, start, path, played, crash, outcome) && WellFormed(b) && Grows(a, b)
    ensures BoardOutcome(start) != Outcome.Undecided ==> crash.None? && b == a
    ensures crash.None? ==> Searched(b, earlier + [a], root, start, legal, BoardOutcome(start) != Outcome.Undecided, expands)
    ensures crash.Some? ==> SearchHistory(earlier + [a] + [b], root, start, crash)
    ensures crash == Some(SelectDrawFailed) ==> SelectFails(b, path[|path| - 1])
    ensures crash == Some(SelectDrawFailed) && expands ==> RootExpandedWith(b, legal)
  {
    RoundBetweenRounds(a, b, start, path, played, crash, outcome, root, legal, |earlier|, expands);
    if crash.Some? {
      CrashedRoundOf(a, b, start, path, played, crash.value, outcome);
      CrashedHistory(earlier, a, b, root, start, crash.value);
    } else {
      CleanRoundOf(a, b, start, path, played, outcome);
      CleanRoundsSnoc(earlier, a, b, start);
    }
  }

  /**
   * The arenas of a search from start, the first one the root alone:
   * 1000 rounds without panic, or rounds without panic up to one that
   * ends in the panic crash.
   */
  ghost predicate SearchHistory(arenas: seq<seq<Node>>, root: Node, start: Position, crash: Option<Crash>)
    requires start.Shaped()
  {
    && 1 <= |arenas| <= 1001 && arenas[0] == [root]
    && match crash
       case None => |arenas| == 1001 && CleanRounds(arenas, start)
       case Some(c) =>
         && 2 <= |arenas| && CleanRounds(arenas[..|arenas| - 1], start)
         && CrashedRound(arenas[|arenas| - 2], arenas[|arenas| - 1], start, c)
  }

  /**
   * One pass of the search loop of bot_move from the position start: a
   * round, and the arena it leaves added to the search history. Without a
   * panic the search goes on; a panic ends the history.
   */
  method SearchStep(tree: Tree, board: Board, ghost inv: bool, ghost start: Position, ghost earlier: seq<seq<Node>>, ghost root: Node,
                    ghost legal: seq<Move>, ghost decided: bool, ghost expands: bool)
    returns (crash: Option<Crash>)
    requires board.Valid() && board.Pos() == start && start.Shaped() && root.children.None? && |earlier| < 1000 && tree.Valid()
    requires inv == (start.InRange() && start.Consistent())
    requires decided == (BoardOutcome(start) != Outcome.Undecided)
    requires expands ==> BoardOutcome(start) == Outcome.Undecided && legal == LegalMoves(start) && legal != []
    requires Searched(tree.nodes, earlier, root, start, legal, decided, expands)
    modifies tree
    ensures tree.Valid() && Grows(old(tree.nodes), tree.nodes)
    ensures crash.Some? ==> crash.value.DuringSearch()
    ensures inv ==> crash.None? || crash == Some(SelectDrawFailed)
    ensures decided ==> crash.None? && tree.nodes == old(tree.nodes)
    ensures crash.None? ==> Searched(tree.nodes, earlier + [old(tree.nodes)], root, start, legal, decided, expands)
    ensures crash.Some? ==> SearchHistory(earlier + [old(tree.nodes)] + [tree.nodes], root, start, crash)
    ensures crash == Some(SelectDrawFailed) ==> exists i :: SelectFails(tree.nodes, i)
    ensures crash == Some(SelectDrawFailed) && expands ==> RootExpandedWith(tree.nodes, legal)
  {
    ghost var before := tree.nodes;
    ghost var path, played, outcome;
    crash, path, played, outcome := SearchRound(tree, board, inv);
    SearchedRound(before, tree.nodes, earlier, start, path, played, crash, outcome, root, legal, expands);
  }

  /**
   * The search loop of bot_move: a tree of the root alone, then 1000
   * rounds on copies of the board, the first panic ending the search. The
   * arenas the rounds went through before the final one are returned as a
   * ghost.
   */
  method Search(board: Board, root: Node) returns (tree: Tree, crash: Option<Crash>, ghost earlier: seq<seq<Node>>)
    requires board.Valid() && root.children.None?
    ensures fresh(tree) && tree.Valid() && tree.nodes[0].side == root.side && tree.nodes[0].nodeMove == root.nodeMove
    ensures SearchHistory(earlier + [tree.nodes], root, old(board.Pos()), crash)
    ensures crash.Some? ==> crash.value.DuringSearch()
    ensures crash == Some(SelectDrawFailed) ==> exists i :: SelectFails(tree.nodes, i)
    ensures old(board.Pos()).InRange() && old(board.Pos()).Consistent() ==> crash.None? || crash == Some(SelectDrawFailed)
    ensures BoardOutcome(old(board.Pos())) != Outcome.Undecided ==> crash.None? && tree.nodes[0].children.None?
    ensures old(board.Pos()).InRange() && old(board.Pos()).Consistent() && BoardOutcome(old(board.Pos())) == Outcome.Undecided ==>
      RootExpandedWith(tree.nodes, LegalMoves(old(board.Pos())))
  {
    tree := new Tree(root);
    ghost var start := board.Pos();
    ghost var inv := start.InRange() && start.Consistent();
    ghost var decided := BoardOutcome(start) != Outcome.Undecided;
    ghost var legal := LegalMoves(start);
    ghost var expands := inv && !decided;
    if expands {
      MovesExistWhileUndecided(board);
    }
    earlier := [];
    var round := 0;
    while round < 1000
      invariant 0 <= round <= 1000 && |earlier| == round
      invariant fresh(tree) && tree.Valid() && board.Pos() == start
      invariant Searched(tree.nodes, earlier, root, start, legal, decided, expands)
    {
      ghost var before := tree.nodes;
      var roundCrash := SearchStep(tree, board, inv, start, earlier, root, legal, decided, expands);
      if roundCrash.Some? {
        return tree, roundCrash, earlier + [before];
      }
      earlier := earlier + [before];
      round := round + 1;
    }
    FullHistory(earlier + [tree.nodes], root, start);
    crash := None;
  }

  /**
   * The final choice on the arena a panic-free search left: a decided
   * board leaves the root unexpanded, so bot_move panics; a consistent
   * undecided one leaves the root expanded with the listed moves, so the
   * choice is one of them or the move of the node just past the root's
   * range.
   */
  lemma FinalChoiceAfterSearch(nodes: seq<Node>, p: Position, r: Result<Move>)
    requires WellFormed(nodes) && IsFinalChoice(nodes, r) && p.Shaped()
    requires BoardOutcome(p) != Outcome.Undecided ==> nodes[0].children.None?
    requires p.InRange() && p.Consistent() && BoardOutcome(p) == Outcome.Undecided ==>
      RootExpandedWith(nodes, LegalMoves(p))
    ensures BoardOutcome(p) != Outcome.Undecided ==> r == Panic(RootNotExpanded)
    ensures p.InRange() && p.Consistent() && BoardOutcome(p) == Outcome.Undecided ==>
      r != Panic(RootNotExpanded) && ChosenAmong(nodes, LegalMoves(p), r)
  {
    if p.InRange() && p.Consistent() && BoardOutcome(p) == Outcome.Undecided {
      FinalMoveListed(nodes, LegalMoves(p), r);
    }
  }

  /**
   * bot_move: the search, then the final choice on the arena it built. On
   * a consistent board, select is the only part of the search that can
   * panic; the root stays unexpanded exactly when the board is already
   * decided, and is otherwise expanded by the first round and never again.
   */
  method BotMove(board: Board, lastMove: Move) returns (r: Result<Move>, ghost arena: seq<Node>, ghost arenas: seq<seq<Node>>)
    requires board.Valid()
    ensures SearchHistory(arenas, Node(board.side.Swap(), lastMove, 0, 0, None), board.Pos(),
                          if r.Panic? && r.crash.DuringSearch() then Some(r.crash) else None)
    ensures arena == arenas[|arenas| - 1]
    ensures WellFormed(arena) && arena[0].side == board.side.Swap() && arena[0].nodeMove == lastMove
    ensures (r.Panic? && r.crash.DuringSearch()) || IsFinalChoice(arena, r)
    ensures r == Panic(SelectDrawFailed) ==> exists i :: SelectFails(arena, i)
    ensures board.Pos().InRange() && board.Pos().Consistent() && r.Panic? && r.crash.DuringSearch() ==>
      r.crash == SelectDrawFailed
    ensures BoardOutcome(board.Pos()) != Outcome.Undecided ==> r == Panic(RootNotExpanded)
    ensures board.Pos().InRange() && board.Pos().Consistent() && BoardOutcome(board.Pos()) == Outcome.Undecided ==>
      && RootExpandedWith(arena, LegalMoves(board.Pos()))
      && r != Panic(RootNotExpanded)
      && ChosenAmong(arena, LegalMoves(board.Pos()), r)
  {
    var tree, crash;
    ghost var earlier;
    tree, crash, earlier := Search(board, Node(board.side.Swap(), lastMove, 0, 0, None));
    arena := tree.nodes;
    arenas := earlier + [arena];
    if crash.Some? {
      return Panic(crash.value), arena, arenas;
    }
    r := tree.FinalChoice();
    FinalChoiceAfterSearch(arena, board.Pos(), r);
  }
}
