# Ultimate Tic-Tac-Toe bot: bitboard and tree search, in Dafny

This project models the core of `uttt-bot`, a Rust bot for Ultimate
Tic-Tac-Toe. It has two parts.

- **`board.dfy`, module `Uttt` (src/board.rs).** This is the bitboard. Each of the nine sub-boards has two
  `u16` occupancy masks, one per side; bit `t` stands for tile `t`, and
  both tiles and sub-boards are numbered row-major. The board also keeps the side to move, an optional forced
  sub-board and a cached outcome per sub-board. The model covers:
  - win detection against the eight `WIN_STATES` patterns;
  - sub-board and whole-board outcomes;
  - move legality;
  - the legal-move enumeration in its fixed order;
  - `place`, which applies a move in place under the forced-square rule.

  `Board` is a class with the source's fields, and `place` is a method that
  updates them. Everything else reads the fields as functions. What `place`
  does is stated once on values (`Position`, `Placed`) and proved to be
  what the method does. The lemmas about `Placed` state its effect on masks, cache,
  forced square and side.

- **`mcts.dfy`, module `Mcts` (src/mcts.rs).** This is the Monte Carlo tree search, in its integer parts. The
  arena `Tree` is a growing sequence of `Node`s, and a parent names its children by
  the half-open range `(start, end)` they occupy. The model covers
  `extend_nodes`, `expand`, `select`, and the body of `bot_move`:
  - the selection walk of at most 81 steps;
  - expansion;
  - the playout of at most 81 moves;
  - backpropagation;
  - the final most-visited choice.

  Random draws become nondeterministic choices
  within the bounds the source gives them. The source's panics become
  `Panic(crash)` results.

The model follows the code as written, including these behaviours:

- `select` returns the offset of the first unvisited child within the range
  (src/mcts.rs:73), but otherwise an absolute index (src/mcts.rs:80). The
  walk reads an offset k as node k: an offset k >= 1 sends it to node k,
  which is a child of the root whenever the root has at least k children.
  Offset 0 would send it back to the root (`FreshFirstChildSelectsRoot`),
  but that does not happen in the search. The first child of every range
  is visited in the round that creates it (src/mcts.rs:120), so a walk
  step never reaches node 0 (`StepAvoidsRoot`).
- `select` weighs visited children with `uct_policy`, and
  `WeightedIndex::new(&v).unwrap()` (src/mcts.rs:78) panics when it rejects
  the weights. That happens when every child has been visited and the
  parent has no visit (`ln 0` gives NaN), or the parent has one visit and
  no child has won (every weight is 0). It is reachable: with a single
  legal move, a first round whose playout the side to move wins makes the
  second round panic (`SingleMoveLossPanics`).
- The walk places the move of the node it leaves, not that of the child it
  selects (src/mcts.rs:108-109).
- After expansion the leaf's own `node_move` is placed again
  (src/mcts.rs:121), although the walk has already placed the moves up to
  the leaf's parent. While the walk stays at the root, that is the
  opponent's `last_move`, placed on the board it was already played on
  (`PlayoutOf`, `PlayoutAndBackup`).
- `toggle` is never cleared (src/mcts.rs:164-172). Every node on the path
  therefore gets `this_side_score`, and `opponent_score` is never used.
- The final scan starts from node 1. It then looks at the inclusive slice
  `start..=end` of the root's range (src/mcts.rs:176-183), which includes one node past the
  root's children (`FinalChoiceCanPickNonChild`). The slice panics when
  that node lies past the end of the arena.
- A move can remain legal right after it is played: the forced sub-board
  moves to the tile just played, and the same move may be free there
  (`PlayedMoveMayStayLegal`).

The board invariant `Position.Consistent` holds on the empty board and is kept by
every `place`. It says two things:
- the cached outcomes equal the outcomes recomputed from the masks;
- a forced sub-board is undecided.

With the invariant, both playout panics and the unexpanded-leaf panic
of `bot_move` are unreachable, so the panic in `select` is the only one
left in the search. The reasons:
- an undecided board always has a legal move;
- each move takes a free tile;
- a board without free tiles is decided.

## Model

| member | source | states |
|---|---|---|
| Uttt.Side.Swap | src/board.rs:18-24 | the opponent of a side is never the side itself |
| Uttt.SwapInvolution | src/board.rs:18-24 | swapping twice gives the side back and no side is its own opponent |
| Uttt.MatchesExactly | src/board.rs:35-43 | `Outcome == Side` holds exactly for (X, X) and (O, O); Draw and Undecided equal no side |
| Uttt.WinningIffLineBits | src/board.rs:1-10 | a mask contains one of the eight patterns iff three of its tiles form a row, column or diagonal, bit by bit |
| Uttt.WinningIffThreeInARow | src/board.rs:60-64 | `is_winning` holds iff the tiles of the mask include a full row, column or diagonal of the 3x3 grid |
| Uttt.WinningMonotone | src/board.rs:60-64 | adding tiles to a winning mask keeps it winning |
| Uttt.SquaresToMove | src/board.rs:66-74 | the moves listed are exactly those for sub-board `s_idx` on a clear bit, in ascending tile order |
| Uttt.Board.GetSIdx | src/board.rs:77-82 | a move lands in the forced sub-board if there is one, else in the sub-board it names |
| Uttt.SquareOutcomeMeaning | src/board.rs:84-96 | X if X has a line; else O if O has one; else Draw if the two masks fill all nine tiles; else Undecided |
| Uttt.SquareOutcomeMonotone | src/board.rs:84-96 | a decided sub-board stays decided when either side adds tiles |
| Uttt.Board.Place | src/board.rs:98-118 | the new board is `Placed` of the old one, and the three arrays keep nine entries |
| Uttt.PlaceSetsOneTile | src/board.rs:98-106 | `place` sets exactly bit `tile` of the effective sub-board in the mover's mask; every other mask, the opponent's included, is unchanged |
| Uttt.PlaceEffect | src/board.rs:108-117 | the cached state of the effective sub-board is overwritten only with a decided outcome, and no other entry changes; the next sub-board is forced to `tile` iff that sub-board is undecided, else none is; the side is swapped |
| Uttt.PlaceKeepsInvariants | src/board.rs:98-117 | `place` keeps masks within nine bits and a consistent board consistent, and on a free tile it leaves one free tile fewer |
| Uttt.PlayAllKeepsInvariants | src/board.rs:98-117 | any sequence of `place` calls keeps a board within nine bits and consistent |
| Uttt.EmptyPositionInvariants | src/main.rs:9-15 | the empty board of the game loop is consistent |
| Uttt.CenterOpening | src/main.rs:17-18 | from the empty board, placing tile 4 of sub-board 4 gives `x_board[4] == 0b000010000`, side O, forced sub-board 4, and an unchanged cache and O masks |
| Uttt.IsLegalMeaning | src/board.rs:120-125 | a move is legal iff its effective sub-board has no line for either side and the tile is clear in both masks |
| Uttt.PlayedMoveMayStayLegal | src/board.rs:113-125 | after `place(Move(2, 4))` on the empty board, the same move is legal again |
| Uttt.StatesMask | src/board.rs:127-132 | the fold over the first n cached states sets bit i iff i < n and state i equals the outcome, and nothing above bit 8 |
| Uttt.Board.StatesToU16 | src/board.rs:127-132 | bit i of `states_to_u16(o)` is set iff `square_states[i] == o`; no bit above 8 is set |
| Uttt.StatesToU16Cells | src/board.rs:127-132 | the tiles of `states_to_u16(o)` are exactly the sub-boards with cached state `o` |
| Uttt.BoardOutcomeMeaning | src/board.rs:134-144 | X if the sub-boards won by X form a line; else O if those won by O do; else Draw iff no sub-board is undecided |
| Uttt.FullBoardIsDecided | src/board.rs:134-144 | a consistent board with no free tile is decided |
| Uttt.OpenSquareMoves | src/board.rs:151-160 | the unforced enumeration lists exactly the free tiles of the sub-boards whose cached state is Undecided, by sub-board then tile |
| Uttt.Board.GetLegalMoves | src/board.rs:146-163 | the moves are listed in ascending (sub-board, tile) order; which moves they are is stated on `LegalMoves` by the next three rows |
| Uttt.ListedNothingWhenDecided | src/board.rs:147-149 | once the game is decided, nothing is listed |
| Uttt.ListedForced | src/board.rs:161 | while undecided with a forced sub-board, a move is listed iff it names that sub-board and neither side holds its tile there |
| Uttt.ListedFree | src/board.rs:152-160 | while undecided with no forced sub-board, a move is listed iff its sub-board is cached as Undecided and neither side holds its tile there |
| Uttt.LegalMovesAreLegal | src/board.rs:146-163 | on a consistent board, a move is listed iff the game is undecided, the move names its effective sub-board, and `is_legal` holds |
| Uttt.ListedIffLegal | src/board.rs:146-163 | the same, for one move |
| Uttt.MovesExistWhileUndecided | src/board.rs:146-163 | a consistent, undecided board has at least one legal move |
| Uttt.EmptyBoardUndecided | src/board.rs:134-144 | the empty board is undecided |
| Uttt.EmptyBoardListsAll | src/board.rs:146-163 | on the empty, unforced board every one of the 81 moves is listed |
| Uttt.EmptyBoardCount | src/board.rs:146-163 | on the empty, unforced board exactly 81 moves are listed |
| Mcts.Tree.constructor | src/mcts.rs:85-91 | the arena starts as the root alone |
| Mcts.Tree.ExtendNodes | src/mcts.rs:20-24 | the nodes are appended in order, earlier nodes are unchanged, and the result is (old length, new length) |
| Mcts.Tree.Expand | src/mcts.rs:26-40 | the new arena is `Expanded`: the old one, or with one fresh child per listed move appended and the node's range set to them. It stays well formed and only grows |
| Mcts.ExpandedShape | src/mcts.rs:26-40 | with no listed move the arena is unchanged. Otherwise one child per move is appended, in order, with the swapped side, that move, zero wins and visits and no children. The node's range becomes (old length, new length), and no other node changes |
| Mcts.Node.Select | src/mcts.rs:67-81 | with an unvisited child, returns the offset within the range of the first such child. Otherwise it panics exactly when `DrawFails` holds: the range is empty, or the parent has no visit, or it has one visit and no child has won. In every other case it returns some absolute index of the range |
| Mcts.UctSign | src/mcts.rs:57-65 | the weight of a visited child is NaN iff the parent has no visit, and 0 iff the parent has one visit and the child no wins; otherwise it is positive |
| Mcts.RejectsIffDrawFails | src/mcts.rs:75-78 | `WeightedIndex::new` rejects the collected weights (no weight, a NaN, or none positive) exactly when `DrawFails` holds |
| Mcts.SelectInArena | src/mcts.rs:68-81 | whatever `select` returns is below the range's end and indexes the arena |
| Mcts.FreshFirstChildSelectsRoot | src/mcts.rs:71-74 | when the first child of the range is unvisited, `select` returns 0 |
| Mcts.Walk | src/mcts.rs:97-110 | at most 81 steps from the root. Each step is a `select` from a non-leaf on which the draw did not fail, and places the move of the node it leaves. The walk stops at the first leaf, or at a node on which `select` panics |
| Mcts.StepAvoidsRoot | src/mcts.rs:71-80 | once every range's first child has been visited, no walk step goes to node 0 |
| Mcts.SearchRound | src/mcts.rs:93-173 | a round is the walk, then, unless the walked board is decided, the expansion of its last node, the playout and the backup of the first child's path, as `Round` spells out. The backed-up outcome, or the playout's panic, is the end of a playout of at most 81 listed moves from the walked board with the leaf's own move placed (`PlayoutOf`). The arena stays well formed and only grows: each node keeps its side and its move, and keeps having a child range, which can be replaced. On a consistent board only `select` can panic |
| Mcts.ExpandAndPlay | src/mcts.rs:116-173 | the leaf is expanded with the listed moves; a leaf left without children is the `children.unwrap()` panic; otherwise the playout's panic or the backup of the path extended by the leaf's first child. The outcome or panic is the end of a listed playout from the board with the leaf's move placed. On a consistent board the leaf gets children and nothing panics |
| Mcts.PlayoutAndBackup | src/mcts.rs:121-173 | the leaf's `node_move` is placed, then a playout of at most 81 moves, each listed on the undecided board it was placed on, reaches the final board. An Ok outcome is that board's decided outcome, and its score for the leaf's side is backed up the path; a panic is the undecided end of the playout and leaves the arena as it was. Not on a consistent board |
| Mcts.Rollout | src/mcts.rs:124-146 | at most 81 placements, each of a move listed on the undecided board before it. An Ok result is the decided outcome of the final board. The no-legal-moves panic comes only on an undecided board that lists nothing; the undecided-after-rollout panic only after 81 placements that leave the board undecided. On a consistent board the result is Ok, and every placement takes a free tile |
| Mcts.Score | src/mcts.rs:149-163 | a score is at most 2 |
| Mcts.ScoresShareTwo | src/mcts.rs:149-163 | for a decided game, this side's and the opponent's score add up to 2; a score is 1 iff the game is a draw, and 2 iff the side won |
| Mcts.Tree.Backpropagate | src/mcts.rs:164-173 | each node gains one visit and `this_side_score` per occurrence on the path; nodes off the path are unchanged |
| Mcts.BackedUpSnoc | src/mcts.rs:165-172 | backing up one more path entry changes that node alone, by one visit and the score |
| Mcts.BackedUpShape | src/mcts.rs:164-173 | backpropagation keeps the arena's shape |
| Mcts.BackedUpCounts | src/mcts.rs:164-173 | after the backup every node has gained one visit and the score once per occurrence on the path, and is otherwise unchanged |
| Mcts.Tree.FinalChoice | src/mcts.rs:176-183 | panics without a root range or when `end` is past the arena; otherwise returns the move of the first candidate with the most visits among node 1 and nodes `start..=end` |
| Mcts.FirstMaxUnique | src/mcts.rs:178-182 | the first maximum is unique, so the final choice is determined |
| Mcts.FinalChoiceCanPickNonChild | src/mcts.rs:176-183 | with root range (1, 3) in a four-node arena, the scan can choose node 3, which is not a child of the root |
| Mcts.RoundKeepsFirstChildrenVisited | src/mcts.rs:117-173 | a round without a panic keeps the first child of every range visited: the range it creates has its first child pushed on the path and backed up |
| Mcts.RoundKeepsRoot | src/mcts.rs:97-121 | once the root has children and every first child is visited, a round leaves the root's range as it is |
| Mcts.FirstRoundExpandsRoot | src/mcts.rs:112-121 | on an undecided board with listed moves, the first round gives the root the range (1, 1 + number of moves), and node 1 + k carries the k-th listed move |
| Mcts.SingleMoveLossPanics | src/mcts.rs:75-78 | with a single listed move, a first round whose playout the side to move wins leaves the root and its child with one visit each and the child with no wins, so `select` on the root panics |
| Mcts.RoundBetweenRounds | src/mcts.rs:93-174 | each round keeps the arena well formed with every first child visited, changes nothing on a decided board, and after the first round keeps the root's range over the listed moves |
| Mcts.FinalMoveListed | src/mcts.rs:176-183 | when the root's range is (1, 1 + number of moves) over the listed moves, the final choice is a listed move or the move of node 1 + number of moves |
| Mcts.FinalChoiceAfterSearch | src/mcts.rs:176-183 | after a search without panic, a decided board gives the root-unwrap panic; a consistent undecided one does not, and the choice is among the listed moves or the node just past the root's range |
| Mcts.BotMove | src/mcts.rs:84-184 | the root carries the swapped side and the last move. The ghost history of arenas starts at the root alone, and each arena comes from the one before by a round with its playout: 1000 rounds without panic, or rounds without panic up to the one whose panic is the result. The arena is the last of the history. The result is the final choice on the arena unless a search panic occurred; a `select` panic comes with a node on which the draw fails, and on a consistent board it is the only possible search panic. A decided board gives the root-unwrap panic. On a consistent undecided board the root's range is (1, 1 + number of listed moves), node 1 + k carries the k-th listed move, and an Ok result is a listed move or the move of the node just past that range |
| Mcts.Search | src/mcts.rs:85-174 | the tree starts as the root alone and goes through at most 1000 rounds, each from the caller's board, recorded in the ghost history; the first panic ends the search. A `select` panic comes with a failing node. On a decided board nothing panics and the root stays unexpanded; on a consistent undecided board the root ends expanded with the listed moves |
| Mcts.SearchStep | src/mcts.rs:93-174 | one pass of the loop: a round with its playout, the arena it leaves appended to the history, and the between-rounds facts kept when it does not panic |
| Mcts.SearchedRound | src/mcts.rs:93-174 | a round with its playout after a clean history either extends the history and keeps the between-rounds facts, or ends the history in its panic |
| Uttt.Board.Copy | src/mcts.rs:94 | the copy `*board` holds the same masks, side, forced sub-board and cache as the board copied |
| Uttt.SamePositionSameAnswers | src/mcts.rs:94 | a board and its copy `*board`, or any two boards holding the same position, give the same outcome and the same list of legal moves, so the search may work on the copy |
| Mcts.Node.IsLeaf | src/mcts.rs:101-104 | a node with no child range, or with an empty one, is a leaf; a node with a non-empty range is not |
| Mcts.LeafIffNoChildren | src/mcts.rs:101-104 | in a well-formed arena a leaf is exactly a node without a child range, so the empty-range case of `is_leaf` does not arise |

## Left out

- `Board::draw_board` (src/board.rs:165-190) and the debug printing in `bot_move` are not modelled: they are console output.
- Node.Select: the `f32` values of `uct_policy` (src/mcts.rs:57-65), with its `ln` and `sqrt`, are not modelled; `UctSign` keeps only whether a weight is NaN, zero or positive, which decides whether `WeightedIndex::new` fails. An accepted draw is modelled as some index of the range, without its probabilities.
- Node.Select: the model requires a child range. The source's `children.unwrap()` (src/mcts.rs:69) panics without one; the walk only calls `select` on a non-leaf, so every call it makes meets the requirement.
- Randomness (`thread_rng`, `gen_range`, `sample`) is modelled as a nondeterministic choice within the same bounds. Probabilities and playing strength are not modelled.
- Mcts.Node: `wins` and `visits` are unbounded naturals. The source's `u32` counters cannot overflow within 1000 rounds of paths of at most 83 entries.
- Uttt.Move: tiles and sub-boards are restricted to 0..8. The source's `u8` fields also allow values it would index out of bounds with, or shift past 16 bits.
- Uttt.IsLegalMeaning, Uttt.SquareOutcomeMeaning and the other geometric lemmas assume masks within nine bits. `place` with tiles 0..8 never sets a higher bit (PlaceKeepsInvariants).
- Mcts.BotMove returns `Result<Move>`, and the arena and its history are ghost out-parameters. The panics of the source become `Panic` results, and a panic ends the call.
- Mcts.BotMove: its body is split into methods that run in the order of the source: Search (the 1000 rounds), SearchStep (one pass of the loop), SearchRound (one round), Walk (selection), ExpandAndPlay (expansion), PlayoutAndBackup and Rollout (playout and backpropagation), and FinalChoice.
- The game loop of src/main.rs and the benchmark code are not modelled. Their opening position appears only as the lemmas about the empty board and the centre opening.
