/*
 * The Ultimate Tic-Tac-Toe bitboard (src/board.rs).
 *
 * Nine sub-boards ("squares") of nine tiles each. Tiles and sub-boards are
 * numbered row-major over a 3x3 grid, 0 at the top left, 8 at the bottom
 * right; bit t of a mask stands for tile t.
 */
module Uttt {

  datatype Option<T> = None | Some(value: T)

  /** A u16 occupancy mask of one sub-board (only bits 0..8 are ever used). */
  type Mask = bv16

  /** A tile or sub-board index. */
  type Cell = n: nat | n < 9

  /**
   * The eight three-in-a-row patterns (binary 100100100, 010010010, 001001001,
   * 111000000, 000111000, 000000111, 100010001, 001010100): three columns,
   * three rows, two diagonals.
   */
  const WinStates: seq<Mask> := [0x124, 0x092, 0x049, 0x1C0, 0x038, 0x007, 0x111, 0x054]

  /** Binary 111111111: all nine tiles. */
  const FullSquare: Mask := 0x1FF

  datatype Side = X | O {
    function Swap(): (r: Side)
      ensures r != this
    {
      match this
      case X => Side.O
      case O => Side.X
    }
  }

  datatype Outcome = X | O | Draw | Undecided {
    /** The comparison `Outcome == Side`. */
    predicate Matches(side: Side) {
      match this
      case X => side == Side.X
      case O => side == Side.O
      case _ => false
    }
  }

  /** Swapping twice gives the side back; no side is its own opponent. */
  lemma SwapInvolution(side: Side)
    ensures side.Swap().Swap() == side && side.Swap() != side
  {}

  /** `Outcome == Side` holds for (X, X) and (O, O) only; Draw and Undecided match no side. */
  lemma MatchesExactly(outcome: Outcome, side: Side)
    ensures outcome.Matches(side) <==> (outcome == Outcome.X && side == Side.X) || (outcome == Outcome.O && side == Side.O)
    ensures outcome == Outcome.Draw || outcome == Outcome.Undecided ==> !outcome.Matches(side)
  {}

  datatype Move = Move(tile: Cell, square: Cell)

  // ---------------------------------------------------------------------
  // Bits and the geometry they stand for
  // ---------------------------------------------------------------------

  /**
   * `1 << t`, written out tile by tile so that the solver never converts an
   * integer to a bit-vector (TileIsShift states that the two agree).
   */
  function Tile(t: Cell): Mask {
    if t == 0 then 0x001 else if t == 1 then 0x002 else if t == 2 then 0x004
    else if t == 3 then 0x008 else if t == 4 then 0x010 else if t == 5 then 0x020
    else if t == 6 then 0x040 else if t == 7 then 0x080 else 0x100
  }

  /** `m & (1 << t) != 0`, written out tile by tile (see BitIsShift). */
  predicate Bit(m: Mask, t: Cell) {
    if t == 0 then m & 0x001 != 0 else if t == 1 then m & 0x002 != 0
    else if t == 2 then m & 0x004 != 0 else if t == 3 then m & 0x008 != 0
    else if t == 4 then m & 0x010 != 0 else if t == 5 then m & 0x020 != 0
    else if t == 6 then m & 0x040 != 0 else if t == 7 then m & 0x080 != 0
    else m & 0x100 != 0
  }

  lemma TileIsShift(t: Cell)
    ensures Tile(t) == 1 << t
  {}

  lemma BitIsShift(m: Mask, t: Cell)
    ensures Bit(m, t) <==> m & (1 << t) != 0
  {}

  /** The mask uses no bit above tile 8. */
  predicate NineBits(m: Mask) { m <= FullSquare }

  /** The tiles a mask occupies. */
  ghost function Cells(m: Mask): set<nat> {
    set t: nat | t < 9 && Bit(m, t)
  }

  ghost predicate RowFilled(cells: set<nat>, r: nat) {
    3 * r in cells && 3 * r + 1 in cells && 3 * r + 2 in cells
  }

  ghost predicate ColumnFilled(cells: set<nat>, c: nat) {
    c in cells && c + 3 in cells && c + 6 in cells
  }

  /** Three in a row on a row-major 3x3 grid: a full row, column or diagonal. */
  ghost predicate ThreeInARow(cells: set<nat>) {
    (exists r :: 0 <= r < 3 && RowFilled(cells, r)) ||
    (exists c :: 0 <= c < 3 && ColumnFilled(cells, c)) ||
    (0 in cells && 4 in cells && 8 in cells) ||
    (2 in cells && 4 in cells && 6 in cells)
  }

  /** Every tile of the sub-board is taken by one side or the other. */
  ghost predicate Filled(x: Mask, o: Mask) {
    forall t: nat :: t < 9 ==> Bit(x, t) || Bit(o, t)
  }

  lemma TileFacts(t: Cell)
    ensures Tile(t) != 0 && NineBits(Tile(t))
  {
    if t == 0 {} else if t == 1 {} else if t == 2 {} else if t == 3 {} else if t == 4 {}
    else if t == 5 {} else if t == 6 {} else if t == 7 {} else {}
  }

  lemma TileBit(t: Cell, u: Cell)
    ensures Bit(Tile(t), u) <==> t == u
  {
    if t == 0 {} else if t == 1 {} else if t == 2 {} else if t == 3 {} else if t == 4 {}
    else if t == 5 {} else if t == 6 {} else if t == 7 {} else {}
  }

  lemma OrBit(a: Mask, b: Mask, t: Cell)
    ensures Bit(a | b, t) <==> Bit(a, t) || Bit(b, t)
  {
    if t == 0 {} else if t == 1 {} else if t == 2 {} else if t == 3 {} else if t == 4 {}
    else if t == 5 {} else if t == 6 {} else if t == 7 {} else {}
  }

  lemma OrNineBits(a: Mask, b: Mask)
    requires NineBits(a) && NineBits(b)
    ensures NineBits(a | b)
  {}

  /** Setting tile t sets exactly bit t. */
  lemma SetTile(m: Mask, t: Cell, u: Cell)
    ensures Bit(m | Tile(t), u) <==> Bit(m, u) || u == t
  {
    OrBit(m, Tile(t), u);
    TileBit(t, u);
  }

  /** Every tile of pattern w is set in m. */
  predicate Covers(m: Mask, w: Mask) { m & w == w }

  /** A pattern contained in a mask stays contained when bits are added. */
  lemma CoversMonotone(m: Mask, b: Mask, w: Mask)
    requires Covers(m, w)
    ensures Covers(m | b, w)
  {}

  lemma FilledMask(m: Mask)
    requires NineBits(m)
    ensures m == FullSquare <==> forall t: nat :: t < 9 ==> Bit(m, t)
  {
    if forall t: nat :: t < 9 ==> Bit(m, t) {
      assert Bit(m, 0) && Bit(m, 1) && Bit(m, 2) && Bit(m, 3) && Bit(m, 4)
          && Bit(m, 5) && Bit(m, 6) && Bit(m, 7) && Bit(m, 8);
    }
  }

  /** "x | o == FullSquare" means every tile is taken. */
  lemma FullIffFilled(x: Mask, o: Mask)
    requires NineBits(x) && NineBits(o)
    ensures x | o == FullSquare <==> Filled(x, o)
  {
    OrNineBits(x, o);
    FilledMask(x | o);
    forall t: nat | t < 9 ensures Bit(x | o, t) <==> Bit(x, t) || Bit(o, t) {
      OrBit(x, o, t);
    }
  }

  lemma PatternBits(m: Mask)
    ensures Covers(m, WinStates[0]) <==> Bit(m, 2) && Bit(m, 5) && Bit(m, 8)
    ensures Covers(m, WinStates[1]) <==> Bit(m, 1) && Bit(m, 4) && Bit(m, 7)
    ensures Covers(m, WinStates[2]) <==> Bit(m, 0) && Bit(m, 3) && Bit(m, 6)
    ensures Covers(m, WinStates[3]) <==> Bit(m, 6) && Bit(m, 7) && Bit(m, 8)
    ensures Covers(m, WinStates[4]) <==> Bit(m, 3) && Bit(m, 4) && Bit(m, 5)
    ensures Covers(m, WinStates[5]) <==> Bit(m, 0) && Bit(m, 1) && Bit(m, 2)
    ensures Covers(m, WinStates[6]) <==> Bit(m, 0) && Bit(m, 4) && Bit(m, 8)
    ensures Covers(m, WinStates[7]) <==> Bit(m, 2) && Bit(m, 4) && Bit(m, 6)
  {}

  // ---------------------------------------------------------------------
  // is_winning and squares_to_move
  // ---------------------------------------------------------------------

  /** Some pattern of WinStates is wholly contained in the mask. */
  predicate IsWinning(square: Mask) {
    exists i :: 0 <= i < |WinStates| && Covers(square, WinStates[i])
  }

  /** The tiles of a mask form a full row, column or diagonal. */
  predicate LineBits(m: Mask) {
    (Bit(m, 0) && Bit(m, 1) && Bit(m, 2)) || (Bit(m, 3) && Bit(m, 4) && Bit(m, 5)) ||
    (Bit(m, 6) && Bit(m, 7) && Bit(m, 8)) || (Bit(m, 0) && Bit(m, 3) && Bit(m, 6)) ||
    (Bit(m, 1) && Bit(m, 4) && Bit(m, 7)) || (Bit(m, 2) && Bit(m, 5) && Bit(m, 8)) ||
    (Bit(m, 0) && Bit(m, 4) && Bit(m, 8)) || (Bit(m, 2) && Bit(m, 4) && Bit(m, 6))
  }

  lemma WinningIffLineBits(m: Mask)
    ensures IsWinning(m) <==> LineBits(m)
  {
    PatternBits(m);
    if LineBits(m) {
      if Bit(m, 0) && Bit(m, 1) && Bit(m, 2) { assert Covers(m, WinStates[5]); }
      else if Bit(m, 3) && Bit(m, 4) && Bit(m, 5) { assert Covers(m, WinStates[4]); }
      else if Bit(m, 6) && Bit(m, 7) && Bit(m, 8) { assert Covers(m, WinStates[3]); }
      else if Bit(m, 0) && Bit(m, 3) && Bit(m, 6) { assert Covers(m, WinStates[2]); }
      else if Bit(m, 1) && Bit(m, 4) && Bit(m, 7) { assert Covers(m, WinStates[1]); }
      else if Bit(m, 2) && Bit(m, 5) && Bit(m, 8) { assert Covers(m, WinStates[0]); }
      else if Bit(m, 0) && Bit(m, 4) && Bit(m, 8) { assert Covers(m, WinStates[6]); }
      else { assert Covers(m, WinStates[7]); }
    }
  }

  lemma LineBitsIffThreeInARow(m: Mask)
    ensures LineBits(m) <==> ThreeInARow(Cells(m))
  {
    var c := Cells(m);
    assert 0 in c <==> Bit(m, 0);
    assert 1 in c <==> Bit(m, 1);
    assert 2 in c <==> Bit(m, 2);
    assert 3 in c <==> Bit(m, 3);
    assert 4 in c <==> Bit(m, 4);
    assert 5 in c <==> Bit(m, 5);
    assert 6 in c <==> Bit(m, 6);
    assert 7 in c <==> Bit(m, 7);
    assert 8 in c <==> Bit(m, 8);
    if LineBits(m) {
      if Bit(m, 0) && Bit(m, 1) && Bit(m, 2) { assert RowFilled(c, 0); }
      else if Bit(m, 3) && Bit(m, 4) && Bit(m, 5) { assert RowFilled(c, 1); }
      else if Bit(m, 6) && Bit(m, 7) && Bit(m, 8) { assert RowFilled(c, 2); }
      else if Bit(m, 0) && Bit(m, 3) && Bit(m, 6) { assert ColumnFilled(c, 0); }
      else if Bit(m, 1) && Bit(m, 4) && Bit(m, 7) { assert ColumnFilled(c, 1); }
      else if Bit(m, 2) && Bit(m, 5) && Bit(m, 8) { assert ColumnFilled(c, 2); }
    }
  }

  /** The eight bit patterns are exactly the rows, columns and diagonals. */
  lemma WinningIffThreeInARow(m: Mask)
    ensures IsWinning(m) <==> ThreeInARow(Cells(m))
  {
    WinningIffLineBits(m);
    LineBitsIffThreeInARow(m);
  }

  /** Adding tiles never undoes a win. */
  lemma WinningMonotone(m: Mask, b: Mask)
    requires IsWinning(m)
    ensures IsWinning(m | b)
  {
    var i :| 0 <= i < |WinStates| && Covers(m, WinStates[i]);
    CoversMonotone(m, b, WinStates[i]);
  }

  /** Position of a move in the enumeration order: by sub-board, then by tile. */
  function Key(m: Move): nat { 9 * m.square + m.tile }

  ghost predicate Ascending(ms: seq<Move>) {
    forall i, j :: 0 <= i < j < |ms| ==> Key(ms[i]) < Key(ms[j])
  }

  lemma AscendingConcat(a: seq<Move>, b: seq<Move>)
    requires Ascending(a) && Ascending(b)
    requires forall m, n :: m in a && n in b ==> Key(m) < Key(n)
    ensures Ascending(a + b)
  {
    forall i, j | 0 <= i < j < |a + b| ensures Key((a + b)[i]) < Key((a + b)[j]) {
      if j < |a| {
      } else if i >= |a| {
        assert (a + b)[i] == b[i - |a|] && (a + b)[j] == b[j - |a|];
      } else {
        assert (a + b)[i] in a && (a + b)[j] in b;
      }
    }
  }

  /** The free tiles t, t+1, .., 8 of sub-board sIdx, in ascending order. */
  function FreeTilesFrom(sIdx: Cell, square: Mask, t: nat): (r: seq<Move>)
    requires t <= 9
    ensures forall m :: m in r <==> m.square == sIdx && t <= m.tile && !Bit(square, m.tile)
    ensures Ascending(r)
    decreases 9 - t
  {
    if t == 9 then []
    else
      var rest := FreeTilesFrom(sIdx, square, t + 1);
      if !Bit(square, t) then
        AscendingConcat([Move(t, sIdx)], rest);
        [Move(t, sIdx)] + rest
      else rest
  }

  /** squares_to_move: one move per clear bit of the mask, in ascending tile order. */
  function SquaresToMove(sIdx: Cell, square: Mask): (r: seq<Move>)
    ensures forall m :: m in r <==> m.square == sIdx && !Bit(square, m.tile)
    ensures Ascending(r)
  {
    FreeTilesFrom(sIdx, square, 0)
  }

  /**
   * The unconstrained branch of get_legal_moves from sub-board s on:
   * the free tiles of every sub-board whose cached state is Undecided.
   */
  function OpenSquareMoves(x: seq<Mask>, o: seq<Mask>, states: seq<Outcome>, s: nat): (r: seq<Move>)
    requires |x| == 9 && |o| == 9 && |states| == 9 && s <= 9
    ensures forall m :: m in r <==>
      s <= m.square && states[m.square] == Outcome.Undecided && !Bit(x[m.square] | o[m.square], m.tile)
    ensures Ascending(r)
    decreases 9 - s
  {
    if s == 9 then []
    else
      var here := if states[s] == Outcome.Undecided then SquaresToMove(s, x[s] | o[s]) else [];
      var rest := OpenSquareMoves(x, o, states, s + 1);
      AscendingConcat(here, rest);
      here + rest
  }

  /** The meta-board: the sub-boards whose cached state is `outcome`. */
  ghost function WonBy(states: seq<Outcome>, outcome: Outcome): set<nat> {
    set i: nat | i < |states| && states[i] == outcome
  }

  /** states_to_u16 on nine cached states: bit i set when entry i is outcome. */
  function MetaMask(states: seq<Outcome>, outcome: Outcome): (r: Mask)
    requires |states| == 9
    ensures NineBits(r)
    ensures forall i: nat :: i < 9 ==> (Bit(r, i) <==> states[i] == outcome)
  {
    StatesMask(states, outcome, 9)
  }

  /** The fold of states_to_u16 over the first n entries. */
  function StatesMask(states: seq<Outcome>, outcome: Outcome, n: nat): (r: Mask)
    requires n <= |states| && n <= 9
    ensures NineBits(r)
    ensures forall i: nat :: i < 9 ==> (Bit(r, i) <==> i < n && states[i] == outcome)
  {
    if n == 0 then 0
    else
      var acc := StatesMask(states, outcome, n - 1);
      // or-ing in `(states[n - 1] == outcome) as u16 << (n - 1)`: Tile(n - 1) when equal, nothing otherwise
      if states[n - 1] == outcome then
        OrTileStep(acc, n - 1);
        acc | Tile(n - 1)
      else
        acc
  }

  /** Or-ing in tile t keeps nine bits and sets exactly bit t more. */
  lemma OrTileStep(acc: Mask, t: Cell)
    requires NineBits(acc)
    ensures NineBits(acc | Tile(t))
    ensures forall i: nat :: i < 9 ==> (Bit(acc | Tile(t), i) <==> Bit(acc, i) || i == t)
  {
    TileFacts(t);
    OrNineBits(acc, Tile(t));
    forall i: nat | i < 9 ensures Bit(acc | Tile(t), i) <==> Bit(acc, i) || i == t {
      SetTile(acc, t, i);
    }
  }

  // ---------------------------------------------------------------------
  // Counting free tiles (proof device for the length of a game)
  // ---------------------------------------------------------------------

  /** Number of tiles among t..8 that neither mask holds. */
  ghost function FreeTiles(x: Mask, o: Mask, t: nat): nat
    requires t <= 9
    decreases 9 - t
  {
    if t == 9 then 0 else (if Bit(x, t) || Bit(o, t) then 0 else 1) + FreeTiles(x, o, t + 1)
  }

  /** Sum of c[s..]. */
  ghost function Sum(c: seq<nat>, s: nat): nat
    requires s <= |c|
    decreases |c| - s
  {
    if s == |c| then 0 else c[s] + Sum(c, s + 1)
  }

  /** Free tiles per sub-board. */
  ghost function FreeCounts(x: seq<Mask>, o: seq<Mask>): (c: seq<nat>)
    requires |x| == 9 && |o| == 9
    ensures |c| == 9
  {
    seq(9, i requires 0 <= i < 9 => FreeTiles(x[i], o[i], 0))
  }

  /** Number of free tiles on the whole board. */
  ghost function FreeCells(x: seq<Mask>, o: seq<Mask>): nat
    requires |x| == 9 && |o| == 9
  {
    Sum(FreeCounts(x, o), 0)
  }

  lemma {:induction false} FreeTilesBound(x: Mask, o: Mask, t: nat)
    requires t <= 9
    ensures FreeTiles(x, o, t) <= 9 - t
    decreases 9 - t
  {
    if t < 9 { FreeTilesBound(x, o, t + 1); }
  }

  lemma {:induction false} SumBound(c: seq<nat>, s: nat)
    requires s <= |c|
    requires forall i :: 0 <= i < |c| ==> c[i] <= 9
    ensures Sum(c, s) <= 9 * (|c| - s)
    decreases |c| - s
  {
    if s < |c| { SumBound(c, s + 1); }
  }

  lemma {:induction false} SumZero(c: seq<nat>, s: nat)
    requires s <= |c| && Sum(c, s) == 0
    ensures forall i :: s <= i < |c| ==> c[i] == 0
    decreases |c| - s
  {
    if s < |c| { SumZero(c, s + 1); }
  }

  lemma {:induction false} SumSame(c: seq<nat>, c': seq<nat>, s: nat)
    requires |c| == |c'| && s <= |c|
    requires forall j :: s <= j < |c| ==> c'[j] == c[j]
    ensures Sum(c', s) == Sum(c, s)
    decreases |c| - s
  {
    if s < |c| { SumSame(c, c', s + 1); }
  }

  lemma {:induction false} SumTake(c: seq<nat>, c': seq<nat>, k: nat, s: nat)
    requires |c| == |c'| && s <= k < |c|
    requires c'[k] + 1 == c[k]
    requires forall j :: 0 <= j < |c| && j != k ==> c'[j] == c[j]
    ensures Sum(c', s) + 1 == Sum(c, s)
    decreases |c| - s
  {
    if s < k {
      SumTake(c, c', k, s + 1);
    } else {
      SumSame(c, c', s + 1);
    }
  }

  /** A board never has more than 81 free tiles. */
  lemma FreeCellsBound(x: seq<Mask>, o: seq<Mask>)
    requires |x| == 9 && |o| == 9
    ensures FreeCells(x, o) <= 81
  {
    var c := FreeCounts(x, o);
    forall i | 0 <= i < 9 ensures c[i] <= 9 {
      FreeTilesBound(x[i], o[i], 0);
    }
    SumBound(c, 0);
  }

  /** Taken tiles of (x', o') are those of (x, o) plus the free tile b. */
  ghost predicate OneMore(x: Mask, o: Mask, x': Mask, o': Mask, b: Cell, t: nat) {
    forall u: Cell :: t <= u ==> ((Bit(x', u) || Bit(o', u)) <==> (Bit(x, u) || Bit(o, u)) || u == b)
  }

  lemma {:induction false} FreeTilesTake(x: Mask, o: Mask, x': Mask, o': Mask, b: Cell, t: nat)
    requires t <= b && !Bit(x, b) && !Bit(o, b) && OneMore(x, o, x', o', b, t)
    ensures FreeTiles(x', o', t) + 1 == FreeTiles(x, o, t)
    decreases 9 - t
  {
    if t < b {
      FreeTilesTake(x, o, x', o', b, t + 1);
    } else {
      FreeTilesSame(x, o, x', o', t + 1);
    }
  }

  lemma {:induction false} FreeTilesSame(x: Mask, o: Mask, x': Mask, o': Mask, t: nat)
    requires t <= 9
    requires forall u: Cell :: t <= u ==> ((Bit(x', u) || Bit(o', u)) <==> Bit(x, u) || Bit(o, u))
    ensures FreeTiles(x', o', t) == FreeTiles(x, o, t)
    decreases 9 - t
  {
    if t < 9 { FreeTilesSame(x, o, x', o', t + 1); }
  }

  /** Setting a tile that neither mask holds frees one tile fewer. */
  lemma TakeFree(x: Mask, o: Mask, x': Mask, o': Mask, b: Cell)
    requires !Bit(x, b) && !Bit(o, b)
    requires (x' == x | Tile(b) && o' == o) || (x' == x && o' == o | Tile(b))
    ensures FreeTiles(x', o', 0) + 1 == FreeTiles(x, o, 0)
  {
    forall u: Cell ensures (Bit(x', u) || Bit(o', u)) <==> (Bit(x, u) || Bit(o, u)) || u == b {
      SetTile(x, b, u);
      SetTile(o, b, u);
    }
    FreeTilesTake(x, o, x', o', b, 0);
  }

  lemma {:induction false} NoFreeTiles(x: Mask, o: Mask, t: nat)
    requires t <= 9 && FreeTiles(x, o, t) == 0
    ensures forall u: nat :: t <= u < 9 ==> Bit(x, u) || Bit(o, u)
    decreases 9 - t
  {
    if t < 9 { NoFreeTiles(x, o, t + 1); }
  }

  /** One free tile fewer in sub-board k is one free cell fewer on the whole board. */
  lemma FreeCellsTake(x: seq<Mask>, o: seq<Mask>, x': seq<Mask>, o': seq<Mask>, k: Cell)
    requires |x| == 9 && |o| == 9 && |x'| == 9 && |o'| == 9
    requires FreeTiles(x'[k], o'[k], 0) + 1 == FreeTiles(x[k], o[k], 0)
    requires forall j :: 0 <= j < 9 && j != k ==> x'[j] == x[j] && o'[j] == o[j]
    ensures FreeCells(x', o') + 1 == FreeCells(x, o)
  {
    SumTake(FreeCounts(x, o), FreeCounts(x', o'), k, 0);
  }

  /** A board without free cells has every sub-board filled. */
  lemma NoFreeCells(x: seq<Mask>, o: seq<Mask>)
    requires |x| == 9 && |o| == 9 && FreeCells(x, o) == 0
    ensures forall k :: 0 <= k < 9 ==> Filled(x[k], o[k])
  {
    var c := FreeCounts(x, o);
    SumZero(c, 0);
    forall k | 0 <= k < 9 ensures Filled(x[k], o[k]) {
      assert c[k] == 0;
      NoFreeTiles(x[k], o[k], 0);
    }
  }

  // ---------------------------------------------------------------------
  // Sub-board outcome
  // ---------------------------------------------------------------------

  /** check_square_outcome on the two masks of one sub-board. */
  function SquareOutcome(x: Mask, o: Mask): Outcome {
    if IsWinning(x) then Outcome.X
    else if IsWinning(o) then Outcome.O
    else if x | o == FullSquare then Outcome.Draw
    else Outcome.Undecided
  }

  /** X's line is checked first; a sub-board is a draw when full with no line. */
  lemma SquareOutcomeMeaning(x: Mask, o: Mask)
    requires NineBits(x) && NineBits(o)
    ensures SquareOutcome(x, o) == Outcome.X <==> ThreeInARow(Cells(x))
    ensures SquareOutcome(x, o) == Outcome.O <==> !ThreeInARow(Cells(x)) && ThreeInARow(Cells(o))
    ensures SquareOutcome(x, o) == Outcome.Draw <==>
      !ThreeInARow(Cells(x)) && !ThreeInARow(Cells(o)) && Filled(x, o)
    ensures SquareOutcome(x, o) == Outcome.Undecided <==>
      !ThreeInARow(Cells(x)) && !ThreeInARow(Cells(o)) && !Filled(x, o)
  {
    WinningIffThreeInARow(x);
    WinningIffThreeInARow(o);
    FullIffFilled(x, o);
  }

  lemma FullStaysFull(m: Mask, n: Mask)
    requires m == FullSquare && NineBits(m | n)
    ensures m | n == FullSquare
  {}

  /** A decided sub-board stays decided when either side adds tiles to it. */
  lemma SquareOutcomeMonotone(x: Mask, o: Mask, a: Mask, b: Mask)
    requires NineBits(x | a) && NineBits(o | b)
    requires SquareOutcome(x, o) != Outcome.Undecided
    ensures SquareOutcome(x | a, o | b) != Outcome.Undecided
  {
    if IsWinning(x) {
      WinningMonotone(x, a);
    } else if IsWinning(o) {
      WinningMonotone(o, b);
    } else {
      assert (x | a) | (o | b) == (x | o) | (a | b);
      FullStaysFull(x | o, a | b);
    }
  }

  /** A sub-board that is not full has a free tile. */
  lemma FreeTileExists(m: Mask) returns (t: Cell)
    requires NineBits(m) && m != FullSquare
    ensures !Bit(m, t)
  {
    FilledMask(m);
    var u: nat :| u < 9 && !Bit(m, u);
    t := u;
  }

  lemma EmptySquare()
    ensures SquareOutcome(0, 0) == Outcome.Undecided
  {}

  // ---------------------------------------------------------------------
  // The board
  // ---------------------------------------------------------------------

  ghost predicate NineBitMasks(x: seq<Mask>, o: seq<Mask>)
    requires |x| == 9 && |o| == 9
  {
    forall k :: 0 <= k < 9 ==> NineBits(x[k]) && NineBits(o[k])
  }

  /** Whether every sub-board's cached state is decided. */
  predicate AllDecided(states: seq<Outcome>) {
    forall i :: 0 <= i < |states| ==> states[i] != Outcome.Undecided
  }

  /** The value of a board: its five fields. */
  datatype Position = Position(x: seq<Mask>, o: seq<Mask>, side: Side, current: Option<Cell>, states: seq<Outcome>) {
    /** The three arrays have nine entries. */
    ghost predicate Shaped() {
      |x| == 9 && |o| == 9 && |states| == 9
    }

    /** Masks never hold a tile above 8 (place only ever sets tiles 0..8). */
    ghost predicate InRange()
      requires Shaped()
    {
      NineBitMasks(x, o)
    }

    /**
     * The cached state of each sub-board is the outcome of its masks, and a
     * forced sub-board is still open. The empty board has this shape and
     * place keeps it.
     */
    ghost predicate Consistent()
      requires Shaped()
    {
      (forall k :: 0 <= k < 9 ==> states[k] == SquareOutcome(x[k], o[k])) &&
      (current.Some? ==> SquareOutcome(x[current.value], o[current.value]) == Outcome.Undecided)
    }

    /** Number of tiles that neither side holds. */
    ghost function Free(): nat
      requires Shaped()
    {
      FreeCells(x, o)
    }

    /** The sub-board a move naming sub-board sIdx lands in. */
    ghost function Target(sIdx: Cell): Cell {
      if current.Some? then current.value else sIdx
    }
  }

  /** The position that place(mov) leaves behind (Board.Place is proved to produce it). */
  ghost function Placed(p: Position, mov: Move): (q: Position)
    requires p.Shaped()
    ensures q.Shaped()
  {
    var s := p.Target(mov.square);
    var x := AddTile(p.x, s, mov.tile, p.side == Side.X);
    var o := AddTile(p.o, s, mov.tile, p.side == Side.O);
    var outcome := SquareOutcome(x[s], o[s]);
    Position(x, o, p.side.Swap(),
             if SquareOutcome(x[mov.tile], o[mov.tile]) == Outcome.Undecided then Some(mov.tile) else None,
             if outcome == Outcome.Undecided then p.states else p.states[s := outcome])
  }

  /** The position after placing the moves in order. */
  ghost function PlayAll(p: Position, moves: seq<Move>): (q: Position)
    requires p.Shaped()
    ensures q.Shaped()
    decreases |moves|
  {
    if moves == [] then p else PlayAll(Placed(p, moves[0]), moves[1..])
  }

  lemma {:induction false} PlayAllSnoc(p: Position, moves: seq<Move>, m: Move)
    requires p.Shaped()
    ensures PlayAll(p, moves + [m]) == Placed(PlayAll(p, moves), m)
    decreases |moves|
  {
    if moves != [] {
      assert (moves + [m])[1..] == moves[1..] + [m];
      PlayAllSnoc(Placed(p, moves[0]), moves[1..], m);
    }
  }

  /** A sequence of places keeps masks within nine bits and a consistent board consistent. */
  lemma {:induction false} PlayAllKeepsInvariants(p: Position, moves: seq<Move>)
    requires p.Shaped() && p.InRange() && p.Consistent()
    ensures PlayAll(p, moves).InRange() && PlayAll(p, moves).Consistent()
    decreases |moves|
  {
    if moves != [] {
      PlaceKeepsInvariants(p, moves[0]);
      PlayAllKeepsInvariants(Placed(p, moves[0]), moves[1..]);
    }
  }

  /**
   * place on a position sets exactly tile mov.tile of the target sub-board,
   * in the mover's mask only, and leaves every other mask as it was.
   */
  lemma PlaceSetsOneTile(p: Position, mov: Move)
    requires p.Shaped()
    ensures var q, s := Placed(p, mov), p.Target(mov.square);
      && (forall k: Cell, t: Cell :: Bit(q.x[k], t) <==> Bit(p.x[k], t) || (p.side == Side.X && k == s && t == mov.tile))
      && (forall k: Cell, t: Cell :: Bit(q.o[k], t) <==> Bit(p.o[k], t) || (p.side == Side.O && k == s && t == mov.tile))
      && (forall k :: 0 <= k < 9 && k != s ==> q.x[k] == p.x[k] && q.o[k] == p.o[k])
      && (p.side == Side.X ==> q.o == p.o) && (p.side == Side.O ==> q.x == p.x)
  {
    var s := p.Target(mov.square);
    AddTileBits(p.x, s, mov.tile, p.side == Side.X);
    AddTileBits(p.o, s, mov.tile, p.side == Side.O);
  }

  lemma AddTileBits(m: seq<Mask>, s: Cell, t: Cell, moves: bool)
    requires |m| == 9
    ensures forall k: Cell, u: Cell :: Bit(AddTile(m, s, t, moves)[k], u) <==> Bit(m[k], u) || (moves && k == s && u == t)
    ensures forall k :: 0 <= k < 9 && k != s ==> AddTile(m, s, t, moves)[k] == m[k]
    ensures !moves ==> AddTile(m, s, t, moves) == m
  {
    var r := AddTile(m, s, t, moves);
    forall k: Cell, u: Cell ensures Bit(r[k], u) <==> Bit(m[k], u) || (moves && k == s && u == t) {
      SetTile(m[k], t, u);
    }
  }

  /**
   * The rest of place: the cached state of the target is overwritten only
   * once it is decided; the next move is forced into the sub-board named by
   * the tile exactly when that one is undecided; the turn passes.
   */
  lemma PlaceEffect(p: Position, mov: Move)
    requires p.Shaped()
    ensures var q, s := Placed(p, mov), p.Target(mov.square);
      && (forall k :: 0 <= k < 9 && k != s ==> q.states[k] == p.states[k])
      && (SquareOutcome(q.x[s], q.o[s]) == Outcome.Undecided ==> q.states[s] == p.states[s])
      && (SquareOutcome(q.x[s], q.o[s]) != Outcome.Undecided ==> q.states[s] == SquareOutcome(q.x[s], q.o[s]))
      && (q.current == Some(mov.tile) <==> SquareOutcome(q.x[mov.tile], q.o[mov.tile]) == Outcome.Undecided)
      && (q.current.None? <==> SquareOutcome(q.x[mov.tile], q.o[mov.tile]) != Outcome.Undecided)
      && q.side == p.side.Swap()
  {}

  /**
   * place keeps masks within nine bits and a consistent board consistent;
   * when the tile was free it leaves exactly one free tile fewer.
   */
  lemma PlaceKeepsInvariants(p: Position, mov: Move)
    requires p.Shaped()
    ensures var q, s := Placed(p, mov), p.Target(mov.square);
      && (p.InRange() ==> q.InRange())
      && (p.InRange() && p.Consistent() ==> q.Consistent())
      && (!Bit(p.x[s], mov.tile) && !Bit(p.o[s], mov.tile) ==> q.Free() + 1 == p.Free())
  {
    PlaceKeeps(p.x, p.o, p.states, p.Target(mov.square), mov.tile, p.side == Side.X);
  }

  /** The start of a game: no tiles, X to move, no forced sub-board, nothing decided. */
  function EmptyPosition(): (p: Position)
    ensures p.Shaped()
  {
    Position([0, 0, 0, 0, 0, 0, 0, 0, 0], [0, 0, 0, 0, 0, 0, 0, 0, 0], Side.X, None,
             [Outcome.Undecided, Outcome.Undecided, Outcome.Undecided, Outcome.Undecided, Outcome.Undecided,
              Outcome.Undecided, Outcome.Undecided, Outcome.Undecided, Outcome.Undecided])
  }

  /** The empty position satisfies the board invariants and has all 81 tiles free. */
  lemma EmptyPositionInvariants()
    ensures EmptyPosition().InRange() && EmptyPosition().Consistent()
  {
    EmptySquare();
  }

  /** The game of src/main.rs opens with X in the centre of the centre sub-board. */
  lemma CenterOpening()
    ensures var q := Placed(EmptyPosition(), Move(4, 4));
      && q.x == [0, 0, 0, 0, 0x010, 0, 0, 0, 0] && q.o == EmptyPosition().o
      && q.side == Side.O && q.current == Some(4) && q.states == EmptyPosition().states
  {
    var q := Placed(EmptyPosition(), Move(4, 4));
    assert q.x[4] == 0x010;
    WinningIffLineBits(0x010);
    EmptySquare();
  }

  /**
   * check_board_outcome on a position: three cached wins in a row for X
   * (checked first, on states_to_u16 of X) or O; else a draw once no
   * sub-board is undecided.
   */
  function BoardOutcome(p: Position): Outcome
    requires p.Shaped()
  {
    if IsWinning(MetaMask(p.states, Outcome.X)) then Outcome.X
    else if IsWinning(MetaMask(p.states, Outcome.O)) then Outcome.O
    else if AllDecided(p.states) then Outcome.Draw
    else Outcome.Undecided
  }

  /**
   * The match of get_legal_moves on the forced sub-board: its free tiles,
   * or without one the free tiles of every sub-board cached as Undecided
   * (ListedForced and ListedFree say which moves these are).
   */
  function OpenGameMoves(x: seq<Mask>, o: seq<Mask>, current: Option<Cell>, states: seq<Outcome>): (r: seq<Move>)
    requires |x| == 9 && |o| == 9 && |states| == 9
    ensures Ascending(r)
  {
    match current
    case None => OpenSquareMoves(x, o, states, 0)
    case Some(i) => SquaresToMove(i, x[i] | o[i])
  }

  /** get_legal_moves on a position: nothing once the game is decided, else OpenGameMoves. */
  function LegalMoves(p: Position): (r: seq<Move>)
    requires p.Shaped()
    ensures Ascending(r)
  {
    if BoardOutcome(p) != Outcome.Undecided then [] else OpenGameMoves(p.x, p.o, p.current, p.states)
  }

  /** Once the game is decided, get_legal_moves lists nothing. */
  lemma ListedNothingWhenDecided(p: Position)
    requires p.Shaped() && BoardOutcome(p) != Outcome.Undecided
    ensures LegalMoves(p) == []
  {}

  /**
   * While the game is undecided and a sub-board is forced, the listed
   * moves are the tiles of that sub-board that neither side holds.
   */
  lemma ListedForced(p: Position, m: Move)
    requires p.Shaped() && p.current.Some? && BoardOutcome(p) == Outcome.Undecided
    ensures m in LegalMoves(p) <==>
      m.square == p.current.value && !Bit(p.x[p.current.value], m.tile) && !Bit(p.o[p.current.value], m.tile)
  {
    ForcedListing(p);
    SquareMovesFree(p.x, p.o, p.current.value, m);
  }

  lemma ForcedListing(p: Position)
    requires p.Shaped() && p.current.Some? && BoardOutcome(p) == Outcome.Undecided
    ensures LegalMoves(p) == SquaresToMove(p.current.value, p.x[p.current.value] | p.o[p.current.value])
  {}

  /** squares_to_move on the union of sub-board i's masks lists its tiles that neither side holds. */
  lemma SquareMovesFree(x: seq<Mask>, o: seq<Mask>, i: Cell, m: Move)
    requires |x| == 9 && |o| == 9
    ensures m in SquaresToMove(i, x[i] | o[i]) <==> m.square == i && !Bit(x[i], m.tile) && !Bit(o[i], m.tile)
  {
    FreeInBoth(x, o, i, m.tile);
  }

  /**
   * While the game is undecided and no sub-board is forced, the listed
   * moves are the tiles that neither side holds in the sub-boards cached as
   * Undecided.
   */
  lemma ListedFree(p: Position, m: Move)
    requires p.Shaped() && p.current.None? && BoardOutcome(p) == Outcome.Undecided
    ensures m in LegalMoves(p) <==>
      p.states[m.square] == Outcome.Undecided && !Bit(p.x[m.square], m.tile) && !Bit(p.o[m.square], m.tile)
  {
    FreeInBoth(p.x, p.o, m.square, m.tile);
    assert LegalMoves(p) == OpenSquareMoves(p.x, p.o, p.states, 0);
  }

  /** A tile is free in the union of two masks iff it is free in both. */
  lemma FreeInBoth(x: seq<Mask>, o: seq<Mask>, s: Cell, t: Cell)
    requires |x| == 9 && |o| == 9
    ensures !Bit(x[s] | o[s], t) <==> !Bit(x[s], t) && !Bit(o[s], t)
  {
    OrBit(x[s], o[s], t);
  }

  class Board {
    var xBoard: seq<Mask>
    var oBoard: seq<Mask>
    var side: Side
    var currentSquare: Option<Cell>
    var squareStates: seq<Outcome>

    /** The three arrays have nine entries. */
    ghost predicate Valid()
      reads this
    {
      |xBoard| == 9 && |oBoard| == 9 && |squareStates| == 9
    }

    /** The value of the board's fields. */
    function Pos(): (p: Position)
      reads this
      ensures Valid() ==> p.Shaped()
    {
      Position(xBoard, oBoard, side, currentSquare, squareStates)
    }

    /** The bitwise copy `*board` of the Copy struct. */
    constructor Copy(b: Board)
      requires b.Valid()
      ensures Valid()
      ensures xBoard == b.xBoard && oBoard == b.oBoard && side == b.side
      ensures currentSquare == b.currentSquare && squareStates == b.squareStates
    {
      xBoard := b.xBoard;
      oBoard := b.oBoard;
      side := b.side;
      currentSquare := b.currentSquare;
      squareStates := b.squareStates;
    }

    /** The sub-board a move lands in: the forced one if any, else the move's own. */
    function GetSIdx(sIdx: Cell): (r: Cell)
      reads this
      ensures r == Pos().Target(sIdx)
    {
      match currentSquare
      case None => sIdx
      case Some(i) => i
    }

    function CheckSquareOutcome(sIdx: Cell): Outcome
      reads this
      requires Valid()
    {
      SquareOutcome(xBoard[sIdx], oBoard[sIdx])
    }

    /**
     * Plays mov for the side to move, without checking that it is legal
     * (see Placed and the lemmas about it for what that does).
     */
    method Place(mov: Move)
      requires Valid()
      modifies this
      ensures Valid()
      ensures Pos() == Placed(old(Pos()), mov)
    {
      var s := GetSIdx(mov.square);
      var xMoves := side == Side.X;
      // the mover's mask gets `1 << mov.tile` (see TileIsShift), the other one is untouched
      xBoard := AddTile(xBoard, s, mov.tile, xMoves);
      oBoard := AddTile(oBoard, s, mov.tile, !xMoves);
      var outcome := CheckSquareOutcome(s);
      if outcome != Outcome.Undecided {
        squareStates := squareStates[s := outcome];
      }
      currentSquare := if CheckSquareOutcome(mov.tile) == Outcome.Undecided then Some(mov.tile) else None;
      side := side.Swap();
    }

    /**
     * is_legal: the effective sub-board is undecided and the tile is empty
     * in both masks.
     */
    function IsLegal(mov: Move): bool
      reads this
      requires Valid()
    {
      var s := GetSIdx(mov.square);
      CheckSquareOutcome(s) == Outcome.Undecided && !Bit(xBoard[s], mov.tile) && !Bit(oBoard[s], mov.tile)
    }

    /** states_to_u16: bit i set when sub-board i's cached state is outcome. */
    function StatesToU16(outcome: Outcome): (r: Mask)
      reads this
      requires Valid()
      ensures NineBits(r)
      ensures forall i: nat :: i < 9 ==> (Bit(r, i) <==> squareStates[i] == outcome)
    {
      MetaMask(squareStates, outcome)
    }

    /** check_board_outcome: the outcome of the board's position (see BoardOutcome). */
    function CheckBoardOutcome(): Outcome
      reads this
      requires Valid()
    {
      BoardOutcome(Pos())
    }

    /** get_legal_moves: the legal moves of the board's position (see LegalMoves). */
    function GetLegalMoves(): (r: seq<Move>)
      reads this
      requires Valid()
      ensures Ascending(r)
    {
      LegalMoves(Pos())
    }
  }

  /** The masks after the side to move sets tile t of sub-board s. */
  function AddTile(m: seq<Mask>, s: Cell, t: Cell, moves: bool): (r: seq<Mask>)
    requires |m| == 9
    ensures |r| == 9
  {
    if moves then m[s := m[s] | Tile(t)] else m
  }

  /** Setting a tile keeps the masks within nine bits. */
  lemma AddKeepsNineBits(x0: seq<Mask>, o0: seq<Mask>, s: Cell, t: Cell, xMoves: bool)
    requires |x0| == 9 && |o0| == 9 && NineBitMasks(x0, o0)
    ensures NineBitMasks(AddTile(x0, s, t, xMoves), AddTile(o0, s, t, !xMoves))
  {
    TileFacts(t);
    OrNineBits(x0[s], Tile(t));
    OrNineBits(o0[s], Tile(t));
  }

  /** Setting a tile and caching the sub-board's outcome once decided keeps the cache exact. */
  lemma AddKeepsCache(x0: seq<Mask>, o0: seq<Mask>, states0: seq<Outcome>, s: Cell, t: Cell, xMoves: bool)
    requires |x0| == 9 && |o0| == 9 && |states0| == 9 && NineBitMasks(x0, o0)
    requires forall k :: 0 <= k < 9 ==> states0[k] == SquareOutcome(x0[k], o0[k])
    ensures var x, o := AddTile(x0, s, t, xMoves), AddTile(o0, s, t, !xMoves);
      var states := if SquareOutcome(x[s], o[s]) == Outcome.Undecided then states0
                    else states0[s := SquareOutcome(x[s], o[s])];
      forall k :: 0 <= k < 9 ==> states[k] == SquareOutcome(x[k], o[k])
  {
    var x, o := AddTile(x0, s, t, xMoves), AddTile(o0, s, t, !xMoves);
    AddKeepsNineBits(x0, o0, s, t, xMoves);
    if SquareOutcome(x[s], o[s]) == Outcome.Undecided && SquareOutcome(x0[s], o0[s]) != Outcome.Undecided {
      if xMoves {
        SquareOutcomeMonotone(x0[s], o0[s], Tile(t), 0);
      } else {
        SquareOutcomeMonotone(x0[s], o0[s], 0, Tile(t));
      }
    }
  }

  /** What Place keeps: nine-bit masks, an exact cache, and the count of free tiles. */
  lemma PlaceKeeps(x0: seq<Mask>, o0: seq<Mask>, states0: seq<Outcome>, s: Cell, t: Cell, xMoves: bool)
    requires |x0| == 9 && |o0| == 9 && |states0| == 9
    ensures var x, o := AddTile(x0, s, t, xMoves), AddTile(o0, s, t, !xMoves);
      var states := if SquareOutcome(x[s], o[s]) == Outcome.Undecided then states0
                    else states0[s := SquareOutcome(x[s], o[s])];
      && (NineBitMasks(x0, o0) ==> NineBitMasks(x, o))
      && (NineBitMasks(x0, o0) && (forall k :: 0 <= k < 9 ==> states0[k] == SquareOutcome(x0[k], o0[k])) ==>
           forall k :: 0 <= k < 9 ==> states[k] == SquareOutcome(x[k], o[k]))
      && (!Bit(x0[s], t) && !Bit(o0[s], t) ==> FreeCells(x, o) + 1 == FreeCells(x0, o0))
  {
    if NineBitMasks(x0, o0) {
      AddKeepsNineBits(x0, o0, s, t, xMoves);
      if forall k :: 0 <= k < 9 ==> states0[k] == SquareOutcome(x0[k], o0[k]) {
        AddKeepsCache(x0, o0, states0, s, t, xMoves);
      }
    }
    if !Bit(x0[s], t) && !Bit(o0[s], t) {
      AddTakesFree(x0, o0, s, t, xMoves);
    }
  }

  /** Setting a tile that neither mask of sub-board s holds frees one cell fewer. */
  lemma AddTakesFree(x0: seq<Mask>, o0: seq<Mask>, s: Cell, t: Cell, xMoves: bool)
    requires |x0| == 9 && |o0| == 9 && !Bit(x0[s], t) && !Bit(o0[s], t)
    ensures FreeCells(AddTile(x0, s, t, xMoves), AddTile(o0, s, t, !xMoves)) + 1 == FreeCells(x0, o0)
  {
    var x, o := AddTile(x0, s, t, xMoves), AddTile(o0, s, t, !xMoves);
    TakeFree(x0[s], o0[s], x[s], o[s], t);
    FreeCellsTake(x0, o0, x, o, s);
  }

  // ---------------------------------------------------------------------
  // What the board operations mean
  // ---------------------------------------------------------------------

  /** is_legal: the effective sub-board has no line for either side and the tile is empty. */
  lemma IsLegalMeaning(b: Board, mov: Move)
    requires b.Valid() && b.Pos().InRange()
    ensures var s := b.GetSIdx(mov.square);
      b.IsLegal(mov) <==>
        && !ThreeInARow(Cells(b.xBoard[s])) && !ThreeInARow(Cells(b.oBoard[s]))
        && mov.tile !in Cells(b.xBoard[s]) && mov.tile !in Cells(b.oBoard[s])
  {
    var s := b.GetSIdx(mov.square);
    SquareOutcomeMeaning(b.xBoard[s], b.oBoard[s]);
  }

  /** The tiles set by states_to_u16 are the sub-boards with that cached state. */
  lemma StatesToU16Cells(b: Board, outcome: Outcome)
    requires b.Valid()
    ensures Cells(b.StatesToU16(outcome)) == WonBy(b.squareStates, outcome)
  {
    var r := b.StatesToU16(outcome);
    forall i: nat ensures i in Cells(r) <==> i in WonBy(b.squareStates, outcome) {
      if i < 9 {
        assert Bit(r, i) <==> b.squareStates[i] == outcome;
      }
    }
  }

  /**
   * check_board_outcome: a line of sub-boards won by X (checked first), then
   * by O, decides the game; with no such line it is a draw exactly when no
   * sub-board is undecided.
   */
  lemma BoardOutcomeMeaning(b: Board)
    requires b.Valid()
    ensures b.CheckBoardOutcome() == Outcome.X <==> ThreeInARow(WonBy(b.squareStates, Outcome.X))
    ensures b.CheckBoardOutcome() == Outcome.O <==>
      !ThreeInARow(WonBy(b.squareStates, Outcome.X)) && ThreeInARow(WonBy(b.squareStates, Outcome.O))
    ensures b.CheckBoardOutcome() == Outcome.Draw <==>
      && !ThreeInARow(WonBy(b.squareStates, Outcome.X)) && !ThreeInARow(WonBy(b.squareStates, Outcome.O))
      && AllDecided(b.squareStates)
  {
    StatesToU16Cells(b, Outcome.X);
    StatesToU16Cells(b, Outcome.O);
    WinningIffThreeInARow(b.StatesToU16(Outcome.X));
    WinningIffThreeInARow(b.StatesToU16(Outcome.O));
  }

  /** Two boards holding the same position agree on the outcome and on the legal moves. */
  lemma SamePositionSameAnswers(a: Board, b: Board)
    requires a.Valid() && b.Valid()
    ensures a.Pos() == b.Pos() ==>
      a.CheckBoardOutcome() == b.CheckBoardOutcome() && a.GetLegalMoves() == b.GetLegalMoves()
  {}

  /**
   * On a consistent board the listed moves are exactly the legal ones that
   * name the sub-board they land in, while the game is undecided.
   */
  lemma LegalMovesAreLegal(b: Board)
    requires b.Valid() && b.Pos().Consistent()
    ensures forall m :: m in b.GetLegalMoves() <==>
      b.CheckBoardOutcome() == Outcome.Undecided && m.square == b.GetSIdx(m.square) && b.IsLegal(m)
  {
    forall m: Move ensures m in b.GetLegalMoves() <==>
      b.CheckBoardOutcome() == Outcome.Undecided && m.square == b.GetSIdx(m.square) && b.IsLegal(m)
    {
      ListedIffLegal(b, m);
    }
  }

  lemma ListedIffLegal(b: Board, m: Move)
    requires b.Valid() && b.Pos().Consistent()
    ensures m in b.GetLegalMoves() <==>
      b.CheckBoardOutcome() == Outcome.Undecided && m.square == b.GetSIdx(m.square) && b.IsLegal(m)
  {
    var p := b.Pos();
    var s := p.Target(m.square);
    assert b.IsLegal(m) <==> SquareOutcome(p.x[s], p.o[s]) == Outcome.Undecided && !Bit(p.x[s], m.tile) && !Bit(p.o[s], m.tile);
    if BoardOutcome(p) != Outcome.Undecided {
      ListedNothingWhenDecided(p);
    } else if p.current.Some? {
      ListedForced(p, m);
    } else {
      ListedFree(p, m);
      assert p.states[m.square] == SquareOutcome(p.x[m.square], p.o[m.square]);
    }
  }

  /** While a consistent game is undecided, some move is listed. */
  lemma MovesExistWhileUndecided(b: Board)
    requires b.Valid() && b.Pos().InRange() && b.Pos().Consistent()
    requires b.CheckBoardOutcome() == Outcome.Undecided
    ensures b.GetLegalMoves() != []
  {
    var s := OpenTarget(b);
    var t := OpenTile(b, s);
    ListedIffLegal(b, Move(t, s));
  }

  /** A sub-board that a move may target: the forced one, or any undecided one. */
  lemma OpenTarget(b: Board) returns (s: Cell)
    requires b.Valid() && b.Pos().Consistent()
    requires b.CheckBoardOutcome() == Outcome.Undecided
    ensures s == b.GetSIdx(s) && b.CheckSquareOutcome(s) == Outcome.Undecided
  {
    if b.currentSquare.Some? {
      s := b.currentSquare.value;
    } else {
      assert !AllDecided(b.squareStates);
      var k :| 0 <= k < 9 && b.squareStates[k] == Outcome.Undecided;
      s := k;
    }
  }

  /** An undecided sub-board has a tile that neither side holds. */
  lemma OpenTile(b: Board, s: Cell) returns (t: Cell)
    requires b.Valid() && b.Pos().InRange() && b.GetSIdx(s) == s && b.CheckSquareOutcome(s) == Outcome.Undecided
    ensures b.IsLegal(Move(t, s))
  {
    var x, o := b.xBoard[s], b.oBoard[s];
    OrNineBits(x, o);
    t := FreeTileExists(x | o);
    OrBit(x, o, t);
  }

  /** A consistent board without a free tile is decided. */
  lemma FullBoardIsDecided(b: Board)
    requires b.Valid() && b.Pos().InRange() && b.Pos().Consistent()
    ensures b.Pos().Free() == 0 ==> b.CheckBoardOutcome() != Outcome.Undecided
  {
    if b.Pos().Free() == 0 {
      NoFreeCells(b.xBoard, b.oBoard);
      forall k | 0 <= k < 9 ensures b.squareStates[k] != Outcome.Undecided {
        FullIffFilled(b.xBoard[k], b.oBoard[k]);
      }
    }
  }

  lemma ZeroHasNoBits(m: Mask, t: Cell)
    requires m == 0
    ensures !Bit(m, t)
  {}

  lemma {:induction false} NoTilesAllFree(sIdx: Cell, t: nat)
    requires t <= 9
    ensures |FreeTilesFrom(sIdx, 0, t)| == 9 - t
    decreases 9 - t
  {
    if t < 9 {
      assert !Bit(0, t);
      NoTilesAllFree(sIdx, t + 1);
    }
  }

  lemma {:induction false} EmptySquaresAllOpen(x: seq<Mask>, o: seq<Mask>, states: seq<Outcome>, s: nat)
    requires |x| == 9 && |o| == 9 && |states| == 9 && s <= 9
    requires forall k :: 0 <= k < 9 ==> x[k] == 0 && o[k] == 0 && states[k] == Outcome.Undecided
    ensures |OpenSquareMoves(x, o, states, s)| == 9 * (9 - s)
    decreases 9 - s
  {
    if s < 9 {
      assert x[s] | o[s] == 0;
      NoTilesAllFree(s, 0);
      EmptySquaresAllOpen(x, o, states, s + 1);
    }
  }

  lemma EmptyBoardUndecided(b: Board)
    requires b.Valid() && b.Pos() == EmptyPosition()
    ensures b.CheckBoardOutcome() == Outcome.Undecided
  {
    BoardOutcomeMeaning(b);
    assert WonBy(b.squareStates, Outcome.X) == {};
    assert WonBy(b.squareStates, Outcome.O) == {};
    assert b.squareStates[0] == Outcome.Undecided;
  }

  /** On the empty board every one of the 81 moves is listed. */
  lemma EmptyBoardListsAll(b: Board)
    requires b.Valid() && b.Pos() == EmptyPosition()
    ensures forall m: Move :: m in b.GetLegalMoves()
  {
    EmptyBoardUndecided(b);
    forall m: Move ensures m in b.GetLegalMoves() {
      EmptyPositionLists(m);
    }
  }

  lemma EmptyPositionLists(m: Move)
    requires BoardOutcome(EmptyPosition()) == Outcome.Undecided
    ensures m in LegalMoves(EmptyPosition())
  {
    var p := EmptyPosition();
    assert p.x[m.square] == 0 && p.o[m.square] == 0 && p.states[m.square] == Outcome.Undecided;
    ZeroHasNoBits(p.x[m.square], m.tile);
    ZeroHasNoBits(p.o[m.square], m.tile);
    ListedFree(p, m);
  }

  /** On the empty board the listing has 81 entries, so it lists each move once. */
  lemma EmptyBoardCount(b: Board)
    requires b.Valid() && b.Pos() == EmptyPosition()
    ensures |b.GetLegalMoves()| == 81
  {
    EmptyBoardUndecided(b);
    var x, o, states := b.xBoard, b.oBoard, b.squareStates;
    EmptySquaresAllOpen(x, o, states, 0);
  }

  /**
   * A move can stay legal after it is played: from the empty board,
   * Move(tile 2, square 4) sends the opponent to sub-board 2, where the
   * same move now lands on an empty tile.
   */
  lemma PlayedMoveMayStayLegal(b: Board)
    requires b.Valid() && b.Pos() == Placed(EmptyPosition(), Move(2, 4))
    ensures b.IsLegal(Move(2, 4))
  {
    EmptySquare();
    WinningIffLineBits(0x004);
    assert b.xBoard[4] == 0x004;
    assert b.currentSquare == Some(2);
  }
}
