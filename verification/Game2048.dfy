/** The 2048 game: moves in four directions over one grid, spawned tiles, and the score. */
module Game2048 {
  import opened Bands

  const TILE_COUNT := 4

  predicate Direction(dx: int, dy: int) { (dx == 0 && (dy == 1 || dy == -1)) || (dy == 0 && (dx == 1 || dx == -1)) }

  // The cell of band `p` that is `q` steps from the wall.

  function X(dx: int, dy: int, p: int, q: int): int {
    var x := if dx != 0 then q else p;
    if dx > 0 then TILE_COUNT - 1 - x else x
  }

  function Y(dx: int, dy: int, p: int, q: int): int {
    var y := if dx != 0 then p else q;
    if dy > 0 then TILE_COUNT - 1 - y else y
  }

  lemma Neighbour(dx: int, dy: int, p: nat, k: nat)
    requires Direction(dx, dy) && p < TILE_COUNT && k < TILE_COUNT
    ensures var nx, ny := X(dx, dy, p, k) + dx, Y(dx, dy, p, k) + dy;
            if k == 0 then nx < 0 || nx >= TILE_COUNT || ny < 0 || ny >= TILE_COUNT
            else nx == X(dx, dy, p, k - 1) && ny == Y(dx, dy, p, k - 1) && 0 <= nx < TILE_COUNT && 0 <= ny < TILE_COUNT
  {
  }

  type Lines = ls: seq<Band> | |ls| == TILE_COUNT && forall p :: 0 <= p < TILE_COUNT ==> |ls[p]| == TILE_COUNT
    witness [[0, 0, 0, 0], [0, 0, 0, 0], [0, 0, 0, 0], [0, 0, 0, 0]]

  function LinesTotal(f: nat -> int, ls: Lines): int {
    Total(f, ls[0]) + Total(f, ls[1]) + Total(f, ls[2]) + Total(f, ls[3])
  }

  lemma TotalOfFour(f: nat -> int, b: Band)
    requires |b| == 4
    ensures Total(f, b) == f(b[0]) + f(b[1]) + f(b[2]) + f(b[3])
  {
    assert Total(f, b) == Total(f, b[..3]) + f(b[3]);
    assert b[..3][..2] == b[..2] && b[..2][..1] == b[..1] && b[..1][..0] == [];
    assert Total(f, b[..3]) == Total(f, b[..2]) + f(b[2]);
    assert Total(f, b[..2]) == Total(f, b[..1]) + f(b[1]);
    assert Total(f, b[..1]) == Total(f, []) + f(b[0]);
  }

  lemma LinesTotalSet(f: nat -> int, ls: Lines, p: nat, b: Band)
    requires p < TILE_COUNT && |b| == TILE_COUNT
    ensures LinesTotal(f, ls[p := b]) == LinesTotal(f, ls) - Total(f, ls[p]) + Total(f, b)
  {
  }

  function WithLine(ls: Lines, p: nat, b: Band): Lines
    requires p < TILE_COUNT && |b| == TILE_COUNT
  {
    ls[p := b]
  }

  function WithCell(ls: Lines, p: nat, q: nat, v: nat): Lines
    requires p < TILE_COUNT && q < TILE_COUNT
  {
    var b: Band := ls[p];
    WithLine(ls, p, b[q := v])
  }

  function Gain(ls: Lines, n: nat): nat
    requires n <= TILE_COUNT
  {
    if n == 0 then 0 else Gain(ls, n - 1) + SweepBand(ls[n - 1]).gained
  }

  lemma MovedLength(b: Band)
    ensures |Moved(b)| == |b|
  {
    BandMoves(b);
  }

  function MovedLines(ls: Lines): Lines {
    MovedLength(ls[0]); MovedLength(ls[1]); MovedLength(ls[2]); MovedLength(ls[3]);
    [Moved(ls[0]), Moved(ls[1]), Moved(ls[2]), Moved(ls[3])]
  }

  /** A move keeps the sum of the numbers and scores what it builds. */
  lemma MoveLaw(ls: Lines)
    ensures LinesTotal(Face, MovedLines(ls)) == LinesTotal(Face, ls)
    ensures LinesTotal(Points, MovedLines(ls)) == LinesTotal(Points, ls) + Gain(ls, TILE_COUNT)
  {
    hide Total, SweepBand, Moved, Face, Points;
    BandMoves(ls[0]);
    BandMoves(ls[1]);
    BandMoves(ls[2]);
    BandMoves(ls[3]);
    assert Gain(ls, 4) == Gain(ls, 3) + SweepBand(ls[3]).gained;
    assert Gain(ls, 3) == Gain(ls, 2) + SweepBand(ls[2]).gained;
    assert Gain(ls, 2) == Gain(ls, 1) + SweepBand(ls[1]).gained;
    assert Gain(ls, 1) == SweepBand(ls[0]).gained;
  }

  /** The bands of a direction, from the cells of the grid. */
  ghost function LinesFrom(cells: Lines, dx: int, dy: int): (ls: Lines)
    requires Direction(dx, dy)
    ensures forall p, q :: 0 <= p < TILE_COUNT && 0 <= q < TILE_COUNT ==>
            ls[p][q] == cells[X(dx, dy, p, q)][Y(dx, dy, p, q)]
  {
    seq(TILE_COUNT, p requires 0 <= p < TILE_COUNT =>
      seq(TILE_COUNT, q requires 0 <= q < TILE_COUNT => cells[X(dx, dy, p, q)][Y(dx, dy, p, q)]))
  }

  /** The bands of any one direction determine the grid. */
  lemma LinesDetermine(cells: Lines, cells': Lines, dx: int, dy: int)
    requires Direction(dx, dy) && LinesFrom(cells, dx, dy) == LinesFrom(cells', dx, dy)
    ensures cells == cells'
  {
    forall x | 0 <= x < TILE_COUNT ensures cells[x] == cells'[x] {
      forall y | 0 <= y < TILE_COUNT ensures cells[x][y] == cells'[x][y] {
        var p := if dx != 0 then y else x;
        var q := if dx > 0 then TILE_COUNT - 1 - x else if dx < 0 then x else if dy > 0 then TILE_COUNT - 1 - y else y;
        assert X(dx, dy, p, q) == x && Y(dx, dy, p, q) == y;
        assert LinesFrom(cells, dx, dy)[p][q] == LinesFrom(cells', dx, dy)[p][q];
      }
    }
  }

  /** A turn: the move, then a new tile if there is room. */
  ghost predicate Turn(was: Lines, cells: Lines, dx: int, dy: int, v: nat)
    requires Direction(dx, dy)
  {
    exists mid: Lines :: LinesFrom(mid, dx, dy) == MovedLines(LinesFrom(was, dx, dy)) && if Full(mid) then cells == mid
      else Spawned(mid, cells, v)
  }

  /** A move would change the grid. */
  ghost predicate CanMove(cells: Lines, dx: int, dy: int)
    requires Direction(dx, dy)
  {
    MovedLines(LinesFrom(cells, dx, dy)) != LinesFrom(cells, dx, dy)
  }

  ghost predicate Full(cells: Lines) { forall x, y :: 0 <= x < TILE_COUNT && 0 <= y < TILE_COUNT ==> cells[x][y] != 0 }

  ghost predicate RowFull(cells: Lines, x: nat, n: nat)
    requires x < TILE_COUNT && n <= TILE_COUNT
  {
    forall y :: 0 <= y < n ==> cells[x][y] != 0
  }

  lemma FullRows(cells: Lines)
    ensures Full(cells) <==> forall k :: 0 <= k < TILE_COUNT ==> RowFull(cells, k, TILE_COUNT)
  {
    if forall k :: 0 <= k < TILE_COUNT ==> RowFull(cells, k, TILE_COUNT) {
      forall x, y | 0 <= x < TILE_COUNT && 0 <= y < TILE_COUNT ensures cells[x][y] != 0 {
        assert RowFull(cells, x, TILE_COUNT);
      }
    }
  }

  /** Exactly one empty cell has been filled. */
  ghost predicate Spawned(was: Lines, cells: Lines, v: nat) {
    exists x: nat, y: nat :: x < TILE_COUNT && y < TILE_COUNT && was[x][y] == 0 && cells == WithCell(was, x, y, v)
  }

  /** No move in any direction changes the grid. */
  ghost predicate Stuck(cells: Lines) {
    !CanMove(cells, -1, 0) && !CanMove(cells, 1, 0) && !CanMove(cells, 0, -1) && !CanMove(cells, 0, 1)
  }

  const EMPTY: Lines := [[0, 0, 0, 0], [0, 0, 0, 0], [0, 0, 0, 0], [0, 0, 0, 0]]

  lemma EmptyScore()
    ensures LinesTotal(Points, EMPTY) == 0 && !Full(EMPTY)
  {
    TotalOfFour(Points, [0, 0, 0, 0]);
    assert EMPTY[0][0] == 0;
  }

  /** A new tile scores nothing, though a four is worth what building it would have scored. */
  lemma SpawnScore(was: Lines, x: nat, y: nat, v: nat)
    requires x < TILE_COUNT && y < TILE_COUNT && was[x][y] == 0 && (v == 1 || v == 2)
    ensures LinesTotal(Points, WithCell(was, x, y, v)) == LinesTotal(Points, was) + if v == 2 then 4 else 0
  {
    assert Points(0) == 0 && Points(1) == 0 && Points(2) == 4;
    TotalSet(Points, was[x], y, v);
    hide Points, Total;
    LinesTotalSet(Points, was, x, WithCell(was, x, y, v)[x]);
  }

  /** Room for every tile, and one that is spawned. */
  const ANIMATIONS := TILE_COUNT * TILE_COUNT + 1

  ghost predicate PartlyMoved(was: Lines, ls: Lines, n: nat) {
    forall p :: 0 <= p < TILE_COUNT ==> ls[p] == if p < n then Moved(was[p]) else was[p]
  }

  lemma AllMoved(was: Lines, ls: Lines)
    requires PartlyMoved(was, ls, TILE_COUNT)
    ensures ls == MovedLines(was)
    ensures MovedLines(was) != was <==> !(forall r :: 0 <= r < TILE_COUNT ==> ls[r] == was[r])
  {
    hide Moved;
    assert forall p :: 0 <= p < TILE_COUNT ==> ls[p] == MovedLines(was)[p];
  }

  class Game {
    const grid: array2<nat>
    var score: int
    var highScore: int
    var animatingTileCount: nat
    /** How many tiles were spawned as fours rather than twos. */
    ghost var fours: nat

    /** The instance before the first game: an empty grid and no score. */
    constructor ()
      ensures Valid() && Cells() == EMPTY && score == 0 && highScore == 0 && fresh(grid)
    {
      grid := new nat[TILE_COUNT, TILE_COUNT]((_, _) => 0);
      score, highScore, animatingTileCount, fours := 0, 0, 0, 0;
      new;
      EmptyScore();
      forall i | 0 <= i < TILE_COUNT ensures Cells()[i] == EMPTY[i] {
        assert forall j :: 0 <= j < TILE_COUNT ==> Cells()[i][j] == EMPTY[i][j];
      }
    }

    ghost predicate Shaped() { grid.Length0 == TILE_COUNT && grid.Length1 == TILE_COUNT }

    /** The bands as a move in a direction sees them. */
    ghost function LinesOf(dx: int, dy: int): (ls: Lines)
      requires Shaped() && Direction(dx, dy)
      reads grid
      ensures forall p, q :: 0 <= p < TILE_COUNT && 0 <= q < TILE_COUNT ==>
              ls[p][q] == grid[X(dx, dy, p, q), Y(dx, dy, p, q)]
    {
      seq(TILE_COUNT, p requires 0 <= p < TILE_COUNT reads grid =>
        seq(TILE_COUNT, q requires 0 <= q < TILE_COUNT reads grid => grid[X(dx, dy, p, q), Y(dx, dy, p, q)]))
    }

    ghost function Cells(): Lines
      requires Shaped()
      reads grid
    {
      LinesOf(0, -1)
    }

    /** The score is what building the tiles scores, less four for every four that was spawned rather than built. */
    ghost predicate Valid()
      reads this, grid
    {
      Shaped() && score == LinesTotal(Points, Cells()) - 4 * fours
    }

    /** All directions see the same tiles. */
    lemma SameTotal(f: nat -> int, dx: int, dy: int)
      requires Shaped() && Direction(dx, dy)
      ensures LinesTotal(f, LinesOf(dx, dy)) == LinesTotal(f, Cells())
    {
      var ls, cs := LinesOf(dx, dy), Cells();
      hide Total;
      TotalOfFour(f, ls[0]); TotalOfFour(f, ls[1]); TotalOfFour(f, ls[2]); TotalOfFour(f, ls[3]);
      TotalOfFour(f, cs[0]); TotalOfFour(f, cs[1]); TotalOfFour(f, cs[2]); TotalOfFour(f, cs[3]);
    }

    method Put(dx: int, dy: int, p: nat, q: nat, v: nat)
      requires Shaped() && Direction(dx, dy) && p < TILE_COUNT && q < TILE_COUNT
      modifies grid
      ensures LinesOf(dx, dy) == WithCell(old(LinesOf(dx, dy)), p, q, v)
    {
      grid[X(dx, dy, p, q), Y(dx, dy, p, q)] := v;
      ghost var ls, after := LinesOf(dx, dy), WithCell(old(LinesOf(dx, dy)), p, q, v);
      forall p' | 0 <= p' < TILE_COUNT ensures ls[p'] == after[p'] {
        assert forall q' :: 0 <= q' < TILE_COUNT ==> ls[p'][q'] == after[p'][q'];
      }
    }

    /** The tile at `k` goes to the next cell, as `w`. */
    method MoveCell(dx: int, dy: int, p: nat, k: nat, w: nat)
      requires Shaped() && Direction(dx, dy) && p < TILE_COUNT && 0 < k < TILE_COUNT
      modifies grid
      ensures LinesOf(dx, dy) == WithLine(old(LinesOf(dx, dy)), p, Shifted(old(LinesOf(dx, dy))[p], k, w))
    {
      hide LinesOf;
      ghost var was := LinesOf(dx, dy);
      Put(dx, dy, p, k - 1, w);
      Put(dx, dy, p, k, 0);
      WithCells(was, p, k, w);
    }

    /** One round of the inner loop: the tile slides or merges one cell further, or is stopped. */
    method StepTile(dx: int, dy: int, p: nat, k: nat, merged: bool, speculative: bool, ghost s: Sweep)
      returns (stopped: bool, doneMerge: bool)
      requires Shaped() && Direction(dx, dy) && p < TILE_COUNT && k < TILE_COUNT
      requires s.band == LinesOf(dx, dy)[p] && s.merged == merged && s.band[k] != 0
      modifies grid, `score
      ensures stopped == Halted(s, k)
      ensures stopped ==> LinesOf(dx, dy) == old(LinesOf(dx, dy)) && doneMerge == merged && score == old(score)
      ensures !stopped ==>
        && LinesOf(dx, dy) == WithLine(old(LinesOf(dx, dy)), p, Stepped(s, k).band) && doneMerge == Stepped(s, k).merged
        && score == old(score) + if speculative then 0 else Stepped(s, k).gained - s.gained
    {
      hide LinesOf, Pow2, X, Y, Direction;
      Neighbour(dx, dy, p, k);
      CellOf(dx, dy, p, k);
      var x, y := X(dx, dy, p, k), Y(dx, dy, p, k);
      var nx, ny := x + dx, y + dy;
      doneMerge, stopped := merged, true;
      if nx < 0 || nx >= TILE_COUNT { return; }
      if ny < 0 || ny >= TILE_COUNT { return; }
      CellOf(dx, dy, p, k - 1);
      var v := grid[x, y];
      if grid[nx, ny] != 0 {
        if grid[nx, ny] != v { return; }
        if doneMerge { return; }
        MoveCell(dx, dy, p, k, v + 1);
        doneMerge := true;
        if !speculative { score := score + Pow2(v + 1); }
      } else {
        MoveCell(dx, dy, p, k, v);
      }
      stopped := false;
    }

    /** The inner loop: one tile goes on until it is stopped. */
    method PushTile(dx: int, dy: int, p: nat, q: nat, merged: bool, moved: bool, speculative: bool, ghost start: Sweep)
      returns (doneMerge: bool, moves: bool)
      requires Shaped() && Direction(dx, dy) && p < TILE_COUNT && q < TILE_COUNT
      requires start.band == LinesOf(dx, dy)[p] && start.merged == merged && start.moves == moved && start.band[q] != 0
      modifies grid, `score
      ensures var u := Push(start, q);
              && LinesOf(dx, dy) == WithLine(old(LinesOf(dx, dy)), p, u.band)
              && doneMerge == u.merged && moves == u.moves
              && score == old(score) + if speculative then 0 else u.gained - start.gained
    {
      hide Push, LinesOf, Pow2, Halted;
      ghost var was := LinesOf(dx, dy);
      ghost var s := start;
      ghost var u := Push(s, q);
      doneMerge, moves := merged, moved;
      var k := q;
      SameLine(was, p);
      while true
        invariant 0 <= k <= q && |s.band| == TILE_COUNT && LinesOf(dx, dy) == WithLine(was, p, s.band) && s.band[k] != 0
        invariant Push(s, k) == u && doneMerge == s.merged && moves == s.moves
        invariant score == old(score) + if speculative then 0 else s.gained - start.gained
        decreases k
      {
        PushUnfolds(s, k);
        LineTwice(was, p, s.band);
        var stopped;
        stopped, doneMerge := StepTile(dx, dy, p, k, doneMerge, speculative, s);
        if stopped { break; }
        SteppedTile(s, k);
        s := Stepped(s, k);
        k := k - 1;
        moves := true;
      }
    }

    /** One band: its cells in order from the wall. */
    method MoveBand(dx: int, dy: int, p: nat, moved: bool, speculative: bool) returns (moves: bool)
      requires Shaped() && Direction(dx, dy) && p < TILE_COUNT
      requires !speculative ==> animatingTileCount + TILE_COUNT <= ANIMATIONS
      modifies grid, `score, `animatingTileCount
      ensures var u := SweepBand(old(LinesOf(dx, dy))[p]);
              && LinesOf(dx, dy) == WithLine(old(LinesOf(dx, dy)), p, u.band) && moves == (moved || u.moves)
              && score == old(score) + if speculative then 0 else u.gained
      ensures animatingTileCount <= old(animatingTileCount) + if speculative then 0 else TILE_COUNT
    {
      hide LinesOf, Push, X, Y, Direction;
      ghost var was := LinesOf(dx, dy);
      ghost var s := Sweep(was[p], false, 0, false);
      var doneMerge := false;
      var changed := false;
      SameLine(was, p);
      for q := 0 to TILE_COUNT
        invariant |s.band| == TILE_COUNT && LinesOf(dx, dy) == WithLine(was, p, s.band)
                  && SweepFrom(s, q) == SweepBand(was[p])
        invariant doneMerge == s.merged && changed == s.moves
        invariant score == old(score) + if speculative then 0 else s.gained
        invariant animatingTileCount <= old(animatingTileCount) + if speculative then 0 else q
      {
        CellOf(dx, dy, p, q);
        LineTwice(was, p, s.band);
        if grid[X(dx, dy, p, q), Y(dx, dy, p, q)] != 0 {
          doneMerge, changed := PushTile(dx, dy, p, q, doneMerge, changed, speculative, s);
          if !speculative { animatingTileCount := animatingTileCount + 1; }
        }
        s := Advance(s, q);
      }
      moves := moved || changed;
    }

    /** All bands of a direction. */
    method MoveBands(dx: int, dy: int, speculative: bool) returns (moves: bool)
      requires Shaped() && Direction(dx, dy)
      requires !speculative ==> animatingTileCount + TILE_COUNT * TILE_COUNT <= ANIMATIONS
      modifies grid, `score, `animatingTileCount
      ensures LinesOf(dx, dy) == MovedLines(old(LinesOf(dx, dy)))
              && moves == (MovedLines(old(LinesOf(dx, dy))) != old(LinesOf(dx, dy)))
      ensures score == old(score) + if speculative then 0 else Gain(old(LinesOf(dx, dy)), TILE_COUNT)
      ensures animatingTileCount <= old(animatingTileCount) + if speculative then 0 else TILE_COUNT * TILE_COUNT
    {
      hide LinesOf, SweepBand, Moved, Direction;
      ghost var was := LinesOf(dx, dy);
      moves := false;
      for p := 0 to TILE_COUNT
        invariant PartlyMoved(was, LinesOf(dx, dy), p)
                  && moves == !(forall r :: 0 <= r < p ==> LinesOf(dx, dy)[r] == was[r])
        invariant score == old(score) + if speculative then 0 else Gain(was, p)
        invariant animatingTileCount <= old(animatingTileCount) + if speculative then 0 else p * TILE_COUNT
      {
        BandMoves(was[p]);
        moves := MoveBand(dx, dy, p, moves, speculative);
      }
      AllMoved(was, LinesOf(dx, dy));
    }

    lemma LinesFromCells(dx: int, dy: int)
      requires Shaped() && Direction(dx, dy)
      ensures LinesOf(dx, dy) == LinesFrom(Cells(), dx, dy)
    {
      forall p | 0 <= p < TILE_COUNT ensures LinesOf(dx, dy)[p] == LinesFrom(Cells(), dx, dy)[p] {
        assert forall q :: 0 <= q < TILE_COUNT ==> LinesOf(dx, dy)[p][q] == LinesFrom(Cells(), dx, dy)[p][q];
      }
    }

    method SaveGrid() returns (undo: array2<nat>)
      requires Shaped()
      ensures fresh(undo) && undo.Length0 == TILE_COUNT && undo.Length1 == TILE_COUNT
      ensures forall i, j :: 0 <= i < TILE_COUNT && 0 <= j < TILE_COUNT ==> undo[i, j] == Cells()[i][j]
    {
      undo := new nat[TILE_COUNT, TILE_COUNT];
      forall i, j | 0 <= i < TILE_COUNT && 0 <= j < TILE_COUNT { undo[i, j] := grid[i, j]; }
    }

    method RestoreGrid(undo: array2<nat>, ghost cells: Lines)
      requires Shaped() && undo != grid && undo.Length0 == TILE_COUNT && undo.Length1 == TILE_COUNT
      requires forall i, j :: 0 <= i < TILE_COUNT && 0 <= j < TILE_COUNT ==> undo[i, j] == cells[i][j]
      modifies grid
      ensures Cells() == cells
    {
      forall i, j | 0 <= i < TILE_COUNT && 0 <= j < TILE_COUNT { grid[i, j] := undo[i, j]; }
      forall i | 0 <= i < TILE_COUNT ensures Cells()[i] == cells[i] {
        assert forall j :: 0 <= j < TILE_COUNT ==> Cells()[i][j] == cells[i][j];
      }
    }

    /** `MoveTiles`: tells whether the grid changes; a speculative call leaves it as it was. */
    method MoveTiles(dx: int, dy: int, speculative: bool) returns (validMove: bool)
      requires Valid() && Direction(dx, dy)
      requires !speculative ==> animatingTileCount + TILE_COUNT * TILE_COUNT <= ANIMATIONS
      modifies grid, `score, `animatingTileCount
      ensures Valid() && validMove == CanMove(old(Cells()), dx, dy)
      ensures LinesTotal(Face, Cells()) == LinesTotal(Face, old(Cells()))
      ensures speculative ==> Cells() == old(Cells()) && score == old(score)
                              && animatingTileCount <= old(animatingTileCount)
      ensures !speculative ==> LinesFrom(Cells(), dx, dy) == MovedLines(LinesFrom(old(Cells()), dx, dy))
                               && animatingTileCount <= old(animatingTileCount) + TILE_COUNT * TILE_COUNT
    {
      hide LinesOf, LinesFrom, Moved, Gain, LinesTotal, MovedLines, Cells;
      var undo := SaveGrid();
      SameTotal(Points, dx, dy);
      SameTotal(Face, dx, dy);
      MoveLaw(LinesOf(dx, dy));
      LinesFromCells(dx, dy);
      validMove := MoveBands(dx, dy, speculative);
      if speculative {
        RestoreGrid(undo, old(Cells()));
      } else {
        SameTotal(Points, dx, dy);
        SameTotal(Face, dx, dy);
        LinesFromCells(dx, dy);
      }
    }

    method PlaceTile(x: nat, y: nat, four: bool)
      requires Valid() && x < TILE_COUNT && y < TILE_COUNT && grid[x, y] == 0
      modifies grid, `fours
      ensures Valid() && Spawned(old(Cells()), Cells(), if four then 2 else 1)
              && fours == old(fours) + if four then 1 else 0
    {
      hide LinesOf, LinesTotal;
      var v := if four then 2 else 1;
      CellOf(0, -1, x, y);
      SpawnScore(Cells(), x, y, v);
      Put(0, -1, x, y, v);
      fours := fours + if four then 1 else 0;
    }

    method FindFull() returns (full: bool)
      requires Shaped()
      ensures full == Full(Cells())
    {
      ghost var cells := Cells();
      full := true;
      for i := 0 to TILE_COUNT
        invariant full == forall k :: 0 <= k < i ==> RowFull(cells, k, TILE_COUNT)
      {
        ghost var before := full;
        for j := 0 to TILE_COUNT
          invariant full == (before && RowFull(cells, i, j))
        {
          assert cells[i][j] == grid[i, j];
          if grid[i, j] == 0 {
            full := false;
          }
        }
      }
      FullRows(cells);
    }

    /** The four speculative moves at the end of `SpawnTile`. */
    method NoMoves() returns (over: bool)
      requires Valid()
      modifies grid, `score, `animatingTileCount
      ensures Valid() && Cells() == old(Cells()) && score == old(score) && animatingTileCount <= old(animatingTileCount)
      ensures over == Stuck(Cells())
    {
      hide LinesOf, MovedLines, LinesTotal, CanMove, Cells;
      var moves := MoveTiles(-1, 0, true);
      if !moves {
        moves := MoveTiles(1, 0, true);
      }
      if !moves {
        moves := MoveTiles(0, -1, true);
      }
      if !moves {
        moves := MoveTiles(0, 1, true);
      }
      over := !moves;
    }

    /** `SpawnTile`: fills an empty cell, if there is one, and then tells whether the game is over. */
    method SpawnTile(four: bool) returns (over: bool)
      requires Valid() && animatingTileCount < ANIMATIONS
      modifies grid, `score, `animatingTileCount, `fours
      ensures Valid() && score == old(score) && animatingTileCount <= old(animatingTileCount) + 1
      ensures Full(old(Cells())) ==> !over && Cells() == old(Cells()) && fours == old(fours)
      ensures !Full(old(Cells())) ==> Spawned(old(Cells()), Cells(), if four then 2 else 1) && over == Stuck(Cells())
                                      && fours == old(fours) + if four then 1 else 0
    {
      over := false;
      var full := FindFull();
      if full {
        return;
      }
      assert exists x: nat, y: nat :: x < TILE_COUNT && y < TILE_COUNT && grid[x, y] == 0 by {
        var x: nat, y: nat :| x < TILE_COUNT && y < TILE_COUNT && Cells()[x][y] == 0;
        assert grid[x, y] == 0;
      }
      hide LinesTotal, Cells, Spawned, Stuck;
      var x: nat, y: nat :| x < TILE_COUNT && y < TILE_COUNT && grid[x, y] == 0;
      PlaceTile(x, y, four);
      animatingTileCount := animatingTileCount + 1;
      over := NoMoves();
    }

    /** `Update`: a move, and if it changes the grid a new tile. */
    method Update(dx: int, dy: int, four: bool) returns (over: bool)
      requires Valid() && (Direction(dx, dy) || (dx == 0 && dy == 0))
      modifies this, grid
      ensures Valid() && animatingTileCount <= ANIMATIONS
      ensures dx == 0 && dy == 0 ==> Cells() == old(Cells()) && score == old(score) && fours == old(fours)
                                     && animatingTileCount == 0
      ensures Direction(dx, dy) && !CanMove(old(Cells()), dx, dy) ==>
              Cells() == old(Cells()) && score == old(score) && fours == old(fours)
      ensures Direction(dx, dy) && CanMove(old(Cells()), dx, dy) ==>
              Turn(old(Cells()), Cells(), dx, dy, if four then 2 else 1)
      ensures highScore >= old(highScore)
    {
      hide LinesTotal, Cells, Spawned, Stuck, LinesFrom, MovedLines, Full;
      over := false;
      animatingTileCount := 0;
      if dx != 0 || dy != 0 {
        var moved := MoveTiles(dx, dy, false);
        if !moved {
          LinesDetermine(Cells(), old(Cells()), dx, dy);
          return;
        }
        over := SpawnTile(four);
      }
      if score > highScore {
        highScore := score;
      }
    }

    /** `NewGameCommand`: an empty grid with one tile. */
    method NewGame(four: bool)
      requires Shaped()
      modifies this, grid
      ensures Valid() && score == 0 && Spawned(EMPTY, Cells(), if four then 2 else 1)
    {
      forall i, j | 0 <= i < TILE_COUNT && 0 <= j < TILE_COUNT { grid[i, j] := 0; }
      score := 0;
      fours := 0;
      EmptyScore();
      forall i | 0 <= i < TILE_COUNT ensures Cells()[i] == EMPTY[i] {
        assert forall j :: 0 <= j < TILE_COUNT ==> Cells()[i][j] == EMPTY[i][j];
      }
      assert Cells() == EMPTY;
      hide LinesTotal, Cells, Spawned, Stuck;
      var over := Update(0, 0, four);
      over := SpawnTile(four);
    }

    lemma CellOf(dx: int, dy: int, p: nat, q: nat)
      requires Shaped() && Direction(dx, dy) && p < TILE_COUNT && q < TILE_COUNT
      ensures 0 <= X(dx, dy, p, q) < TILE_COUNT && 0 <= Y(dx, dy, p, q) < TILE_COUNT
      ensures LinesOf(dx, dy)[p][q] == grid[X(dx, dy, p, q), Y(dx, dy, p, q)]
    {
    }
  }

  function Shifted(b: Band, k: nat, w: nat): (r: Band)
    requires |b| == TILE_COUNT && 0 < k < TILE_COUNT
    ensures |r| == TILE_COUNT
  {
    b[k - 1 := w][k := 0]
  }

  lemma WithCells(ls: Lines, p: nat, k: nat, w: nat)
    requires p < TILE_COUNT && 0 < k < TILE_COUNT
    ensures WithCell(WithCell(ls, p, k - 1, w), p, k, 0) == WithLine(ls, p, Shifted(ls[p], k, w))
  {
  }

  lemma LineTwice(ls: Lines, p: nat, b: Band)
    requires p < TILE_COUNT && |b| == TILE_COUNT
    ensures WithLine(ls, p, b)[p] == b
    ensures forall c: Band :: |c| == TILE_COUNT ==> WithLine(WithLine(ls, p, b), p, c) == WithLine(ls, p, c)
  {
  }

  lemma SteppedTile(s: Sweep, k: nat)
    requires k < |s.band| && !Halted(s, k) && s.band[k] != 0
    ensures k > 0 && |Stepped(s, k).band| == |s.band| && Stepped(s, k).band[k - 1] != 0 && Stepped(s, k).moves
  {
  }

  lemma SameLine(ls: Lines, p: nat)
    requires p < TILE_COUNT
    ensures WithLine(ls, p, ls[p]) == ls
  {
  }
}
