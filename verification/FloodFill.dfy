/**
  * The fill tool: a scanline flood fill over an explicit stack of seed points.
  *
  * `Walk` and `FillStep` say what one pass does to the set of cells that still have the old colour and to
  * the stack. The methods below run the pixel loops and are proved to follow them.
  */
module FloodFill {
  import opened Region
  import opened PaintTargets

  datatype Walked = Walked(cells: set<Point>, seeds: seq<Point>, end: int)

  function Above(p: Point, d: int): Point { Point(p.x, p.y + d) }

  function Next(p: Point, delta: int): Point { Point(p.x + delta, p.y) }

  ghost function NewSeeds(cells: set<Point>, p: Point, above: bool, below: bool): seq<Point> {
    (if Above(p, -1) in cells && !above then [Above(p, -1)] else []) +
    (if Above(p, 1) in cells && !below then [Above(p, 1)] else [])
  }

  /**
    * Paint from `p` in direction `delta` while the cell has the old colour. A neighbour in the row above or
    * below becomes a seed when it has the old colour and the neighbour before it did not.
    */
  ghost function Walk(cells: set<Point>, p: Point, delta: int, above: bool, below: bool): Walked
    decreases cells
  {
    if p !in cells then Walked(cells, [], p.x) else
    var rest := Walk(cells - {p}, Next(p, delta), delta, Above(p, -1) in cells, Above(p, 1) in cells);
    Walked(rest.cells, NewSeeds(cells, p, above, below) + rest.seeds, rest.end)
  }

  /** Pop one seed and paint its run, first to the left and then to the right. */
  ghost function FillStep(cells: set<Point>, s: Point): Walked {
    var left := Walk(cells, s, -1, false, false);
    var right := Walk(left.cells, Next(s, 1), 1, false, false);
    Walked(right.cells, left.seeds + right.seeds, right.end)
  }

  /** Cells `lo <= x < hi` of row `y`. */
  ghost function Strip(y: int, lo: int, hi: int): set<Point> {
    set x | lo <= x < hi :: Point(x, y)
  }

  lemma {:induction false} WalkPaintsStrip(cells: set<Point>, p: Point, delta: int, above: bool, below: bool)
    requires delta == 1 || delta == -1
    ensures var w := Walk(cells, p, delta, above, below);
            var strip := if delta == 1 then Strip(p.y, p.x, w.end) else Strip(p.y, w.end + 1, p.x + 1);
            && (if delta == 1 then p.x <= w.end else w.end <= p.x)
            && strip <= cells && w.cells == cells - strip && Point(w.end, p.y) !in cells
    decreases cells
  {
    if p in cells {
      WalkPaintsStrip(cells - {p}, Next(p, delta), delta, Above(p, -1) in cells, Above(p, 1) in cells);
      assert p == Point(p.x, p.y);
    } else {
      assert p == Point(p.x, p.y);
    }
  }

  /** `a` and `b` lie in one unbroken horizontal run of `cells`. */
  ghost predicate SameRun(cells: set<Point>, a: Point, b: Point) {
    a.y == b.y && forall x :: a.x <= x <= b.x || b.x <= x <= a.x ==> Point(x, a.y) in cells
  }

  /** Some seed will reach `q` by scanning along its row. */
  ghost predicate Seeded(cells: set<Point>, stack: seq<Point>, q: Point) {
    exists i :: 0 <= i < |stack| && SameRun(cells, stack[i], q)
  }

  lemma {:induction false} WalkSeedsBesidePaint(cells: set<Point>, p: Point, delta: int, above: bool, below: bool,
      s: Point)
    requires delta == 1 || delta == -1
    requires s in Walk(cells, p, delta, above, below).seeds
    ensures s in cells
    ensures exists d, q :: (d == -1 || d == 1) && q in cells - Walk(cells, p, delta, above, below).cells
                           && s == Above(q, d)
    decreases cells
  {
    var rest := Walk(cells - {p}, Next(p, delta), delta, Above(p, -1) in cells, Above(p, 1) in cells);
    WalkPaintsStrip(cells - {p}, Next(p, delta), delta, Above(p, -1) in cells, Above(p, 1) in cells);
    if s in NewSeeds(cells, p, above, below) {
      assert p in cells - Walk(cells, p, delta, above, below).cells;
      assert s == Above(p, -1) || s == Above(p, 1);
    } else {
      assert s in rest.seeds;
      WalkSeedsBesidePaint(cells - {p}, Next(p, delta), delta, Above(p, -1) in cells, Above(p, 1) in cells, s);
    }
  }

  ghost predicate RowKept(cells: set<Point>, cells': set<Point>, y: int) {
    forall p: Point :: p.y == y && p in cells ==> p in cells'
  }

  lemma SeededBefore(cells: set<Point>, cells': set<Point>, seeds: seq<Point>, more: seq<Point>, q: Point)
    requires Seeded(cells, seeds, q) && RowKept(cells, cells', q.y)
    ensures Seeded(cells', seeds + more, q)
  {
    var i :| 0 <= i < |seeds| && SameRun(cells, seeds[i], q);
    assert SameRun(cells', (seeds + more)[i], q);
  }

  lemma SeededAfter(cells: set<Point>, cells': set<Point>, more: seq<Point>, seeds: seq<Point>, q: Point)
    requires Seeded(cells, seeds, q) && RowKept(cells, cells', q.y)
    ensures Seeded(cells', more + seeds, q)
  {
    var i :| 0 <= i < |seeds| && SameRun(cells, seeds[i], q);
    assert SameRun(cells', (more + seeds)[|more| + i], q);
  }

  /** The neighbour of the first cell becomes a seed when its run was not entered before. */
  lemma WalkEntersRun(cells: set<Point>, p: Point, delta: int, above: bool, below: bool, d: int, q: Point)
    requires (d == 1 || d == -1) && p in cells && SameRun(cells, Above(p, d), q) && !(if d == -1 then above else below)
    ensures Seeded(cells, Walk(cells, p, delta, above, below).seeds, q)
  {
    var first, seeds := NewSeeds(cells, p, above, below), Walk(cells, p, delta, above, below).seeds;
    assert Above(p, d) == Point(p.x, p.y + d) && Above(p, d) in cells;
    var i := if d == 1 then |first| - 1 else 0;
    assert first[i] == Above(p, d) && seeds[i] == first[i];
  }

  /** A cell of the neighbouring row next to a painted cell is seeded, or in the run that was entered already. */
  lemma {:induction false} WalkSeedsRow(cells: set<Point>, p: Point, delta: int, above: bool, below: bool, d: int,
                                        x: int)
    requires (delta == 1 || delta == -1) && (d == 1 || d == -1)
    requires Point(x, p.y) in cells - Walk(cells, p, delta, above, below).cells && Point(x, p.y + d) in cells
    ensures var q := Point(x, p.y + d);
            || Seeded(cells, Walk(cells, p, delta, above, below).seeds, q)
            || ((if d == -1 then above else below) && SameRun(cells, Above(p, d), q))
    decreases cells
  {
    hide Seeded;
    var q, entered := Point(x, p.y + d), if d == -1 then above else below;
    var up, down := Above(p, -1) in cells, Above(p, 1) in cells;
    if x == p.x {
      assert SameRun(cells, Above(p, d), q);
      if !entered { WalkEntersRun(cells, p, delta, above, below, d, q); }
    } else {
      var rest := Walk(cells - {p}, Next(p, delta), delta, up, down);
      WalkSeedsRow(cells - {p}, Next(p, delta), delta, up, down, d, x);
      if Seeded(cells - {p}, rest.seeds, q) {
        SeededAfter(cells - {p}, cells, NewSeeds(cells, p, above, below), rest.seeds, q);
      } else {
        WalkPaintsStrip(cells - {p}, Next(p, delta), delta, up, down);
        assert SameRun(cells, Above(p, d), q);
        if !entered { WalkEntersRun(cells, p, delta, above, below, d, q); }
      }
    }
  }

  /** The run through `s`, as the two walks find it. */
  ghost function RunLo(cells: set<Point>, s: Point): int { Walk(cells, s, -1, false, false).end + 1 }

  ghost function RunHi(cells: set<Point>, s: Point): int { FillStep(cells, s).end }

  /** One step paints the maximal run through the seed. */
  lemma FillStepPaintsRun(cells: set<Point>, s: Point)
    requires s in cells
    ensures var lo, hi := RunLo(cells, s), RunHi(cells, s);
            && lo <= s.x < hi
            && Strip(s.y, lo, hi) <= cells && FillStep(cells, s).cells == cells - Strip(s.y, lo, hi)
            && Point(lo - 1, s.y) !in cells && Point(hi, s.y) !in cells
  {
    var lo, hi := RunLo(cells, s), RunHi(cells, s);
    WalkPaintsStrip(cells, s, -1, false, false);
    WalkPaintsStrip(Walk(cells, s, -1, false, false).cells, Next(s, 1), 1, false, false);
    assert s == Point(s.x, s.y);
    assert Strip(s.y, lo, hi) == Strip(s.y, lo, s.x + 1) + Strip(s.y, s.x + 1, hi);
  }

  lemma FillStepSeedsBeside(cells: set<Point>, s: Point, seed: Point)
    requires s in cells && seed in FillStep(cells, s).seeds
    ensures seed in cells && RunLo(cells, s) <= seed.x < RunHi(cells, s) && (seed.y == s.y - 1 || seed.y == s.y + 1)
  {
    var left := Walk(cells, s, -1, false, false);
    FillStepPaintsRun(cells, s);
    WalkPaintsStrip(cells, s, -1, false, false);
    if seed in left.seeds {
      WalkSeedsBesidePaint(cells, s, -1, false, false, seed);
    } else {
      WalkPaintsStrip(left.cells, Next(s, 1), 1, false, false);
      WalkSeedsBesidePaint(left.cells, Next(s, 1), 1, false, false, seed);
    }
  }

  /** One step seeds every old-coloured neighbour of the run above and below. */
  lemma FillStepSeedsAll(cells: set<Point>, s: Point, q: Point)
    requires s in cells && q in cells && RunLo(cells, s) <= q.x < RunHi(cells, s) && (q.y == s.y - 1 || q.y == s.y + 1)
    ensures Seeded(FillStep(cells, s).cells, FillStep(cells, s).seeds, q)
  {
    hide Seeded;
    var left := Walk(cells, s, -1, false, false);
    var right := Walk(left.cells, Next(s, 1), 1, false, false);
    var step := FillStep(cells, s);
    FillStepPaintsRun(cells, s);
    WalkPaintsStrip(cells, s, -1, false, false);
    assert q == Point(q.x, q.y);
    if q.x <= s.x {
      WalkSeedsRow(cells, s, -1, false, false, q.y - s.y, q.x);
      SeededBefore(cells, step.cells, left.seeds, right.seeds, q);
    } else {
      WalkPaintsStrip(left.cells, Next(s, 1), 1, false, false);
      WalkSeedsRow(left.cells, Next(s, 1), 1, false, false, q.y - s.y, q.x);
      SeededAfter(left.cells, step.cells, left.seeds, right.seeds, q);
    }
  }

  /**
    * Between two steps: what is painted and what is on the stack lies in the region; painted runs are maximal;
    * every unpainted neighbour of a painted cell lies in a run that holds a seed.
    */
  ghost predicate FillInvariant(all: set<Point>, start: Point, cells: set<Point>, stack: seq<Point>) {
    && cells <= all
    && all - cells <= RegionOf(all, start)
    && (forall i :: 0 <= i < |stack| ==> stack[i] in RegionOf(all, start))
    && (start in all - cells || start in stack)
    && (forall p, q :: p in all - cells && q in all && p.y == q.y && Adjacent(p, q) ==> q in all - cells)
    && (forall p, q :: p in all - cells && q in cells && p.x == q.x && Adjacent(p, q) ==> Seeded(cells, stack, q))
  }

  lemma FillStarts(all: set<Point>, start: Point)
    requires start in all
    ensures FillInvariant(all, start, all, [start])
  {
    StartInRegion(all, start);
  }

  /** With the stack empty, exactly the region is painted. */
  lemma FillEnds(all: set<Point>, start: Point, cells: set<Point>)
    requires FillInvariant(all, start, cells, [])
    ensures all - cells == RegionOf(all, start)
  {
    assert Closed(all, all - cells);
    ClosedSetHoldsRegion(all, all - cells, start);
  }

  lemma {:induction false} RunInRegion(all: set<Point>, start: Point, s: Point, lo: int, hi: int, x: int)
    requires s in RegionOf(all, start) && Strip(s.y, lo, hi) <= all && lo <= s.x < hi && lo <= x < hi
    ensures Point(x, s.y) in RegionOf(all, start)
    decreases if x < s.x then s.x - x else x - s.x
  {
    if x == s.x {
      assert s == Point(x, s.y);
    } else {
      var x' := if x < s.x then x + 1 else x - 1;
      RunInRegion(all, start, s, lo, hi, x');
      assert Point(x, s.y) in Strip(s.y, lo, hi);
      RegionGrows(all, start, Point(x', s.y), Point(x, s.y));
    }
  }

  /** Popping a seed that is painted already changes nothing but the stack. */
  lemma FillStepIdle(all: set<Point>, start: Point, cells: set<Point>, stack: seq<Point>)
    requires FillInvariant(all, start, cells, stack) && stack != []
    requires stack[|stack| - 1] !in cells
    ensures FillStep(cells, stack[|stack| - 1]) == Walked(cells, [], stack[|stack| - 1].x + 1)
    ensures FillInvariant(all, start, cells, stack[..|stack| - 1])
  {
    var s, rest := stack[|stack| - 1], stack[..|stack| - 1];
    assert Adjacent(s, Next(s, 1));
    forall p, q | p in all - cells && q in cells && p.x == q.x && Adjacent(p, q) ensures Seeded(cells, rest, q) {
      assert Seeded(cells, stack, q);
      var i :| 0 <= i < |stack| && SameRun(cells, stack[i], q);
      assert s == Point(s.x, s.y);
      assert SameRun(cells, rest[i], q);
    }
  }

  lemma FillStepSeeds(all: set<Point>, start: Point, cells: set<Point>, stack: seq<Point>, p: Point, q: Point)
    requires FillInvariant(all, start, cells, stack) && stack != [] && stack[|stack| - 1] in cells
    requires var step := FillStep(cells, stack[|stack| - 1]);
             p in all - step.cells && q in step.cells && p.x == q.x && Adjacent(p, q)
    ensures var step := FillStep(cells, stack[|stack| - 1]);
            Seeded(step.cells, stack[..|stack| - 1] + step.seeds, q)
  {
    var s, rest := stack[|stack| - 1], stack[..|stack| - 1];
    var step := FillStep(cells, s);
    FillStepPaintsRun(cells, s);
    if p in cells {
      FillStepSeedsAll(cells, s, q);
      SeededAfter(step.cells, step.cells, rest, step.seeds, q);
    } else {
      assert Seeded(cells, stack, q);
      var i :| 0 <= i < |stack| && SameRun(cells, stack[i], q);
      RunUntouched(cells, s, stack[i], q);
      assert s == Point(s.x, s.y) && s !in step.cells;
      assert (rest + step.seeds)[i] == stack[i];
    }
  }

  /** A run that keeps one unpainted cell through a step is not touched by it at all. */
  lemma RunUntouched(cells: set<Point>, s: Point, t: Point, q: Point)
    requires s in cells && SameRun(cells, t, q) && q in FillStep(cells, s).cells
    ensures SameRun(FillStep(cells, s).cells, t, q)
  {
    FillStepPaintsRun(cells, s);
    var lo, hi := RunLo(cells, s), RunHi(cells, s);
    assert q == Point(q.x, q.y);
    forall x | t.x <= x <= q.x || q.x <= x <= t.x ensures Point(x, t.y) in FillStep(cells, s).cells {
      assert Point(lo - 1, s.y) !in cells && Point(hi, s.y) !in cells;
    }
  }

  /** Everything a step paints or pushes lies in the region. */
  lemma FillStepInRegion(all: set<Point>, start: Point, cells: set<Point>, s: Point)
    requires cells <= all && s in cells && s in RegionOf(all, start)
    ensures cells - FillStep(cells, s).cells <= RegionOf(all, start)
    ensures forall t :: t in FillStep(cells, s).seeds ==> t in RegionOf(all, start)
  {
    FillStepPaintsRun(cells, s);
    var lo, hi := RunLo(cells, s), RunHi(cells, s);
    forall x | lo <= x < hi ensures Point(x, s.y) in RegionOf(all, start) {
      RunInRegion(all, start, s, lo, hi, x);
    }
    forall t | t in FillStep(cells, s).seeds ensures t in RegionOf(all, start) {
      FillStepSeedsBeside(cells, s, t);
      RegionGrows(all, start, Point(t.x, s.y), t);
    }
  }

  /** Painted runs stay maximal. */
  lemma FillStepMaximal(all: set<Point>, cells: set<Point>, s: Point, p: Point, q: Point)
    requires cells <= all && s in cells
    requires forall p, q :: p in all - cells && q in all && p.y == q.y && Adjacent(p, q) ==> q in all - cells
    requires p in all - FillStep(cells, s).cells && q in all && p.y == q.y && Adjacent(p, q)
    ensures q in all - FillStep(cells, s).cells
  {
    FillStepPaintsRun(cells, s);
    assert p == Point(p.x, p.y) && q == Point(q.x, q.y);
  }

  lemma Fewer(some: set<Point>, all: set<Point>, p: Point)
    requires some <= all && p in all && p !in some
    ensures |some| < |all|
  {
    var rest := all - some - {p};
    assert all == some + rest + {p};
  }

  /** One step keeps the invariant, and either paints a cell or leaves a shorter stack. */
  lemma FillStepKeeps(all: set<Point>, start: Point, cells: set<Point>, stack: seq<Point>)
    requires FillInvariant(all, start, cells, stack) && stack != []
    ensures var step := FillStep(cells, stack[|stack| - 1]);
            && FillInvariant(all, start, step.cells, stack[..|stack| - 1] + step.seeds)
            && (|step.cells| < |cells| || (step.cells == cells && step.seeds == []))
  {
    hide FillStep, Seeded, RegionOf;
    var s, rest := stack[|stack| - 1], stack[..|stack| - 1];
    var step := FillStep(cells, s);
    if s !in cells {
      FillStepIdle(all, start, cells, stack);
      assert rest + step.seeds == rest;
    } else {
      assert s !in step.cells && step.cells <= cells by { FillStepPaintsRun(cells, s); assert s == Point(s.x, s.y); }
      Fewer(step.cells, cells, s);
      FillStepInRegion(all, start, cells, s);
      forall p, q | p in all - step.cells && q in all && p.y == q.y && Adjacent(p, q) ensures q in all - step.cells {
        FillStepMaximal(all, cells, s, p, q);
      }
      forall p, q | p in all - step.cells && q in step.cells && p.x == q.x && Adjacent(p, q)
        ensures Seeded(step.cells, rest + step.seeds, q)
      {
        FillStepSeeds(all, start, cells, stack, p, q);
      }
    }
  }

  // ----- The pixel loops.

  /** The cells of the visible part of a picture that have a given colour. */
  ghost function CellsOf(picture: Picture, width: int, height: int, c: Color): set<Point> {
    set p | p in picture && 0 <= p.x < width && 0 <= p.y < height && picture[p] == c
  }

  lemma CellsPaintOne(picture: Picture, width: int, height: int, replace: Color, color: Color, p: Point)
    requires p in picture && replace != color
    ensures CellsOf(picture[p := color], width, height, replace) == CellsOf(picture, width, height, replace) - {p}
  {
  }

  lemma PaintedOneMore(picture: Picture, color: Color, all: set<Point>, cells: set<Point>, p: Point)
    requires p in picture && p in cells && cells <= all
    ensures Painted(picture, all - cells, color)[p := color] == Painted(picture, all - (cells - {p}), color)
    ensures all - (cells - {p}) == all - cells + {p}
  {
    assert all - (cells - {p}) == all - cells + {p};
  }

  lemma WalkUnfolds(cells: set<Point>, p: Point, delta: int, above: bool, below: bool, stack: seq<Point>)
    requires p in cells
    ensures var rest := Walk(cells - {p}, Next(p, delta), delta, Above(p, -1) in cells, Above(p, 1) in cells);
            && Walk(cells, p, delta, above, below).cells == rest.cells
            && stack + Walk(cells, p, delta, above, below).seeds ==
              stack + NewSeeds(cells, p, above, below) + rest.seeds
  {
  }

  /** The bounds (with inclusive right edge) were widened to take in the columns of `s`, and no further. */
  ghost predicate Widened(bounds: Rectangle, bounds': Rectangle, s: set<Point>) {
    && bounds'.t == bounds.t && bounds'.b == bounds.b
    && bounds'.l <= bounds.l && bounds.r <= bounds'.r
    && (forall p :: p in s ==> bounds'.l <= p.x <= bounds'.r)
    && (bounds'.l == bounds.l || exists p :: p in s && p.x == bounds'.l)
    && (bounds'.r == bounds.r || exists p :: p in s && p.x == bounds'.r)
  }

  /**
    * The test on the row above or below a painted cell: push a seed where a run of the old colour starts,
    * remember being inside the run, and forget it where the run ends.
    */
  method Probe(target: PaintTarget, q: Point, replace: Color, space: bool, stack: seq<Point>)
    returns (stack': seq<Point>, space': bool)
    requires target.Valid() && target.Inside(q)
    ensures space' == (target.View()[q] == replace)
    ensures stack' == stack + if space' && !space then [q] else []
  {
    stack', space' := stack, space;
    var c := target.Get(q);
    if !space && c == replace {
      space' := true;
      stack' := stack + [q];
    } else if space && c != replace {
      space' := false;
    }
  }

  /** Paints one cell and probes its two vertical neighbours. */
  method PaintCell(target: PaintTarget, p: Point, replace: Color, color: Color,
                   above: bool, below: bool, stack: seq<Point>, bounds: Rectangle)
    returns (stack': seq<Point>, bounds': Rectangle, above': bool, below': bool)
    requires target.Valid() && target.Inside(p) && replace != color
    requires (p.y == 0 ==> !above) && (p.y == target.height - 1 ==> !below)
    modifies target.bits
    ensures target.View() == old(target.View())[p := color]
    ensures var cells := CellsOf(old(target.View()), target.width, target.height, replace);
            && stack' == stack + NewSeeds(cells, p, above, below)
            && above' == (Above(p, -1) in cells) && below' == (Above(p, 1) in cells)
    ensures Widened(bounds, bounds', {p})
  {
    ghost var before := target.View();
    target.Put(p, color);
    bounds' := Widen(bounds, p);
    stack', above', below' := ProbeSides(target, p, replace, above, below, stack);
    CellsPaintOne(before, target.width, target.height, replace, color, p);
  }

  method Widen(bounds: Rectangle, p: Point) returns (bounds': Rectangle)
    ensures Widened(bounds, bounds', {p})
  {
    bounds' := bounds;
    if p.x < bounds'.l { bounds' := bounds'.(l := p.x); }
    if p.x > bounds'.r { bounds' := bounds'.(r := p.x); }
  }

  /** The pixels above and below a cell: where a gap begins, it becomes a seed. */
  method ProbeSides(target: PaintTarget, p: Point, replace: Color, above: bool, below: bool, stack: seq<Point>)
    returns (stack': seq<Point>, above': bool, below': bool)
    requires target.Valid() && target.Inside(p)
    requires (p.y == 0 ==> !above) && (p.y == target.height - 1 ==> !below)
    ensures var cells := CellsOf(target.View(), target.width, target.height, replace);
            && stack' == stack + NewSeeds(cells, p, above, below)
            && above' == (Above(p, -1) in cells) && below' == (Above(p, 1) in cells)
  {
    stack', above', below' := stack, above, below;
    if p.y != 0 {
      stack', above' := Probe(target, Point(p.x, p.y - 1), replace, above', stack');
    }
    if p.y != target.height - 1 {
      stack', below' := Probe(target, Point(p.x, p.y + 1), replace, below', stack');
    }
  }

  /** Paints from `start` in direction `delta` up to the edge or the first cell of another colour. */
  method Scan(target: PaintTarget, start: Point, delta: int, replace: Color, color: Color,
              stack: seq<Point>, bounds: Rectangle)
    returns (stack': seq<Point>, bounds': Rectangle)
    requires target.Valid() && target.Inside(start)
    requires (delta == 1 || delta == -1) && replace != color
    modifies target.bits
    ensures var cells := CellsOf(old(target.View()), target.width, target.height, replace);
            var w := Walk(cells, start, delta, false, false);
            && w.cells <= cells
            && CellsOf(target.View(), target.width, target.height, replace) == w.cells
            && target.View() == Painted(old(target.View()), cells - w.cells, color)
            && stack' == stack + w.seeds
            && Widened(bounds, bounds', cells - w.cells)
  {
    var p, above, below := start, false, false;
    stack', bounds' := stack, bounds;
    ghost var before := target.View();
    ghost var all := CellsOf(before, target.width, target.height, replace);
    ghost var cells := all;
    assert Painted(before, {}, color) == before && all - all == {};
    while 0 <= p.x < target.width
      invariant -1 <= p.x <= target.width && p.y == start.y
      invariant cells <= all && cells == CellsOf(target.View(), target.width, target.height, replace)
      invariant target.View() == Painted(before, all - cells, color)
      invariant (p.y == 0 ==> !above) && (p.y == target.height - 1 ==> !below)
      invariant Walk(cells, p, delta, above, below).cells == Walk(all, start, delta, false, false).cells
      invariant stack' + Walk(cells, p, delta, above, below).seeds ==
                stack + Walk(all, start, delta, false, false).seeds
      invariant Widened(bounds, bounds', all - cells)
      decreases if delta == 1 then target.width - p.x else p.x
    {
      var c := target.Get(p);
      if c != replace {
        break;
      }
      CellsPaintOne(target.View(), target.width, target.height, replace, color, p);
      PaintedOneMore(before, color, all, cells, p);
      WalkUnfolds(cells, p, delta, above, below, stack');
      stack', bounds', above, below := PaintCell(target, p, replace, color, above, below, stack', bounds');
      cells := cells - {p};
      p := Next(p, delta);
    }
  }

  lemma PaintedTwice(picture: Picture, color: Color, all: set<Point>, some: set<Point>, few: set<Point>)
    requires few <= some <= all
    ensures Painted(Painted(picture, all - some, color), some - few, color) == Painted(picture, all - few, color)
  {
  }

  lemma WidenedTwice(bounds: Rectangle, bounds': Rectangle, bounds'': Rectangle, all: set<Point>, some: set<Point>,
                     few: set<Point>)
    requires few <= some <= all && Widened(bounds, bounds', all - some) && Widened(bounds', bounds'', some - few)
    ensures Widened(bounds, bounds'', all - few)
  {
    assert all - few == (all - some) + (some - few);
  }

  lemma WalkStops(cells: set<Point>, p: Point, delta: int)
    requires p !in cells
    ensures Walk(cells, p, delta, false, false) == Walked(cells, [], p.x)
  {
  }

  /** Paints the run through a popped seed, leftwards and then rightwards. */
  method PaintRun(target: PaintTarget, s: Point, replace: Color, color: Color, stack: seq<Point>, bounds: Rectangle)
    returns (stack': seq<Point>, bounds': Rectangle)
    requires target.Valid() && target.Inside(s) && replace != color
    modifies target.bits
    ensures var cells := CellsOf(old(target.View()), target.width, target.height, replace);
            var step := FillStep(cells, s);
            && step.cells <= cells
            && CellsOf(target.View(), target.width, target.height, replace) == step.cells
            && target.View() == Painted(old(target.View()), cells - step.cells, color)
            && stack' == stack + step.seeds
            && Widened(bounds, bounds', cells - step.cells)
  {
    hide Walk, Widened, Painted, PaintTarget.View;
    ghost var all := CellsOf(target.View(), target.width, target.height, replace);
    ghost var before := target.View();
    stack', bounds' := Scan(target, s, -1, replace, color, stack, bounds);
    ghost var left := CellsOf(target.View(), target.width, target.height, replace);
    if s.x + 1 != target.width {
      ghost var bounds1 := bounds';
      stack', bounds' := Scan(target, Next(s, 1), 1, replace, color, stack', bounds');
      ghost var few := CellsOf(target.View(), target.width, target.height, replace);
      PaintedTwice(before, color, all, left, few);
      WidenedTwice(bounds, bounds1, bounds', all, left, few);
    } else {
      WalkStops(left, Next(s, 1), 1);
    }
  }

  /** Every painted point is inside the bounds, and each edge touches a point of the region. */
  ghost predicate Bounding(bounds: Rectangle, painted: set<Point>, region: set<Point>) {
    && (forall p :: p in painted ==> bounds.l <= p.x <= bounds.r && bounds.t <= p.y <= bounds.b)
    && (exists p :: p in region && p.x == bounds.l) && (exists p :: p in region && p.x == bounds.r)
    && (exists p :: p in region && p.y == bounds.t) && (exists p :: p in region && p.y == bounds.b)
  }

  lemma BoundingStep(bounds: Rectangle, bounds': Rectangle, all: set<Point>, cells: set<Point>, s: Point,
                     region: set<Point>)
    requires Bounding(bounds, all - cells, region) && cells <= all && s in region
    requires var step := FillStep(cells, s);
             && cells - step.cells <= region && step.cells <= cells && (s !in cells ==> step.cells == cells)
             && Widened(bounds.(t := if s.y < bounds.t then s.y else bounds.t,
                                b := if s.y > bounds.b then s.y else bounds.b),
                        bounds', cells - step.cells)
    ensures Bounding(bounds', all - FillStep(cells, s).cells, region)
  {
    var step := FillStep(cells, s);
    if s in cells { FillStepPaintsRun(cells, s); }
    forall p | p in all - step.cells ensures bounds'.l <= p.x <= bounds'.r && bounds'.t <= p.y <= bounds'.b {
      if p in cells { assert p in cells - step.cells; }
    }
  }

  lemma FillStepWithin(all: set<Point>, start: Point, cells: set<Point>, stack: seq<Point>)
    requires FillInvariant(all, start, cells, stack) && stack != []
    ensures var s := stack[|stack| - 1];
            && s in RegionOf(all, start) && s in all && cells <= all
            && FillStep(cells, s).cells <= cells && cells - FillStep(cells, s).cells <= RegionOf(all, start)
            && (s !in cells ==> FillStep(cells, s).cells == cells)
  {
    var s := stack[|stack| - 1];
    if s in cells {
      FillStepInRegion(all, start, cells, s);
      FillStepPaintsRun(cells, s);
    } else {
      FillStepIdle(all, start, cells, stack);
    }
  }

  /** The main loop: pop seeds until none are left. The bounds it keeps are inclusive on all sides. */
  method FillFrom(target: PaintTarget, point: Point, replace: Color, color: Color) returns (bounds: Rectangle)
    requires target.Valid() && target.Inside(point) && target.View()[point] == replace && replace != color
    modifies target.bits
    ensures var region := RegionOf(CellsOf(old(target.View()), target.width, target.height, replace), point);
            && target.View() == Painted(old(target.View()), region, color)
            && Bounding(bounds, region, region)
  {
    ghost var before := target.View();
    ghost var all := CellsOf(before, target.width, target.height, replace);
    ghost var region := RegionOf(all, point);
    ghost var cells := all;
    bounds := Rectangle(point.x, point.x, point.y, point.y);
    var stack := [point];
    FillStarts(all, point);
    StartInRegion(all, point);
    assert Painted(before, all - cells, color) == before;
    assert forall p :: p in all ==> target.Inside(p);
    assert Bounding(bounds, all - cells, region);
    hide FillInvariant, Bounding, Painted, CellsOf, FillStep, Widened, PaintTarget.View;
    while stack != []
      invariant cells == CellsOf(target.View(), target.width, target.height, replace)
      invariant FillInvariant(all, point, cells, stack)
      invariant target.View() == Painted(before, all - cells, color)
      invariant Bounding(bounds, all - cells, region)
      decreases |cells|, |stack|
    {
      var s := stack[|stack| - 1];
      FillStepKeeps(all, point, cells, stack);
      FillStepWithin(all, point, cells, stack);
      stack := stack[..|stack| - 1];
      ghost var bounds0 := bounds;
      if s.y < bounds.t { bounds := bounds.(t := s.y); }
      if s.y > bounds.b { bounds := bounds.(b := s.y); }
      stack, bounds := PaintRun(target, s, replace, color, stack, bounds);
      BoundingStep(bounds0, bounds, all, cells, s, region);
      PaintedTwice(before, color, all, cells, FillStep(cells, s).cells);
      cells := FillStep(cells, s).cells;
    }
    FillEnds(all, point, cells);
  }

  /**
    * The fill tool. The bounds it returns have exclusive right and bottom edges; the bottom edge is one row
    * further down than needed.
    */
  method DrawFill(target: PaintTarget, point: Point, rgb: Color) returns (bounds: Rectangle)
    requires target.Valid()
    modifies target.bits
    ensures !target.Inside(point) ==> target.View() == old(target.View()) && bounds == Rectangle(0, 0, 0, 0)
    ensures target.Inside(point) ==>
      var replace, color := old(target.View())[point], 0xFF00_0000 | rgb;
      var region := RegionOf(CellsOf(old(target.View()), target.width, target.height, replace), point);
      && target.View() == Painted(old(target.View()), region, color)
      && (replace != color ==>
            && (forall p :: p in region ==> bounds.Contains(p))
            && Bounding(bounds.(r := bounds.r - 1, b := bounds.b - 2), region, region))
  {
    var color := 0xFF00_0000 | rgb;
    bounds := Rectangle(point.x, point.x, point.y, point.y);
    if !target.Inside(point) {
      return Rectangle(0, 0, 0, 0);
    }
    var replace := target.Get(point);
    if replace != color {
      bounds := FillFrom(target, point, replace, color);
    }
    bounds := bounds.(r := bounds.r + 1, b := bounds.b + 2);
  }
}
