/** One row or column of the 2048 grid, seen from the wall that the tiles move towards. */
module Bands {

  /** Tiles are exponents; zero is an empty cell. */
  type Band = seq<nat>

  function Pow2(v: nat): nat { if v == 0 then 1 else 2 * Pow2(v - 1) }

  // ----- What a move means: pack the tiles against the wall, after merging the first pair of equal neighbours.

  function Compact(b: Band): Band {
    if b == [] then [] else Compact(b[..|b| - 1]) + if b[|b| - 1] == 0 then [] else [b[|b| - 1]]
  }

  predicate HasPair(t: Band) { exists j :: 0 <= j < |t| - 1 && t[j] == t[j + 1] }

  function MergeFirst(t: Band): Band {
    if |t| < 2 then t
    else if t[0] == t[1] then [t[0] + 1] + t[2..]
    else [t[0]] + MergeFirst(t[1..])
  }

  function Zeros(n: nat): Band { seq(n, i => 0) }

  function Padded(t: Band, n: nat): Band { t + Zeros(if |t| <= n then n - |t| else 0) }

  function Moved(b: Band): Band { Padded(MergeFirst(Compact(b)), |b|) }

  lemma {:induction false} MergeNothing(t: Band)
    requires !HasPair(t)
    ensures MergeFirst(t) == t
  {
    if |t| >= 2 {
      PairCons(t);
      MergeNothing(t[1..]);
    }
  }

  lemma {:induction false} MergeBehindPair(t: Band, v: nat)
    requires HasPair(t)
    ensures MergeFirst(t + [v]) == MergeFirst(t) + [v]
  {
    PairCons(t);
    if t[0] == t[1] {
      assert (t + [v])[2..] == t[2..] + [v];
    } else {
      assert (t + [v])[1..] == t[1..] + [v];
      MergeBehindPair(t[1..], v);
    }
  }

  lemma {:induction false} MergeNewPair(t: Band, v: nat)
    requires !HasPair(t) && t != [] && t[|t| - 1] == v
    ensures MergeFirst(t + [v]) == t[..|t| - 1] + [v + 1]
  {
    if |t| == 1 {
      assert (t + [v])[2..] == [];
    } else {
      PairCons(t);
      assert (t + [v])[1..] == t[1..] + [v];
      MergeNewPair(t[1..], v);
    }
  }

  lemma PairSnoc(t: Band, v: nat)
    ensures HasPair(t + [v]) <==> HasPair(t) || (t != [] && t[|t| - 1] == v)
  {
    var u := t + [v];
    if HasPair(t) {
      var j :| 0 <= j < |t| - 1 && t[j] == t[j + 1];
      assert u[j] == u[j + 1];
    }
    if t != [] && t[|t| - 1] == v { assert u[|t| - 1] == u[|t| - 1 + 1]; }
    if HasPair(u) {
      var j :| 0 <= j < |u| - 1 && u[j] == u[j + 1];
      if j < |t| - 1 { assert t[j] == t[j + 1]; }
    }
  }

  lemma PairCons(t: Band)
    requires |t| >= 2
    ensures HasPair(t) <==> t[0] == t[1] || HasPair(t[1..])
  {
    if t[0] == t[1] { assert t[0] == t[0 + 1]; }
    if HasPair(t) {
      var j :| 0 <= j < |t| - 1 && t[j] == t[j + 1];
      if j > 0 { assert t[1..][j - 1] == t[1..][j - 1 + 1]; }
    }
    if HasPair(t[1..]) {
      var j :| 0 <= j < |t[1..]| - 1 && t[1..][j] == t[1..][j + 1];
      assert t[j + 1] == t[j + 1 + 1];
    }
  }

  lemma {:induction false} MergeLength(t: Band)
    ensures |t| - 1 <= |MergeFirst(t)| <= |t|
    ensures (t == [] <==> MergeFirst(t) == [])
  {
    if |t| >= 2 && t[0] != t[1] { MergeLength(t[1..]); }
  }

  lemma {:induction false} CompactLength(b: Band)
    ensures |Compact(b)| <= |b|
    ensures forall i :: 0 <= i < |Compact(b)| ==> Compact(b)[i] > 0
  {
    if b != [] { CompactLength(b[..|b| - 1]); }
  }

  // ----- What the program does: one tile at a time, step by step.

  datatype Sweep = Sweep(band: Band, merged: bool, gained: nat, moves: bool)

  /** The tile at `q` slides and merges until it is stopped. */
  function Push(s: Sweep, q: nat): (u: Sweep)
    requires q < |s.band|
    ensures |u.band| == |s.band|
    decreases q
  {
    if q == 0 then s else
    var b, v := s.band, s.band[q];
    if b[q - 1] == 0 then Push(Sweep(b[q - 1 := v][q := 0], s.merged, s.gained, true), q - 1)
    else if b[q - 1] != v || s.merged then s
    else Push(Sweep(b[q - 1 := v + 1][q := 0], true, s.gained + Pow2(v + 1), true), q - 1)
  }

  function Advance(s: Sweep, q: nat): Sweep
    requires q < |s.band|
  {
    if s.band[q] == 0 then s else Push(s, q)
  }

  /** A tile with only empty cells between itself and `k` slides to `k`. */
  lemma {:induction false} PushSlides(s: Sweep, q: nat, k: nat)
    requires k <= q < |s.band| && forall i :: k <= i < q ==> s.band[i] == 0
    ensures Push(s, q) == Push(SlidTo(s, q, k), k)
    decreases q
  {
    if k < q {
      var s' := Sweep(s.band[q - 1 := s.band[q]][q := 0], s.merged, s.gained, true);
      PushSlides(s', q - 1, k);
      assert SlidTo(s', q - 1, k).band == SlidTo(s, q, k).band;
    } else {
      assert SlidTo(s, q, k) == s;
    }
  }

  function SlidTo(s: Sweep, q: nat, k: nat): Sweep
    requires k <= q < |s.band|
  {
    Sweep(s.band[q := 0][k := s.band[q]], s.merged, s.gained, s.moves || k < q)
  }

  lemma PushHalts(s: Sweep, q: nat)
    requires q < |s.band| && (q == 0 || (s.band[q - 1] != 0 && (s.band[q - 1] != s.band[q] || s.merged)))
    ensures Push(s, q) == s
  {
  }

  lemma PushMerges(s: Sweep, q: nat)
    requires 0 < q < |s.band| && s.band[q - 1] == s.band[q] != 0 && !s.merged
    ensures var v := s.band[q];
            Push(s, q) == Push(Sweep(s.band[q - 1 := v + 1][q := 0], true, s.gained + Pow2(v + 1), true), q - 1)
  {
  }

  function MergedAt(s: Sweep, q: nat): Sweep
    requires 0 < q < |s.band|
  {
    Sweep(s.band[q - 1 := s.band[q] + 1][q := 0], true, s.gained + Pow2(s.band[q] + 1), true)
  }

  /** Against packed tiles, a tile merges with its equal neighbour if nothing has merged yet, and stops there. */
  lemma PushMergesOnce(s: Sweep, q: nat)
    requires 0 < q < |s.band| && s.band[q - 1] == s.band[q] != 0 && !s.merged && (q > 1 ==> s.band[q - 2] != 0)
    ensures Push(s, q) == MergedAt(s, q)
  {
    PushMerges(s, q);
    PushHalts(MergedAt(s, q), q - 1);
  }

  function SweepFrom(s: Sweep, q: nat): (u: Sweep)
    requires q <= |s.band|
    ensures |u.band| == |s.band|
    decreases |s.band| - q
  {
    if q == |s.band| then s else
    SweepFrom(Advance(s, q), q + 1)
  }

  /** The first cells hold the packed tiles, the others up to `q` are empty, and those from `q` on are untouched. */
  ghost predicate Shape(b: Band, band: Band, r: Band, q: nat) {
    && |r| <= q <= |b| == |band|
    && (forall i :: 0 <= i < |r| ==> band[i] == r[i])
    && (forall i :: |r| <= i < q ==> band[i] == 0)
    && (forall i :: q <= i < |b| ==> band[i] == b[i])
  }

  /** `q` cells done: the tiles among them are packed, with the first pair merged, and the others are untouched. */
  ghost predicate Swept(b: Band, s: Sweep, q: nat) {
    && q <= |b| && Shape(b, s.band, MergeFirst(Compact(b[..q])), q)
    && s.merged == HasPair(Compact(b[..q]))
  }

  lemma SweptStarts(b: Band)
    ensures Swept(b, Sweep(b, false, 0, false), 0)
  {
    assert b[..0] == [];
  }

  lemma CompactNext(b: Band, q: nat)
    requires q < |b|
    ensures Compact(b[..q + 1]) == Compact(b[..q]) + if b[q] == 0 then [] else [b[q]]
  {
    assert b[..q + 1][..q] == b[..q];
  }

  lemma {:induction false} MergePositive(t: Band)
    requires forall i :: 0 <= i < |t| ==> t[i] > 0
    ensures forall i :: 0 <= i < |MergeFirst(t)| ==> MergeFirst(t)[i] > 0
  {
    if |t| >= 2 && t[0] != t[1] { MergePositive(t[1..]); }
  }

  /** Where the tile at `q` ends up, given the tiles packed before it. */
  lemma TileArrives(b: Band, s: Sweep, q: nat, r: Band)
    requires Shape(b, s.band, r, q) && q < |b| && b[q] != 0 && forall i :: 0 <= i < |r| ==> r[i] > 0
    ensures var u, v := Push(s, q), b[q];
            if r != [] && r[|r| - 1] == v && !s.merged
            then u.merged && Shape(b, u.band, r[..|r| - 1] + [v + 1], q + 1)
            else u.merged == s.merged && Shape(b, u.band, r + [v], q + 1)
  {
    var k, v := |r|, b[q];
    PushSlides(s, q, k);
    var s' := SlidTo(s, q, k);
    if r != [] && r[k - 1] == v && !s.merged {
      PushMergesOnce(s', k);
    } else {
      PushHalts(s', k);
    }
  }

  predicate Meets(t: Band, r: Band, v: nat) { r != [] && r[|r| - 1] == v && !HasPair(t) }

  lemma MergeNext(t: Band, v: nat)
    ensures var r := MergeFirst(t);
            && MergeFirst(t + [v]) == (if Meets(t, r, v) then r[..|r| - 1] + [v + 1] else r + [v])
            && (HasPair(t + [v]) <==> HasPair(t) || Meets(t, r, v))
  {
    PairSnoc(t, v);
    if HasPair(t) {
      MergeBehindPair(t, v);
    } else {
      MergeNothing(t);
      if t != [] && t[|t| - 1] == v { MergeNewPair(t, v); } else { MergeNothing(t + [v]); }
    }
  }

  lemma SweptTile(b: Band, s: Sweep, q: nat)
    requires Swept(b, s, q) && q < |b| && b[q] != 0
    ensures Swept(b, Push(s, q), q + 1)
  {
    hide Push, Compact, MergeFirst, HasPair, Shape;
    var t, v := Compact(b[..q]), b[q];
    CompactNext(b, q);
    CompactLength(b[..q]);
    MergePositive(t);
    MergeNext(t, v);
    TileArrives(b, s, q, MergeFirst(t));
  }

  lemma SweptEmpty(b: Band, s: Sweep, q: nat)
    requires Swept(b, s, q) && q < |b| && b[q] == 0
    ensures Swept(b, s, q + 1)
  {
    CompactNext(b, q);
    hide Compact, MergeFirst, HasPair;
    assert Compact(b[..q]) + [] == Compact(b[..q]);
  }

  lemma SweptNext(b: Band, s: Sweep, q: nat)
    requires Swept(b, s, q) && q < |b|
    ensures Swept(b, Advance(s, q), q + 1)
  {
    hide Push, Compact, MergeFirst, HasPair;
    if b[q] == 0 { SweptEmpty(b, s, q); } else { SweptTile(b, s, q); }
  }

  /** Sweeping a band, cell by cell from the wall, packs it and merges its first pair. */
  lemma {:induction false} SweepMoves(b: Band, s: Sweep, q: nat)
    requires Swept(b, s, q)
    ensures SweepFrom(s, q).band == Moved(b)
    decreases |b| - q
  {
    if q == |b| {
      assert b[..q] == b;
      CompactLength(b);
      MergeLength(Compact(b));
      assert s.band == Moved(b);
    } else {
      SweptNext(b, s, q);
      SweepMoves(b, Advance(s, q), q + 1);
    }
  }

  // ----- What a move conserves, and what it scores.

  /** The number on a tile. */
  function Face(v: nat): int { if v == 0 then 0 else Pow2(v) }

  /** What building a tile from twos scores in all. */
  function Points(v: nat): int { if v <= 1 then 0 else 2 * Points(v - 1) + Pow2(v) }

  lemma {:induction false} PointsClosed(v: nat)
    requires v > 0
    ensures Points(v) == (v - 1) * Pow2(v)
  {
    if v > 1 {
      PointsClosed(v - 1);
      assert Points(v) == 2 * Points(v - 1) + Pow2(v) && Pow2(v) == 2 * Pow2(v - 1);
      Doubled(v, Pow2(v - 1));
    }
  }

  lemma Doubled(v: int, p: int)
    ensures (v - 1) * (2 * p) == 2 * ((v - 1 - 1) * p) + 2 * p
  {
  }

  lemma Built(v: nat)
    requires v > 0
    ensures Face(v + 1) == 2 * Face(v) && Points(v + 1) == 2 * Points(v) + Pow2(v + 1)
  {
  }

  function Total(f: nat -> int, b: Band): int {
    if b == [] then 0 else Total(f, b[..|b| - 1]) + f(b[|b| - 1])
  }

  lemma {:induction false} TotalSet(f: nat -> int, b: Band, i: nat, v: nat)
    requires i < |b|
    ensures Total(f, b[i := v]) == Total(f, b) - f(b[i]) + f(v)
  {
    var rest := b[..|b| - 1];
    if i < |b| - 1 {
      TotalSet(f, rest, i, v);
      assert b[i := v][..|b| - 1] == rest[i := v];
    } else {
      assert b[i := v][..|b| - 1] == rest;
    }
  }

  lemma TotalSetTwo(f: nat -> int, b: Band, i: nat, v: nat, j: nat, w: nat)
    requires i < |b| && j < |b| && i != j
    ensures Total(f, b[i := v][j := w]) == Total(f, b) - f(b[i]) + f(v) - f(b[j]) + f(w)
  {
    TotalSet(f, b, i, v);
    TotalSet(f, b[i := v], j, w);
  }

  /** Tiles count for more the farther they are from the wall. */
  function Weight(b: Band): nat {
    if b == [] then 0 else Weight(b[..|b| - 1]) + if b[|b| - 1] > 0 then |b| else 0
  }

  function At(i: nat, v: nat): int { if v > 0 then i + 1 else 0 }

  lemma {:induction false} WeightSet(b: Band, i: nat, v: nat)
    requires i < |b|
    ensures Weight(b[i := v]) == Weight(b) - At(i, b[i]) + At(i, v)
  {
    var rest := b[..|b| - 1];
    if i < |b| - 1 {
      WeightSet(rest, i, v);
      assert b[i := v][..|b| - 1] == rest[i := v];
    } else {
      assert b[i := v][..|b| - 1] == rest;
    }
  }

  /** One step: the tile at `q` slides, or merges. */
  function Stepped(s: Sweep, q: nat): Sweep
    requires 0 < q < |s.band|
  {
    if s.band[q - 1] == 0 then Sweep(s.band[q - 1 := s.band[q]][q := 0], s.merged, s.gained, true) else MergedAt(s, q)
  }

  predicate Halted(s: Sweep, q: nat)
    requires q < |s.band|
  {
    q == 0 || (s.band[q - 1] != 0 && (s.band[q - 1] != s.band[q] || s.merged))
  }

  lemma PushUnfolds(s: Sweep, q: nat)
    requires q < |s.band|
    ensures Push(s, q) == if Halted(s, q) then s else Push(Stepped(s, q), q - 1)
  {
  }

  /** What the step leaves next to the tile's old cell. */
  function Left(s: Sweep, q: nat): nat
    requires 0 < q < |s.band|
  {
    if s.band[q - 1] == 0 then s.band[q] else s.band[q] + 1
  }

  lemma SteppedBand(s: Sweep, q: nat)
    requires 0 < q < |s.band|
    ensures Stepped(s, q).band == s.band[q - 1 := Left(s, q)][q := 0]
    ensures Stepped(s, q).gained == s.gained + if s.band[q - 1] == 0 then 0 else Pow2(s.band[q] + 1)
  {
  }

  lemma StepTotal(f: nat -> int, s: Sweep, q: nat)
    requires q < |s.band| && !Halted(s, q)
    ensures Total(f, Stepped(s, q).band) == Total(f, s.band) - f(s.band[q - 1]) - f(s.band[q]) + f(Left(s, q)) + f(0)
  {
    hide Total;
    SteppedBand(s, q);
    TotalSetTwo(f, s.band, q - 1, Left(s, q), q, 0);
  }

  lemma StepWeight(s: Sweep, q: nat)
    requires q < |s.band| && !Halted(s, q) && s.band[q] != 0
    ensures Weight(Stepped(s, q).band) < Weight(s.band)
  {
    hide Weight, Pow2;
    SteppedBand(s, q);
    WeightSet(s.band, q - 1, Left(s, q));
    WeightSet(s.band[q - 1 := Left(s, q)], q, 0);
  }

  lemma NoTile()
    ensures Face(0) == 0 == Points(0)
  {
  }

  lemma StepFace(s: Sweep, q: nat)
    requires q < |s.band| && !Halted(s, q) && s.band[q] != 0
    ensures Total(Face, Stepped(s, q).band) == Total(Face, s.band)
  {
    hide Total, Points, Face, Pow2, Stepped;
    NoTile();
    Built(s.band[q]);
    StepTotal(Face, s, q);
  }

  lemma StepPoints(s: Sweep, q: nat)
    requires q < |s.band| && !Halted(s, q) && s.band[q] != 0
    ensures Total(Points, Stepped(s, q).band) - Stepped(s, q).gained == Total(Points, s.band) - s.gained
  {
    hide Total, Points, Face, Pow2, Stepped;
    NoTile();
    Built(s.band[q]);
    SteppedBand(s, q);
    StepTotal(Points, s, q);
  }

  lemma StepTotals(s: Sweep, q: nat)
    requires q < |s.band| && !Halted(s, q) && s.band[q] != 0
    ensures Total(Face, Stepped(s, q).band) == Total(Face, s.band)
    ensures Total(Points, Stepped(s, q).band) - Stepped(s, q).gained == Total(Points, s.band) - s.gained
    ensures Weight(Stepped(s, q).band) < Weight(s.band)
  {
    hide Total, Weight, Points, Face, Pow2, Stepped, Halted;
    StepFace(s, q);
    StepPoints(s, q);
    StepWeight(s, q);
  }

  /**
    * Pushing a tile keeps the sum of the numbers, scores what it builds, and either changes nothing or brings tiles
    * nearer to the wall.
    */
  lemma {:induction false} PushEffect(s: Sweep, q: nat)
    requires q < |s.band| && s.band[q] != 0
    ensures var u := Push(s, q);
            && Total(Face, u.band) == Total(Face, s.band)
            && Total(Points, u.band) - u.gained == Total(Points, s.band) - s.gained
            && (u == s || (u.moves && Weight(u.band) < Weight(s.band)))
    decreases q
  {
    hide Push, Total, Weight, Points, Face;
    PushUnfolds(s, q);
    if !Halted(s, q) {
      StepTotals(s, q);
      PushEffect(Stepped(s, q), q - 1);
    }
  }

  ghost predicate Follows(s: Sweep, u: Sweep) {
    && |u.band| == |s.band| && Total(Face, u.band) == Total(Face, s.band)
    && Total(Points, u.band) - u.gained == Total(Points, s.band) - s.gained
    && (u == s || (u.moves && Weight(u.band) < Weight(s.band)))
  }

  lemma {:induction false} SweepEffect(s: Sweep, q: nat)
    requires q <= |s.band|
    ensures Follows(s, SweepFrom(s, q))
    decreases |s.band| - q
  {
    hide Push, Total, Weight, Points, Face;
    if q < |s.band| {
      if s.band[q] != 0 { PushEffect(s, q); }
      SweepEffect(Advance(s, q), q + 1);
    }
  }

  function SweepBand(b: Band): (u: Sweep)
    ensures |u.band| == |b|
  {
    SweepFrom(Sweep(b, false, 0, false), 0)
  }

  /**
    * A band after a move: packed with its first pair merged; the sum of the numbers is kept, the score is what was
    * built, and it has moved exactly if it has changed.
    */
  lemma BandMoves(b: Band)
    ensures var u := SweepBand(b);
            && u.band == Moved(b) && |u.band| == |b|
            && Total(Face, u.band) == Total(Face, b)
            && Total(Points, u.band) == Total(Points, b) + u.gained
            && (u.moves <==> u.band != b)
  {
    hide Push, Total, Weight, Points, Face, SweepFrom, Moved;
    SweptStarts(b);
    SweepMoves(b, Sweep(b, false, 0, false), 0);
    SweepEffect(Sweep(b, false, 0, false), 0);
  }
}
