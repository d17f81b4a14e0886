/** Rotating and flipping a picture, pixel by pixel. */
module Transforms {
  import opened Options
  import opened Region
  import opened PaintTargets
  import opened Tiles

  datatype Transform = RotateLeft | RotateRight | FlipHorizontally | FlipVertically

  /** Where a pixel of a `width` by `height` picture ends up. */
  function Target(kind: Transform, width: nat, height: nat, p: Point): Point {
    match kind
    case RotateLeft => Point(p.y, width - p.x - 1)
    case RotateRight => Point(height - p.y - 1, p.x)
    case FlipHorizontally => Point(width - p.x - 1, p.y)
    case FlipVertically => Point(p.x, height - p.y - 1)
  }

  predicate Turns(kind: Transform) { kind.RotateLeft? || kind.RotateRight? }

  predicate Within(p: Point, width: int, height: int) { 0 <= p.x < width && 0 <= p.y < height }

  /** `after` is `before` with every pixel moved to its target. */
  ghost predicate IsTransformed(kind: Transform, width: nat, height: nat, before: Picture, after: Picture) {
    && (forall p :: Within(p, width, height) ==> Get(after, Target(kind, width, height, p)) == Get(before, p))
    && (forall p :: p in after ==> if Turns(kind) then Within(p, height, width) else Within(p, width, height))
  }

  predicate Earlier(p: Point, x: int, y: int) { p.y < y || (p.y == y && p.x < x) }

  ghost predicate RotatedUpTo(kind: Transform, width: nat, height: nat, before: Picture, after: Picture, x: int,
                              y: int) {
    && (forall p :: Within(p, width, height) && Earlier(p, x, y) ==>
      Get(after, Target(kind, width, height, p)) == Get(before, p))
    && (forall p :: p in after ==> Within(p, height, width))
  }

  method Rotate(kind: Transform, width: nat, height: nat, bitmap: Picture) returns (rotated: Picture)
    requires Turns(kind) && forall p :: p in bitmap <==> Within(p, width, height)
    ensures IsTransformed(kind, width, height, bitmap, rotated)
  {
    rotated := map[];
    var i := 0;
    while i < height
      invariant 0 <= i <= height && RotatedUpTo(kind, width, height, bitmap, rotated, 0, i)
    {
      var j := 0;
      while j < width
        invariant 0 <= j <= width && RotatedUpTo(kind, width, height, bitmap, rotated, j, i)
      {
        rotated := rotated[Target(kind, width, height, Point(j, i)) := bitmap[Point(j, i)]];
        j := j + 1;
      }
      i := i + 1;
    }
  }

  /** A pixel whose pair was swapped: one of the two lies in the part of the picture that the loops have passed. */
  predicate Swapped(kind: Transform, width: nat, height: nat, p: Point, x: int, y: int) {
    var q := Target(kind, width, height, p);
    if kind.FlipHorizontally? then
      p.y < y || (p.y == y && (p.x < x || q.x < x))
    else
      p.y < y || q.y < y || ((p.y == y || q.y == y) && p.x < x)
  }

  ghost predicate FlippedPart(kind: Transform, width: nat, height: nat, before: Picture, after: Picture, x: int,
                              y: int) {
    && (forall p :: p in after <==> Within(p, width, height))
    && (forall p :: Within(p, width, height) ==>
          Get(after, p) == Get(before, if Swapped(kind, width, height, p, x, y) then Target(kind, width, height, p)
            else p))
  }

  lemma FlipBegins(kind: Transform, width: nat, height: nat, bitmap: Picture)
    requires !Turns(kind) && forall p :: p in bitmap <==> Within(p, width, height)
    ensures FlippedPart(kind, width, height, bitmap, bitmap, 0, 0)
  {
  }

  lemma FlipNext(kind: Transform, width: nat, height: nat, before: Picture, after: Picture, x: nat, y: nat)
    requires !Turns(kind) && FlippedPart(kind, width, height, before, after, x, y)
    requires x < (if kind.FlipHorizontally? then width / 2 else width)
             && y < (if kind.FlipVertically? then height / 2 else height)
    ensures var p, q := Point(x, y), Target(kind, width, height, Point(x, y));
            && p in after && q in after
            && FlippedPart(kind, width, height, before, after[p := after[q]][q := after[p]], x + 1, y)
  {
    var p, q := Point(x, y), Target(kind, width, height, Point(x, y));
    var after' := after[p := after[q]][q := after[p]];
    forall r | Within(r, width, height)
      ensures Get(after', r) == Get(before, if Swapped(kind, width, height, r, x + 1, y)
              then Target(kind, width, height, r) else r)
    {
      assert r != p && r != q ==> Swapped(kind, width, height, r, x, y) == Swapped(kind, width, height, r, x + 1, y);
      assert !Swapped(kind, width, height, p, x, y) && !Swapped(kind, width, height, q, x, y);
    }
  }

  lemma FlipRowEnds(kind: Transform, width: nat, height: nat, before: Picture, after: Picture, y: nat)
    requires !Turns(kind) && FlippedPart(kind, width, height, before, after, if kind.FlipHorizontally? then width / 2
             else width, y)
    ensures FlippedPart(kind, width, height, before, after, 0, y + 1)
  {
    var x := if kind.FlipHorizontally? then width / 2 else width;
    forall p | Within(p, width, height)
      ensures Get(after, p) == Get(before, if Swapped(kind, width, height, p, 0, y + 1)
              then Target(kind, width, height, p) else p)
    {
      if Swapped(kind, width, height, p, x, y) != Swapped(kind, width, height, p, 0, y + 1) {
        assert Target(kind, width, height, p) == p;
      }
    }
  }

  /** A flip taken twice leads back, and a pixel that no swap has moved is its own mirror image. */
  lemma FlipPairs(kind: Transform, width: nat, height: nat, p: Point)
    requires !Turns(kind) && Within(p, width, height)
    ensures var q := Target(kind, width, height, p);
            && Within(q, width, height) && Target(kind, width, height, q) == p
            && (Swapped(kind, width, height, q, 0, if kind.FlipVertically? then height / 2 else height) || q == p)
  {
  }

  lemma FlipEnds(kind: Transform, width: nat, height: nat, before: Picture, after: Picture)
    requires !Turns(kind) && FlippedPart(kind, width, height, before, after, 0, if kind.FlipVertically? then height / 2
             else height)
    ensures IsTransformed(kind, width, height, before, after)
  {
    hide Swapped, Target;
    forall p | Within(p, width, height) ensures Get(after, Target(kind, width, height, p)) == Get(before, p) {
      FlipPairs(kind, width, height, p);
    }
  }

  method Flip(kind: Transform, width: nat, height: nat, bitmap: Picture) returns (flipped: Picture)
    requires !Turns(kind) && forall p :: p in bitmap <==> Within(p, width, height)
    ensures IsTransformed(kind, width, height, bitmap, flipped)
  {
    flipped := bitmap;
    hide FlippedPart, IsTransformed;
    FlipBegins(kind, width, height, bitmap);
    var rows := if kind.FlipVertically? then height / 2 else height;
    var cols := if kind.FlipHorizontally? then width / 2 else width;
    var i := 0;
    while i < rows
      invariant 0 <= i <= rows && FlippedPart(kind, width, height, bitmap, flipped, 0, i)
    {
      var j := 0;
      while j < cols
        invariant 0 <= j <= cols && FlippedPart(kind, width, height, bitmap, flipped, j, i)
      {
        var p, q := Point(j, i), Target(kind, width, height, Point(j, i));
        FlipNext(kind, width, height, bitmap, flipped, j, i);
        flipped := flipped[p := flipped[q]][q := flipped[p]];
        j := j + 1;
      }
      FlipRowEnds(kind, width, height, bitmap, flipped, i);
      i := i + 1;
    }
    FlipEnds(kind, width, height, bitmap, flipped);
  }

  /** Turning right undoes turning left, turning left undoes turning right, and each flip undoes itself. */
  function Inverse(kind: Transform): Transform {
    match kind
    case RotateLeft => RotateRight
    case RotateRight => RotateLeft
    case _ => kind
  }

  /** A transformed picture has no holes. */
  lemma TransformedIsFull(kind: Transform, width: nat, height: nat, before: Picture, after: Picture, p: Point)
    requires forall p :: p in before <==> Within(p, width, height)
    requires IsTransformed(kind, width, height, before, after)
    ensures p in after <==> if Turns(kind) then Within(p, height, width) else Within(p, width, height)
  {
    var w, h := if Turns(kind) then height else width, if Turns(kind) then width else height;
    if Within(p, w, h) {
      TargetInverted(Inverse(kind), w, h, p);
      var q := Target(Inverse(kind), w, h, p);
      assert Get(after, Target(kind, width, height, q)) == Get(before, q);
    }
  }

  lemma TargetInverted(kind: Transform, width: nat, height: nat, p: Point)
    requires Within(p, width, height)
    ensures var w, h := if Turns(kind) then height else width, if Turns(kind) then width else height;
            var q := Target(kind, width, height, p);
            Within(q, w, h) && Target(Inverse(kind), w, h, q) == p
  {
  }

  lemma SamePicture(a: Picture, b: Picture)
    requires forall p :: Get(a, p) == Get(b, p)
    ensures a == b
  {
    assert forall p :: p in a ==> Get(a, p) == Some(a[p]);
    assert forall p :: p in b ==> Get(b, p) == Some(b[p]);
  }

  lemma TransformUndone(kind: Transform, width: nat, height: nat, before: Picture, after: Picture, again: Picture)
    requires forall p :: p in before <==> Within(p, width, height)
    requires IsTransformed(kind, width, height, before, after)
    requires var w, h := if Turns(kind) then height else width, if Turns(kind) then width else height;
             IsTransformed(Inverse(kind), w, h, after, again)
    ensures again == before
  {
    hide Target;
    forall p ensures Get(again, p) == Get(before, p) {
      if Within(p, width, height) { TargetInverted(kind, width, height, p); }
    }
    SamePicture(again, before);
  }
}
