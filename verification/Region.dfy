/** Four-connected regions of a finite set of cells: the reference the flood fill is measured against. */
module Region {

  datatype Point = Point(x: int, y: int)

  predicate Adjacent(a: Point, b: Point) {
    || (a.y == b.y && (a.x == b.x + 1 || b.x == a.x + 1))
    || (a.x == b.x && (a.y == b.y + 1 || b.y == a.y + 1))
  }

  ghost predicate IsPath(cells: set<Point>, path: seq<Point>) {
    && path != []
    && (forall i :: 0 <= i < |path| ==> path[i] in cells)
    && (forall i :: 0 < i < |path| ==> Adjacent(path[i - 1], path[i]))
  }

  ghost predicate Connected(cells: set<Point>, a: Point, b: Point) {
    exists path :: IsPath(cells, path) && path[0] == a && path[|path| - 1] == b
  }

  /** The cells that can be reached from `a` by steps to one of the four neighbours, staying inside `cells`. */
  ghost function RegionOf(cells: set<Point>, a: Point): set<Point> {
    set p | p in cells && Connected(cells, a, p)
  }

  ghost predicate Closed(cells: set<Point>, s: set<Point>) {
    forall p, q :: p in s && q in cells && Adjacent(p, q) ==> q in s
  }

  lemma StartInRegion(cells: set<Point>, a: Point)
    requires a in cells
    ensures a in RegionOf(cells, a)
  {
    assert IsPath(cells, [a]);
  }

  lemma RegionGrows(cells: set<Point>, a: Point, b: Point, c: Point)
    requires b in RegionOf(cells, a) && c in cells && Adjacent(b, c)
    ensures c in RegionOf(cells, a)
  {
    var path :| IsPath(cells, path) && path[0] == a && path[|path| - 1] == b;
    assert IsPath(cells, path + [c]);
    assert (path + [c])[|path + [c]| - 1] == c;
  }

  lemma {:induction false} PathStaysInside(cells: set<Point>, s: set<Point>, path: seq<Point>)
    requires Closed(cells, s) && IsPath(cells, path) && path[0] in s
    ensures path[|path| - 1] in s
  {
    if |path| > 1 {
      assert Adjacent(path[0], path[1]);
      var rest := path[1..];
      assert forall i :: 0 < i < |rest| ==> rest[i - 1] == path[i] && rest[i] == path[i + 1];
      PathStaysInside(cells, s, rest);
    }
  }

  /** A closed set that holds the start holds the whole region. */
  lemma ClosedSetHoldsRegion(cells: set<Point>, s: set<Point>, a: Point)
    requires Closed(cells, s) && a in s
    ensures RegionOf(cells, a) <= s
  {
    forall p | p in RegionOf(cells, a) ensures p in s {
      var path :| IsPath(cells, path) && path[0] == a && path[|path| - 1] == p;
      PathStaysInside(cells, s, path);
    }
  }
}
