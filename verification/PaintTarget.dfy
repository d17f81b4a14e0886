/** The bitmap that the image editor draws on: a flat buffer of pixels, `stride` pixels to a row. */
module PaintTargets {
  import opened Region

  type Color = bv32

  /** The contents of a bitmap: one colour for each stored point. */
  type Picture = map<Point, Color>

  datatype Rectangle = Rectangle(l: int, r: int, t: int, b: int) {
    predicate Contains(p: Point) { l <= p.x < r && t <= p.y < b }
  }

  /** The picture with every point of `s` recoloured. */
  ghost function Painted(picture: Picture, s: set<Point>, c: Color): Picture {
    map p | p in picture :: if p !in picture then 0 else if p in s then c else picture[p]
  }

  function Grid(width: nat, height: nat): set<Point> {
    set x, y | 0 <= x < width && 0 <= y < height :: Point(x, y)
  }

  lemma InGridIff(p: Point, width: nat, height: nat)
    ensures p in Grid(width, height) <==> 0 <= p.x < width && 0 <= p.y < height
  {
    assert p == Point(p.x, p.y);
  }

  lemma RowBound(x: nat, y: nat, stride: nat, height: nat)
    requires x < stride && y < height
    ensures 0 <= y * stride + x < stride * height
  {
    assert (y + 1) * stride <= height * stride;
  }

  lemma RowsApart(x: nat, y: nat, x': nat, y': nat, stride: nat)
    requires x < stride && x' < stride && (x != x' || y != y')
    ensures y * stride + x != y' * stride + x'
  {
    if y < y' {
      assert (y + 1) * stride <= y' * stride;
    } else if y' < y {
      assert (y' + 1) * stride <= y * stride;
    }
  }

  lemma RowOf(x: nat, y: nat, stride: nat)
    requires x < stride
    ensures (y * stride + x) / stride == y && (y * stride + x) % stride == x
  {
    var i := y * stride + x;
    assert i == stride * (i / stride) + i % stride;
    RowsMeet(x, y, i % stride, i / stride, stride);
  }

  lemma RowsMeet(x: nat, y: nat, x': nat, y': nat, stride: nat)
    requires x < stride && x' < stride && y * stride + x == y' * stride + x'
    ensures x == x' && y == y'
  {
    if x != x' || y != y' { RowsApart(x, y, x', y', stride); }
  }

  lemma RowsBelow(y: nat, y': nat, stride: nat)
    ensures y >= y' ==> stride * y >= stride * y'
  {
  }

  /** Every index of a buffer without padding belongs to a point. */
  lemma InRow(i: nat, width: nat, height: nat)
    requires i < width * height
    ensures 0 <= i % width < width && 0 <= i / width < height
  {
    assert width > 0;
    assert i == width * (i / width) + i % width;
    RowsBelow(i / width, height, width);
  }

  function ColorAt(picture: Picture, width: nat, height: nat, i: nat): Color
    requires (forall p :: p in picture <==> 0 <= p.x < width && 0 <= p.y < height) && i < width * height
  {
    InRow(i, width, height);
    picture[Point(i % width, i / width)]
  }

  class PaintTarget {
    const width: nat
    const height: nat
    const stride: nat
    const bits: array<Color>

    ghost predicate Valid() {
      width <= stride && bits.Length == stride * height
    }

    /** Inside the picture; columns from `width` up to `stride` are padding. */
    predicate Inside(p: Point) { 0 <= p.x < width && 0 <= p.y < height }

    predicate Stored(p: Point) { 0 <= p.x < stride && 0 <= p.y < height }

    function Index(p: Point): (i: nat)
      requires Valid() && Stored(p)
      ensures i < bits.Length
    {
      RowBound(p.x, p.y, stride, height);
      p.y * stride + p.x
    }

    ghost function View(): (picture: Picture)
      requires Valid()
      reads bits
      ensures forall p :: p in picture <==> Stored(p)
    {
      assert forall p :: p in Grid(stride, height) <==> Stored(p) by {
        forall p ensures p in Grid(stride, height) <==> Stored(p) { InGridIff(p, stride, height); }
      }
      map p | p in Grid(stride, height) :: if Stored(p) then bits[Index(p)] else 0
    }

    constructor (width: nat, height: nat, padding: nat, initial: Color)
      ensures Valid() && this.width == width && this.height == height && fresh(bits)
      ensures forall p :: Stored(p) ==> View()[p] == initial
    {
      this.width, this.height, this.stride := width, height, width + padding;
      bits := new Color[(width + padding) * height](_ => initial);
    }

    /** A buffer that shows a given picture. */
    constructor Of(width: nat, height: nat, picture: Picture)
      requires forall p :: p in picture <==> 0 <= p.x < width && 0 <= p.y < height
      ensures Valid() && this.width == width && this.height == height && fresh(bits) && View() == picture
    {
      this.width, this.height, this.stride := width, height, width;
      bits := new Color[width * height](i requires 0 <= i < width * height => ColorAt(picture, width, height, i));
      new;
      forall p | Stored(p) ensures View()[p] == picture[p] { RowOf(p.x, p.y, width); }
    }

    /** The picture that the buffer shows. */
    method Contents() returns (picture: Picture)
      requires Valid()
      ensures picture == View()
    {
      forall p ensures p in Grid(stride, height) <==> Stored(p) { InGridIff(p, stride, height); }
      picture := map p | p in Grid(stride, height) :: if Stored(p) then bits[Index(p)] else 0;
    }

    method Get(p: Point) returns (c: Color)
      requires Valid() && Stored(p)
      ensures c == View()[p]
    {
      c := bits[Index(p)];
    }

    method Put(p: Point, c: Color)
      requires Valid() && Stored(p)
      modifies bits
      ensures View() == old(View())[p := c]
    {
      bits[Index(p)] := c;
      forall q | Stored(q) ensures View()[q] == old(View())[p := c][q] {
        if q != p { RowsApart(q.x, q.y, p.x, p.y, stride); }
      }
    }
  }
}
