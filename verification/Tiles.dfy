/**
  * Copy-on-write tiles. An image is a grid of references to shared tiles of 128 by 128 pixels. The tile heap is
  * explicit: a tile's address is a key of the map, freeing a tile removes the key, and address 0 is null.
  * A pixel that was allocated but never written is missing from a picture.
  */
module Tiles {
  import opened Options
  import opened Region
  import opened PaintTargets

  const TILE: nat := 128

  datatype Tile = Tile(referenceCount: nat, ownerID: nat, bits: Picture)

  const NO_TILE: Tile := Tile(0, 0, map[])

  type Heap = map<nat, Tile>

  datatype Image = Image(tiles: seq<nat>, cols: nat, rows: nat, id: nat, width: nat, height: nat)

  /** The number of slots in `rows` rows of `cols` slots. */
  function Slots(cols: nat, rows: nat): nat {
    if rows == 0 then 0 else Slots(cols, rows - 1) + cols
  }

  lemma {:induction false} SlotsIsProduct(cols: nat, rows: nat)
    ensures Slots(cols, rows) == cols * rows
  {
    if rows > 0 { SlotsIsProduct(cols, rows - 1); }
  }

  lemma {:induction false} SlotsGrows(cols: nat, y: nat, rows: nat)
    requires y < rows
    ensures Slots(cols, y) + cols <= Slots(cols, rows)
  {
    if y < rows - 1 { SlotsGrows(cols, y, rows - 1); }
  }

  predicate WellFormed(image: Image) {
    && image.cols == (image.width + TILE - 1) / TILE && image.rows == (image.height + TILE - 1) / TILE
    && |image.tiles| == Slots(image.cols, image.rows)
  }

  predicate InGrid(cell: Point, cols: nat, rows: nat) { 0 <= cell.x < cols && 0 <= cell.y < rows }

  /** The slot of a tile: row-major, `cols` slots to a row. */
  function Slot(cell: Point, cols: nat, rows: nat): (i: nat)
    requires InGrid(cell, cols, rows)
    ensures i < Slots(cols, rows)
  {
    SlotsGrows(cols, cell.y, rows);
    Slots(cols, cell.y) + cell.x
  }

  /** Which is where the source looks: `y * cols + x`. */
  lemma SlotIsIndex(cell: Point, cols: nat, rows: nat)
    requires InGrid(cell, cols, rows)
    ensures Slot(cell, cols, rows) == cell.y * cols + cell.x
  {
    SlotsIsProduct(cols, cell.y);
  }

  lemma SlotsApart(a: Point, b: Point, cols: nat, rows: nat)
    requires InGrid(a, cols, rows) && InGrid(b, cols, rows) && a != b
    ensures Slot(a, cols, rows) != Slot(b, cols, rows)
  {
    if a.y < b.y { SlotsGrows(cols, a.y, b.y); } else if b.y < a.y { SlotsGrows(cols, b.y, a.y); }
  }

  lemma {:induction false} CellOfSlot(k: nat, cols: nat, rows: nat) returns (cell: Point)
    requires k < Slots(cols, rows)
    ensures InGrid(cell, cols, rows) && Slot(cell, cols, rows) == k
  {
    if k < Slots(cols, rows - 1) {
      cell := CellOfSlot(k, cols, rows - 1);
    } else {
      cell := Point(k - Slots(cols, rows - 1), rows - 1);
    }
  }

  function TileOf(p: Point): Point { Point(p.x / TILE, p.y / TILE) }

  function Local(p: Point): Point { Point(p.x % TILE, p.y % TILE) }

  predicate InImage(p: Point, image: Image) { 0 <= p.x < image.width && 0 <= p.y < image.height }

  function TileAt(image: Image, cell: Point): nat
    requires WellFormed(image) && InGrid(cell, image.cols, image.rows)
  {
    image.tiles[Slot(cell, image.cols, image.rows)]
  }

  function Get(picture: Picture, p: Point): Option<Color> {
    if p in picture then Some(picture[p]) else None
  }

  /** A null tile reads as zero. */
  function Read(heap: Heap, t: nat, q: Point): Option<Color> {
    if t in heap then Get(heap[t].bits, q) else if t == 0 then Some(0) else None
  }

  lemma CellInGrid(p: Point, image: Image)
    requires WellFormed(image) && InImage(p, image)
    ensures InGrid(TileOf(p), image.cols, image.rows)
  {
  }

  ghost function Pixel(heap: Heap, image: Image, p: Point): Option<Color>
    requires WellFormed(image) && InImage(p, image)
  {
    CellInGrid(p, image);
    Read(heap, TileAt(image, TileOf(p)), Local(p))
  }

  /** The picture read through the tiles. */
  ghost function View(heap: Heap, image: Image): Picture
    requires WellFormed(image)
  {
    map p | p in Grid(image.width, image.height) && InImage(p, image) && Pixel(heap, image, p).Some?
          :: if InImage(p, image) && Pixel(heap, image, p).Some? then Pixel(heap, image, p).value else 0
  }

  /** Every reference count is the number of slots that hold the tile, and no slot dangles. */
  ghost predicate Counted(heap: Heap, refs: multiset<nat>) {
    && 0 !in heap
    && (forall t :: t in heap ==> heap[t].referenceCount == refs[t] && refs[t] > 0)
    && (forall t :: t in refs && t != 0 ==> t in heap)
  }

  ghost function AddRefs(heap: Heap, refs: multiset<nat>): Heap {
    map t | t in heap :: if t in heap then heap[t].(referenceCount := heap[t].referenceCount + refs[t]) else NO_TILE
  }

  /** Give up references; a tile whose count drops to zero is freed. */
  ghost function DropRefs(heap: Heap, refs: multiset<nat>): Heap {
    map t | t in heap && refs[t] < heap[t].referenceCount
          :: if t in heap && refs[t] < heap[t].referenceCount
            then heap[t].(referenceCount := heap[t].referenceCount - refs[t]) else NO_TILE
  }

  /** `heap'` holds every tile of `refs` with the same pixels as `heap`. */
  ghost predicate SameBits(heap: Heap, heap': Heap, refs: multiset<nat>) {
    forall t :: t in refs ==> (t in heap <==> t in heap') && (t in heap ==> heap[t].bits == heap'[t].bits)
  }

  lemma AddRefsCounted(heap: Heap, refs: multiset<nat>, more: multiset<nat>)
    requires Counted(heap, refs) && forall t :: t in more && t != 0 ==> t in heap
    ensures Counted(AddRefs(heap, more), refs + more)
    ensures forall any: multiset<nat> :: SameBits(heap, AddRefs(heap, more), any)
  {
  }

  lemma DropRefsCounted(heap: Heap, refs: multiset<nat>, fewer: multiset<nat>)
    requires Counted(heap, refs + fewer) && 0 !in fewer
    ensures Counted(DropRefs(heap, fewer), refs)
    ensures SameBits(heap, DropRefs(heap, fewer), refs)
  {
  }

  lemma DropRefsOne(heap: Heap, refs: multiset<nat>, t: nat)
    requires t in heap && refs[t] < heap[t].referenceCount
    ensures var heap' := DropRefs(heap, refs);
            && t in heap' && heap'[t].referenceCount > 0
            && DropRefs(heap, refs + multiset{t}) ==
               if heap'[t].referenceCount == 1 then heap' - {t}
                 else heap'[t := heap'[t].(referenceCount := heap'[t].referenceCount - 1)]
  {
  }

  lemma PixelKept(heap: Heap, heap': Heap, image: Image, p: Point)
    requires WellFormed(image) && SameBits(heap, heap', multiset(image.tiles)) && InImage(p, image)
    ensures Pixel(heap, image, p) == Pixel(heap', image, p)
  {
    CellInGrid(p, image);
    var t := TileAt(image, TileOf(p));
    assert t in multiset(image.tiles);
  }

  lemma ViewDetermined(heap: Heap, image: Image, picture: Picture)
    requires WellFormed(image)
    requires forall p :: Get(picture, p) == if InImage(p, image) then Pixel(heap, image, p) else None
    ensures View(heap, image) == picture
  {
    hide Pixel;
    assert forall p :: p in picture <==> Get(picture, p).Some?;
  }

  lemma ViewAt(heap: Heap, image: Image, p: Point)
    requires WellFormed(image)
    ensures Get(View(heap, image), p) == if InImage(p, image) then Pixel(heap, image, p) else None
  {
    hide Pixel;
    assert p == Point(p.x, p.y);
  }

  lemma ViewKept(heap: Heap, heap': Heap, image: Image)
    requires WellFormed(image) && SameBits(heap, heap', multiset(image.tiles))
    ensures View(heap, image) == View(heap', image)
  {
    forall p ensures Get(View(heap, image), p) == if InImage(p, image) then Pixel(heap', image, p) else None {
      ViewAt(heap, image, p);
      if InImage(p, image) { PixelKept(heap, heap', image, p); }
    }
    ViewDetermined(heap', image, View(heap, image));
  }

  // ----- Forking an image: a new grid, possibly of another size, that shares the tiles.

  /** The reference a fork takes over: the tile at the same cell, or null outside the old grid. */
  function Shared(image: Image, cell: Point): nat
    requires WellFormed(image)
  {
    if InGrid(cell, image.cols, image.rows) then TileAt(image, cell) else 0
  }

  ghost predicate IsFork(image: Image, copy: Image) {
    && WellFormed(image) && WellFormed(copy)
    && forall cell :: InGrid(cell, copy.cols, copy.rows) ==> TileAt(copy, cell) == Shared(image, cell)
  }

  /** The slots before cell (x, y) in row-major order hold the shared references; the rest are null. */
  ghost predicate ForkedUpTo(image: Image, tiles: seq<nat>, cols: nat, rows: nat, x: nat, y: nat) {
    && WellFormed(image) && |tiles| == Slots(cols, rows)
    && forall cell :: InGrid(cell, cols, rows) ==>
         tiles[Slot(cell, cols, rows)] == if cell.y < y || (cell.y == y && cell.x < x) then Shared(image, cell) else 0
  }

  lemma ForkNext(image: Image, tiles: seq<nat>, cols: nat, rows: nat, x: nat, y: nat)
    requires x < cols && y < rows && ForkedUpTo(image, tiles, cols, rows, x, y)
    ensures tiles[Slot(Point(x, y), cols, rows)] == 0
    ensures ForkedUpTo(image, tiles[Slot(Point(x, y), cols, rows) := Shared(image, Point(x, y))], cols, rows, x + 1, y)
  {
    var here := Slot(Point(x, y), cols, rows);
    var tiles' := tiles[here := Shared(image, Point(x, y))];
    forall cell | InGrid(cell, cols, rows)
      ensures tiles'[Slot(cell, cols, rows)] == if cell.y < y || (cell.y == y && cell.x < x + 1)
              then Shared(image, cell) else 0
    {
      if cell != Point(x, y) { SlotsApart(cell, Point(x, y), cols, rows); }
    }
  }

  lemma ForkBegins(image: Image, tiles: seq<nat>, cols: nat, rows: nat)
    requires WellFormed(image) && |tiles| == Slots(cols, rows) && forall k :: 0 <= k < |tiles| ==> tiles[k] == 0
    ensures ForkedUpTo(image, tiles, cols, rows, 0, 0)
  {
  }

  lemma ForkRowEnds(image: Image, tiles: seq<nat>, cols: nat, rows: nat, y: nat)
    requires ForkedUpTo(image, tiles, cols, rows, cols, y)
    ensures ForkedUpTo(image, tiles, cols, rows, 0, y + 1)
  {
  }

  lemma ForkEnds(image: Image, copy: Image)
    requires WellFormed(copy) && ForkedUpTo(image, copy.tiles, copy.cols, copy.rows, 0, copy.rows)
    ensures IsFork(image, copy)
  {
  }

  lemma RefsUpdated(tiles: seq<nat>, k: nat, t: nat)
    requires k < |tiles|
    ensures multiset(tiles[k := t]) == multiset(tiles) - multiset{tiles[k]} + multiset{t}
  {
  }

  lemma AddRefsOne(heap: Heap, heap': Heap, refs: multiset<nat>, t: nat)
    requires 0 !in heap && heap' == AddRefs(heap, refs)
    ensures t == 0 ==> heap' == AddRefs(heap, refs - multiset{0} + multiset{t})
    ensures t in heap ==>
      && t in heap'
      && heap'[t := heap'[t].(referenceCount := heap'[t].referenceCount + 1)] ==
        AddRefs(heap, refs - multiset{0} + multiset{t})
  {
  }

  /** The tiles of a fork are tiles of the original, or null. */
  lemma ForkSharesOnly(image: Image, copy: Image, t: nat)
    requires IsFork(image, copy) && t in multiset(copy.tiles) && t != 0
    ensures t in multiset(image.tiles)
  {
    var k :| 0 <= k < |copy.tiles| && copy.tiles[k] == t;
    var cell := CellOfSlot(k, copy.cols, copy.rows);
    assert Shared(image, cell) in image.tiles;
  }

  // ----- Writing through an image.

  /**
    * The heap and the references of one image after `ImageUpdateTile` on slot `k`: the slot then holds a private tile.
    */
  ghost predicate MadePrivate(heap: Heap, image: Image, k: nat, heap': Heap, image': Image)
  {
    && k < |image.tiles| && k < |image'.tiles|
    && image' == image.(tiles := image'.tiles)
    && var t, t' := image.tiles[k], image'.tiles[k];
    && image'.tiles == image.tiles[k := t'] && t' in heap'
    && if t in heap && heap[t].ownerID == image.id then
         heap' == heap && t' == t
       else if t in heap && heap[t].referenceCount == 1 then
         heap' == heap[t := heap[t].(ownerID := image.id)] && t' == t
       else
         && t' !in heap && t' != 0 && heap'[t'].referenceCount == 1 && heap'[t'].ownerID == image.id
         && heap' == (if t in heap then heap[t := heap[t].(referenceCount := Minus1(heap[t].referenceCount))]
           else heap)[t' := heap'[t']]
  }

  function Minus1(n: nat): nat { if n == 0 then 0 else n - 1 }

  /** Tiles owned by the image being written are held by nobody else. */
  ghost predicate OwnedAlone(heap: Heap, id: nat) {
    forall t :: t in heap && heap[t].ownerID == id ==> heap[t].referenceCount == 1
  }

  lemma MadePrivateCounted(heap: Heap, image: Image, k: nat, heap': Heap, image': Image, stored: multiset<nat>)
    requires Counted(heap, stored + multiset(image.tiles)) && OwnedAlone(heap, image.id)
    requires MadePrivate(heap, image, k, heap', image')
    ensures Counted(heap', stored + multiset(image'.tiles)) && OwnedAlone(heap', image.id)
    ensures stored[image'.tiles[k]] == 0
    ensures SameBits(heap, heap', stored)
  {
    hide Counted, OwnedAlone, SameBits;
    var t, t', own := image.tiles[k], image'.tiles[k], multiset(image.tiles);
    assert t in own;
    CountedMeans(heap, stored + own, image.id, t);
    if t in heap && (heap[t].ownerID == image.id || heap[t].referenceCount == 1) {
      assert image'.tiles == image.tiles;
      SoleCounted(heap, stored, own, t, image.id);
      assert heap[t].ownerID == image.id ==> heap == heap[t := heap[t].(ownerID := image.id)];
    } else {
      RefsUpdated(image.tiles, k, t');
      MadeNewCounted(heap, stored, own, t, t', heap', image.id);
      Exchanged(stored, own, t, t');
    }
  }

  lemma Exchanged(stored: multiset<nat>, own: multiset<nat>, t: nat, t': nat)
    requires t in own
    ensures stored + (own - multiset{t} + multiset{t'}) == stored + own - multiset{t} + multiset{t'}
  {
  }

  lemma CountedMeans(heap: Heap, refs: multiset<nat>, id: nat, t: nat)
    requires Counted(heap, refs) && OwnedAlone(heap, id) && t in refs
    ensures 0 !in heap && (t in heap || t == 0)
    ensures t in heap && heap[t].ownerID == id ==> heap[t].referenceCount == 1
  {
  }

  /** The only reference to a tile is the image's own: it becomes the owner. */
  lemma SoleCounted(heap: Heap, stored: multiset<nat>, own: multiset<nat>, t: nat, id: nat)
    requires Counted(heap, stored + own) && OwnedAlone(heap, id) && t in own && t in heap && heap[t].referenceCount == 1
    ensures var heap' := heap[t := heap[t].(ownerID := id)];
            Counted(heap', stored + own) && OwnedAlone(heap', id) && SameBits(heap, heap', stored)
    ensures stored[t] == 0
  {
  }

  /** A new tile takes the place of a reference to an old one, or of null. */
  lemma MadeNewCounted(heap: Heap, stored: multiset<nat>, own: multiset<nat>, t: nat, t': nat, heap': Heap, id: nat)
    requires Counted(heap, stored + own) && OwnedAlone(heap, id) && t in own && t' !in heap && t' != 0 && t' in heap'
    requires t in heap ==> heap[t].referenceCount != 1 && heap[t].ownerID != id
    requires heap'[t'].referenceCount == 1
    requires heap' == (if t in heap then heap[t := heap[t].(referenceCount := Minus1(heap[t].referenceCount))]
                       else heap)[t' := heap'[t']]
    ensures Counted(heap', stored + own - multiset{t} + multiset{t'}) && OwnedAlone(heap', id)
    ensures stored[t'] == 0 && SameBits(heap, heap', stored)
  {
    assert t' !in stored + own;
  }

  /** The tile in a slot is one that the image owns, and there are more references to it than the image's own. */
  predicate OwnsShared(heap: Heap, image: Image, k: nat)
    requires k < |image.tiles|
  {
    var t := image.tiles[k];
    t in heap && heap[t].ownerID == image.id && heap[t].referenceCount > multiset(image.tiles)[t]
  }

  function Rewritten(heap: Heap, t: nat, bits: Picture): Heap
    requires t in heap
  {
    heap[t := heap[t].(bits := bits)]
  }

  /**
    * Exactly when what is written through a slot stays out of the stored images: unless the image owns a tile that it
    * shares. Right after a fork the new image owns no tile; an image that comes back by an undo may.
    */
  lemma WriteIsPrivateIff(heap: Heap, image: Image, k: nat, heap': Heap, image': Image, stored: multiset<nat>)
    requires Counted(heap, stored + multiset(image.tiles))
    requires MadePrivate(heap, image, k, heap', image')
    ensures (forall bits :: SameBits(heap, Rewritten(heap', image'.tiles[k], bits), stored)) <==>
            !OwnsShared(heap, image, k)
  {
    var t := image.tiles[k];
    assert t in multiset(image.tiles);
    if OwnsShared(heap, image, k) {
      var bits: Picture := if heap[t].bits == map[] then map[Point(0, 0) := 0] else map[];
      assert heap[t].bits == map[] ==> Point(0, 0) in bits;
      assert bits != heap[t].bits && t in stored;
      assert !SameBits(heap, Rewritten(heap', image'.tiles[k], bits), stored);
    }
  }

  /** Otherwise every image that holds the tile shows what was written. */
  lemma WriteShows(heap: Heap, image: Image, k: nat, heap': Heap, image': Image, bits: Picture, other: Image, p: Point)
    requires MadePrivate(heap, image, k, heap', image') && OwnsShared(heap, image, k)
    requires WellFormed(other) && InImage(p, other) && InGrid(TileOf(p), other.cols, other.rows)
    requires TileAt(other, TileOf(p)) == image.tiles[k]
    ensures Pixel(Rewritten(heap', image'.tiles[k], bits), other, p) == Get(bits, Local(p))
  {
  }

  // ----- Which tiles an image has made its own.

  /** Every slot that no longer holds what it held before holds a tile that the image owns. */
  ghost predicate Took(before: seq<nat>, heap: Heap, image: Image) {
    && |before| == |image.tiles|
    && forall k :: 0 <= k < |before| && image.tiles[k] != before[k] ==>
         image.tiles[k] in heap && heap[image.tiles[k]].ownerID == image.id
  }

  lemma TookKept(before: seq<nat>, heap: Heap, image: Image, k: nat, heap': Heap, image': Image, bits: Picture)
    requires Took(before, heap, image) && MadePrivate(heap, image, k, heap', image')
    ensures Took(before, Rewritten(heap', image'.tiles[k], bits), image')
  {
  }

  // ----- Copying pixels between a tile and the bitmap.

  function Global(cell: Point, q: Point): Point { Point(cell.x * TILE + q.x, cell.y * TILE + q.y) }

  /** How much of a tile lies inside a bitmap of the given size, along one axis. */
  function CopySize(index: nat, size: nat): int {
    if index * TILE + TILE > size then size - index * TILE else TILE
  }

  predicate BeforeLocal(q: Point, x: int, y: int) { q.y < y || (q.y == y && q.x < x) }

  predicate InTile(q: Point, width: int, height: int) { 0 <= q.x < width && 0 <= q.y < height }

  /** The part of a tile of size `width` by `height` before (x, y) was copied from the bitmap. */
  ghost predicate CopiedIn(bits: Picture, bits': Picture, bitmap: Picture, cell: Point, width: int, height: int, x: int,
                           y: int) {
    forall q :: Get(bits', q) == (if InTile(q, width, height) && BeforeLocal(q, x, y) then Get(bitmap, Global(cell, q))
      else Get(bits, q))
  }

  ghost predicate CopiedOut(heap: Heap, t: nat, bitmap: Picture, bitmap': Picture, cell: Point, width: int, height: int,
                            x: int, y: int) {
    forall q :: Get(bitmap', Global(cell, q)) ==
                (if InTile(q, width, height) && BeforeLocal(q, x, y) then Read(heap, t, q)
                  else Get(bitmap, Global(cell, q)))
  }

  /** `ImageCopyFromPaintTarget`, inner loops: the part of the bitmap under a tile is copied into it. */
  method CopyTileIn(bits: Picture, bitmap: Picture, cell: Point, width: nat, height: nat) returns (bits': Picture)
    requires 0 <= cell.x && 0 <= cell.y
    requires forall p :: p in bitmap <==> 0 <= p.x < width && 0 <= p.y < height
    ensures forall q :: Get(bits', q) == if InTile(q, TILE, TILE) && Global(cell, q) in bitmap
                                         then Get(bitmap, Global(cell, q)) else Get(bits, q)
  {
    var copyWidth, copyHeight := CopySize(cell.x, width), CopySize(cell.y, height);
    bits' := bits;
    var y := 0;
    while y < copyHeight
      invariant 0 <= y && (y <= copyHeight || copyHeight < 0)
      invariant CopiedIn(bits, bits', bitmap, cell, copyWidth, copyHeight, 0, y)
    {
      var x := 0;
      while x < copyWidth
        invariant 0 <= x && (x <= copyWidth || copyWidth < 0)
        invariant CopiedIn(bits, bits', bitmap, cell, copyWidth, copyHeight, x, y)
      {
        bits' := bits'[Point(x, y) := bitmap[Global(cell, Point(x, y))]];
        x := x + 1;
      }
      y := y + 1;
    }
  }

  predicate UnderTile(p: Point, cell: Point, width: nat, height: nat) {
    TileOf(p) == cell && 0 <= p.x < width && 0 <= p.y < height
  }

  /** `ImageCopyToPaintTarget`, inner loops: a tile is copied to its place in the bitmap. */
  method CopyTileOut(heap: Heap, t: nat, cell: Point, width: nat, height: nat, bitmap: Picture)
    returns (bitmap': Picture)
    requires 0 <= cell.x && 0 <= cell.y
    ensures forall p :: Get(bitmap', p) ==
                        (if UnderTile(p, cell, width, height) then Read(heap, t, Local(p)) else Get(bitmap, p))
  {
    var copyWidth, copyHeight := CopySize(cell.x, width), CopySize(cell.y, height);
    bitmap' := bitmap;
    var y := 0;
    while y < copyHeight
      invariant 0 <= y && (y <= copyHeight || copyHeight < 0)
      invariant CopiedOut(heap, t, bitmap, bitmap', cell, copyWidth, copyHeight, 0, y)
    {
      var x := 0;
      while x < copyWidth
        invariant 0 <= x && (x <= copyWidth || copyWidth < 0)
        invariant CopiedOut(heap, t, bitmap, bitmap', cell, copyWidth, copyHeight, x, y)
      {
        var q := Point(x, y);
        match Read(heap, t, q) {
          case Some(c) => bitmap' := bitmap'[Global(cell, q) := c];
          case None => bitmap' := bitmap' - {Global(cell, q)};
        }
        x := x + 1;
      }
      y := y + 1;
    }
    forall p ensures Get(bitmap', p) ==
      (if UnderTile(p, cell, width, height) then Read(heap, t, Local(p)) else Get(bitmap, p)) {
      var q := Point(p.x - cell.x * TILE, p.y - cell.y * TILE);
      assert Global(cell, q) == p;
    }
  }

  /** The tile holds exactly the part of the bitmap at its cell. */
  ghost predicate Agrees(heap: Heap, t: nat, bitmap: Picture, cell: Point) {
    && t in heap
    && forall q :: InTile(q, TILE, TILE) && Global(cell, q) in bitmap ==>
      Get(heap[t].bits, q) == Get(bitmap, Global(cell, q))
  }

  /** When every tile agrees with the bitmap, the picture read through the tiles is the bitmap. */
  lemma AllAgree(heap: Heap, image: Image, bitmap: Picture)
    requires WellFormed(image) && forall p :: p in bitmap <==> InImage(p, image)
    requires forall cell :: InGrid(cell, image.cols, image.rows) ==> Agrees(heap, TileAt(image, cell), bitmap, cell)
    requires 0 !in heap
    ensures View(heap, image) == bitmap && 0 !in image.tiles
  {
    forall p ensures Get(bitmap, p) == if InImage(p, image) then Pixel(heap, image, p) else None {
      if InImage(p, image) {
        CellInGrid(p, image);
        assert Global(TileOf(p), Local(p)) == p;
        assert Agrees(heap, TileAt(image, TileOf(p)), bitmap, TileOf(p));
        assert InTile(Local(p), TILE, TILE);
      }
    }
    ViewDetermined(heap, image, bitmap);
    forall k | 0 <= k < |image.tiles| ensures image.tiles[k] != 0 {
      var cell := CellOfSlot(k, image.cols, image.rows);
      assert Agrees(heap, TileAt(image, cell), bitmap, cell);
    }
  }

  lemma GlobalLocal(cell: Point, q: Point)
    requires InTile(q, TILE, TILE)
    ensures TileOf(Global(cell, q)) == cell && Local(Global(cell, q)) == q
  {
  }

  /** Copying the bitmap into a private tile makes that cell agree and disturbs no other cell and no stored image. */
  lemma WriteCell(heap: Heap, image: Image, k: nat, heap': Heap, image': Image, stored: multiset<nat>,
                  bitmap: Picture, bits: Picture, k': nat, cell': Point)
    requires Counted(heap, stored + multiset(image.tiles)) && OwnedAlone(heap, image.id)
    requires MadePrivate(heap, image, k, heap', image') && k' < |image.tiles| && k' != k
    requires Agrees(heap, image.tiles[k'], bitmap, cell')
    ensures Agrees(heap'[image'.tiles[k] := heap'[image'.tiles[k]].(bits := bits)], image'.tiles[k'], bitmap, cell')
  {
    MadePrivateCounted(heap, image, k, heap', image', stored);
    var t, u := image'.tiles[k], image'.tiles[k'];
    HeldTwice(image'.tiles, k, k');
  }

  lemma HeldTwice(tiles: seq<nat>, k: nat, k': nat)
    requires k < |tiles| && k' < |tiles| && k != k'
    ensures tiles[k] == tiles[k'] ==> multiset(tiles)[tiles[k]] >= 2
  {
    var rest := tiles[k := if tiles[k] == 0 then 1 else 0];
    RefsUpdated(tiles, k, rest[k]);
    assert rest[k'] == tiles[k'] && rest[k'] in multiset(rest);
  }
}
