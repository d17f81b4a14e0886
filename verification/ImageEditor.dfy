/**
  * The image editor's document: the current image, the images on the undo and redo stacks, the tile heap they
  * share, and the bitmap. Against the plain specification, every stack entry is a full copy of a picture.
  */
module ImageEditor {
  import opened FloodFill
  import opened Options
  import opened PaintTargets
  import opened Region
  import opened Tiles
  import opened Transforms

  /** A picture with its size: what an image means, tiles aside. */
  datatype Canvas = Canvas(width: nat, height: nat, picture: Picture)

  ghost predicate Full(canvas: Canvas) {
    && canvas.width > 0 && canvas.height > 0
    && forall p :: p in canvas.picture <==> 0 <= p.x < canvas.width && 0 <= p.y < canvas.height
  }

  ghost predicate AllFull(canvases: seq<Canvas>) {
    forall k :: 0 <= k < |canvases| ==> Full(canvases[k])
  }

  ghost function CanvasOf(heap: Heap, image: Image): Canvas
    requires WellFormed(image)
  {
    Canvas(image.width, image.height, View(heap, image))
  }

  ghost predicate AllWellFormed(images: seq<Image>) {
    forall k :: 0 <= k < |images| ==> WellFormed(images[k]) && 0 !in images[k].tiles
  }

  ghost function Canvases(heap: Heap, images: seq<Image>): (canvases: seq<Canvas>)
    requires AllWellFormed(images)
    ensures |canvases| == |images|
  {
    seq(|images|, k requires 0 <= k < |images| => CanvasOf(heap, images[k]))
  }

  /** The references held by a stack of images. */
  ghost function Stored(images: seq<Image>): multiset<nat> {
    if images == [] then multiset{} else Stored(images[..|images| - 1]) + multiset(images[|images| - 1].tiles)
  }

  lemma StoredPush(images: seq<Image>, image: Image)
    ensures Stored(images + [image]) == Stored(images) + multiset(image.tiles)
  {
    assert (images + [image])[..|images|] == images;
  }

  lemma {:induction false} StoredHolds(images: seq<Image>, k: nat)
    requires k < |images|
    ensures multiset(images[k].tiles) <= Stored(images)
  {
    if k < |images| - 1 {
      StoredHolds(images[..|images| - 1], k);
    }
  }

  /** A stack keeps its meaning as long as the pixels of its tiles are kept. */
  lemma CanvasesKept(heap: Heap, heap': Heap, images: seq<Image>, refs: multiset<nat>)
    requires AllWellFormed(images) && SameBits(heap, heap', refs) && Stored(images) <= refs
    ensures Canvases(heap', images) == Canvases(heap, images)
  {
    forall k | 0 <= k < |images| ensures CanvasOf(heap', images[k]) == CanvasOf(heap, images[k]) {
      StoredHolds(images, k);
      assert SameBits(heap, heap', multiset(images[k].tiles));
      ViewKept(heap, heap', images[k]);
    }
  }

  /** A natural number that is not an address in use, as an allocator would return. */
  lemma FreshAddress(heap: Heap) returns (t: nat)
    ensures t != 0 && t !in heap
  {
    t := Above(heap.Keys);
  }

  lemma {:induction false} Above(s: set<nat>) returns (bound: nat)
    ensures bound > 0 && forall t :: t in s ==> t < bound
  {
    if s == {} {
      bound := 1;
    } else {
      var t :| t in s;
      var rest := Above(s - {t});
      bound := if rest > t then rest else t + 1;
      assert s == (s - {t}) + {t};
    }
  }

  class Editor {
    var heap: Heap
    var image: Image
    var undoStack: seq<Image>
    var redoStack: seq<Image>
    var nextImageID: nat
    var bitmap: Picture
    var bitmapWidth: nat
    var bitmapHeight: nat

    /** The references held by the two stacks. */
    ghost function Kept(): multiset<nat>
      reads this`undoStack, this`redoStack
    {
      Stored(undoStack) + Stored(redoStack)
    }

    /** Reference counts are exact, stored images have no null slot, and the next image identifier owns nothing yet. */
    ghost predicate Sound()
      reads this
    {
      && WellFormed(image) && AllWellFormed(undoStack) && AllWellFormed(redoStack)
      && Counted(heap, Kept() + multiset(image.tiles))
      && forall t :: t in heap ==> heap[t].ownerID < nextImageID
    }

    /** Between messages: also, the bitmap is what the current image reads as, and every stored picture is complete. */
    ghost predicate Valid()
      reads this
    {
      && Sound() && 0 !in image.tiles
      && image.width == bitmapWidth && image.height == bitmapHeight
      && CanvasOf(heap, image) == Bitmap() && Full(Bitmap())
      && AllFull(Canvases(heap, undoStack)) && AllFull(Canvases(heap, redoStack))
    }

    ghost function Bitmap(): Canvas
      reads this`bitmap, this`bitmapWidth, this`bitmapHeight
    {
      Canvas(bitmapWidth, bitmapHeight, bitmap)
    }

    /** A new document: one white image, nothing to undo. */
    constructor (width: nat, height: nat)
      requires width > 0 && height > 0
      ensures Valid() && Abs() == Doc(Resized(Canvas(0, 0, map[]), width, height), [], []) && OwnsAll(heap, image)
      ensures image.width == width && image.height == height
    {
      heap, image, undoStack, redoStack, nextImageID := map[], EMPTY_IMAGE, [], [], 0;
      bitmap, bitmapWidth, bitmapHeight := map[], 0, 0;
      new;
      var all := Rectangle(0, width, 0, height);
      var white := Block(map[], all, width, height, WHITE);
      forall p ensures Get(white, p) == if !(0 <= p.x < width && 0 <= p.y < height) then None else Some(WHITE) {
        BlockAt(map[], all, width, height, WHITE, p);
      }
      ResizedDetermined(Canvas(0, 0, map[]), width, height, white);
      hide Block, Resized;
      Load(white, width, height);
    }

    method ShareOne(source: Image, tiles: seq<nat>, cols: nat, rows: nat, x: nat, y: nat, ghost heap0: Heap)
      returns (tiles': seq<nat>)
      requires x < cols && y < rows && ForkedUpTo(source, tiles, cols, rows, x, y)
      requires 0 !in heap0 && forall t :: t in source.tiles && t != 0 ==> t in heap0
      requires heap == AddRefs(heap0, multiset(tiles))
      modifies this`heap
      ensures ForkedUpTo(source, tiles', cols, rows, x + 1, y)
      ensures heap == AddRefs(heap0, multiset(tiles'))
    {
      ForkNext(source, tiles, cols, rows, x, y);
      var t, slot := Shared(source, Point(x, y)), Slot(Point(x, y), cols, rows);
      RefsUpdated(tiles, slot, t);
      AddRefsOne(heap0, heap, multiset(tiles), t);
      tiles' := tiles[slot := t];
      if t != 0 {
        heap := heap[t := heap[t].(referenceCount := heap[t].referenceCount + 1)];
      }
    }

    /** Takes one reference to every tile of the source that has a slot in the new grid. */
    method ShareTiles(source: Image, cols: nat, rows: nat) returns (tiles: seq<nat>)
      requires WellFormed(source) && 0 !in heap && forall t :: t in source.tiles && t != 0 ==> t in heap
      modifies this`heap
      ensures ForkedUpTo(source, tiles, cols, rows, 0, rows)
      ensures heap == AddRefs(old(heap), multiset(tiles))
    {
      tiles := seq(Slots(cols, rows), _ => 0);
      NullsOnly(heap, tiles);
      ForkBegins(source, tiles, cols, rows);
      hide ForkedUpTo, AddRefs;
      var y := 0;
      while y < rows
        invariant 0 <= y <= rows
        invariant ForkedUpTo(source, tiles, cols, rows, 0, y)
        invariant heap == AddRefs(old(heap), multiset(tiles))
      {
        var x := 0;
        while x < cols
          invariant 0 <= x <= cols
          invariant ForkedUpTo(source, tiles, cols, rows, x, y)
          invariant heap == AddRefs(old(heap), multiset(tiles))
        {
          tiles := ShareOne(source, tiles, cols, rows, x, y, old(heap));
          x := x + 1;
        }
        ForkRowEnds(source, tiles, cols, rows, y);
        y := y + 1;
      }
    }

    method Fork(source: Image, newWidth: nat, newHeight: nat) returns (copy: Image)
      requires WellFormed(source) && 0 !in heap && forall t :: t in source.tiles && t != 0 ==> t in heap
      modifies this`heap, this`nextImageID
      ensures IsFork(source, copy)
      ensures copy.width == (if newWidth != 0 then newWidth else source.width)
      ensures copy.height == (if newHeight != 0 then newHeight else source.height)
      ensures copy.id == old(nextImageID) && nextImageID == old(nextImageID) + 1
      ensures heap == AddRefs(old(heap), multiset(copy.tiles))
    {
      var width := if newWidth != 0 then newWidth else source.width;
      var height := if newHeight != 0 then newHeight else source.height;
      var cols := if newWidth != 0 then (newWidth + TILE - 1) / TILE else source.cols;
      var rows := if newHeight != 0 then (newHeight + TILE - 1) / TILE else source.rows;
      var tiles := ShareTiles(source, cols, rows);
      copy := Image(tiles, cols, rows, nextImageID, width, height);
      nextImageID := nextImageID + 1;
      ForkEnds(source, copy);
    }

    /** `ImageDelete`: every slot is dereferenced, so none may be null. */
    method Delete(victim: Image)
      requires 0 !in victim.tiles
      requires forall t :: t in heap ==> heap[t].referenceCount > 0
      requires forall t :: t in multiset(victim.tiles) ==>
               t in heap && multiset(victim.tiles)[t] <= heap[t].referenceCount
      modifies this`heap
      ensures heap == DropRefs(old(heap), multiset(victim.tiles))
    {
      var i := 0;
      DropNothing(heap);
      assert multiset(victim.tiles[..0]) == multiset{};
      while i < |victim.tiles|
        invariant 0 <= i <= |victim.tiles|
        invariant heap == DropRefs(old(heap), multiset(victim.tiles[..i]))
      {
        var t := victim.tiles[i];
        PrefixRefs(victim.tiles, i);
        DropRefsOne(old(heap), multiset(victim.tiles[..i]), t);
        heap := heap[t := heap[t].(referenceCount := heap[t].referenceCount - 1)];
        if heap[t].referenceCount == 0 {
          heap := heap - {t};
        }
        i := i + 1;
      }
      assert victim.tiles[..i] == victim.tiles;
    }

    /** `ImageUpdateTile`: reuse the tile when this image owns it or holds the only reference, else allocate one. */
    method UpdateTile(cell: Point, copyOldBits: bool) returns (t: nat)
      requires WellFormed(image) && InGrid(cell, image.cols, image.rows) && 0 !in heap
      requires TileAt(image, cell) in heap ==> heap[TileAt(image, cell)].referenceCount > 0
      requires TileAt(image, cell) != 0 ==> TileAt(image, cell) in heap
      modifies this`heap, this`image
      ensures WellFormed(image) && image.cols == old(image.cols) && image.rows == old(image.rows)
              && t == TileAt(image, cell)
      ensures MadePrivate(old(heap), old(image), Slot(cell, image.cols, image.rows), heap, image)
      ensures copyOldBits && old(TileAt(image, cell)) != 0 ==> heap[t].bits == old(heap[TileAt(image, cell)].bits)
    {
      var slot := Slot(cell, image.cols, image.rows);
      t := image.tiles[slot];
      if t == 0 || heap[t].ownerID != image.id {
        if t != 0 && heap[t].referenceCount == 1 {
          heap := heap[t := heap[t].(ownerID := image.id)];
        } else {
          var before := t;
          var bits: Picture := map[];
          ghost var _ := FreshAddress(heap);
          t :| t != 0 && t !in heap;
          if before != 0 {
            if copyOldBits { bits := heap[before].bits; }
            heap := heap[before := heap[before].(referenceCount := heap[before].referenceCount - 1)];
          }
          heap := heap[t := Tile(1, image.id, bits)];
          image := image.(tiles := image.tiles[slot := t]);
        }
      }
      assert image.tiles == old(image).tiles[slot := t];
    }

    /** Copies the part of the bitmap at one cell into a tile that no stored image holds. */
    method WriteTile(cell: Point, ghost before: seq<nat>)
      requires Took(before, heap, image) && Writing(heap, image, Kept(), nextImageID)
               && InGrid(cell, image.cols, image.rows)
      requires image.width == bitmapWidth && image.height == bitmapHeight && Full(Bitmap())
      modifies this`heap, this`image
      ensures image == old(image).(tiles := image.tiles)
      ensures Writing(heap, image, Kept(), nextImageID)
      ensures SameBits(old(heap), heap, Kept())
      ensures Agrees(heap, TileAt(image, cell), bitmap, cell)
      ensures forall c :: InGrid(c, image.cols, image.rows) && old(Agrees(heap, TileAt(image, c), bitmap, c)) ==>
                Agrees(heap, TileAt(image, c), bitmap, c)
      ensures Took(before, heap, image)
    {
      assert TileAt(image, cell) in multiset(image.tiles);
      var t := UpdateTile(cell, false);
      var bits := CopyTileIn(heap[t].bits, bitmap, cell, bitmapWidth, bitmapHeight);
      WriteKeepsCounts(old(heap), old(image), Slot(cell, image.cols, image.rows), heap, image, Kept(), nextImageID,
        bits);
      WriteKeepsCells(old(heap), old(image), cell, heap, image, Kept(), nextImageID, bits, bitmap);
      TookKept(before, old(heap), old(image), Slot(cell, image.cols, image.rows), heap, image, bits);
      heap := heap[t := heap[t].(bits := bits)];
      hide Writing, SameBits, MadePrivate, Counted, Took;
    }

    /** `ImageCopyFromPaintTarget`: write the bitmap back through every tile that the modified bounds touch. */
    method CopyFromBitmap(modified: Rectangle)
      requires Writing(heap, image, Kept(), nextImageID)
      requires image.width == bitmapWidth && image.height == bitmapHeight && Full(Bitmap())
      requires forall c :: InGrid(c, image.cols, image.rows)
                           && !Touched(Clip(modified, bitmapWidth, bitmapHeight), c) ==>
                 Agrees(heap, TileAt(image, c), bitmap, c)
      modifies this`heap, this`image
      ensures image == old(image).(tiles := image.tiles) && WellFormed(image) && 0 !in image.tiles
      ensures Writing(heap, image, Kept(), nextImageID)
      ensures SameBits(old(heap), heap, Kept())
      ensures CanvasOf(heap, image) == Bitmap() && Took(old(image.tiles), heap, image)
    {
      var bounds := Clip(modified, bitmapWidth, bitmapHeight);
      var i := TileIndex(bounds.t);
      assert 0 !in heap;
      hide Agrees, Writing, SameBits, Took;
      SameBitsRefl(heap, Kept());
      TookNothing(heap, image);
      while i <= TileIndex(bounds.b)
        invariant image == old(image).(tiles := image.tiles) && 0 !in heap
        invariant Writing(heap, image, Kept(), nextImageID)
        invariant SameBits(old(heap), heap, Kept()) && Took(old(image.tiles), heap, image)
        invariant WrittenUpTo(heap, image, bitmap, bounds, TileIndex(bounds.l), i)
      {
        ghost var before := heap;
        WriteRow(bounds, i, old(image.tiles));
        SameBitsTrans(old(heap), before, heap, Kept());
        i := i + 1;
      }
      AllAgree(heap, image, bitmap);
    }

    method WriteRow(bounds: Rectangle, i: int, ghost before: seq<nat>)
      requires Took(before, heap, image) && Writing(heap, image, Kept(), nextImageID)
      requires image.width == bitmapWidth && image.height == bitmapHeight && Full(Bitmap())
      requires WrittenUpTo(heap, image, bitmap, bounds, TileIndex(bounds.l), i)
      modifies this`heap, this`image
      ensures image == old(image).(tiles := image.tiles) && 0 !in heap
      ensures Writing(heap, image, Kept(), nextImageID)
      ensures SameBits(old(heap), heap, Kept())
      ensures WrittenUpTo(heap, image, bitmap, bounds, TileIndex(bounds.l), i + 1)
      ensures Took(before, heap, image)
    {
      hide Agrees, SameBits, Counted, Touched, TileIndex, TileAt, WrittenUpTo, Took;
      SameBitsRefl(heap, Kept());
      var j := TileIndex(bounds.l);
      while j <= TileIndex(bounds.r)
        invariant image == old(image).(tiles := image.tiles)
        invariant Writing(heap, image, Kept(), nextImageID)
        invariant SameBits(old(heap), heap, Kept())
        invariant WrittenUpTo(heap, image, bitmap, bounds, j, i)
        invariant Took(before, heap, image)
      {
        if 0 <= j < image.cols && 0 <= i < image.rows {
          ghost var heap', image' := heap, image;
          WriteTile(Point(j, i), before);
          SameBitsTrans(old(heap), heap', heap, Kept());
          CellWritten(heap', image', heap, image, bitmap, bounds, j, i);
        } else {
          CellOutside(heap, image, bitmap, bounds, j, i);
        }
        j := j + 1;
      }
      RowWritten(heap, image, bitmap, bounds, j, i);
      NoNullTile(heap, Kept() + multiset(image.tiles));
    }

    /** `ImageCopyToPaintTarget`: read the whole image into the bitmap. */
    method CopyToBitmap()
      requires WellFormed(image) && image.width == bitmapWidth && image.height == bitmapHeight
      requires forall p :: p in bitmap ==> InImage(p, image)
      modifies this`bitmap
      ensures bitmap == View(heap, image)
    {
      var before := bitmap;
      var i := 0;
      while i < image.rows
        invariant 0 <= i <= image.rows
        invariant ReadUpTo(heap, image, before, bitmap, 0, i)
      {
        var j := 0;
        while j < image.cols
          invariant 0 <= j <= image.cols
          invariant ReadUpTo(heap, image, before, bitmap, j, i)
        {
          bitmap := CopyTileOut(heap, image.tiles[Slot(Point(j, i), image.cols, image.rows)], Point(j, i), bitmapWidth,
            bitmapHeight, bitmap);
          j := j + 1;
        }
        i := i + 1;
      }
      ViewDetermined(heap, image, bitmap);
    }

    /** Cancels every item of a stack, top first. */
    method Cancel(images: seq<Image>, ghost rest: multiset<nat>)
      requires AllWellFormed(images) && Counted(heap, rest + Stored(images))
      modifies this`heap
      ensures Counted(heap, rest) && SameBits(old(heap), heap, rest) && OwnersFrom(heap, old(heap))
    {
      hide Counted, SameBits, DropRefs, OwnersFrom, Stored;
      OwnersFromItself(heap);
      SameBitsRefl(heap, rest);
      var stack := images;
      while stack != []
        invariant AllWellFormed(stack) && Counted(heap, rest + Stored(stack))
        invariant SameBits(old(heap), heap, rest) && OwnersFrom(heap, old(heap))
        decreases |stack|
      {
        DeletingOne(old(heap), heap, rest, stack);
        Delete(stack[|stack| - 1]);
        stack := stack[..|stack| - 1];
      }
      StoredNone(rest);
    }

    /** What every edit does first: push the current image, cancel what could be redone, go on with a fork. */
    method Checkpoint(newWidth: nat, newHeight: nat)
      requires Valid()
      modifies this`heap, this`image, this`undoStack, this`redoStack, this`nextImageID
      ensures undoStack == old(undoStack) + [old(image)] && redoStack == [] && AllWellFormed(undoStack)
      ensures Canvases(heap, undoStack) == old(Canvases(heap, undoStack)) + [old(Bitmap())]
      ensures IsFork(old(image), image) && Writing(heap, image, Kept(), nextImageID)
      ensures image.width == (if newWidth != 0 then newWidth else old(image.width))
      ensures image.height == (if newHeight != 0 then newHeight else old(image.height))
      ensures SameBits(old(heap), heap, old(multiset(image.tiles))) && OwnersFrom(heap, old(heap))
    {
      hide Counted, SameBits, AddRefs, Stored, Canvases, IsFork, OwnersFrom, Writing;
      var parent := image;
      ghost var heap0, undo0, redo0 := heap, undoStack, redoStack;
      ghost var rest := Stored(undoStack) + multiset(parent.tiles);
      assert Kept() + multiset(image.tiles) == rest + Stored(redoStack);
      undoStack := undoStack + [parent];
      Cancel(redoStack, rest);
      redoStack := [];
      ghost var heap1 := heap;
      StillThere(heap1, rest, parent.tiles);
      image := Fork(parent, newWidth, newHeight);
      CheckpointCounts(heap0, heap1, heap, undo0, parent, image, nextImageID);
      CheckpointPictures(heap0, heap, undo0, parent);
      AddRefsOwners(heap0, heap1, multiset(image.tiles));
    }

    /** The abstract document. */
    ghost function Abs(): Doc
      requires AllWellFormed(undoStack) && AllWellFormed(redoStack)
      reads this
    {
      Doc(Bitmap(), Canvases(heap, undoStack), Canvases(heap, redoStack))
    }

    /** Writes the bitmap, changed within the given bounds since the checkpoint, through the fork. */
    method Commit(modified: Rectangle, ghost heap0: Heap, ghost parent: Image, ghost refs: multiset<nat>,
                  ghost before: seq<Canvas>)
      requires Counted(heap0, refs) && multiset(parent.tiles) <= refs && 0 !in parent.tiles && IsFork(parent, image)
      requires SameBits(heap0, heap, multiset(parent.tiles))
               && ChangedWithin(CanvasOf(heap0, parent), Bitmap(), modified)
      requires Writing(heap, image, Kept(), nextImageID) && redoStack == []
      requires AllWellFormed(undoStack) && Canvases(heap, undoStack) == before && AllFull(before)
      requires image.width == bitmapWidth && image.height == bitmapHeight && Full(Bitmap())
      modifies this`heap, this`image
      ensures Valid() && Abs() == Doc(Bitmap(), before, [])
    {
      hide Counted, SameBits, Agrees, Touched, Stored, IsFork, Full, ChangedWithin;
      forall c | InGrid(c, image.cols, image.rows) && !Touched(Clip(modified, bitmapWidth, bitmapHeight), c)
        ensures Agrees(heap, TileAt(image, c), bitmap, c)
      {
        UntouchedAgrees(heap0, heap, parent, image, refs, Bitmap(), modified, c);
      }
      ghost var heap1 := heap;
      CopyFromBitmap(modified);
      CanvasesKept(heap1, heap, undoStack, Kept());
      CanvasesKept(heap1, heap, redoStack, Kept());
    }

    /** Fill, rectangle or brush: an arbitrary change of the bitmap inside the bounds that the tool reports. */
    method Edit(picture: Picture, modified: Rectangle)
      requires Valid()
      requires Full(Canvas(bitmapWidth, bitmapHeight, picture))
               && ChangedWithin(Bitmap(), Canvas(bitmapWidth, bitmapHeight, picture), modified)
      modifies this
      ensures Valid() && Abs() == Committed(old(Abs()), Canvas(old(bitmapWidth), old(bitmapHeight), picture))
    {
      hide Counted, SameBits, Stored, IsFork, Full, ChangedWithin, Canvases;
      ghost var heap0, parent, refs := heap, image, Kept() + multiset(image.tiles);
      Checkpoint(0, 0);
      bitmap := picture;
      FullPush(old(Canvases(heap, undoStack)), old(Bitmap()));
      Commit(modified, heap0, parent, refs, Canvases(heap, undoStack));
    }

    /** The fill tool: the bitmap is flooded, and the bounds that come back are written through a fork. */
    method Fill(point: Point, rgb: Color)
      requires Valid()
      modifies this
      ensures Valid()
      ensures Abs() == Committed(old(Abs()), Canvas(old(bitmapWidth), old(bitmapHeight),
                                                    Flooded(old(bitmap), old(bitmapWidth), old(bitmapHeight), point,
                                                      0xFF00_0000 | rgb)))
    {
      hide Counted, SameBits, Stored, IsFork, ChangedWithin, Canvases, Writing, Flooded, View;
      ghost var heap0, parent, refs := heap, image, Kept() + multiset(image.tiles);
      Checkpoint(0, 0);
      var target := new PaintTarget.Of(bitmapWidth, bitmapHeight, bitmap);
      var modified := DrawFill(target, point, rgb);
      bitmap := target.Contents();
      FloodIsEdit(old(bitmap), bitmap, bitmapWidth, bitmapHeight, point, 0xFF00_0000 | rgb, modified);
      FullPush(old(Canvases(heap, undoStack)), old(Bitmap()));
      Commit(modified, heap0, parent, refs, Canvases(heap, undoStack));
    }

    /** The resize step: the size is clamped, and nothing happens when it does not change. */
    method Resize(vertical: bool, requested: int)
      requires Valid()
      modifies this
      ensures var size := if requested < 1 then 1 else if requested > 20000 then 20000 else requested;
              && Valid()
              && Abs() == if size == old(if vertical then bitmapHeight else bitmapWidth) then old(Abs())
                          else Committed(old(Abs()), Resized(old(Bitmap()),
                                                             if vertical then old(bitmapWidth) else size,
                                                             if vertical then size else old(bitmapHeight)))
    {
      var size := if requested < 1 then 1 else if requested > 20000 then 20000 else requested;
      if (if vertical then bitmapHeight else bitmapWidth) != size {
        ResizeTo(vertical, size);
      }
    }

    /** One dimension changes; what is new is cleared to white. */
    method ResizeTo(vertical: bool, size: nat)
      requires Valid() && size > 0
      modifies this
      ensures Valid()
      ensures Abs() == Committed(old(Abs()), Resized(old(Bitmap()), if vertical then old(bitmapWidth) else size,
                                                                    if vertical then size else old(bitmapHeight)))
    {
      hide Counted, SameBits, Stored, IsFork, ChangedWithin, Canvases, View, Block, Resized;
      ghost var heap0, parent, refs := heap, image, Kept() + multiset(image.tiles);
      var oldSize := if vertical then bitmapHeight else bitmapWidth;
      var width, height := if vertical then bitmapWidth else size, if vertical then size else bitmapHeight;
      var cleared := if vertical then Rectangle(0, bitmapWidth, oldSize, size)
        else Rectangle(oldSize, size, 0, bitmapHeight);
      Checkpoint(width, height);
      bitmapWidth, bitmapHeight, bitmap := width, height, map[];
      CopyToBitmap();
      bitmap := Block(bitmap, cleared, width, height, WHITE);
      ClearedIsResized(heap0, heap, parent, image, cleared, vertical, oldSize, bitmap);
      FullPush(old(Canvases(heap, undoStack)), old(Bitmap()));
      Commit(cleared, heap0, parent, refs, Canvases(heap, undoStack));
    }

    /** `ImageTransform`: a rotation moves to a new bitmap with the sides exchanged, a flip works in place. */
    method Transform(kind: Transform)
      requires Valid()
      modifies this
      ensures Valid() && Abs() == Committed(old(Abs()), Bitmap())
      ensures bitmapWidth == (if Turns(kind) then old(bitmapHeight) else old(bitmapWidth))
      ensures bitmapHeight == (if Turns(kind) then old(bitmapWidth) else old(bitmapHeight))
      ensures IsTransformed(kind, old(bitmapWidth), old(bitmapHeight), old(bitmap), bitmap)
    {
      hide Counted, SameBits, Stored, IsFork, ChangedWithin, Canvases, View, IsTransformed;
      ghost var heap0, parent, refs := heap, image, Kept() + multiset(image.tiles);
      if Turns(kind) {
        Checkpoint(bitmapHeight, bitmapWidth);
        bitmap := Rotate(kind, bitmapWidth, bitmapHeight, bitmap);
        bitmapWidth, bitmapHeight := bitmapHeight, bitmapWidth;
      } else {
        Checkpoint(0, 0);
        bitmap := Flip(kind, bitmapWidth, bitmapHeight, bitmap);
      }
      forall p ensures p in bitmap <==> Within(p, bitmapWidth, bitmapHeight) {
        TransformedIsFull(kind, old(bitmapWidth), old(bitmapHeight), old(bitmap), bitmap, p);
      }
      var all := Rectangle(0, bitmapWidth, 0, bitmapHeight);
      AllChanged(CanvasOf(heap0, parent), Bitmap(), all);
      FullPush(old(Canvases(heap, undoStack)), old(Bitmap()));
      Commit(all, heap0, parent, refs, Canvases(heap, undoStack));
    }

    /** `ImageUndoMessage`, invoked: the current image goes to the other stack, and the item becomes current. */
    method Invoke(redo: bool)
      requires Valid() && (if redo then redoStack else undoStack) != []
      modifies this
      ensures Valid() && Abs() == if redo then Redone(old(Abs())) else Undone(old(Abs()))
      ensures heap == old(heap) && nextImageID == old(nextImageID)
      ensures var from, to := old(if redo then redoStack else undoStack), old(if redo then undoStack else redoStack);
              var from', to' := if redo then redoStack else undoStack, if redo then undoStack else redoStack;
              image == from[|from| - 1] && from' == from[..|from| - 1] && to' == to + [old(image)]
    {
      hide Counted, Stored, View, Canvases, WellFormed, AllWellFormed;
      ghost var undo0, redo0, image0 := undoStack, redoStack, image;
      if redo {
        MoveBetween(heap, redoStack, undoStack, image);
        undoStack := undoStack + [image];
        image := redoStack[|redoStack| - 1];
        redoStack := redoStack[..|redoStack| - 1];
      } else {
        MoveBetween(heap, undoStack, redoStack, image);
        redoStack := redoStack + [image];
        image := undoStack[|undoStack| - 1];
        undoStack := undoStack[..|undoStack| - 1];
      }
      ShowCurrent();
    }

    /** A fork and an undo, without the write that an edit makes in between. */
    method ForkThenUndo()
      requires Valid() && OwnsAll(heap, image)
      modifies this
      ensures Valid() && OwnsAll(heap, image) && image == old(image)
      ensures |redoStack| == 1 && redoStack[0] == image.(id := redoStack[0].id)
    {
      hide Counted, SameBits, Stored, Canvases, Writing, View, Full, OwnersFrom, OwnsAll;
      ghost var heap0, parent := heap, image;
      Checkpoint(0, 0);
      FullPush(old(Canvases(heap, undoStack)), old(Bitmap()));
      ForkShowsSame(heap0, heap, parent, image);
      hide IsFork;
      WritingMeans(heap, image, Kept(), nextImageID);
      OwnsStill(heap0, heap, Kept() + multiset(image.tiles), parent);
      Invoke(false);
    }

    /**
      * The image that comes back by the undo still owns its tiles, so the tile written is the one that the fork, now
      * on the redo stack, shares with it.
      */
    method UndoBeforeWrite(cell: Point) returns (t: nat)
      requires Valid() && InGrid(cell, image.cols, image.rows) && OwnsAll(heap, image)
      modifies this
      ensures |redoStack| == 1 && t in redoStack[0].tiles && WellFormed(image) && InGrid(cell, image.cols, image.rows)
      ensures image == old(image) && redoStack[0] == image.(id := redoStack[0].id) && t == TileAt(image, cell)
      ensures OwnsShared(heap, image, Slot(cell, image.cols, image.rows))
    {
      hide Stored, Canvases, View, Full, Slot;
      ForkThenUndo();
      assert TileAt(image, cell) in image.tiles;
      SharedWithStored(heap, Stored(undoStack), redoStack, image, TileAt(image, cell));
      t := UpdateTile(cell, false);
    }

    /** The stroke goes on after the undo and is written at one cell: the picture waiting to be redone shows it too. */
    method StrokeAfterUndo(cell: Point, picture: Picture)
      requires Valid() && InGrid(cell, image.cols, image.rows) && OwnsAll(heap, image)
      requires Full(Canvas(bitmapWidth, bitmapHeight, picture))
      modifies this
      ensures |redoStack| == 1 && WellFormed(redoStack[0])
      ensures redoStack[0].width == old(bitmapWidth) && redoStack[0].height == old(bitmapHeight)
      ensures forall p :: InImage(p, redoStack[0]) && TileOf(p) == cell ==>
                Pixel(heap, redoStack[0], p) == Get(picture, p)
    {
      hide Stored, Canvases, View, Slot, Pixel;
      var width, height := bitmapWidth, bitmapHeight;
      var t := UndoBeforeWrite(cell);
      bitmap := picture;
      var bits := CopyTileIn(heap[t].bits, bitmap, cell, width, height);
      heap := heap[t := heap[t].(bits := bits)];
      forall p | InImage(p, redoStack[0]) && TileOf(p) == cell ensures Pixel(heap, redoStack[0], p) == Get(picture, p) {
        WrittenPixel(heap, redoStack[0], cell, bits, picture, p);
      }
    }

    /** Reads the current image into a bitmap of its size. */
    method ShowCurrent()
      requires Sound() && 0 !in image.tiles && Full(CanvasOf(heap, image)) && Full(Bitmap())
      requires AllFull(Canvases(heap, undoStack)) && AllFull(Canvases(heap, redoStack))
      modifies this`bitmap, this`bitmapWidth, this`bitmapHeight
      ensures Valid() && Bitmap() == CanvasOf(heap, image)
    {
      hide Counted, Stored, View, Canvases;
      if bitmapWidth != image.width || bitmapHeight != image.height {
        bitmapWidth, bitmapHeight, bitmap := image.width, image.height, map[];
      }
      CopyToBitmap();
    }

    /** Makes a given picture the current image, with new tiles only; the stacks are as they were. */
    method Load(picture: Picture, width: nat, height: nat)
      requires Full(Canvas(width, height, picture)) && AllWellFormed(undoStack) && AllWellFormed(redoStack)
      requires Counted(heap, Kept()) && forall t :: t in heap ==> heap[t].ownerID < nextImageID
      requires AllFull(Canvases(heap, undoStack)) && AllFull(Canvases(heap, redoStack))
      modifies this
      ensures Valid() && Abs() == old(Doc(Canvas(width, height, picture), Canvases(heap, undoStack),
              Canvases(heap, redoStack)))
      ensures OwnsAll(heap, image) && image.width == width && image.height == height
    {
      hide Stored, View, Touched, Agrees, Counted, SameBits, AddRefs, IsFork, Canvases;
      ghost var heap0, undo, redo := heap, Canvases(heap, undoStack), Canvases(heap, redoStack);
      StillThere(heap, Kept(), []);
      image := Fork(EMPTY_IMAGE, width, height);
      bitmapWidth, bitmapHeight, bitmap := width, height, picture;
      LoadCounts(heap0, heap, image, Kept(), nextImageID);
      forall c | InGrid(c, image.cols, image.rows)
        ensures Touched(Clip(Rectangle(0, width, 0, height), width, height), c)
      {
        AllTouched(image, c);
      }
      ghost var heap1 := heap;
      ghost var fork := image;
      CopyFromBitmap(Rectangle(0, width, 0, height));
      TookAll(heap, fork, image);
      SameBitsTrans(heap0, heap1, heap, Kept());
      CanvasesKept(heap0, heap, undoStack, Kept());
      CanvasesKept(heap0, heap, redoStack, Kept());
    }

    /** Opening a file: the current image is deleted, the loaded picture takes its place. */
    method Open(picture: Picture, width: nat, height: nat)
      requires Valid() && Full(Canvas(width, height, picture))
      modifies this
      ensures Valid() && Abs() == old(Abs()).(now := Canvas(width, height, picture))
    {
      hide Counted, SameBits, DropRefs, Canvases, Stored, OwnersFrom;
      ghost var heap0 := heap;
      OneImage(Kept(), image);
      OwnersFromItself(heap);
      SameBitsRefl(heap, Kept());
      DeletingOne(heap, heap, Kept(), [image]);
      Delete(image);
      StoredNone(Kept());
      CanvasesKept(heap0, heap, undoStack, Kept());
      CanvasesKept(heap0, heap, redoStack, Kept());
      OwnersBelow(heap0, heap, nextImageID);
      Load(picture, width, height);
    }

    /** Closing the editor: both stacks are cancelled and the current image is deleted. No tile is left. */
    method Destroy()
      requires Valid()
      modifies this
      ensures heap == map[]
    {
      hide Counted, SameBits, Stored, OwnersFrom;
      ghost var all := Kept() + multiset(image.tiles);
      assert all == Stored(redoStack) + multiset(image.tiles) + Stored(undoStack);
      Cancel(undoStack, Stored(redoStack) + multiset(image.tiles));
      assert Stored(redoStack) + multiset(image.tiles) == multiset(image.tiles) + Stored(redoStack);
      Cancel(redoStack, multiset(image.tiles));
      OneImage(multiset{}, image);
      assert multiset{} + multiset(image.tiles) == multiset(image.tiles);
      Cancel([image], multiset{});
      undoStack, redoStack := [], [];
      NoReferences(heap);
    }
  }

  lemma WrittenPixel(heap: Heap, image: Image, cell: Point, bits: Picture, picture: Picture, p: Point)
    requires WellFormed(image) && InGrid(cell, image.cols, image.rows) && InImage(p, image) && TileOf(p) == cell
    requires TileAt(image, cell) in heap && heap[TileAt(image, cell)].bits == bits && p in picture
    requires forall q :: InTile(q, TILE, TILE) && Global(cell, q) in picture ==>
             Get(bits, q) == Get(picture, Global(cell, q))
    ensures Pixel(heap, image, p) == Get(picture, p)
  {
    assert Global(cell, Local(p)) == p;
  }

  /** On a new document of one white pixel: the picture that was pushed as white comes out black. */
  method WriteReachesRedo() returns (editor: Editor)
    ensures |editor.redoStack| == 1 && WellFormed(editor.redoStack[0])
    ensures Full(Resized(Canvas(0, 0, map[]), 1, 1)) && Resized(Canvas(0, 0, map[]), 1, 1).picture[Point(0, 0)] == WHITE
    ensures Get(CanvasOf(editor.heap, editor.redoStack[0]).picture, Point(0, 0)) == Some(BLACK)
    ensures CanvasOf(editor.heap, editor.redoStack[0]) != Resized(Canvas(0, 0, map[]), 1, 1)
  {
    editor := new Editor(1, 1);
    hide Stored, Canvases, View, OwnsAll, Counted, Pixel;
    OnePixel();
    var black: Picture := map[Point(0, 0) := BLACK];
    editor.StrokeAfterUndo(Point(0, 0), black);
    ViewAt(editor.heap, editor.redoStack[0], Point(0, 0));
  }

  lemma OnePixel()
    ensures var white := Resized(Canvas(0, 0, map[]), 1, 1);
            Full(white) && white.picture[Point(0, 0)] == WHITE && WHITE != BLACK
    ensures Full(Canvas(1, 1, map[Point(0, 0) := BLACK]))
  {
    forall p: Point | 0 <= p.x < 1 && 0 <= p.y < 1 ensures p == Point(0, 0) { }
    forall p: Point ensures p in Grid(1, 1) <==> p == Point(0, 0) { InGridIff(p, 1, 1); }
  }

  /** The image owns every tile it holds. */
  ghost predicate OwnsAll(heap: Heap, image: Image) {
    forall t :: t in image.tiles ==> t in heap && heap[t].ownerID == image.id
  }

  lemma TookNothing(heap: Heap, image: Image)
    ensures Took(image.tiles, heap, image)
  {
  }

  lemma TookAll(heap: Heap, fork: Image, image: Image)
    requires IsFork(EMPTY_IMAGE, fork) && Took(fork.tiles, heap, image) && 0 !in image.tiles
    ensures OwnsAll(heap, image)
  {
    NothingShared(fork);
    forall t | t in image.tiles ensures t in heap && heap[t].ownerID == image.id {
      var k :| 0 <= k < |image.tiles| && image.tiles[k] == t;
      assert fork.tiles[k] in multiset(fork.tiles);
    }
  }

  /** A fork of the same size holds the same tiles, and shows the same picture. */
  lemma ForkShowsSame(heap: Heap, heap': Heap, parent: Image, image: Image)
    requires IsFork(parent, image) && image.width == parent.width && image.height == parent.height
    requires SameBits(heap, heap', multiset(parent.tiles))
    ensures image.tiles == parent.tiles && CanvasOf(heap', image) == CanvasOf(heap, parent)
  {
    forall k | 0 <= k < |image.tiles| ensures image.tiles[k] == parent.tiles[k] {
      var cell := CellOfSlot(k, image.cols, image.rows);
      assert TileAt(image, cell) == Shared(parent, cell);
    }
    ViewKept(heap, heap', parent);
    SameTilesSameView(heap', parent, image);
  }

  lemma SameTilesSameView(heap: Heap, parent: Image, image: Image)
    requires WellFormed(parent) && WellFormed(image) && image == parent.(id := image.id)
    ensures View(heap, image) == View(heap, parent)
  {
    forall p ensures Get(View(heap, parent), p) == if InImage(p, image) then Pixel(heap, image, p) else None {
      ViewAt(heap, parent, p);
    }
    ViewDetermined(heap, image, View(heap, parent));
  }

  lemma AddRefsOwners(before: Heap, heap: Heap, refs: multiset<nat>)
    requires OwnersFrom(heap, before)
    ensures OwnersFrom(AddRefs(heap, refs), before)
  {
  }

  /** A tile that a stored image holds has more references than those of the current image. */
  lemma SharedWithStored(heap: Heap, rest: multiset<nat>, images: seq<Image>, image: Image, t: nat)
    requires Counted(heap, rest + Stored(images) + multiset(image.tiles)) && t in heap
    requires images != [] && t in images[0].tiles
    ensures heap[t].referenceCount > multiset(image.tiles)[t]
  {
    StoredHolds(images, 0);
    assert t in multiset(images[0].tiles);
  }

  lemma OwnsStill(before: Heap, heap: Heap, refs: multiset<nat>, image: Image)
    requires OwnsAll(before, image) && OwnersFrom(heap, before) && Counted(heap, refs) && multiset(image.tiles) <= refs
    requires 0 !in image.tiles
    ensures OwnsAll(heap, image)
  {
    forall t | t in image.tiles ensures t in heap { assert t in multiset(image.tiles); }
  }

  lemma WritingMeans(heap: Heap, image: Image, kept: multiset<nat>, next: nat)
    requires Writing(heap, image, kept, next)
    ensures Counted(heap, kept + multiset(image.tiles)) && forall t :: t in heap ==> heap[t].ownerID < next
  {
  }

  lemma OneImage(rest: multiset<nat>, image: Image)
    ensures rest + Stored([image]) == rest + multiset(image.tiles) && Stored([image][..0]) == multiset{}
  {
  }

  lemma OwnersBelow(before: Heap, heap: Heap, next: nat)
    requires OwnersFrom(heap, before) && forall t :: t in before ==> before[t].ownerID < next
    ensures forall t :: t in heap ==> heap[t].ownerID < next
  {
  }

  lemma NoReferences(heap: Heap)
    requires Counted(heap, multiset{})
    ensures heap == map[]
  {
  }

  lemma AllTouched(image: Image, cell: Point)
    requires WellFormed(image) && InGrid(cell, image.cols, image.rows)
    ensures Touched(Clip(Rectangle(0, image.width, 0, image.height), image.width, image.height), cell)
  {
    var corner := Global(cell, Point(0, 0));
    GlobalLocal(cell, Point(0, 0));
    ContainedIsTouched(Rectangle(0, image.width, 0, image.height), image.width, image.height, corner);
  }

  lemma LoadCounts(heap0: Heap, heap1: Heap, image: Image, kept: multiset<nat>, next: nat)
    requires Counted(heap0, kept) && IsFork(EMPTY_IMAGE, image) && heap1 == AddRefs(heap0, multiset(image.tiles))
    requires image.id + 1 == next && forall t :: t in heap0 ==> heap0[t].ownerID < image.id
    ensures Writing(heap1, image, kept, next) && SameBits(heap0, heap1, kept)
  {
    NothingShared(image);
    AddRefsCounted(heap0, kept, multiset(image.tiles));
  }

  const EMPTY_IMAGE: Image := Image([], 0, 0, 0, 0, 0)

  lemma NothingShared(image: Image)
    requires IsFork(EMPTY_IMAGE, image)
    ensures forall t :: t in multiset(image.tiles) ==> t == 0
  {
    forall t | t in multiset(image.tiles) ensures t == 0 {
      if t != 0 { ForkSharesOnly(EMPTY_IMAGE, image, t); }
    }
  }

  /** Moving an image from the top of one stack, past the current image, to the other stack. */
  lemma MoveBetween(heap: Heap, from: seq<Image>, to: seq<Image>, image: Image)
    requires from != [] && AllWellFormed(from) && AllWellFormed(to) && WellFormed(image) && 0 !in image.tiles
    ensures var top, rest := from[|from| - 1], from[..|from| - 1];
            && AllWellFormed(rest) && AllWellFormed(to + [image]) && WellFormed(top) && 0 !in top.tiles
            && Stored(rest) + Stored(to + [image]) + multiset(top.tiles) ==
              Stored(from) + Stored(to) + multiset(image.tiles)
            && Stored(to + [image]) + Stored(rest) + multiset(top.tiles) ==
              Stored(to) + Stored(from) + multiset(image.tiles)
            && Canvases(heap, rest) == Canvases(heap, from)[..|from| - 1]
            && CanvasOf(heap, top) == Canvases(heap, from)[|from| - 1]
            && Canvases(heap, to + [image]) == Canvases(heap, to) + [CanvasOf(heap, image)]
  {
    StoredPush(to, image);
    CanvasesTop(heap, from);
    CanvasesPush(heap, to, image);
    hide CanvasOf, Canvases, WellFormed;
  }

  lemma CanvasesTop(heap: Heap, images: seq<Image>)
    requires images != [] && AllWellFormed(images)
    ensures AllWellFormed(images[..|images| - 1])
    ensures Canvases(heap, images[..|images| - 1]) == Canvases(heap, images)[..|images| - 1]
    ensures Canvases(heap, images)[|images| - 1] == CanvasOf(heap, images[|images| - 1])
  {
    hide CanvasOf, WellFormed;
  }

  lemma CanvasesPush(heap: Heap, images: seq<Image>, image: Image)
    requires AllWellFormed(images) && WellFormed(image) && 0 !in image.tiles
    ensures AllWellFormed(images + [image])
    ensures Canvases(heap, images + [image]) == Canvases(heap, images) + [CanvasOf(heap, image)]
  {
    hide CanvasOf, WellFormed;
  }

  lemma AllChanged(before: Canvas, after: Canvas, all: Rectangle)
    requires Full(after) && all == Rectangle(0, after.width, 0, after.height)
    ensures ChangedWithin(before, after, all)
  {
  }

  const WHITE: Color := 0xFFFF_FFFF

  const BLACK: Color := 0xFF00_0000

  /** Drawing a block of colour, clipped to the bitmap. */
  function Block(bitmap: Picture, r: Rectangle, width: nat, height: nat, c: Color): Picture {
    map p | p in bitmap.Keys + Grid(width, height) && (p in bitmap || (p in Grid(width, height) && r.Contains(p)))
          :: if p in Grid(width, height) && r.Contains(p) then c else if p in bitmap then bitmap[p] else 0
  }

  ghost function Resized(canvas: Canvas, width: nat, height: nat): Canvas {
    Canvas(width, height, map p | p in Grid(width, height) :: if p !in Grid(width, height) then 0
      else if p in canvas.picture then canvas.picture[p] else WHITE)
  }

  lemma BlockAt(bitmap: Picture, r: Rectangle, width: nat, height: nat, c: Color, p: Point)
    ensures Get(Block(bitmap, r, width, height, c), p) ==
            if 0 <= p.x < width && 0 <= p.y < height && r.Contains(p) then Some(c) else Get(bitmap, p)
  {
    InGridIff(p, width, height);
  }

  lemma ResizedDetermined(canvas: Canvas, width: nat, height: nat, picture: Picture)
    requires width > 0 && height > 0
    requires forall p :: Get(picture, p) ==
               if !(0 <= p.x < width && 0 <= p.y < height) then None
                 else if p in canvas.picture then Some(canvas.picture[p]) else Some(WHITE)
    ensures Canvas(width, height, picture) == Resized(canvas, width, height) && Full(Canvas(width, height, picture))
  {
    forall p ensures p in picture <==> p in Grid(width, height) { InGridIff(p, width, height); }
    assert forall p :: p in picture ==> Get(picture, p) == Some(picture[p]);
  }

  lemma ClearedIsResized(heap: Heap, heap': Heap, parent: Image, image: Image, cleared: Rectangle, vertical: bool,
                         oldSize: nat, bitmap: Picture)
    requires WellFormed(parent) && WellFormed(image) && IsFork(parent, image)
             && SameBits(heap, heap', multiset(parent.tiles))
    requires Full(CanvasOf(heap, parent)) && image.width > 0 && image.height > 0
    requires if vertical
             then && image.width == parent.width && oldSize == parent.height
                  && cleared == Rectangle(0, image.width, oldSize, image.height)
             else && image.height == parent.height && oldSize == parent.width
                  && cleared == Rectangle(oldSize, image.width, 0, image.height)
    requires bitmap == Block(View(heap', image), cleared, image.width, image.height, WHITE)
    ensures var after := Canvas(image.width, image.height, bitmap);
            && after == Resized(CanvasOf(heap, parent), image.width, image.height)
            && Full(after) && ChangedWithin(CanvasOf(heap, parent), after, cleared)
  {
    hide Block, View, Pixel, Resized, SameBits, IsFork;
    var before := CanvasOf(heap, parent);
    forall p ensures Get(bitmap, p) ==
                     if !InImage(p, image) then None
                       else if p in before.picture then Some(before.picture[p]) else Some(WHITE)
    {
      BlockAt(View(heap', image), cleared, image.width, image.height, WHITE, p);
      ViewAt(heap', image, p);
      ViewAt(heap, parent, p);
      if InImage(p, image) && InImage(p, parent) { ForkPixel(heap, heap', parent, image, p); }
    }
    ResizedDetermined(before, image.width, image.height, bitmap);
    assert forall p :: p in bitmap ==> Get(bitmap, p) == Some(bitmap[p]);
  }

  /** The document as its users see it: a picture, and two stacks of pictures. */
  datatype Doc = Doc(now: Canvas, undo: seq<Canvas>, redo: seq<Canvas>)

  ghost function Committed(doc: Doc, next: Canvas): Doc {
    Doc(next, doc.undo + [doc.now], [])
  }

  ghost function Undone(doc: Doc): Doc
    requires doc.undo != []
  {
    Doc(doc.undo[|doc.undo| - 1], doc.undo[..|doc.undo| - 1], doc.redo + [doc.now])
  }

  ghost function Redone(doc: Doc): Doc
    requires doc.redo != []
  {
    Doc(doc.redo[|doc.redo| - 1], doc.undo + [doc.now], doc.redo[..|doc.redo| - 1])
  }

  lemma FullPush(canvases: seq<Canvas>, canvas: Canvas)
    requires AllFull(canvases) && Full(canvas)
    ensures AllFull(canvases + [canvas])
  {
  }

  lemma StillThere(heap: Heap, refs: multiset<nat>, tiles: seq<nat>)
    requires Counted(heap, refs) && multiset(tiles) <= refs
    ensures 0 !in heap && forall t :: t in tiles && t != 0 ==> t in heap
  {
    forall t | t in tiles && t != 0 ensures t in heap { assert t in multiset(tiles); }
  }

  /** The books after a push, the cancelling of the redo stack, and a fork. */
  lemma CheckpointCounts(heap0: Heap, heap1: Heap, heap2: Heap, undo: seq<Image>, parent: Image, image: Image,
                         next: nat)
    requires IsFork(parent, image) && heap2 == AddRefs(heap1, multiset(image.tiles))
    requires var rest := Stored(undo) + multiset(parent.tiles);
             Counted(heap1, rest) && SameBits(heap0, heap1, rest) && OwnersFrom(heap1, heap0)
    requires image.id + 1 == next && forall t :: t in heap0 ==> heap0[t].ownerID < image.id
    ensures Writing(heap2, image, Stored(undo) + multiset(parent.tiles), next)
    ensures SameBits(heap0, heap2, Stored(undo) + multiset(parent.tiles))
  {
    var rest := Stored(undo) + multiset(parent.tiles);
    forall t | t in multiset(image.tiles) && t != 0 ensures t in heap1 {
      ForkSharesOnly(parent, image, t);
      assert t in rest;
    }
    AddRefsCounted(heap1, rest, multiset(image.tiles));
    SameBitsTrans(heap0, heap1, heap2, rest);
  }

  lemma CheckpointPictures(heap0: Heap, heap2: Heap, undo: seq<Image>, parent: Image)
    requires AllWellFormed(undo) && WellFormed(parent) && 0 !in parent.tiles
    requires SameBits(heap0, heap2, Stored(undo) + multiset(parent.tiles))
    ensures AllWellFormed(undo + [parent])
    ensures Stored(undo + [parent]) + Stored([]) == Stored(undo) + multiset(parent.tiles)
    ensures Canvases(heap2, undo + [parent]) == Canvases(heap0, undo) + [CanvasOf(heap0, parent)]
    ensures SameBits(heap0, heap2, multiset(parent.tiles))
  {
    StoredPush(undo, parent);
    CanvasesKept(heap0, heap2, undo + [parent], Stored(undo) + multiset(parent.tiles));
    assert Canvases(heap0, undo + [parent]) == Canvases(heap0, undo) + [CanvasOf(heap0, parent)];
  }

  lemma OwnersFromItself(heap: Heap)
    ensures OwnersFrom(heap, heap)
  {
  }

  lemma StoredNone(rest: multiset<nat>)
    ensures rest + Stored([]) == rest
  {
  }

  ghost predicate OwnersFrom(heap: Heap, before: Heap) {
    forall t :: t in heap ==> t in before && heap[t].ownerID == before[t].ownerID
  }

  lemma DeletingOne(heap0: Heap, heap: Heap, rest: multiset<nat>, images: seq<Image>)
    requires images != [] && 0 !in images[|images| - 1].tiles
    requires Counted(heap, rest + Stored(images)) && SameBits(heap0, heap, rest) && OwnersFrom(heap, heap0)
    ensures forall t :: t in heap ==> heap[t].referenceCount > 0
    ensures var refs := multiset(images[|images| - 1].tiles);
            && (forall t :: t in refs ==> t in heap && refs[t] <= heap[t].referenceCount)
            && Counted(DropRefs(heap, refs), rest + Stored(images[..|images| - 1]))
            && SameBits(heap0, DropRefs(heap, refs), rest) && OwnersFrom(DropRefs(heap, refs), heap0)
  {
    var refs, below := multiset(images[|images| - 1].tiles), Stored(images[..|images| - 1]);
    assert rest + Stored(images) == rest + below + refs;
    DropRefsCounted(heap, rest + below, refs);
  }

  // ----- Rectangles, as the source computes with them: clipping may leave an empty or inverted rectangle.

  function Clip(r: Rectangle, width: nat, height: nat): Rectangle {
    Rectangle(if r.l < 0 then 0 else r.l, if r.r > width then width else r.r,
              if r.t < 0 then 0 else r.t, if r.b > height then height else r.b)
  }

  /** Division by the tile size, rounding towards zero. */
  function TileIndex(a: int): int { if a >= 0 then a / TILE else -((-a) / TILE) }

  predicate Touched(bounds: Rectangle, cell: Point) {
    TileIndex(bounds.t) <= cell.y <= TileIndex(bounds.b) && TileIndex(bounds.l) <= cell.x <= TileIndex(bounds.r)
  }

  lemma ContainedIsTouched(modified: Rectangle, width: nat, height: nat, p: Point)
    requires modified.Contains(p) && 0 <= p.x < width && 0 <= p.y < height
    ensures Touched(Clip(modified, width, height), TileOf(p))
  {
  }

  /** Every cell that the bounds do not touch, or that comes before (x, y), agrees with the bitmap. */
  ghost predicate WrittenUpTo(heap: Heap, image: Image, bitmap: Picture, bounds: Rectangle, x: int, y: int) {
    && WellFormed(image)
    && forall c :: InGrid(c, image.cols, image.rows) && (!Touched(bounds, c) || c.y < y || (c.y == y && c.x < x)) ==>
         Agrees(heap, TileAt(image, c), bitmap, c)
  }

  lemma CellWritten(heap: Heap, image: Image, heap': Heap, image': Image, bitmap: Picture, bounds: Rectangle, x: int,
                    y: int)
    requires WrittenUpTo(heap, image, bitmap, bounds, x, y) && WellFormed(image')
             && image' == image.(tiles := image'.tiles)
    requires InGrid(Point(x, y), image.cols, image.rows)
             && Agrees(heap', TileAt(image', Point(x, y)), bitmap, Point(x, y))
    requires forall c :: InGrid(c, image.cols, image.rows) && Agrees(heap, TileAt(image, c), bitmap, c) ==>
               Agrees(heap', TileAt(image', c), bitmap, c)
    ensures WrittenUpTo(heap', image', bitmap, bounds, x + 1, y)
  {
    hide Agrees, Touched, TileAt;
  }

  lemma CellOutside(heap: Heap, image: Image, bitmap: Picture, bounds: Rectangle, x: int, y: int)
    requires WrittenUpTo(heap, image, bitmap, bounds, x, y) && !InGrid(Point(x, y), image.cols, image.rows)
    ensures WrittenUpTo(heap, image, bitmap, bounds, x + 1, y)
  {
    hide Agrees, Touched, TileAt;
  }

  lemma RowWritten(heap: Heap, image: Image, bitmap: Picture, bounds: Rectangle, x: int, y: int)
    requires WrittenUpTo(heap, image, bitmap, bounds, x, y) && x > TileIndex(bounds.r)
    ensures WrittenUpTo(heap, image, bitmap, bounds, TileIndex(bounds.l), y + 1)
  {
  }

  /** The pixels under the cells before (x, y) were read from the image. */
  ghost predicate ReadUpTo(heap: Heap, image: Image, before: Picture, bitmap: Picture, x: int, y: int) {
    && WellFormed(image)
    && (forall p :: !InImage(p, image) ==> Get(bitmap, p) == Get(before, p))
    && forall p :: InImage(p, image) && (TileOf(p).y < y || (TileOf(p).y == y && TileOf(p).x < x)) ==>
         Get(bitmap, p) == Pixel(heap, image, p)
  }

  lemma RewriteCounted(heap: Heap, refs: multiset<nat>, kept: multiset<nat>, t: nat, bits: Picture, id: nat)
    requires Counted(heap, refs) && OwnedAlone(heap, id) && t in heap && kept[t] == 0
    ensures var heap' := heap[t := heap[t].(bits := bits)];
            Counted(heap', refs) && OwnedAlone(heap', id) && SameBits(heap, heap', kept)
  {
  }

  lemma WriteKeepsCounts(heap: Heap, image: Image, k: nat, heap': Heap, image': Image, kept: multiset<nat>, next: nat,
                         bits: Picture)
    requires Writing(heap, image, kept, next) && WellFormed(image') && MadePrivate(heap, image, k, heap', image')
    ensures var heap'' := heap'[image'.tiles[k] := heap'[image'.tiles[k]].(bits := bits)];
            Writing(heap'', image', kept, next) && SameBits(heap, heap'', kept)
  {
    hide Counted, OwnedAlone, SameBits;
    MadePrivateCounted(heap, image, k, heap', image', kept);
    RewriteCounted(heap', kept + multiset(image'.tiles), kept, image'.tiles[k], bits, image.id);
    SameBitsTrans(heap, heap', heap'[image'.tiles[k] := heap'[image'.tiles[k]].(bits := bits)], kept);
  }

  /** Copying the bitmap into a private tile makes that cell agree, and no cell that agreed stops agreeing. */
  lemma WriteKeepsCells(heap: Heap, image: Image, cell: Point, heap': Heap, image': Image, kept: multiset<nat>,
                        next: nat,
                        bits: Picture, bitmap: Picture)
    requires Writing(heap, image, kept, next) && WellFormed(image') && InGrid(cell, image.cols, image.rows)
    requires MadePrivate(heap, image, Slot(cell, image.cols, image.rows), heap', image')
    requires forall q :: InTile(q, TILE, TILE) && Global(cell, q) in bitmap ==>
             Get(bits, q) == Get(bitmap, Global(cell, q))
    ensures var t := TileAt(image', cell);
            var heap'' := heap'[t := heap'[t].(bits := bits)];
            && Agrees(heap'', t, bitmap, cell)
            && forall c :: InGrid(c, image.cols, image.rows) && Agrees(heap, TileAt(image, c), bitmap, c) ==>
                 Agrees(heap'', TileAt(image', c), bitmap, c)
  {
    var t := TileAt(image', cell);
    var heap'' := heap'[t := heap'[t].(bits := bits)];
    forall c | InGrid(c, image.cols, image.rows) && Agrees(heap, TileAt(image, c), bitmap, c)
      ensures Agrees(heap'', TileAt(image', c), bitmap, c)
    {
      if c != cell {
        SlotsApart(c, cell, image.cols, image.rows);
        WriteCell(heap, image, Slot(cell, image.cols, image.rows), heap', image', kept, bitmap, bits,
          Slot(c, image.cols, image.rows), c);
      }
    }
  }

  /** While the current image is being written: counts are exact and its own tiles are private. */
  ghost predicate Writing(heap: Heap, image: Image, kept: multiset<nat>, nextImageID: nat) {
    && WellFormed(image) && image.id < nextImageID
    && Counted(heap, kept + multiset(image.tiles)) && OwnedAlone(heap, image.id)
    && forall t :: t in heap ==> heap[t].ownerID < nextImageID
  }

  lemma SameBitsRefl(heap: Heap, refs: multiset<nat>)
    ensures SameBits(heap, heap, refs)
  {
  }

  lemma SameBitsTrans(a: Heap, b: Heap, c: Heap, refs: multiset<nat>)
    requires SameBits(a, b, refs) && SameBits(b, c, refs)
    ensures SameBits(a, c, refs)
  {
  }

  lemma NoNullTile(heap: Heap, refs: multiset<nat>)
    requires Counted(heap, refs)
    ensures 0 !in heap
  {
  }

  lemma DropNothing(heap: Heap)
    requires forall t :: t in heap ==> heap[t].referenceCount > 0
    ensures DropRefs(heap, multiset{}) == heap
  {
  }

  lemma PrefixRefs(tiles: seq<nat>, i: nat)
    requires i < |tiles|
    ensures multiset(tiles[..i + 1]) == multiset(tiles[..i]) + multiset{tiles[i]}
    ensures multiset(tiles[..i])[tiles[i]] < multiset(tiles)[tiles[i]]
  {
    assert tiles[..i + 1] == tiles[..i] + [tiles[i]];
    assert tiles == tiles[..i] + [tiles[i]] + tiles[i + 1..];
  }

  lemma NullsOnly(heap: Heap, tiles: seq<nat>)
    requires 0 !in heap && forall k :: 0 <= k < |tiles| ==> tiles[k] == 0
    ensures heap == AddRefs(heap, multiset(tiles))
  {
  }

  // ----- What a write through the fork has to cover.

  lemma ForkPixel(heap: Heap, heap': Heap, parent: Image, image: Image, p: Point)
    requires IsFork(parent, image) && SameBits(heap, heap', multiset(parent.tiles))
    requires InImage(p, parent) && InImage(p, image)
    ensures Pixel(heap', image, p) == Pixel(heap, parent, p)
  {
    CellInGrid(p, parent);
    CellInGrid(p, image);
    assert TileAt(parent, TileOf(p)) in multiset(parent.tiles);
  }

  lemma CellAgrees(heap: Heap, image: Image, bitmap: Picture, cell: Point)
    requires WellFormed(image) && InGrid(cell, image.cols, image.rows) && TileAt(image, cell) in heap
    requires forall p :: p in bitmap <==> InImage(p, image)
    requires forall p :: InImage(p, image) && TileOf(p) == cell ==> Get(bitmap, p) == Pixel(heap, image, p)
    ensures Agrees(heap, TileAt(image, cell), bitmap, cell)
  {
    forall q | InTile(q, TILE, TILE) && Global(cell, q) in bitmap
      ensures Get(heap[TileAt(image, cell)].bits, q) == Get(bitmap, Global(cell, q))
    {
      GlobalLocal(cell, q);
    }
  }

  /** Outside the modified bounds the new picture is the old one, and does not reach beyond it. */
  ghost predicate ChangedWithin(before: Canvas, after: Canvas, modified: Rectangle) {
    forall p :: p in after.picture && !modified.Contains(p) ==>
      p in before.picture && after.picture[p] == before.picture[p]
  }

  lemma UntouchedPixel(heap: Heap, heap': Heap, parent: Image, image: Image, refs: multiset<nat>, after: Canvas,
                       modified: Rectangle, p: Point)
    requires IsFork(parent, image) && SameBits(heap, heap', multiset(parent.tiles))
    requires Counted(heap, refs) && multiset(parent.tiles) <= refs && 0 !in parent.tiles
    requires Full(after) && after.width == image.width && after.height == image.height
    requires ChangedWithin(CanvasOf(heap, parent), after, modified)
    requires InImage(p, image) && !Touched(Clip(modified, image.width, image.height), TileOf(p))
    ensures InImage(p, parent) && Get(after.picture, p) == Pixel(heap', image, p)
  {
    hide Touched, Clip, Counted, SameBits, View, Pixel;
    if modified.Contains(p) { ContainedIsTouched(modified, image.width, image.height, p); }
    ViewAt(heap, parent, p);
    ForkPixel(heap, heap', parent, image, p);
  }

  /** A cell that the modified bounds do not touch needs no writing: the shared tile already shows the new picture. */
  lemma UntouchedAgrees(heap: Heap, heap': Heap, parent: Image, image: Image, refs: multiset<nat>, after: Canvas,
                        modified: Rectangle, cell: Point)
    requires IsFork(parent, image) && SameBits(heap, heap', multiset(parent.tiles))
    requires Counted(heap, refs) && multiset(parent.tiles) <= refs && 0 !in parent.tiles
    requires Full(after) && after.width == image.width && after.height == image.height
    requires ChangedWithin(CanvasOf(heap, parent), after, modified)
    requires InGrid(cell, image.cols, image.rows) && !Touched(Clip(modified, image.width, image.height), cell)
    ensures Agrees(heap', TileAt(image, cell), after.picture, cell)
  {
    hide Touched, Clip, Agrees, ChangedWithin, View, Pixel;
    forall p | InImage(p, image) && TileOf(p) == cell
      ensures InImage(p, parent) && Get(after.picture, p) == Pixel(heap', image, p)
    {
      UntouchedPixel(heap, heap', parent, image, refs, after, modified, p);
    }
    var corner := Global(cell, Point(0, 0));
    GlobalLocal(cell, Point(0, 0));
    assert InImage(corner, image);
    CellInGrid(corner, parent);
    assert TileAt(parent, cell) in multiset(parent.tiles);
    CellAgrees(heap', image, after.picture, cell);
  }

  /** The connected region of one colour around a point is repainted; outside the picture nothing is. */
  ghost function Flooded(picture: Picture, width: nat, height: nat, point: Point, color: Color): Picture
    requires forall p :: p in picture <==> 0 <= p.x < width && 0 <= p.y < height
  {
    if point !in picture then picture
    else Painted(picture, RegionOf(CellsOf(picture, width, height, picture[point]), point), color)
  }

  /** What `DrawFill` promises: the flooded picture, which differs from the old one only inside the bounds. */
  lemma FloodIsEdit(before: Picture, after: Picture, width: nat, height: nat, point: Point, color: Color,
                    bounds: Rectangle)
    requires width > 0 && height > 0 && forall p :: p in before <==> 0 <= p.x < width && 0 <= p.y < height
    requires point !in before ==> after == before
    requires point in before ==>
               var region := RegionOf(CellsOf(before, width, height, before[point]), point);
               && after == Painted(before, region, color)
               && (before[point] != color ==> forall p :: p in region ==> bounds.Contains(p))
    ensures after == Flooded(before, width, height, point, color) && Full(Canvas(width, height, after))
    ensures ChangedWithin(Canvas(width, height, before), Canvas(width, height, after), bounds)
  {
    if point in before {
      var region := RegionOf(CellsOf(before, width, height, before[point]), point);
      forall p | p in region && p in before ensures before[p] == before[point] {
        assert p in CellsOf(before, width, height, before[point]);
      }
    }
  }

  // ----- Whole runs of the abstract document.

  datatype Action = Change(next: Canvas) | Undo | Redo

  /** One message. Undo and redo are disabled while their stack is empty. */
  ghost function Step(doc: Doc, action: Action): Doc {
    match action
    case Change(next) => Committed(doc, next)
    case Undo => if doc.undo == [] then doc else Undone(doc)
    case Redo => if doc.redo == [] then doc else Redone(doc)
  }

  ghost function Run(doc: Doc, actions: seq<Action>): Doc {
    if actions == [] then doc else Step(Run(doc, actions[..|actions| - 1]), actions[|actions| - 1])
  }

  ghost function Reversed(canvases: seq<Canvas>): seq<Canvas> {
    if canvases == [] then [] else [canvases[|canvases| - 1]] + Reversed(canvases[..|canvases| - 1])
  }

  /** Every picture the document can reach without a new change, oldest first. */
  ghost function Timeline(doc: Doc): seq<Canvas> {
    doc.undo + [doc.now] + Reversed(doc.redo)
  }

  lemma UndoKeepsTimeline(doc: Doc)
    requires doc.undo != []
    ensures Timeline(Undone(doc)) == Timeline(doc)
  {
    var after := Undone(doc);
    assert after.redo[..|after.redo| - 1] == doc.redo;
    assert Reversed(after.redo) == [doc.now] + Reversed(doc.redo);
  }

  lemma RedoKeepsTimeline(doc: Doc)
    requires doc.redo != []
    ensures Timeline(Redone(doc)) == Timeline(doc)
  {
    assert Reversed(doc.redo) == [doc.redo[|doc.redo| - 1]] + Reversed(doc.redo[..|doc.redo| - 1]);
  }

  /** However often one undoes and redoes, no picture is lost, changed or reordered. */
  lemma {:induction false} TimelineKept(doc: Doc, actions: seq<Action>)
    requires forall k :: 0 <= k < |actions| ==> !actions[k].Change?
    ensures Timeline(Run(doc, actions)) == Timeline(doc)
    decreases |actions|
  {
    hide Timeline;
    if actions != [] {
      var before, action := Run(doc, actions[..|actions| - 1]), actions[|actions| - 1];
      TimelineKept(doc, actions[..|actions| - 1]);
      if action.Undo? && before.undo != [] {
        UndoKeepsTimeline(before);
      } else if action.Redo? && before.redo != [] {
        RedoKeepsTimeline(before);
      }
    }
  }

  /** A change cuts off what could be redone and adds one picture at the end. */
  lemma ChangeExtendsTimeline(doc: Doc, next: Canvas)
    ensures Timeline(Committed(doc, next)) == Timeline(doc)[..|doc.undo| + 1] + [next]
  {
    assert Reversed([]) == [];
  }

  ghost function Changes(pictures: seq<Canvas>): seq<Action> {
    seq(|pictures|, k requires 0 <= k < |pictures| => Change(pictures[k]))
  }

  /** After any changes, as many undos bring back exactly the picture and the stack from before them. */
  lemma {:induction false} UndosRestore(doc: Doc, pictures: seq<Canvas>)
    ensures var end := Run(doc, Changes(pictures) + seq(|pictures|, _ => Undo));
            end.now == doc.now && end.undo == doc.undo
    decreases |pictures|
  {
    if pictures != [] {
      var n := |pictures|;
      var first, rest := Step(doc, Change(pictures[0])), pictures[1..];
      UndosRestore(first, rest);
      var actions := Changes(pictures) + seq(n, _ => Undo);
      var tail := Changes(rest) + seq(n - 1, _ => Undo);
      assert actions == [Change(pictures[0])] + tail + [Undo];
      RunSplit(doc, Change(pictures[0]), tail);
      assert actions[..|actions| - 1] == [Change(pictures[0])] + tail;
    } else {
      assert Changes([]) + seq(0, _ => Undo) == [];
    }
  }

  lemma {:induction false} RunSplit(doc: Doc, action: Action, actions: seq<Action>)
    ensures Run(doc, [action] + actions) == Run(Step(doc, action), actions)
    decreases |actions|
  {
    var all := [action] + actions;
    if actions == [] {
      assert all[..0] == [];
    } else {
      RunSplit(doc, action, actions[..|actions| - 1]);
      assert all[..|all| - 1] == [action] + actions[..|actions| - 1];
    }
  }
}
