# Essence: verified algorithms and state machines

A Dafny model of the parts of the Essence operating system whose correctness rests on state kept by hand: the image
editor's shared tiles, the sort template, the list view's cached layout, the inspector's element list, the undo manager,
the work queue, the x86-64 page tables, the desktop's reference counts, and five smaller pieces. `dafny verify
dfyconfig.toml` checks all of it.

Each component is a module, or a specification module beside the one with the program:

- `Region`, `PaintTarget`, `FloodFill`: the bitmap and the scanline fill, against 4-connected regions.
- `Tiles`, `Transforms`, `ImageEditor`: copy-on-write tiles shared by the current image and both stacks, against a
  document whose stacks hold full copies.
- `Sorting`: the sort and search templates.
- `ListLayout`, `ListSearch`, `ListView`: the layout computed from scratch, the search by division, and the view that
  keeps everything incrementally.
- `Inspector`: the flat list of a tree of elements, against its preorder walk.
- `UndoManager`: two stacks of items with marked groups and re-entrant callbacks.
- `WorkQueue`: producers, workers, mutex, event and shutdown as interleaved steps.
- `PageMemory`, `PageTables`: memory as frames of 512 entries, the four-level walk over it (sections 4.5 and 4.8 of the
  Intel SDM, volume 3A), the windows that the recursive entry opens onto the tables, and the operations that go through
  these windows.
- `DesktopRefs`: documents, processes and instances.
- `Bands`, `Game2048`: one row of the game, and the game.
- `PosixPath`, `ExecBlock`: path conversion, and the argument and environment block.
- `MountPoints`, `WriteBuffer`: mount point lookup, and the installer's write buffer.
- `Options`: the one shared datatype.

Methods take the form of the code they model, loops and updates included, and are proved against functions and
predicates about which the main results are lemmas. Outcomes of foreign calls (opening a file, creating a process,
writing to a device) are parameters or arbitrary choices.

Some promises do not hold of the code. The model keeps the code and gives the exact condition under which the promise
holds: `Tiles.WriteIsPrivateIff`, `ListSearch.FoundPositionIff`, `ListSearch.GetItemPosition`, `ListView.View.Populate`,
`ListView.FocusFollowsIff`, `ListView.AnchorFollowsIff`, `ListView.CursorStaysIff`, `Inspector.Inspector.BringToFront`,
`UndoManager.UndoRedoIff`, `WorkQueue.EmptyAtExitIff`, `PageTables.UnmapCompleteIff`, `PosixPath.NameTooLongIff` and
`ExecBlock.RoundTripIff`. Inputs where it fails are in `ImageEditor.WriteReachesRedo`, `ListSearch.OvershotExample`,
`ListSearch.FooterExample`, `ListView.UnexpectedPosition`, `ListView.CursorExamples`, `Inspector.FrontExample`,
`UndoManager.OpenGroupExample`, `WorkQueue.LeftBehind`, `PageTables.OverlookedExample`, `PosixPath.NameTooLong` and
`ExecBlock.LostArgument`. Path conversion follows the code where it differs from section 4.13 of POSIX.1-2017: ".." at
the root is kept as a component.

## Model

| member | source | states |
|---|---|---|
| FloodFill.DrawFill | apps/image_editor.cpp:275-368 | The fill recolours exactly the 4-connected region of the start pixel that has its colour and nothing else, terminates, does nothing outside the bitmap, and returns bounds that contain the region and touch it on every side (the bottom edge one row further down). |
| FloodFill.FillFrom | apps/image_editor.cpp:288-361 | The loop over the point stack ends with the region painted; what decreases is the number of old-coloured pixels, then the stack. |
| FloodFill.PaintRun | apps/image_editor.cpp:294-360 | One popped point: the two scans together are one step of the specification, on the bitmap, the stack and the bounds. |
| FloodFill.Scan | apps/image_editor.cpp:305-359 | One direction of a run: the pixels painted and the points pushed are those of the walk over the set of old-coloured pixels. |
| FloodFill.FillStepPaintsRun | apps/image_editor.cpp:304-360 | A step paints the maximal horizontal run through the point: both ends stop at the edge or another colour. |
| FloodFill.FillStepSeedsAll | apps/image_editor.cpp:335-351 | Every old-coloured pixel above or below the painted run lies in a run that the step has put on the stack, although only one point per gap is pushed. |
| FloodFill.FillStepKeeps | apps/image_editor.cpp:293-361 | The invariant (painted runs are maximal, every unpainted neighbour of paint lies in a run seeded on the stack, all paint is in the region) survives a step, and the step makes progress. |
| FloodFill.FillEnds | apps/image_editor.cpp:293-361 | With the stack empty, the painted set is closed and so is the whole region. |
| Tiles.MadePrivateCounted | apps/image_editor.cpp:165-192 | Making a tile private before a write keeps every reference count equal to the number of slots that hold the tile, and leaves the tile out of every stored image. |
| Tiles.WriteIsPrivateIff | apps/image_editor.cpp:165-192 | Whatever is written through a slot leaves the pixels of all stored images alone if and only if the tile there is not one that the image owns and that has more references than the slots of the image. |
| Tiles.WriteShows | apps/image_editor.cpp:165-192 | Otherwise every other image that holds the tile shows what was written. |
| Tiles.SlotIsIndex | apps/image_editor.cpp:100-106 | The slot of a cell is the index that the code computes, row times columns plus column. |
| ImageEditor.Editor.UndoBeforeWrite | apps/image_editor.cpp:457-469 | With an undo between the fork at mouse down and the write at mouse up, the image that comes back writes into a tile that it owns and that its fork, now on the redo stack, shares. |
| ImageEditor.Editor.StrokeAfterUndo | apps/image_editor.cpp:457-469 | When the stroke is then written, the picture waiting to be redone shows the new pixels of that tile. |
| ImageEditor.WriteReachesRedo | apps/image_editor.cpp:457-469 | A run from a new white document after which the picture on the redo stack, pushed as white, is black. |
| Tiles.CopyTileIn | apps/image_editor.cpp:209-223 | The part of the bitmap under a tile is copied into it, clipped at the right and bottom edge, and the rest of the tile is kept. |
| Tiles.CopyTileOut | apps/image_editor.cpp:136-158 | A tile, or nothing for a null slot, lands on its place in the bitmap, clipped, and no other pixel changes. |
| Tiles.AddRefsCounted | apps/image_editor.cpp:90-113 | Sharing the tiles of a fork makes the counts right for one more image. |
| Tiles.DropRefsCounted | apps/image_editor.cpp:115-126 | Dropping the tiles of an image makes the counts right for the others, and exactly the tiles nobody holds are freed. |
| Transforms.Rotate | apps/image_editor.cpp:598-617 | The loop moves every pixel to its rotated place in a bitmap with the sides exchanged. |
| Transforms.Flip | apps/image_editor.cpp:618-634 | Swapping pixel pairs in place over half the bitmap mirrors all of it, for odd and even sizes. |
| Transforms.TransformUndone | apps/image_editor.cpp:586-634 | A transform followed by its inverse is the identity on every picture. |
| Transforms.TransformedIsFull | apps/image_editor.cpp:586-634 | A transformed picture has exactly one pixel in every place. |
| ImageEditor.Editor.constructor | apps/image_editor.cpp:908-919 | A new document is one white image with exact counts and nothing to undo. |
| ImageEditor.Editor.Fork | apps/image_editor.cpp:90-113 | The fork shares every tile that the new grid has room for, counts each of them once more, and gets a fresh identifier. |
| ImageEditor.Editor.Delete | apps/image_editor.cpp:115-126 | Every slot gives up its reference; tiles without references are freed. |
| ImageEditor.Editor.UpdateTile | apps/image_editor.cpp:165-192 | The slot ends up with a tile that only this image holds, with the old bits where they are asked for. |
| ImageEditor.Editor.CopyFromBitmap | apps/image_editor.cpp:194-228 | Afterwards the image reads as the bitmap, no slot is null, and no tile of a stored image has changed. |
| ImageEditor.Editor.CopyToBitmap | apps/image_editor.cpp:128-163 | The bitmap becomes what the image reads as. |
| ImageEditor.Editor.Checkpoint | apps/image_editor.cpp:480-481 | Push and fork as one step: the pictures on the undo stack stay as they are, the redo stack is cancelled, and the fork is ready to be written. |
| ImageEditor.Editor.Edit | apps/image_editor.cpp:470-484 | Any change of the bitmap inside the reported bounds leaves a document that is the plain one with full copies: old picture on the undo stack, new picture current, every stored picture unchanged pixel by pixel. |
| ImageEditor.Editor.Fill | apps/image_editor.cpp:479-484 | The fill tool run on the bitmap and committed within the bounds it returns: the flooded picture is current, the old one on the undo stack, although only the tiles under those bounds are written. |
| ImageEditor.Editor.Resize | apps/image_editor.cpp:532-566 | The size is clamped to 1..20000; the old pixels stay, new ones are white, and nothing happens when the size does not change. |
| ImageEditor.Editor.Transform | apps/image_editor.cpp:586-650 | A rotation or flip is committed like an edit, with the sides exchanged where it turns. |
| ImageEditor.Editor.Invoke | apps/image_editor.cpp:230-251 | Undo and redo restore the exact pixels and size at push time and change no tile. |
| ImageEditor.Editor.Cancel | desktop/api.cpp:1585-1606 | Cancelling a stack of images makes the counts right without them, and always dereferences tiles that exist. |
| ImageEditor.Editor.Open | apps/image_editor.cpp:785-797 | A loaded file replaces the current picture and leaves both stacks as they were. |
| ImageEditor.Editor.Destroy | apps/image_editor.cpp:709-711 | After both stacks are cancelled and the image deleted, no tile is left. |
| ImageEditor.TimelineKept | apps/image_editor.cpp:230-251 | Over any run of undos and redos, no picture is lost, changed or reordered. |
| ImageEditor.UndosRestore | apps/image_editor.cpp:230-251 | After any number of changes, as many undos bring back exactly the picture and the stack from before. |
| ImageEditor.ChangeExtendsTimeline | desktop/api.cpp:1626-1631 | A change cuts off what could be redone and adds one picture. |
| Sorting.Sort | desktop/prefix.h:214-251 | For every total preorder: a sorted permutation of the segment, nothing outside it touched, stable for at most 16 items; each recursive call is on a shorter non-empty part. |
| Sorting.Partition | desktop/prefix.h:232-250 | The partition splits into two non-empty parts separated by a pivot value, although the pivot is read through a pointer to the first item and changes at the first swap. |
| Sorting.ExchangeKeeps | desktop/prefix.h:232-247 | Why that works: after an exchange the new first item still separates what has been passed on both sides. |
| Sorting.MeetingSplits | desktop/prefix.h:239-250 | When the scans meet, everything up to the meeting point is below the pivot and everything behind it above, and neither part is empty. |
| Sorting.ScanUp | desktop/prefix.h:239 | The upward scan stops at the first item not below the pivot, inside the segment. |
| Sorting.ScanDown | desktop/prefix.h:240 | The downward scan stops at the last item not above the pivot, inside the segment. |
| Sorting.InsertionSort | desktop/prefix.h:218-230 | The branch for at most 16 items sorts stably. |
| Sorting.Search | desktop/prefix.h:253-283 | Finds the key if and only if it is there; otherwise the result is the place where it belongs. |
| ListLayout.MeasureIsSize | desktop/list_view.cpp:201-223 | The closed form for a range of items is the sum of the sizes of its items, header and footer included. |
| ListLayout.SpaceAddedRight | desktop/list_view.cpp:2344-2350 | The space computed for inserted items is exactly the growth of the group. |
| ListLayout.SpaceRemovedRight | desktop/list_view.cpp:2416-2422 | The space computed for removed items is exactly the shrinkage of the group, also when it becomes empty. |
| ListView.View.InsertSpace | desktop/list_view.cpp:823-846 | The total grows by the space and exactly the items from the given one on are shifted. |
| ListView.View.RenumberGroups | desktop/list_view.cpp:2297-2311 | The loop renumbers every item of a later group and finds the first one to shift. |
| ListView.View.RenumberInserted | desktop/list_view.cpp:2353-2389 | The same for inserted items, although the loop stops at the first item of a later group. |
| ListView.View.RenumberRemoved | desktop/list_view.cpp:2425-2471 | The same for removed items, while the loop deletes from the array it walks over. |
| ListView.View.Insert | desktop/list_view.cpp:2324-2394 | Every group total, the grand total, the item count and every visible size are again what measuring from scratch gives, and every visible offset too, up to the one row by which the last populate may have been off. |
| ListView.View.Remove | desktop/list_view.cpp:2396-2476 | The same after a removal. |
| ListView.View.InsertGroup | desktop/list_view.cpp:2285-2322 | The same after a group with its header and footer is inserted; every visible item still stands for the same item. |
| ListView.View.Scroll | desktop/list_view.cpp:1711-1722 | The same after scrolling. |
| ListView.AllPlacedMoves | desktop/list_view.cpp:2285-2476 | Why: renumbering and shifting the items behind the change puts each where the new groups place it. |
| ListView.View.ShowItem | desktop/list_view.cpp:600-640 | The "unexpected position" assertion fires exactly if the item is already visible and the walk and the visible items are off by amounts more than one unit apart; a new item gets its size and the position of the walk. |
| ListView.View.Populate | desktop/list_view.cpp:560-769 | The assertion fires if and only if the search for the first item is off by something else than at the last populate, a row is more than one unit high, and the walk comes to an item that was visible before. If it does not fire, the visible items are those in view, each once and in order, all of them in place if the first group in view is not overshot and one row too low if it is. |
| ListView.Run | desktop/list_view.cpp:560-769 | Over any sequence of scrolls, insertions, removals and populates from an empty view: after every operation all totals are right and the visible items are off by exactly what the last populate was off by, and the assertion fires at exactly the populates that this makes inconsistent. |
| ListView.OnlyTallFootersFire | desktop/list_view.cpp:606-616 | If footers are no taller than a row with its gap, or that is at most one unit, the assertion fires in no run. |
| ListView.TallFootersFire | desktop/list_view.cpp:606-616 | With any other metrics there is a run from an empty view in which it fires. |
| ListView.TallFootersFireLater | desktop/list_view.cpp:606-616 | And one in which it fires although the search is right by then, because the populate before it was off. |
| ListView.UnexpectedPosition | desktop/list_view.cpp:606-616 | Both runs for rows of 10 units and footers of 100. |
| ListView.ExcessOfFirst | desktop/list_view.cpp:430-476 | Only the first group in view can be overshot, so the error of the whole walk is that of its start. |
| ListSearch.FindFirstVisible | desktop/list_view.cpp:410-477 | The division finds the item that a linear scan would find first; the position returned with it is right if and only if a group with header and footer has not been scrolled a row past the top of its footer. |
| ListSearch.FoundIsFirst | desktop/list_view.cpp:447-476 | Within a group, the item found is the first whose extent, with the gap behind it, reaches below the top of the viewport. |
| ListSearch.FoundPositionIff | desktop/list_view.cpp:447-476 | The exact condition for the position, and with it when the clamping branch is harmless. |
| ListSearch.OvershotExample | desktop/list_view.cpp:468-473 | A group where the condition fails: the position is one row too low. |
| ListSearch.GetItemPosition | desktop/list_view.cpp:259-291 | Position and size are right if and only if the item is not the last, or is the header, or the group has both or neither of header and footer, or footers are as tall as items. |
| ListSearch.FooterExample | desktop/list_view.cpp:274-289 | A footer in a group without a header is reported with the height of an item. |
| ListView.CursorInserted | desktop/list_view.cpp:2357-2367 | Focus and anchor stay on their items when items are inserted. |
| ListView.FocusFollowsIff | desktop/list_view.cpp:2430-2436 | When items are removed, the focus stays on its item if and only if it is not before them in their group. |
| ListView.AnchorFollowsIff | desktop/list_view.cpp:2438-2444 | The anchor, whose test reads the focused index, stays right exactly under the stated condition. |
| ListView.CursorExamples | desktop/list_view.cpp:2430-2444 | Focus and anchor on the first item end up at index -1 when the second item is removed; a group inserted in front takes their place. |
| ListView.CursorStaysIff | desktop/list_view.cpp:2285-2322 | Inserting a group keeps focus and anchor right if and only if they are in an earlier group. |
| Inspector.Inspector.FindElements | desktop/inspector.cpp:355-364 | The recursive walk appends the preorder list of the subtree with its depths. |
| Inspector.Inspector.InsertionPoint | desktop/inspector.cpp:310-334 | The scan by depth ends exactly behind the parent, or behind the whole subtree of the sibling before the new element. |
| Inspector.Inspector.Created | desktop/inspector.cpp:293-353 | Adding a leaf at any child position keeps the list equal to the preorder walk with the right depths, and the selection on its element; the assertions hold. |
| Inspector.Inspector.Destroyed | desktop/inspector.cpp:271-291 | Removing a leaf does the same; the selection goes exactly if its element does. |
| Inspector.Inspector.DestroySubtree | desktop/gui.cpp:6307-6331 | Destroying a whole subtree, children first, leaves the walk of the tree without it, and the selection on its element unless it was inside. |
| Inspector.Inspector.AddEntry | desktop/inspector.cpp:293-353 | The entry goes behind the run that the depths mark out, with the depth that counting its ancestors gives, and the selection stays on its element, in any list of distinct elements. |
| Inspector.Inspector.Ancestors | desktop/inspector.cpp:337-342 | The walk from parent to parent counts the levels above the element. |
| Inspector.Inspector.RemoveEntry | desktop/inspector.cpp:271-291 | Exactly the entry of that element goes. |
| Inspector.Inspector.BringToFront | desktop/gui.cpp:198-211 | Bringing a child to the front keeps the list equal to the walk if and only if it has no siblings, or has no children and was one of the last two; otherwise its entry alone has moved, behind the run of the sibling before it. |
| Inspector.FrontExample | desktop/gui.cpp:198-211 | Both lists for the first of three children: the walk has it last, the list in the middle. |
| Inspector.FrontIff | desktop/gui.cpp:198-211 | The two lists compared part by part, for elements that are all distinct. |
| Inspector.LeafAdded | desktop/inspector.cpp:293-353 | The walk of a tree with one more leaf is the walk with one more entry, and where. |
| Inspector.Context | desktop/inspector.cpp:355-364 | A subtree takes up one piece of the walk whatever stands there, and what follows is no deeper than its root. |
| UndoManager.UndoRedoIff | desktop/api.cpp:1668-1702 | With callbacks that push one inverse, undoing a group and redoing it restores document, both stacks and all marks if and only if the group was closed and the other stack was not left with an open group on top. |
| UndoManager.UndoRedo | desktop/api.cpp:1668-1702 | Onto a closed stack, only the mark of an open group differs afterwards. |
| UndoManager.OpenGroupExample | desktop/api.cpp:1691-1696 | A group that was left open comes back closed. |
| UndoManager.UndosRedos | desktop/api.cpp:1668-1702 | The same for any number of undos followed by as many redos. |
| UndoManager.InvokePopsGroup | desktop/api.cpp:1678-1689 | Invoking runs exactly the items of the top group, last pushed first. |
| UndoManager.RunBack | desktop/api.cpp:1678-1689 | Running the inverses in the order they lie on the other stack takes the document back and pushes the original items in their order. |
| UndoManager.Manager.Push | desktop/api.cpp:1608-1641 | The item goes to the stack that the state selects; a push in the normal state leaves the redo stack empty, each of its items cancelled. |
| UndoManager.Manager.Pop | desktop/api.cpp:1585-1598 | One item is cancelled; every item pushed is still on one stack or consumed, once. |
| UndoManager.Manager.Clear | desktop/api.cpp:1600-1606 | The stack is empty and the other one untouched. |
| UndoManager.Manager.InvokeTop | desktop/api.cpp:1668-1702 | With any callbacks, the loop does what the specification says and no item is lost or consumed twice; the assertion at the end holds if and only if the other stack is not empty then, and in that case the redo stack holds whole groups again. |
| UndoManager.PushedSome | desktop/api.cpp:1691-1693 | When that is: something was on the other stack before, or a callback of the group pushed. |
| UndoManager.Manager.Callback | desktop/api.cpp:1685-1688 | Re-entrant pushes of a callback go to the other stack, in order, while the item is still on its own. |
| UndoManager.Manager.ContinueGroup | desktop/api.cpp:1643-1650 | Only the mark of the top item changes. |
| UndoManager.Manager.EndGroup | desktop/api.cpp:1652-1659 | Only the mark of the top item changes. |
| WorkQueue.EveryRunKeeps | desktop/api.cpp:1918-1964 | In every state that any interleaving reaches from the start: mutual exclusion, FIFO order with each item started once, no lost wake-up, and the shutdown passed on. |
| WorkQueue.NotForgottenKept | desktop/api.cpp:1918-1964 | While there is work, the event is set, a worker is awake, or a producer is about to signal. |
| WorkQueue.PassedOnKept | desktop/api.cpp:1933-1936 | From the shutdown signal on, the event is set or some worker is on its way to setting it. |
| WorkQueue.InOrderKept | desktop/api.cpp:1925-1929 | The items queued are those started, in order, followed by those waiting. |
| WorkQueue.ExclusiveKept | desktop/api.cpp:1923-1961 | Whoever is inside the critical section owns the mutex, and only they. |
| WorkQueue.WorkNotStuck | desktop/api.cpp:1918-1964 | While there is work before the shutdown, some thread can go on. |
| WorkQueue.ShutdownNotStuck | desktop/api.cpp:920-927 | After the shutdown signal, until every worker has exited, some thread can go on. |
| WorkQueue.FailureIsFinal | desktop/api.cpp:1953-1957 | A failed thread creation returns with the mutex held: nothing starts again in any continuation. |
| WorkQueue.EmptyAtExitIff | desktop/api.cpp:920-945 | In every run from the moment the flag is set: the queue is empty at exit if and only if it was empty then or some worker had yet to look into it, and every item queued later was queued while some worker had yet to look. |
| WorkQueue.LeftBehind | desktop/api.cpp:1930-1935 | The other case is reachable: work queued between the empty check and the test of the flag is left behind. |
| PageMemory.WindowShowsLevelAbove | arch/x86_64/kernel.cpp:59-63 | Entry 510 of the top table points back at it, so the window of each level repeats the entries of the level above. |
| PageMemory.LoadIsWalk | arch/x86_64/kernel.cpp:60-63 | A load at the address of an entry in any of the four windows goes through the page walk itself and gives the entry that the walk of that page uses. |
| PageMemory.InstalledWalk | arch/x86_pc.cpp:389-413 | In a tree of tables with distinct frames, pointing an entry at an unused frame and zeroing it changes no other entry of any level outside the windows. |
| PageMemory.InstalledTree | arch/x86_pc.cpp:389-413 | The tables stay a tree of distinct frames, with the recursive entry in place. |
| PageMemory.WindowShowsNewTable | arch/x86_pc.cpp:391-394 | Between the two steps, the page that is zeroed next is mapped, to the new frame and no other. |
| PageMemory.WindowPageAppears | arch/x86_pc.cpp:391-394 | That page of the windows is one whose mapping does change: it was not mapped and now is, by an entry without the accessed and dirty bits. |
| PageMemory.SetLeafWalk | arch/x86_pc.cpp:470 | Writing a leaf changes one entry of all that there are, those of the windows included. |
| PageTables.AddressSpace.Load | arch/x86_64/kernel.cpp:60-63 | The processor load behind each read of a window. |
| PageTables.AddressSpace.Store | arch/x86_64/kernel.cpp:60-63 | The processor store behind each write to a window reaches the table of the walk. |
| PageTables.AddressSpace.EnsureTable | arch/x86_pc.cpp:390-396 | One table: installed and zeroed through the window if it is missing and may be, with every other entry outside the windows as before. |
| PageTables.AddressSpace.MapPage | arch/x86_pc.cpp:332-476 | When it succeeds, translation gives that frame for that page, every other page outside the windows translates as before, and the outcome is the one the flags call for. |
| PageTables.AddressSpace.EnsureTables | arch/x86_pc.cpp:389-413 | Installing and zeroing up to three tables changes no mapping outside the windows, whatever their memory held; it stops exactly if tables are missing and may not be added. |
| PageTables.LeafValueBits | arch/x86_pc.cpp:416-447 | The entry built from the flags is present, has the accessed and dirty bits set, and is writable exactly if not read-only. |
| PageTables.AddressSpace.MakePageWritable | arch/x86_pc.cpp:478-501 | Succeeds exactly for mapped pages, and then write access translates as read access did; no other page changes. |
| PageTables.AddressSpace.TranslateAddress | arch/x86_pc.cpp:525-543 | Walks the windows from the top and gives the translation of the page, for every address, those of the windows included. |
| PageTables.TranslateByLeaf | arch/x86_pc.cpp:525-543 | The four-level walk depends on the leaf entry alone. |
| PageTables.AddressSpace.UnmapPages | arch/x86_pc.cpp:240-330 | Exactly the pages the loop reaches are cleared, the panic check is unreachable, and a stop can be resumed. |
| PageTables.UnmapLeaves | arch/x86_pc.cpp:240-330 | No mapping outside the range changes; inside it, exactly the named ones disappear. |
| PageTables.UnmapCompleteIff | arch/x86_pc.cpp:259-280 | Unmapping clears every page it should if and only if no mapped page in the range, other than the first, follows a page without tables. |
| PageTables.OverlookedExample | arch/x86_pc.cpp:276-280 | A memory of four tables where unmapping pages 511 and 512 leaves page 512 mapped: the skip over a missing table passes over the first page of the next one. |
| PageTables.ResumeCompletes | arch/x86_pc.cpp:254-326 | Stopping and resuming has the effect of one uninterrupted run. |
| DesktopRefs.Desktop.Cleanup | desktop/desktop.cpp:1573-1597 | The instance gives up its document and its process; both count assertions hold and all counts agree again. |
| DesktopRefs.Desktop.CloseReference | desktop/desktop.cpp:2144-2157 | One reference less; the document goes with its last one. |
| DesktopRefs.Desktop.OpenReference | desktop/desktop.cpp:2159-2166 | The count of that document and no other grows by one, no path changes, and closing a reference brings the documents back. |
| DesktopRefs.RefsOpened | desktop/desktop.cpp:2005-2008 | The counts agree again once an instance holds the document. |
| DesktopRefs.Desktop.Start | desktop/desktop.cpp:1794-2046 | Starting in a new instance or in place of what it held keeps every document and process count equal to the number of instances; when it is refused, when the crashed tab is started instead, and which process and document the instance ends up with are stated exactly. |
| DesktopRefs.Desktop.MoveTo | desktop/desktop.cpp:1996-2044 | The early increment, the clean-up and the binding add up, also when old and new process or document are the same. |
| DesktopRefs.Desktop.Create | desktop/desktop.cpp:2048-2070 | A refused start leaves the list of instances as it was. |
| DesktopRefs.Desktop.OpenDocument | desktop/desktop.cpp:2168-2217 | The temporary reference is always given back, whether or not the instance starts; a started instance holds the document with that path unless the crashed tab took its place. |
| DesktopRefs.Desktop.RequestSave | desktop/desktop.cpp:2248-2300 | A first save gives the instance a new document with one reference; every other instance and document stays, and without a name or file nothing changes. |
| DesktopRefs.Desktop.StartUserTask | desktop/desktop.cpp:2958-2996 | A user task is counted for its process. |
| DesktopRefs.Desktop.WindowDestroyed | desktop/desktop.cpp:3169-3188 | Exactly the instance with that window goes, with its counts. |
| DesktopRefs.Desktop.ProcessTerminated | desktop/desktop.cpp:1673-1721 | Every instance of the process goes, the others stay in their order, and the final assertion holds. |
| DesktopRefs.Desktop.ProcessCrashed | desktop/desktop.cpp:2089-2131 | The tabs of the process show the crash, run by the desktop itself, without a document, and no other instance changes; all counts agree. |
| DesktopRefs.RefsClosed | desktop/desktop.cpp:2144-2157 | The count of a document held by an instance is never zero, and closing keeps all counts in agreement. |
| DesktopRefs.CountsLeft | desktop/desktop.cpp:1585-1592 | The count of a process with an instance is never zero, and leaving it keeps all counts in agreement. |
| Bands.BandMoves | apps/2048.cpp:71-137 | A band after a move: packed against the wall with the first pair of equal neighbours merged and no other; the sum of the numbers is kept, the score is what was built, and it has moved if and only if it has changed. |
| Bands.SweepMoves | apps/2048.cpp:74-136 | The sweep over the cells refines packing and merging. |
| Bands.PushEffect | apps/2048.cpp:94-127 | Each tile either stays or brings tiles strictly nearer to the wall, which is why a moved band always differs. |
| Bands.PointsClosed | apps/2048.cpp:116 | Building a tile v scores (v-1)*2^v. |
| Game2048.Game.MoveTiles | apps/2048.cpp:65-144 | True exactly when the grid changes; a speculative call leaves grid and score alone; the sum of the numbers is conserved and the score law kept. |
| Game2048.MoveLaw | apps/2048.cpp:65-144 | A move over all bands keeps the sum and scores what it builds. |
| Game2048.Game.MoveBands | apps/2048.cpp:71-137 | In every direction, each band is replaced by its moved form. |
| Game2048.Game.PushTile | apps/2048.cpp:94-127 | The inner loop on the grid is the push on the band. |
| Game2048.Game.SpawnTile | apps/2048.cpp:146-194 | Fills exactly one empty cell unless the grid is full, keeps the score law, and reports the end exactly when no direction changes the grid. |
| Game2048.Game.Update | apps/2048.cpp:196-219 | A turn is a move and a new tile, or nothing if the grid would not change; the animation array is never overrun. |
| Game2048.Game.constructor | apps/2048.cpp:48-49 | An empty grid with score zero obeys the score law. |
| Game2048.Game.NewGame | apps/2048.cpp:339-347 | From the empty grid: one tile, score zero, and from then on score = sum of (v-1)*2^v minus 4 per spawned four. |
| Game2048.Game.SameTotal | apps/2048.cpp:76-81 | All four directions see the same tiles. |
| PosixPath.Process.ConvertPath | desktop/posix.cpp:113-160 | The buffer holds the fold over the components of directory and path and a NUL; there is room for one more slash if and only if the name is not too long in the sense below. |
| PosixPath.Process.ChangeDirectory | desktop/posix.cpp:275-282 | Whenever the slash fits, the working directory is the converted path, and again starts and ends with a slash. |
| PosixPath.ConvertedTwice | desktop/posix.cpp:113-160 | Conversion is idempotent on its own output. |
| PosixPath.ChangeThenConvert | desktop/posix.cpp:275-282 | Resolving q after changing to p is resolving p/q. |
| PosixPath.NameFits | desktop/posix.cpp:117 | The converted path is no longer than the strings it is made from, or one longer if neither starts with a slash. |
| PosixPath.NameTooLongIff | desktop/posix.cpp:117 | The converted path is longer than the strings it is made from if and only if the path has no slash at its end and every component of directory and path is kept (none is empty or ".", and ".." comes first or not at all), or both strings are empty. |
| PosixPath.NameTooLong | desktop/posix.cpp:117 | Such a directory and path. |
| PosixPath.KeptNormal | desktop/posix.cpp:134-142 | No component of a result is empty or ".", and only the first can be "..". |
| PosixPath.AddString | desktop/posix.cpp:122-144 | The scanning loop performs the fold in place, within the buffer. |
| PosixPath.RemoveLast | desktop/posix.cpp:137 | Going back to the last slash removes exactly the last component. |
| ExecBlock.RoundTripIff | desktop/posix.cpp:749-774 | The parser recovers arguments and environment if and only if there is an argument and no string but the first of each list is empty. |
| ExecBlock.LostArgument | desktop/posix.cpp:763-767 | An empty argument behind the first one ends the list early. |
| ExecBlock.Pack | desktop/posix.cpp:375-416 | The block has exactly the computed size and holds both lists, the working directory appended if missing. |
| ExecBlock.Parse | desktop/posix.cpp:749-774 | The parsing loop computes the parse, reading only inside the buffer, and argc is the number of arguments. |
| ExecBlock.PackAndParse | desktop/posix.cpp:375-416 | What the new process sees is what was passed, whatever lies behind the block. |
| ExecBlock.ScanIff | desktop/posix.cpp:754-773 | One list is recovered if and only if it can be separated. |
| MountPoints.FirstIsLongest | desktop/files.cpp:329-349 | The first match is the longest one. |
| MountPoints.Table.FindMountPoint | desktop/files.cpp:329-349 | Finds a mount point if and only if one matches, and then the longest. |
| MountPoints.Table.Add | desktop/files.cpp:296-323 | Keeps every prefix from being a prefix of a later one; refuses exactly the covered prefixes. |
| MountPoints.Table.Remove | desktop/files.cpp:351-374 | Removes the longest match. |
| MountPoints.AddedFinds | desktop/files.cpp:296-323 | Adding leaves every earlier lookup as it was. |
| MountPoints.Table.AddThenRemove | desktop/files.cpp:296-374 | Removing what was just added restores the list. |
| WriteBuffer.Installer.Flush | apps/installer.cpp:228-235 | Unless an error is recorded, the device is then the disk with every block written at once; errors stay recorded. |
| WriteBuffer.Installer.WriteBlock | apps/installer.cpp:248-265 | The device with the pending bytes over it stays that disk, whether the block is gathered or the buffer flushed. |
| WriteBuffer.Installer.ReadBlock | apps/installer.cpp:237-246 | A read sees every earlier write; a failure is always recorded. |

## Left out

- Painting, layout, styles, animation, menus and dialogs, the renderer, and everything behind a system call.
- Brush strokes: `ImageEditor.Editor.Edit` covers them as an arbitrary change inside the reported bounds; drawing the line is floating point. An undo between mouse down and mouse up is treated by `Tiles.WriteIsPrivateIff` and `ImageEditor.Editor.UndoBeforeWrite`.
- ImageEditor.Editor.Edit: push, fork and write are one step, because the code runs them in one message except for brush strokes.
- Widths of integers: pixels and page table entries are bit vectors; sizes, counts, offsets and scores are unbounded. Sums that would overflow 32 or 64 bits are not modelled, nor is a tile of 255 in the 2048 grid.
- ImageEditor.Editor.CopyFromBitmap: a bitmap and a tile are maps from points to colours, not byte arrays with a stride; the fill runs on a `PaintTarget`, which has the stride.
- List view: tiled and variable-size modes, the scroll item, and selection by mouse.
- ListView.View.Populate: requires groups that are not empty, because the walk forwards steps into empty groups. When the check on an item's position fails, the program ends; the model returns that instead.
- ListView.View.Remove: requires the range to lie inside the group, which the code does not check for a group without a footer; the counts would no longer match the items.
- Inspector: bounds and contents of the entries, and the editor for the selected element. Elements have identities that are never used twice.
- Undo manager: items are values on a stack, not bytes with a footer behind them.
- Page tables: mapping and unmapping pages of the windows themselves, which the kernel never asks for. Pages of 2 MB, the no-execute bit, and the permissions of the entries above the leaf. Freeing of frames, invalidation, the mutexes and the page frame database; `PageTables.AddressSpace.MapPage` takes the verdict of its other checks as a parameter. The 32-bit layout.
- Desktop: saving and renaming beyond the reference count, the current writer of a document, the list of user tasks.
- DesktopRefs.Desktop.Start: what is posted to the application, and the tab of an instance that does not respond, are not modelled; a process or window gets an identifier that was never used before.
- 2048: the animation itself, saving, and reading a saved game.
- PosixPath.Process.ConvertPath: requires a working directory that is empty or ends with a slash, which is what the code makes of an inherited PWD variable. The length of a C string is that of its sequence.
- PosixPath.Process.ChangeDirectory: requires that the slash behind the name fits, which a caller can tell from the strings (`PosixPath.NameTooLongIff`); what the code writes behind the buffer otherwise is not modelled.
- ExecBlock.Parse: requires both lists to end inside the buffer, as they do when the block fits ARG_MAX.
- Mount points: the mutex, and the sharing and closing of handles.
- WriteBuffer.Installer.WriteBlock: requires a write no larger than the buffer, which the code does not check.
- `WriteBytes`, formatting and decompression in the installer, the other applications, timers, and the script engine.
