/**
  * Physical memory as the processor's four-level page walk sees it, and the windows through which the kernel reaches
  * its own tables: entry 510 of the top table points back at the top table (sections 4.5 and 4.8 of the Intel SDM,
  * volume 3A).
  */
module PageMemory {

  type Entry = bv64

  datatype Physical = Physical(address: bv64)

  /** Frames of 512 entries, by physical address, and the frame of the top table. */
  datatype Space = Space(memory: map<Physical, seq<Entry>>, root: Physical)

  predicate Present(e: Entry) { e & 1 == 1 }

  function Frame(e: Entry): Physical { Physical(e & 0x0000_FFFF_FFFF_F000) }

  predicate HasFrame(s: Space, frame: Physical) { frame in s.memory && |s.memory[frame]| == 512 }

  function Read(s: Space, frame: Physical, slot: nat): Entry {
    if frame in s.memory && slot < |s.memory[frame]| then s.memory[frame][slot] else 0
  }

  // ----- The walk.

  /** How many entries a level has; there is one top table. */
  function Size(level: nat): nat
    requires 1 <= level <= 5
  {
    match level
    case 1 => 68719476736
    case 2 => 134217728
    case 3 => 262144
    case 4 => 512
    case _ => 1
  }

  /** What a walk finds below an entry; nothing below a missing one. */
  function Below(s: Space, e: Entry, slot: nat): Entry {
    if Present(e) then Read(s, Frame(e), slot) else 0
  }

  /** Entry `k` of a level, numbered so that it covers the entries `512 * k` to `512 * k + 511` of the level below. */
  function Walk(s: Space, level: nat, k: nat): Entry
    requires 1 <= level <= 4
    decreases 4 - level
  {
    if level == 4 then Read(s, s.root, k) else Below(s, Walk(s, level + 1, k / 512), k % 512)
  }

  /** The first entry of a level whose walk goes through the recursive slot. */
  function WindowStart(level: nat): nat
    requires 1 <= level <= 4
  {
    510 * Size(level + 1)
  }

  predicate InWindow(level: nat, k: nat)
    requires 1 <= level <= 4
  {
    WindowStart(level) <= k < WindowStart(level) + Size(level + 1)
  }

  lemma WindowAbove(level: nat, k: nat)
    requires 1 <= level <= 3
    ensures InWindow(level + 1, k / 512) <==> InWindow(level, k)
    ensures k < Size(level) ==> k / 512 < Size(level + 1)
  {
  }

  predicate Recursive(s: Space) {
    Present(Walk(s, 4, 510)) && Frame(Walk(s, 4, 510)) == s.root
  }

  /** In the window of a level, the walk ends one level early. */
  lemma {:induction false} WindowShowsLevelAbove(s: Space, level: nat, k: nat)
    requires Recursive(s) && 1 <= level <= 3 && k < Size(level + 1)
    ensures Walk(s, level, WindowStart(level) + k) == Walk(s, level + 1, k)
    decreases 3 - level
  {
    hide Present, Frame;
    var j := WindowStart(level) + k;
    if level == 3 {
      assert j / 512 == 510 && j % 512 == k;
    } else {
      assert j / 512 == WindowStart(level + 1) + k / 512 && j % 512 == k % 512;
      WindowShowsLevelAbove(s, level + 1, k / 512);
    }
  }

  /** The page that shows the table holding entry `index` of a level: the addresses 0xFFFFFF0000000000 and so on. */
  function WindowPage(level: nat, index: nat): nat
    requires 1 <= level <= 4
  {
    index / 512 +
    match level
    case 1 => 0xF_F000_0000
    case 2 => 0xF_F7F8_0000
    case 3 => 0xF_F7FB_FC00
    case _ => 0xF_F7FB_FDFE
  }

  /** The entry that points at the table holding entry `index` of a level. */
  function Above(s: Space, level: nat, index: nat): Entry
    requires 1 <= level <= 4
  {
    if level == 4 then Walk(s, 4, 510) else Walk(s, level + 1, index / 512)
  }

  /** The page is mapped exactly if that table exists, and to that table. */
  lemma WindowPageMapped(s: Space, level: nat, index: nat)
    requires Recursive(s) && 1 <= level <= 4 && index < Size(level)
    ensures WindowPage(level, index) < Size(1)
    ensures Walk(s, 1, WindowPage(level, index)) == Above(s, level, index)
  {
    hide Present, Frame, Recursive, Walk;
    var k := index / 512;
    if level == 1 {
      WindowShowsLevelAbove(s, 1, k);
    } else if level == 2 {
      WindowShowsLevelAbove(s, 1, WindowStart(2) + k);
      WindowShowsLevelAbove(s, 2, k);
    } else if level == 3 {
      WindowShowsLevelAbove(s, 1, WindowStart(2) + WindowStart(3) + k);
      WindowShowsLevelAbove(s, 2, WindowStart(3) + k);
      WindowShowsLevelAbove(s, 3, k);
    } else {
      WindowShowsLevelAbove(s, 1, WindowStart(2) + WindowStart(3) + 510);
      WindowShowsLevelAbove(s, 2, WindowStart(3) + 510);
      WindowShowsLevelAbove(s, 3, 510);
    }
  }

  /** Whether an access to the window faults. */
  predicate Reachable(s: Space, level: nat, index: nat)
    requires 1 <= level <= 4
  {
    Present(Walk(s, 1, WindowPage(level, index)))
  }

  /** What the processor reads at entry `index` of a window is the entry that the walk uses. */
  lemma LoadIsWalk(s: Space, level: nat, index: nat)
    requires Recursive(s) && 1 <= level <= 4 && index < Size(level) && Reachable(s, level, index)
    ensures Read(s, Frame(Walk(s, 1, WindowPage(level, index))), index % 512) == Walk(s, level, index)
  {
    hide Present, Frame, WindowPage;
    WindowPageMapped(s, level, index);
  }

  // ----- The tree of tables.

  /** A table outside the window: the top one, or the one of a level that entry `k` of the level above points at. */
  datatype Table = Root | Node(level: nat, k: nat)

  predicate InTree(h: Table) {
    h.Root? || (1 <= h.level <= 3 && h.k < Size(h.level + 1) && !InWindow(h.level + 1, h.k))
  }

  predicate Live(s: Space, h: Table) {
    InTree(h) && (h.Root? || Present(Walk(s, h.level + 1, h.k)))
  }

  function FrameOf(s: Space, h: Table): Physical
    requires InTree(h)
  {
    if h.Root? then s.root else Frame(Walk(s, h.level + 1, h.k))
  }

  /** The recursive entry is in place, and no frame is used for two tables. */
  ghost predicate Tree(s: Space) {
    && Recursive(s)
    && (forall h :: Live(s, h) ==> HasFrame(s, FrameOf(s, h)))
    && forall h, g :: Live(s, h) && Live(s, g) && FrameOf(s, h) == FrameOf(s, g) ==> h == g
  }

  // ----- Writes.

  function Stored(s: Space, frame: Physical, slot: nat, e: Entry): Space
    requires HasFrame(s, frame) && slot < 512
  {
    s.(memory := s.memory[frame := s.memory[frame][slot := e]])
  }

  function Cleared(s: Space, frame: Physical): Space {
    s.(memory := s.memory[frame := seq(512, _ => 0)])
  }

  /** The table that holds entry `k` of a level. */
  function Holder(level: nat, k: nat): Table
    requires 1 <= level <= 4
  {
    if level == 4 then Root else Node(level, k / 512)
  }

  predicate Entries(s: Space, level: nat, k: nat) {
    1 <= level <= 4 && k < Size(level) && !InWindow(level, k) && Live(s, Holder(level, k))
  }

  lemma HolderInTree(level: nat, k: nat)
    requires 1 <= level <= 4 && k < Size(level) && !InWindow(level, k)
    ensures InTree(Holder(level, k))
  {
    if level < 4 { WindowAbove(level, k); }
  }

  function SetEntry(s: Space, level: nat, k: nat, e: Entry): Space
    requires Entries(s, level, k) && HasFrame(s, FrameOf(s, Holder(level, k)))
  {
    Stored(s, FrameOf(s, Holder(level, k)), k % 512, e)
  }

  /** A walk outside the window meets an entry in the table it belongs to. */
  lemma WalkInHolder(s: Space, level: nat, k: nat)
    requires 1 <= level <= 4 && k < Size(level) && !InWindow(level, k)
    ensures InTree(Holder(level, k))
    ensures Walk(s, level, k) == if Live(s, Holder(level, k)) then Read(s, FrameOf(s, Holder(level, k)), k % 512) else 0
  {
    hide Present, Frame;
    HolderInTree(level, k);
  }

  lemma SameHolder(level: nat, k: nat, other: nat, j: nat)
    requires 1 <= level <= 4 && 1 <= other <= 4 && k < Size(level) && j < Size(other)
    ensures Holder(level, k) == Holder(other, j) && k % 512 == j % 512 <==> level == other && k == j
  {
  }

  /** Distinct tables are read independently of each other. */
  lemma SetEntryRead(s: Space, level: nat, k: nat, e: Entry, g: Table, slot: nat)
    requires Tree(s) && Entries(s, level, k) && Live(s, g)
    ensures Read(SetEntry(s, level, k, e), FrameOf(s, g), slot) ==
            if g == Holder(level, k) && slot == k % 512 then e else Read(s, FrameOf(s, g), slot)
  {
    hide Walk, Recursive, InWindow, Holder, InTree;
  }

  /** Writing an entry changes no other entry of its level or of a level above, outside the window. */
  lemma {:induction false} SetEntryWalk(s: Space, level: nat, k: nat, e: Entry, n: nat, j: nat)
    requires Tree(s) && Entries(s, level, k) && level <= n <= 4 && j < Size(n) && !InWindow(n, j)
    ensures Walk(SetEntry(s, level, k, e), n, j) == if n == level && j == k then e else Walk(s, n, j)
    decreases 4 - n
  {
    var u := SetEntry(s, level, k, e);
    WalkInHolder(s, n, j);
    WalkInHolder(u, n, j);
    SameHolder(level, k, n, j);
    if n < 4 {
      WindowAbove(n, j);
      SetEntryWalk(s, level, k, e, n + 1, j / 512);
    }
    SameLive(s, u, n, j);
    hide Present, Frame, Recursive, Walk, Tree, SetEntry, InWindow, Size, Live, FrameOf, Entries;
    if Live(s, Holder(n, j)) { SetEntryRead(s, level, k, e, Holder(n, j), j % 512); }
  }

  /** A table is decided by the entry that points at it. */
  lemma SameLive(s: Space, u: Space, n: nat, j: nat)
    requires 1 <= n <= 4 && InTree(Holder(n, j)) && u.root == s.root
    requires n == 4 || Walk(u, n + 1, j / 512) == Walk(s, n + 1, j / 512)
    ensures Live(u, Holder(n, j)) == Live(s, Holder(n, j)) && FrameOf(u, Holder(n, j)) == FrameOf(s, Holder(n, j))
  {
  }

  lemma SetEntryRecursive(s: Space, level: nat, k: nat, e: Entry)
    requires Tree(s) && Entries(s, level, k)
    ensures Recursive(SetEntry(s, level, k, e))
  {
    hide Present, Frame;
    SetEntryRead(s, level, k, e, Root, 510);
  }

  // ----- Leaves.

  /** Writing a leaf changes one entry of all that there are, those of the window included. */
  lemma {:induction false} SetLeafWalk(s: Space, page: nat, e: Entry, n: nat, j: nat)
    requires Tree(s) && Entries(s, 1, page) && 1 <= n <= 4 && j < Size(n)
    ensures Walk(SetEntry(s, 1, page, e), n, j) == if n == 1 && j == page then e else Walk(s, n, j)
    decreases 4 - n
  {
    hide Walk, Present, Frame, Recursive, SetEntry, Live, Holder, FrameOf;
    SetEntryRecursive(s, 1, page, e);
    if !InWindow(n, j) {
      SetEntryWalk(s, 1, page, e, n, j);
    } else if n == 4 {
      SetEntryTop(s, 1, page, e);
    } else {
      var k := j - WindowStart(n);
      WindowShowsLevelAbove(s, n, k);
      WindowShowsLevelAbove(SetEntry(s, 1, page, e), n, k);
      SetLeafWalk(s, page, e, n + 1, k);
    }
  }

  lemma SetEntryTop(s: Space, level: nat, k: nat, e: Entry)
    requires Tree(s) && Entries(s, level, k)
    ensures Walk(SetEntry(s, level, k, e), 4, 510) == Walk(s, 4, 510)
  {
    hide Present, Frame;
    SetEntryRead(s, level, k, e, Root, 510);
  }

  /** The tables and their frames stay the same. */
  lemma SetLeafTree(s: Space, page: nat, e: Entry)
    requires Tree(s) && Entries(s, 1, page)
    ensures Tree(SetEntry(s, 1, page, e))
  {
    hide Walk, Present, Frame, Recursive;
    var u := SetEntry(s, 1, page, e);
    SetEntryRecursive(s, 1, page, e);
    forall h | InTree(h) ensures Live(u, h) == Live(s, h) && FrameOf(u, h) == FrameOf(s, h) {
      if h.Node? { SetLeafWalk(s, page, e, h.level + 1, h.k); }
    }
  }

  // ----- New tables.

  function TableEntry(frame: Physical): Entry { frame.address | 7 }

  /** A frame that the allocator may hand out for a table. */
  ghost predicate Unused(s: Space, frame: Physical) {
    && HasFrame(s, frame) && frame.address & 0x0000_FFFF_FFFF_F000 == frame.address
    && forall h :: Live(s, h) ==> FrameOf(s, h) != frame
  }

  lemma TableEntryPoints(frame: Physical)
    requires frame.address & 0x0000_FFFF_FFFF_F000 == frame.address
    ensures Present(TableEntry(frame)) && Frame(TableEntry(frame)) == frame
    ensures TableEntry(frame) & 0x60 == 0
  {
  }

  lemma ZeroNotPresent()
    ensures !Present(0)
  {
  }

  /** Entry `k` of a level is pointed at a frame, and the frame is zeroed. */
  function Installed(s: Space, level: nat, k: nat, frame: Physical): (u: Space)
    requires Entries(s, level, k) && HasFrame(s, FrameOf(s, Holder(level, k)))
    ensures u.root == s.root
  {
    Cleared(SetEntry(s, level, k, TableEntry(frame)), frame)
  }

  ghost predicate CanInstall(s: Space, level: nat, k: nat, frame: Physical) {
    Tree(s) && 2 <= level && Entries(s, level, k) && !Present(Walk(s, level, k)) && Unused(s, frame)
  }

  lemma InstalledRead(s: Space, level: nat, k: nat, frame: Physical, g: Table, slot: nat)
    requires CanInstall(s, level, k, frame) && Live(s, g)
    ensures Read(Installed(s, level, k, frame), FrameOf(s, g), slot) ==
            if g == Holder(level, k) && slot == k % 512 then TableEntry(frame) else Read(s, FrameOf(s, g), slot)
  {
    hide Walk, Recursive, InWindow, Holder, InTree, TableEntry, Present;
    SetEntryRead(s, level, k, TableEntry(frame), g, slot);
  }

  /** Installing a table changes the entry that points at it and no other, outside the window. */
  lemma {:induction false} InstalledWalk(s: Space, level: nat, k: nat, frame: Physical, n: nat, j: nat)
    requires CanInstall(s, level, k, frame) && 1 <= n <= 4 && j < Size(n) && !InWindow(n, j)
    ensures Walk(Installed(s, level, k, frame), n, j) == if n == level && j == k then TableEntry(frame)
            else Walk(s, n, j)
    decreases 4 - n
  {
    hide Present, Frame, Recursive, Walk, SetEntry, InWindow, Size, Live, FrameOf, Installed, Unused, TableEntry;
    var u := Installed(s, level, k, frame);
    WalkInHolder(s, n, j);
    WalkInHolder(u, n, j);
    SameHolder(level, k, n, j);
    if n < 4 {
      WindowAbove(n, j);
      InstalledWalk(s, level, k, frame, n + 1, j / 512);
    }
    if n + 1 == level && j / 512 == k {
      NewTableEmpty(s, level, k, frame, j);
    } else {
      SameLive(s, u, n, j);
      if Live(s, Holder(n, j)) { InstalledRead(s, level, k, frame, Holder(n, j), j % 512); }
    }
  }

  lemma NewTableEmpty(s: Space, level: nat, k: nat, frame: Physical, j: nat)
    requires CanInstall(s, level, k, frame) && j / 512 == k
    requires Walk(Installed(s, level, k, frame), level, k) == TableEntry(frame)
    ensures Walk(Installed(s, level, k, frame), level - 1, j) == 0 == Walk(s, level - 1, j)
  {
    TableEntryPoints(frame);
  }

  /** After the first of the two steps, the page that is zeroed next shows the new table. */
  lemma WindowShowsNewTable(s: Space, level: nat, k: nat, frame: Physical, index: nat)
    requires CanInstall(s, level, k, frame) && index < Size(level - 1) && index / 512 == k
    ensures var u := SetEntry(s, level, k, TableEntry(frame));
            && Recursive(u) && Reachable(u, level - 1, index)
            && Frame(Walk(u, 1, WindowPage(level - 1, index))) == frame
  {
    hide Walk, Recursive, Present, Frame, WindowPage, SetEntry, TableEntry, InWindow, Live, Size;
    var u := SetEntry(s, level, k, TableEntry(frame));
    TableEntryPoints(frame);
    SetEntryRecursive(s, level, k, TableEntry(frame));
    SetEntryWalk(s, level, k, TableEntry(frame), level, k);
    WindowPageMapped(u, level - 1, index);
  }

  lemma InstalledTop(s: Space, level: nat, k: nat, frame: Physical)
    requires CanInstall(s, level, k, frame)
    ensures Walk(Installed(s, level, k, frame), 4, 510) == Walk(s, 4, 510)
  {
    hide Present, Frame;
    InstalledRead(s, level, k, frame, Root, 510);
  }

  /** One table more, in the new frame; the others stay in theirs. */
  lemma InstalledTables(s: Space, level: nat, k: nat, frame: Physical, h: Table)
    requires CanInstall(s, level, k, frame) && InTree(h)
    ensures var u := Installed(s, level, k, frame);
            if h == Node(level - 1, k) then Live(u, h) && !Live(s, h) && FrameOf(u, h) == frame
            else Live(u, h) == Live(s, h) && FrameOf(u, h) == FrameOf(s, h)
  {
    hide Walk, Present, Frame, Recursive, InWindow;
    TableEntryPoints(frame);
    if h.Node? { InstalledWalk(s, level, k, frame, h.level + 1, h.k); }
  }

  lemma InstalledTree(s: Space, level: nat, k: nat, frame: Physical)
    requires CanInstall(s, level, k, frame)
    ensures Tree(Installed(s, level, k, frame))
    ensures forall f :: Unused(s, f) && f != frame ==> Unused(Installed(s, level, k, frame), f)
  {
    var u := Installed(s, level, k, frame);
    InstalledTop(s, level, k, frame);
    forall h | Live(u, h) ensures InTree(h) && HasFrame(u, FrameOf(u, h)) { InstalledTables(s, level, k, frame, h); }
    forall h, g | Live(u, h) && Live(u, g) && FrameOf(u, h) == FrameOf(u, g) ensures h == g {
      InstalledTables(s, level, k, frame, h);
      InstalledTables(s, level, k, frame, g);
    }
    hide Walk, Present, Frame;
    forall f, h | Unused(s, f) && f != frame && Live(u, h) ensures FrameOf(u, h) != f {
      InstalledTables(s, level, k, frame, h);
    }
  }

  /**
    * The pages of the window do change: the one that shows the new table was not mapped and now is, by an entry
    * whose accessed and dirty bits are clear.
    */
  lemma WindowPageAppears(s: Space, level: nat, k: nat, frame: Physical, index: nat)
    requires CanInstall(s, level, k, frame) && index < Size(level - 1) && index / 512 == k
    ensures var page := WindowPage(level - 1, index);
            && InWindow(1, page) && !Present(Walk(s, 1, page))
            && Walk(Installed(s, level, k, frame), 1, page) == TableEntry(frame)
            && Present(TableEntry(frame)) && TableEntry(frame) & 0x60 == 0
  {
    TableEntryPoints(frame);
    InstalledTop(s, level, k, frame);
    InstalledWalk(s, level, k, frame, level, k);
    hide Walk, Present, Frame;
    WindowPageMapped(s, level - 1, index);
    WindowPageMapped(Installed(s, level, k, frame), level - 1, index);
  }
}
