/**
  * Mapping and unmapping pages through the windows: each of the four windows shows the entries of one level as one
  * array, in which entry `i` covers the same pages as entries 512 * i to 512 * i + 511 of the level below.
  */
module PageTables {

  import opened Options
  import opened PageMemory

  const PAGES: nat := 68719476736

  datatype Tables = Tables(l4: seq<Entry>, l3: seq<Entry>, l2: seq<Entry>, l1: seq<Entry>)

  predicate WellSized(t: Tables) {
    |t.l4| == 512 && |t.l3| == 262144 && |t.l2| == 134217728 && |t.l1| == PAGES
  }

  predicate Writable(e: Entry) { e & 2 == 2 }

  predicate Copied(e: Entry) { e & 0x200 == 0x200 }

  /** The accessed and the dirty bit: bits 5 and 6. */
  predicate AccessedDirty(e: Entry) { e & 0x60 == 0x60 }

  function Index2(page: nat): nat { page / 512 }
  function Index3(page: nat): nat { Index2(page) / 512 }
  function Index4(page: nat): nat { Index3(page) / 512 }

  predicate HasTables(t: Tables, page: nat)
    requires WellSized(t) && page < PAGES
  {
    Present(t.l4[Index4(page)]) && Present(t.l3[Index3(page)]) && Present(t.l2[Index2(page)])
  }

  /** The mapping of a page: its leaf entry, when all tables and the page itself are present. */
  function Leaf(t: Tables, page: nat): Option<Entry>
    requires WellSized(t) && page < PAGES
  {
    if HasTables(t, page) && Present(t.l1[page]) then Some(t.l1[page]) else None
  }

  /** `MMArchTranslateAddress`. */
  function Translate(t: Tables, page: nat, writeAccess: bool): bv64
    requires WellSized(t) && page < PAGES
  {
    if !Present(t.l4[Index4(page)]) then 0
    else if !Present(t.l3[Index3(page)]) then 0
    else if !Present(t.l2[Index2(page)]) then 0
    else if writeAccess && !Writable(t.l1[page]) then 0
    else if Present(t.l1[page]) then Frame(t.l1[page]).address else 0
  }

  /** Translation depends on the leaf alone. */
  lemma TranslateByLeaf(t: Tables, page: nat, writeAccess: bool)
    requires WellSized(t) && page < PAGES
    ensures Translate(t, page, writeAccess) ==
            match Leaf(t, page)
            case None => 0
            case Some(e) => if writeAccess && !Writable(e) then 0 else Frame(e).address
  {
  }

  // ----- The four levels of a space.

  predicate Page(t: Tables, page: nat) { WellSized(t) && page < PAGES }

  /** The four arrays that the windows show. */
  function Flat(s: Space): (t: Tables)
    ensures WellSized(t)
  {
    Tables(seq(512, k requires 0 <= k => Walk(s, 4, k)), seq(262144, k requires 0 <= k => Walk(s, 3, k)),
           seq(134217728, k requires 0 <= k => Walk(s, 2, k)), seq(PAGES, k requires 0 <= k => Walk(s, 1, k)))
  }

  /** The walk finds nothing below a missing table, so the last entry alone decides. */
  lemma FlatLeaf(s: Space, page: nat)
    requires page < PAGES
    ensures Leaf(Flat(s), page) == if Present(Walk(s, 1, page)) then Some(Walk(s, 1, page)) else None
  {
    ZeroNotPresent();
    hide Present, Frame;
    assert Present(Walk(s, 1, page)) ==> Present(Walk(s, 2, Index2(page)));
    assert Present(Walk(s, 2, Index2(page))) ==> Present(Walk(s, 3, Index3(page)));
    assert Present(Walk(s, 3, Index3(page))) ==> Present(Walk(s, 4, Index4(page)));
  }

  /** Writing a leaf is an update of the last array at one place, the windows included. */
  lemma FlatSet(s: Space, page: nat, e: Entry)
    requires Tree(s) && Entries(s, 1, page)
    ensures Tree(SetEntry(s, 1, page, e))
    ensures Flat(SetEntry(s, 1, page, e)) == Flat(s).(l1 := Flat(s).l1[page := e])
  {
    SetLeafTree(s, page, e);
    hide Walk, Tree, SetEntry, Entries;
    var u := SetEntry(s, 1, page, e);
    forall k | 0 <= k < 512 ensures Walk(u, 4, k) == Walk(s, 4, k) { SetLeafWalk(s, page, e, 4, k); }
    forall k | 0 <= k < 262144 ensures Walk(u, 3, k) == Walk(s, 3, k) { SetLeafWalk(s, page, e, 3, k); }
    forall k | 0 <= k < 134217728 ensures Walk(u, 2, k) == Walk(s, 2, k) { SetLeafWalk(s, page, e, 2, k); }
    forall k | 0 <= k < PAGES ensures Walk(u, 1, k) == if k == page then e else Walk(s, 1, k) {
      SetLeafWalk(s, page, e, 1, k);
    }
  }

  /** A page whose tables exist has an entry to write. */
  lemma PageEntries(s: Space, page: nat)
    requires page < PAGES && !InWindow(1, page)
    ensures HasTables(Flat(s), page) <==> Entries(s, 1, page)
  {
    ZeroNotPresent();
    HolderInTree(1, page);
    hide Present, Frame;
    assert Present(Walk(s, 2, Index2(page))) ==> Present(Walk(s, 3, Index3(page)));
    assert Present(Walk(s, 3, Index3(page))) ==> Present(Walk(s, 4, Index4(page)));
  }

  datatype MapFlags = MapFlags(notCacheable: bool, user: bool, overwrite: bool, readOnly: bool, copied: bool,
                               noNewTables: bool, writeCombining: bool, ignoreIfMapped: bool)

  function PresentWritable(physical: bv64): Entry { physical | 3 }

  function WriteCombining(v: Entry, on: bool): Entry { if on then v | 16 else v }

  function NotCacheable(v: Entry, on: bool): Entry { if on then v | 24 else v }

  function Caching(v: Entry, flags: MapFlags): Entry {
    NotCacheable(WriteCombining(v, flags.writeCombining), flags.notCacheable)
  }

  function Privilege(v: Entry, user: bool): Entry { if user then v | 7 else v | 0x100 }

  function ReadOnly(v: Entry, readOnly: bool): Entry { if readOnly then v & 0xFFFF_FFFF_FFFF_FFFD else v }

  function MarkCopied(v: Entry, copied: bool): Entry { if copied then v | 0x200 else v }

  function MarkUsed(v: Entry): Entry { v | 0x60 }

  /** The leaf entry that `MMArchMapPage` builds. */
  function LeafValue(physical: bv64, flags: MapFlags): Entry {
    MarkUsed(MarkCopied(ReadOnly(Privilege(Caching(PresentWritable(physical), flags), flags.user), flags.readOnly),
      flags.copied))
  }

  lemma PresentWritableBits(physical: bv64)
    requires Aligned(physical)
    ensures var v := PresentWritable(physical); Present(v) && Writable(v) && !Copied(v) && Frame(v) == Frame(physical)
  {
  }

  lemma WriteCombiningBits(v: Entry, on: bool)
    requires Present(v) && Writable(v) && !Copied(v)
    ensures var w := WriteCombining(v, on); Present(w) && Writable(w) && !Copied(w) && Frame(w) == Frame(v)
  {
  }

  lemma NotCacheableBits(v: Entry, on: bool)
    requires Present(v) && Writable(v) && !Copied(v)
    ensures var w := NotCacheable(v, on); Present(w) && Writable(w) && !Copied(w) && Frame(w) == Frame(v)
  {
  }

  lemma PrivilegeBits(v: Entry, user: bool)
    requires Present(v) && Writable(v) && !Copied(v)
    ensures var w := Privilege(v, user); Present(w) && Writable(w) && !Copied(w) && Frame(w) == Frame(v)
  {
  }

  lemma ReadOnlyBits(v: Entry, readOnly: bool)
    requires Present(v) && Writable(v) && !Copied(v)
    ensures var w := ReadOnly(v, readOnly); Present(w) && Writable(w) == !readOnly && !Copied(w) && Frame(w) == Frame(v)
  {
  }

  lemma CopiedBits(v: Entry, copied: bool)
    requires Present(v) && !Copied(v)
    ensures var w := MarkCopied(v, copied); Present(w) && Writable(w) == Writable(v) && Copied(w) == copied
                                            && Frame(w) == Frame(v)
  {
  }

  lemma UsedBits(v: Entry)
    ensures var w := MarkUsed(v);
            AccessedDirty(w) && Present(w) == Present(v) && Writable(w) == Writable(v) && Copied(w) == Copied(v)
              && Frame(w) == Frame(v)
  {
  }

  /** What the flags make of the leaf; the accessed and dirty bits are always set. */
  lemma LeafValueBits(physical: bv64, flags: MapFlags)
    requires Aligned(physical)
    ensures var v := LeafValue(physical, flags);
            && Present(v) && AccessedDirty(v) && (Writable(v) <==> !flags.readOnly) && (Copied(v) <==> flags.copied)
            && Frame(v) == Frame(physical)
  {
    hide Aligned, Present, Writable, Copied, AccessedDirty, Frame, PresentWritable, WriteCombining, NotCacheable,
      Privilege, ReadOnly, MarkCopied, MarkUsed;
    var v0 := PresentWritable(physical);
    PresentWritableBits(physical);
    WriteCombiningBits(v0, flags.writeCombining);
    NotCacheableBits(WriteCombining(v0, flags.writeCombining), flags.notCacheable);
    var v1 := Caching(v0, flags);
    PrivilegeBits(v1, flags.user);
    var v2 := Privilege(v1, flags.user);
    ReadOnlyBits(v2, flags.readOnly);
    var v3 := ReadOnly(v2, flags.readOnly);
    CopiedBits(v3, flags.copied);
    UsedBits(MarkCopied(v3, flags.copied));
  }

  // ----- The operations.

  /** The pages that the kernel maps and unmaps: all but those of the windows. */
  predicate Ordinary(page: int) { 0 <= page < PAGES && !InWindow(1, page) }

  /** Every mapped page outside the windows has its accessed and dirty bits set. */
  ghost predicate AllUsed(t: Tables) {
    WellSized(t) && forall q :: Ordinary(q) && Leaf(t, q).Some? ==> AccessedDirty(Leaf(t, q).value)
  }

  predicate Aligned(physical: bv64) { physical & 0xFFF == 0 }

  /** An existing mapping may only turn from read-only to writable. */
  predicate MayRemap(e: Entry, value: Entry, physical: bv64) {
    e & 0xFFFF_FFFF_FFFF_F000 == physical && e != value && !Writable(e) && Writable(value)
  }

  datatype MapResult = Mapped(changed: bool) | Panic

  /** The page number of an address: the low 48 bits, without the offset. */
  function PageOf(address: nat): (page: nat)
    ensures page < PAGES
  {
    (address % 0x1_0000_0000_0000) / 4096
  }

  ghost predicate SameLeaves(t: Tables, u: Tables, except: set<nat>)
    requires WellSized(t) && WellSized(u)
  {
    forall q :: Ordinary(q) && q !in except ==> Leaf(t, q) == Leaf(u, q)
  }

  lemma SetLeaf(t: Tables, page: nat, e: Entry)
    requires Page(t, page) && HasTables(t, page)
    ensures var u := t.(l1 := t.l1[page := e]);
            && WellSized(u) && SameLeaves(t, u, {page}) && Leaf(u, page) == if Present(e) then Some(e) else None
  {
    hide Present;
  }

  /** No entry outside the windows changes, but for one. */
  ghost predicate SameWalks(s: Space, u: Space, level: nat, k: nat) {
    forall n, j :: 1 <= n <= 4 && 0 <= j < Size(n) && !InWindow(n, j) && !(n == level && j == k) ==>
      Walk(u, n, j) == Walk(s, n, j)
  }

  lemma SameWalksAt(s: Space, u: Space, level: nat, k: nat, n: nat, j: nat)
    requires SameWalks(s, u, level, k) && 1 <= n <= 4 && j < Size(n) && !InWindow(n, j) && n != level
    ensures Walk(u, n, j) == Walk(s, n, j)
  {
  }

  lemma SameWalksSameLeaves(s: Space, u: Space, level: nat, k: nat)
    requires SameWalks(s, u, level, k) && 2 <= level
    ensures SameLeaves(Flat(s), Flat(u), {})
  {
    hide Walk, Leaf, Flat;
    forall q | Ordinary(q) ensures Leaf(Flat(s), q) == Leaf(Flat(u), q) {
      FlatLeaf(s, q);
      FlatLeaf(u, q);
    }
  }

  lemma InstalledKeeps(s: Space, level: nat, k: nat, frame: Physical)
    requires CanInstall(s, level, k, frame)
    ensures var u := Installed(s, level, k, frame);
            && Tree(u) && SameWalks(s, u, level, k) && Present(Walk(u, level, k))
            && forall f :: Unused(s, f) && f != frame ==> Unused(u, f)
  {
    InstalledTree(s, level, k, frame);
    TableEntryPoints(frame);
    InstalledWalk(s, level, k, frame, level, k);
    hide Present, Walk, Installed, Unused, Tree, Entries;
    forall n, j | 1 <= n <= 4 && 0 <= j < Size(n) && !InWindow(n, j) && !(n == level && j == k)
      ensures Walk(Installed(s, level, k, frame), n, j) == Walk(s, n, j)
    {
      InstalledWalk(s, level, k, frame, n, j);
    }
  }

  /** The frames of a space that the allocator may hand out for up to three new tables. */
  ghost predicate AllUnused(s: Space, frame4: Physical, frame3: Physical, frame2: Physical) {
    && Unused(s, frame4) && Unused(s, frame3) && Unused(s, frame2)
    && frame4 != frame3 && frame4 != frame2 && frame3 != frame2
  }

  lemma EntryReachable(s: Space, level: nat, k: nat)
    requires Entries(s, level, k)
    ensures level < 4 ==> Present(Walk(s, level + 1, k / 512))
  {
  }

  lemma TopEntries(s: Space, k: nat)
    requires k < 512 && !InWindow(4, k)
    ensures Entries(s, 4, k)
  {
  }

  lemma NextEntries(s: Space, level: nat, k: nat)
    requires 1 <= level <= 3 && k < Size(level) && !InWindow(level, k) && Present(Walk(s, level + 1, k / 512))
    ensures Entries(s, level, k)
  {
    HolderInTree(level, k);
  }

  lemma OrdinaryIndices(page: nat)
    requires Ordinary(page)
    ensures !InWindow(2, Index2(page)) && !InWindow(3, Index3(page)) && !InWindow(4, Index4(page))
  {
    WindowAbove(1, page);
    WindowAbove(2, Index2(page));
    WindowAbove(3, Index3(page));
  }

  lemma MissingBelow(s: Space, page: nat)
    ensures Present(Walk(s, 2, Index2(page))) ==> Present(Walk(s, 3, Index3(page)))
    ensures Present(Walk(s, 3, Index3(page))) ==> Present(Walk(s, 4, Index4(page)))
  {
    ZeroNotPresent();
  }

  class AddressSpace {
    var space: Space
    var pageTablesActive: nat

    constructor (initial: Space)
      ensures space == initial && pageTablesActive == 0
    {
      space, pageTablesActive := initial, 0;
    }

    ghost function Shown(): (t: Tables)
      reads this
      ensures WellSized(t)
    {
      Flat(space)
    }

    // ----- Accesses to the windows, as the processor performs them.

    method Load(level: nat, index: nat) returns (e: Entry)
      requires Tree(space) && 1 <= level <= 4 && index < Size(level)
      requires level < 4 ==> Present(Walk(space, level + 1, index / 512))
      ensures e == Walk(space, level, index)
    {
      WindowPageMapped(space, level, index);
      LoadIsWalk(space, level, index);
      e := Read(space, Frame(Walk(space, 1, WindowPage(level, index))), index % 512);
    }

    method Store(level: nat, index: nat, e: Entry)
      requires Tree(space) && Entries(space, level, index)
      modifies this`space
      ensures space == SetEntry(old(space), level, index, e)
    {
      WindowPageMapped(space, level, index);
      assert Live(space, Holder(level, index));
      space := Stored(space, Frame(Walk(space, 1, WindowPage(level, index))), index % 512, e);
    }

    method ZeroTable(level: nat, index: nat)
      requires 1 <= level <= 4 && Reachable(space, level, index)
      modifies this`space
      ensures space == Cleared(old(space), Frame(Walk(old(space), 1, WindowPage(level, index))))
    {
      space := Cleared(space, Frame(Walk(space, 1, WindowPage(level, index))));
    }

    /**
      * One of the three tables of `MMArchMapPage`: if it is missing, its entry is pointed at a frame, and the frame is
      * zeroed through the window page that shows it.
      */
    method EnsureTable(level: nat, k: nat, index: nat, noNewTables: bool, frame: Physical) returns (ok: bool)
      requires Tree(space) && 2 <= level && Entries(space, level, k) && Unused(space, frame)
      requires index < Size(level - 1) && index / 512 == k
      modifies this
      ensures Tree(space) && SameWalks(old(space), space, level, k)
      ensures ok == Present(Walk(space, level, k)) == (Present(Walk(old(space), level, k)) || !noNewTables)
      ensures !ok || Present(Walk(old(space), level, k)) ==> space == old(space)
      ensures forall f :: Unused(old(space), f) && f != frame ==> Unused(space, f)
      ensures pageTablesActive == old(pageTablesActive) + if space == old(space) then 0 else 1
    {
      hide Present, Walk, Unused, Frame, WindowPage, InWindow, SetEntry, Live;
      EntryReachable(space, level, k);
      var e := Load(level, k);
      if !Present(e) {
        if noNewTables {
          return false;
        }
        WindowShowsNewTable(space, level, k, frame, index);
        InstalledKeeps(space, level, k, frame);
        Store(level, k, TableEntry(frame));
        ZeroTable(level - 1, index);
        pageTablesActive := pageTablesActive + 1;
      }
      return true;
    }

    /** `MMArchMapPage`, first part: the tables that are missing for a page are installed, from the top down. */
    method EnsureTables(page: nat, noNewTables: bool, frame4: Physical, frame3: Physical, frame2: Physical)
      returns (ok: bool)
      requires Tree(space) && Ordinary(page) && AllUnused(space, frame4, frame3, frame2)
      modifies this
      ensures Tree(space) && SameLeaves(old(Shown()), Shown(), {})
      ensures ok == HasTables(Shown(), page) == !(noNewTables && MissingTables(old(Shown()), page) > 0)
      ensures !ok ==> space == old(space)
      ensures pageTablesActive == old(pageTablesActive) + if ok then MissingTables(old(Shown()), page) else 0
    {
      hide Present, Walk, Unused, SameWalks, Tree, Leaf, Entries;
      IndicesInside(page);
      OrdinaryIndices(page);
      MissingBelow(space, page);
      TopEntries(space, Index4(page));
      ok := EnsureTable(4, Index4(page), Index3(page), noNewTables, frame4);
      SameWalksSameLeaves(old(space), space, 4, Index4(page));
      SameWalksAt(old(space), space, 4, Index4(page), 3, Index3(page));
      SameWalksAt(old(space), space, 4, Index4(page), 2, Index2(page));
      FlatAt(old(space), page);
      FlatAt(space, page);
      if !ok { return; }
      label four:
      NextEntries(space, 3, Index3(page));
      ok := EnsureTable(3, Index3(page), Index2(page), noNewTables, frame3);
      SameWalksSameLeaves(old@four(space), space, 3, Index3(page));
      SameWalksAt(old@four(space), space, 3, Index3(page), 2, Index2(page));
      FlatAt(space, page);
      if !ok { return; }
      label three:
      NextEntries(space, 2, Index2(page));
      ok := EnsureTable(2, Index2(page), page, noNewTables, frame2);
      SameWalksSameLeaves(old@three(space), space, 2, Index2(page));
      MissingBelow(space, page);
      FlatAt(space, page);
    }

    /**
      * `MMArchMapPage`. The checks on the page frame database, the current address space and the committed tables are
      * outside this model; `checksPass` is their verdict.
      */
    method MapPage(physical: bv64, address: nat, flags: MapFlags, checksPass: bool,
                   frame4: Physical, frame3: Physical, frame2: Physical) returns (r: MapResult)
      requires Tree(space) && AllUsed(Shown())
      requires Ordinary(PageOf(address)) && AllUnused(space, frame4, frame3, frame2)
      modifies this
      ensures Tree(space) && AllUsed(Shown())
      ensures r == MapOutcome(Leaf(old(Shown()), PageOf(address)), MissingTables(old(Shown()), PageOf(address)),
                              physical, address, flags, checksPass)
      ensures r != Mapped(true) ==> SameLeaves(old(Shown()), Shown(), {})
      ensures r == Mapped(true) ==>
        && SameLeaves(old(Shown()), Shown(), {PageOf(address)})
        && Leaf(Shown(), PageOf(address)) == Some(LeafValue(physical, flags))
        && forall w :: Translate(Shown(), PageOf(address), w) ==
                       if w && flags.readOnly then 0 else Frame(physical).address
    {
      hide Present, LeafValue, AccessedDirty, Writable, Frame, Aligned, MayRemap, Index4, Index3, Index2, PageOf,
        Walk, Tree, Entries, AllUnused, Flat, SetEntry, HasFrame, InWindow;
      if !Aligned(physical) || address % 4096 != 0 || !checksPass || physical == 0 || address == 0 {
        return Panic;
      }
      var page := PageOf(address);
      var ok := EnsureTables(page, flags.noNewTables, frame4, frame3, frame2);
      if !ok {
        return Panic;
      }
      PageEntries(space, page);
      EntryReachable(space, 1, page);
      FlatAt(space, page);
      var oldValue := Load(1, page);
      var value := LeafValue(physical, flags);
      LeafValueBits(physical, flags);
      if Present(oldValue) && !flags.overwrite {
        if flags.ignoreIfMapped {
          return Mapped(false);
        }
        if !MayRemap(oldValue, value, physical) {
          return Panic;
        }
      }
      WriteLeaf(page, value);
      TranslateByLeaf(Shown(), page, true);
      TranslateByLeaf(Shown(), page, false);
      return Mapped(true);
    }

    /** One leaf is written; no other page changes. */
    method WriteLeaf(page: nat, value: Entry)
      requires Tree(space) && AllUsed(Shown()) && Ordinary(page) && HasTables(Shown(), page)
      requires Present(value) && AccessedDirty(value)
      modifies this`space
      ensures Tree(space) && AllUsed(Shown()) && SameLeaves(old(Shown()), Shown(), {page})
      ensures Leaf(Shown(), page) == Some(value)
    {
      hide Present, AccessedDirty, Walk, Tree, Entries, Flat, SetEntry, HasTables, InWindow, HasFrame;
      PageEntries(space, page);
      SetLeaf(Shown(), page, value);
      FlatSet(space, page, value);
      Store(1, page, value);
    }

    /** `MMArchTranslateAddress`. */
    method TranslateAddress(address: nat, writeAccess: bool) returns (physical: bv64)
      requires Tree(space)
      ensures physical == Translate(Shown(), PageOf(address), writeAccess)
    {
      hide Present, Writable, Frame, PageOf, Walk, Tree, Flat;
      var page := PageOf(address);
      IndicesInside(page);
      FlatAt(space, page);
      var e := Load(4, Index4(page));
      if !Present(e) { return 0; }
      e := Load(3, Index3(page));
      if !Present(e) { return 0; }
      e := Load(2, Index2(page));
      if !Present(e) { return 0; }
      e := Load(1, page);
      if writeAccess && !Writable(e) { return 0; }
      return if Present(e) then Frame(e).address else 0;
    }

    /** `MMArchMakePageWritable`. */
    method MakePageWritable(address: nat) returns (ok: bool)
      requires Tree(space) && AllUsed(Shown()) && Ordinary(PageOf(address))
      modifies this
      ensures Tree(space) && AllUsed(Shown()) && pageTablesActive == old(pageTablesActive)
      ensures ok <==> Leaf(old(Shown()), PageOf(address)).Some?
      ensures !ok ==> space == old(space)
      ensures ok ==>
        && SameLeaves(old(Shown()), Shown(), {PageOf(address)})
        && Leaf(Shown(), PageOf(address)) == Some(MarkWritable(Leaf(old(Shown()), PageOf(address)).value))
        && forall w :: Translate(Shown(), PageOf(address), w) == Translate(old(Shown()), PageOf(address), false)
    {
      hide Present, AccessedDirty, Writable, Frame, MarkWritable, PageOf, Walk, Tree, Entries, Flat, SetEntry;
      var page := PageOf(address);
      IndicesInside(page);
      FlatAt(space, page);
      var e := Load(4, Index4(page));
      if !Present(e) { return false; }
      e := Load(3, Index3(page));
      if !Present(e) { return false; }
      e := Load(2, Index2(page));
      if !Present(e) { return false; }
      e := Load(1, page);
      if !Present(e) { return false; }
      var value := MarkWritable(e);
      MarkWritableBits(e);
      TranslateByLeaf(Shown(), page, false);
      WriteLeaf(page, value);
      TranslateByLeaf(Shown(), page, true);
      TranslateByLeaf(Shown(), page, false);
      return true;
    }

    /** One page of the loop below: clears its entry, unless it is not mapped or spared. */
    method UnmapOne(ghost before: Tables, ghost first: nat, page: nat, flags: UnmapFlags)
      returns (cleared: Option<Entry>)
      requires Tree(space) && AllUsed(before) && Shown() == before.(l1 := Shown().l1) && Ordinary(page) && first <= page
      requires HasTables(Shown(), page) && Visits(before, first, page)
      requires UnmappedUpTo(before, Shown(), first, page, flags)
      modifies this`space
      ensures Tree(space) && Shown() == before.(l1 := Shown().l1)
      ensures UnmappedUpTo(before, Shown(), first, page + 1, flags)
      ensures page + 1 < PAGES ==> Visits(before, first, page + 1)
      ensures HasTables(before, page) && Reached(before, first, page)
    {
      hide Present, AccessedDirty, Copied, HasTables, Visits, UnmappedUpTo, AllUsed, Walk, Tree, Entries, Flat,
        SetEntry;
      ZeroNotPresent();
      UsedIsSized(before);
      TablesSame(before, Shown(), page);
      AtPage(before, Shown(), first, page, flags);
      PageEntries(space, page);
      EntryReachable(space, 1, page);
      FlatAt(space, page);
      var translation := Load(1, page);
      if !Present(translation) || Spared(translation, flags) {
        return None;
      }
      if !AccessedDirty(translation) {
        assert false; // the kernel panic of the source
      }
      FlatSet(space, page, 0);
      Store(1, page, 0);
      TablesSame(before, Shown(), page);
      return Some(translation);
    }

    /**
      * `MMArchUnmapPages` on the pages `base + start` to `base + pageCount - 1`. `lastUser(page)` is the answer of the
      * file cache when it is told about the unmapping; `budget` is the number of such answers before the loop stops.
      * Returns the position at which it stopped, if it did.
      */
    method UnmapPages(base: nat, pageCount: nat, start: nat, flags: UnmapFlags, lastUser: nat -> bool, canResume: bool,
                      budget: nat) returns (stopped: Option<nat>)
      requires Tree(space) && AllUsed(Shown())
      requires forall page :: base + start <= page < base + pageCount ==> Ordinary(page)
      modifies this`space
      ensures Tree(space) && AllUsed(Shown()) && Shown() == old(Shown()).(l1 := Shown().l1)
      ensures stopped.Some? ==>
        && canResume && start <= stopped.value < pageCount && Ordinary(base + stopped.value)
        && HasTables(old(Shown()), base + stopped.value) && Reached(old(Shown()), base + start, base + stopped.value)
      ensures UnmappedUpTo(old(Shown()), Shown(), base + start,
                           base + (if stopped.Some? then stopped.value + 1 else pageCount), flags)
    {
      hide Present, AccessedDirty, Copied, HasTables, Visits, UnmappedUpTo, Index4, Index3, Index2, AllUsed, Walk, Tree,
        Flat;
      var i, left := start, budget;
      ghost var limit := base + pageCount;
      UnmapBegins(Shown(), base + start, limit, flags);
      while i < pageCount
        invariant start <= i
        invariant Tree(space) && Shown() == old(Shown()).(l1 := Shown().l1)
        invariant base + i < PAGES ==> Visits(old(Shown()), base + start, base + i)
        invariant UnmappedUpTo(old(Shown()), Shown(), base + start, Least(base + i, limit), flags)
        decreases pageCount - i
      {
        var page := base + i;
        assert Ordinary(page);
        var level := FirstMissing(page);
        if level == 4 {
          Skip4(old(Shown()), Shown(), base + start, page, limit, flags);
          i := i - page % 134217728 + 134217728;
        } else if level == 3 {
          Skip3(old(Shown()), Shown(), base + start, page, limit, flags);
          i := i - page % 262144 + 262144;
        } else if level == 2 {
          Skip2(old(Shown()), Shown(), base + start, page, limit, flags);
          i := i - page % 512 + 512;
        } else {
          var translation := UnmapOne(old(Shown()), base + start, page, flags);
          if translation.Some? {
            if !(flags.free || (flags.freeCopied && Copied(translation.value))) && flags.balanceFile && lastUser(page)
               && canResume {
              if left == 0 {
                UnmapEnds(old(Shown()), Shown(), base + start, page + 1, flags);
                return Some(i);
              }
              left := left - 1;
            }
          }
        }
        i := i + 1;
      }
      UnmapEnds(old(Shown()), Shown(), base + start, Least(base + i, limit), flags);
      return None;
    }

    /** The level at which the tables of a page break off, or 1. */
    method FirstMissing(page: nat) returns (level: nat)
      requires Tree(space) && page < PAGES
      ensures IndicesWithin(page) && 1 <= level <= 4
      ensures level == 4 <==> !Present(Shown().l4[Index4(page)])
      ensures level == 3 ==> !Present(Shown().l3[Index3(page)])
      ensures level == 2 ==> !Present(Shown().l2[Index2(page)])
      ensures level == 1 <==> HasTables(Shown(), page)
    {
      hide Present, Walk, Tree, Flat;
      IndicesInside(page);
      FlatAt(space, page);
      var e := Load(4, Index4(page));
      if !Present(e) { return 4; }
      e := Load(3, Index3(page));
      if !Present(e) { return 3; }
      e := Load(2, Index2(page));
      return if !Present(e) then 2 else 1;
    }
  }

  predicate IndicesWithin(page: nat) {
    Index4(page) < 512 && Index3(page) < 262144 && Index2(page) < 134217728
  }

  lemma FlatAt(s: Space, page: nat)
    requires page < PAGES
    ensures IndicesWithin(page)
    ensures var t := Flat(s);
            && t.l4[Index4(page)] == Walk(s, 4, Index4(page)) && t.l3[Index3(page)] == Walk(s, 3, Index3(page))
            && t.l2[Index2(page)] == Walk(s, 2, Index2(page)) && t.l1[page] == Walk(s, 1, page)
  {
    hide Walk;
  }

  lemma IndicesInside(page: nat)
    requires page < PAGES
    ensures Index4(page) < 512 && Index3(page) < 262144 && Index2(page) < 134217728
  {
  }

  lemma UsedIsSized(t: Tables)
    requires AllUsed(t)
    ensures WellSized(t)
  {
  }

  lemma TablesSame(t: Tables, u: Tables, page: nat)
    requires Page(t, page) && WellSized(u) && u == t.(l1 := u.l1)
    ensures HasTables(t, page) == HasTables(u, page)
  {
  }

  function Least(a: nat, b: nat): nat { if a < b then a else b }

  lemma UnmapBegins(t: Tables, first: nat, limit: nat, flags: UnmapFlags)
    requires WellSized(t)
    ensures UnmappedUpTo(t, t, first, Least(first, limit), flags) && (first < PAGES ==> Visits(t, first, first))
  {
  }

  /** Skipping over pages without tables, to one past the first page of the next table. */
  lemma Skip(t: Tables, u: Tables, first: nat, page: nat, next: nat, limit: nat, flags: UnmapFlags)
    requires WellSized(t) && WellSized(u) && UnmappedUpTo(t, u, first, page, flags) && first <= page < next
             && next % 512 == 0 && page < limit
    requires forall r :: page <= r < next && r < PAGES ==> !HasTables(t, r)
    ensures UnmappedUpTo(t, u, first, Least(next + 1, limit), flags)
            && (next + 1 < PAGES ==> Visits(t, first, next + 1))
  {
    hide Present;
    forall q | first <= q < PAGES && page <= q < next + 1 ensures !Clears(t, first, q, flags) { }
    if next + 1 < PAGES { assert Index2(next + 1) == Index2(next); }
  }

  // A page lies in the part that an entry covers exactly if the quotients agree.

  lemma IndexBetween2(page: nat, k: nat)
    requires 512 * k <= page < 512 * (k + 1)
    ensures Index2(page) == k
  {
  }

  lemma IndexBetween3(page: nat, k: nat)
    requires 262144 * k <= page < 262144 * (k + 1)
    ensures Index3(page) == k
  {
    assert 512 * k <= Index2(page) < 512 * (k + 1);
  }

  lemma IndexBetween4(page: nat, k: nat)
    requires 134217728 * k <= page < 134217728 * (k + 1)
    ensures Index4(page) == k
  {
    assert 262144 * k <= Index2(page) < 262144 * (k + 1);
    assert 512 * k <= Index3(page) < 512 * (k + 1);
  }

  lemma SameIndex2(page: nat, r: nat)
    requires page <= r < Past2(page)
    ensures Index2(r) == Index2(page)
  {
    hide Index2;
    var k := page / 512;
    IndexBetween2(page, k);
    IndexBetween2(r, k);
  }

  lemma SameIndex3(page: nat, r: nat)
    requires page <= r < Past3(page)
    ensures Index3(r) == Index3(page)
  {
    hide Index3;
    var k := page / 262144;
    IndexBetween3(page, k);
    IndexBetween3(r, k);
  }

  lemma SameIndex4(page: nat, r: nat)
    requires page <= r < Past4(page)
    ensures Index4(r) == Index4(page)
  {
    hide Index4;
    var k := page / 134217728;
    IndexBetween4(page, k);
    IndexBetween4(r, k);
  }

  /** The first page behind the part that a level-4 entry covers. */
  function Past4(page: nat): (next: nat)
    ensures page < next && next % 512 == 0
  {
    page - page % 134217728 + 134217728
  }

  lemma NoTables4(t: Tables, page: nat, r: nat)
    requires WellSized(t) && page < PAGES && r < PAGES && !Present(t.l4[Index4(page)]) && page <= r < Past4(page)
    ensures !HasTables(t, r)
  {
    hide Present, Index4, Past4;
    SameIndex4(page, r);
  }

  lemma Skip4(t: Tables, u: Tables, first: nat, page: nat, limit: nat, flags: UnmapFlags)
    requires WellSized(t) && WellSized(u) && page < PAGES && first <= page < limit && !Present(t.l4[Index4(page)])
             && UnmappedUpTo(t, u, first, page, flags)
    ensures var next := Past4(page);
            UnmappedUpTo(t, u, first, Least(next + 1, limit), flags)
              && (next + 1 < PAGES ==> Visits(t, first, next + 1))
  {
    hide Present, UnmappedUpTo, Visits, HasTables, Past4, Index4;
    var next := Past4(page);
    forall r | page <= r < next && r < PAGES ensures !HasTables(t, r) { NoTables4(t, page, r); }
    Skip(t, u, first, page, next, limit, flags);
  }

  /** The first page behind the part that a level-3 entry covers. */
  function Past3(page: nat): (next: nat)
    ensures page < next && next % 512 == 0
  {
    page - page % 262144 + 262144
  }

  lemma NoTables3(t: Tables, page: nat, r: nat)
    requires WellSized(t) && page < PAGES && r < PAGES && !Present(t.l3[Index3(page)]) && page <= r < Past3(page)
    ensures !HasTables(t, r)
  {
    hide Present, Index3, Past3;
    SameIndex3(page, r);
  }

  lemma Skip3(t: Tables, u: Tables, first: nat, page: nat, limit: nat, flags: UnmapFlags)
    requires WellSized(t) && WellSized(u) && page < PAGES && first <= page < limit && !Present(t.l3[Index3(page)])
             && UnmappedUpTo(t, u, first, page, flags)
    ensures var next := Past3(page);
            UnmappedUpTo(t, u, first, Least(next + 1, limit), flags)
              && (next + 1 < PAGES ==> Visits(t, first, next + 1))
  {
    hide Present, UnmappedUpTo, Visits, HasTables, Past3, Index3;
    var next := Past3(page);
    forall r | page <= r < next && r < PAGES ensures !HasTables(t, r) { NoTables3(t, page, r); }
    Skip(t, u, first, page, next, limit, flags);
  }

  /** The first page behind the part that a level-2 entry covers. */
  function Past2(page: nat): (next: nat)
    ensures page < next && next % 512 == 0
  {
    page - page % 512 + 512
  }

  lemma NoTables2(t: Tables, page: nat, r: nat)
    requires WellSized(t) && page < PAGES && r < PAGES && !Present(t.l2[Index2(page)]) && page <= r < Past2(page)
    ensures !HasTables(t, r)
  {
    hide Present, Index2, Past2;
    SameIndex2(page, r);
  }

  lemma Skip2(t: Tables, u: Tables, first: nat, page: nat, limit: nat, flags: UnmapFlags)
    requires WellSized(t) && WellSized(u) && page < PAGES && first <= page < limit && !Present(t.l2[Index2(page)])
             && UnmappedUpTo(t, u, first, page, flags)
    ensures var next := Past2(page);
            UnmappedUpTo(t, u, first, Least(next + 1, limit), flags)
              && (next + 1 < PAGES ==> Visits(t, first, next + 1))
  {
    hide Present, UnmappedUpTo, Visits, HasTables, Past2, Index2;
    var next := Past2(page);
    forall r | page <= r < next && r < PAGES ensures !HasTables(t, r) { NoTables2(t, page, r); }
    Skip(t, u, first, page, next, limit, flags);
  }

  /** At a page with tables: the entry is still the original one, and one step brings the loop to the next page. */
  lemma AtPage(t: Tables, u: Tables, first: nat, page: nat, flags: UnmapFlags)
    requires AllUsed(t) && WellSized(u) && u == t.(l1 := u.l1) && Ordinary(page) && first <= page
    requires HasTables(t, page) && Visits(t, first, page) && UnmappedUpTo(t, u, first, page, flags)
    ensures u.l1[page] == t.l1[page] && (Present(u.l1[page]) ==> AccessedDirty(u.l1[page])) && Reached(t, first, page)
    ensures UnmappedUpTo(t, if Present(u.l1[page]) && !Spared(u.l1[page], flags) then u.(l1 := u.l1[page := 0])
            else u, first, page + 1, flags)
    ensures page + 1 < PAGES ==> Visits(t, first, page + 1)
  {
    hide Present, AccessedDirty, Spared;
    assert Leaf(t, page) == if Present(t.l1[page]) then Some(t.l1[page]) else None;
  }

  lemma UnmapEnds(t: Tables, u: Tables, first: nat, end: nat, flags: UnmapFlags)
    requires AllUsed(t) && WellSized(u) && u == t.(l1 := u.l1) && UnmappedUpTo(t, u, first, end, flags)
    ensures AllUsed(u)
  {
    ZeroNotPresent();
    hide Present, AccessedDirty, Spared;
    forall q | Ordinary(q) && Leaf(u, q).Some? ensures AccessedDirty(Leaf(u, q).value) {
      assert Leaf(t, q) == Leaf(u, q);
    }
  }

  datatype UnmapFlags = UnmapFlags(free: bool, freeCopied: bool, balanceFile: bool)

  function MarkWritable(e: Entry): Entry { e | 2 }

  lemma MarkWritableBits(e: Entry)
    ensures var w := MarkWritable(e);
            Writable(w) && Present(w) == Present(e) && AccessedDirty(w) == AccessedDirty(e) && Frame(w) == Frame(e)
  {
  }

  /** Copied pages are left alone when file mappings are balanced. */
  predicate Spared(e: Entry, flags: UnmapFlags) { Copied(e) && flags.balanceFile && !flags.freeCopied }

  /** Whether the loop looks at a page: the page before it, if in the range, must have its tables. */
  predicate Reached(t: Tables, first: nat, page: nat)
    requires Page(t, page) && first <= page
  {
    page == first || HasTables(t, page - 1)
  }

  /** Exactly the pages of the range whose entry is cleared. */
  predicate Clears(t: Tables, first: nat, page: nat, flags: UnmapFlags)
    requires Page(t, page) && first <= page
  {
    Reached(t, first, page) && Leaf(t, page).Some? && !Spared(t.l1[page], flags)
  }

  /** The loop stands at a page it reaches, or at one without tables. */
  predicate Visits(t: Tables, first: nat, page: nat)
    requires Page(t, page) && first <= page
  {
    Reached(t, first, page) || !HasTables(t, page)
  }

  ghost predicate UnmappedUpTo(t: Tables, u: Tables, first: nat, end: nat, flags: UnmapFlags)
    requires WellSized(t) && WellSized(u)
  {
    forall q :: 0 <= q < PAGES ==> u.l1[q] == if first <= q < end && Clears(t, first, q, flags) then 0 else t.l1[q]
  }

  /** When mapping succeeds, is skipped, or panics. */
  function MapOutcome(leaf: Option<Entry>, missing: nat, physical: bv64, address: nat, flags: MapFlags,
                      checksPass: bool): MapResult {
    if !Aligned(physical) || address % 4096 != 0 || !checksPass || physical == 0 || address == 0 then Panic
    else if flags.noNewTables && missing > 0 then Panic
    else match leaf
      case None => Mapped(true)
      case Some(e) =>
        if flags.overwrite then Mapped(true)
        else if flags.ignoreIfMapped then Mapped(false)
        else if MayRemap(e, LeafValue(physical, flags), physical) then Mapped(true)
        else Panic
  }

  /** A missing table means that every table below it is missing too, whatever its memory held. */
  function MissingTables(t: Tables, page: nat): nat
    requires Page(t, page)
  {
    if !Present(t.l4[Index4(page)]) then 3
    else if !Present(t.l3[Index3(page)]) then 2
    else if !Present(t.l2[Index2(page)]) then 1
    else 0
  }

  // ----- What unmapping amounts to.

  /** No mapping outside the range changes; inside it, exactly the mappings that `Clears` names disappear. */
  lemma UnmapLeaves(t: Tables, u: Tables, first: nat, end: nat, flags: UnmapFlags, q: nat)
    requires WellSized(t) && WellSized(u) && u == t.(l1 := u.l1) && UnmappedUpTo(t, u, first, end, flags) && q < PAGES
    ensures Leaf(u, q) == if first <= q < end && Clears(t, first, q, flags) then None else Leaf(t, q)
  {
    ZeroNotPresent();
    hide Present, Copied;
  }

  /** A mapped page that follows a page without tables: the skip over the missing table passes over it. */
  ghost predicate Overlooked(t: Tables, first: nat, q: nat, flags: UnmapFlags)
    requires Page(t, q)
  {
    first < q && !HasTables(t, q - 1) && Leaf(t, q).Some? && !Spared(t.l1[q], flags)
  }

  /** Unmapping clears every page of the range that it should if and only if the range holds no such page. */
  lemma UnmapCompleteIff(t: Tables, u: Tables, first: nat, end: nat, flags: UnmapFlags)
    requires WellSized(t) && WellSized(u) && u == t.(l1 := u.l1) && UnmappedUpTo(t, u, first, end, flags)
             && end <= PAGES
    ensures (forall q :: first <= q < end && Leaf(t, q).Some? && !Spared(t.l1[q], flags) ==> Leaf(u, q) == None)
            <==> !exists q :: first <= q < end && Overlooked(t, first, q, flags)
  {
    forall q | first <= q < end
      ensures (Leaf(t, q).Some? && !Spared(t.l1[q], flags) ==> Leaf(u, q) == None) <==> !Overlooked(t, first, q, flags)
    {
      UnmapLeaves(t, u, first, end, flags, q);
    }
    hide Leaf, Spared, Overlooked;
  }

  /** A frame of one entry. */
  function Single(slot: nat, e: Entry): seq<Entry> { seq(512, i => if i == slot then e else 0) }

  /** Page 512 is mapped; page 511 has no table. */
  function HalfMapped(): Space {
    var root := Physical(0x1000);
    Space(map[root := Single(510, 0x1003)[0 := 0x2007], Physical(0x2000) := Single(0, 0x3007),
              Physical(0x3000) := Single(1, 0x4007), Physical(0x4000) := Single(0, 0x9163)], root)
  }

  lemma HalfMappedWalk4(k: nat)
    ensures Walk(HalfMapped(), 4, k) == if k == 510 then 0x1003 else if k == 0 then 0x2007 else 0
  {
  }

  lemma HalfMappedReads(slot: nat)
    ensures Read(HalfMapped(), Physical(0x2000), slot) == if slot == 0 then 0x3007 else 0
    ensures Read(HalfMapped(), Physical(0x3000), slot) == if slot == 1 then 0x4007 else 0
    ensures Read(HalfMapped(), Physical(0x4000), slot) == if slot == 0 then 0x9163 else 0
  {
  }

  lemma HalfMappedWalk3(k: nat)
    requires k < 262144 && !InWindow(3, k)
    ensures Walk(HalfMapped(), 3, k) == if k == 0 then 0x3007 else 0
  {
    hide HalfMapped, Present, Frame, Read;
    HalfMappedBits();
    HalfMappedWalk4(k / 512);
    HalfMappedReads(k % 512);
  }

  lemma HalfMappedWalk2(k: nat)
    requires k < 134217728 && !InWindow(2, k)
    ensures Walk(HalfMapped(), 2, k) == if k == 1 then 0x4007 else 0
  {
    WindowAbove(2, k);
    HalfMappedWalk3(k / 512);
    hide HalfMapped, Present, Frame, Read, InWindow;
    HalfMappedBits();
    HalfMappedReads(k % 512);
  }

  lemma HalfMappedWalk1(k: nat)
    requires k < PAGES && !InWindow(1, k)
    ensures Walk(HalfMapped(), 1, k) == if k == 512 then 0x9163 else 0
  {
    WindowAbove(1, k);
    HalfMappedWalk2(k / 512);
    hide HalfMapped, Present, Frame, Read, InWindow;
    HalfMappedBits();
    HalfMappedReads(k % 512);
  }

  lemma HalfMappedWalks(k: nat)
    ensures var s := HalfMapped();
            && Walk(s, 4, k) == (if k == 510 then 0x1003 else if k == 0 then 0x2007 else 0)
            && (k < 262144 && !InWindow(3, k) ==> Walk(s, 3, k) == if k == 0 then 0x3007 else 0)
            && (k < 134217728 && !InWindow(2, k) ==> Walk(s, 2, k) == if k == 1 then 0x4007 else 0)
            && (k < PAGES && !InWindow(1, k) ==> Walk(s, 1, k) == if k == 512 then 0x9163 else 0)
  {
    hide Walk, HalfMapped, InWindow;
    HalfMappedWalk4(k);
    if k < 262144 && !InWindow(3, k) { HalfMappedWalk3(k); }
    if k < 134217728 && !InWindow(2, k) { HalfMappedWalk2(k); }
    if k < PAGES && !InWindow(1, k) { HalfMappedWalk1(k); }
  }

  lemma HalfMappedBits()
    ensures Present(0x1003) && Present(0x2007) && Present(0x3007) && Present(0x4007) && !Present(0)
    ensures Frame(0x1003) == Physical(0x1000) && Frame(0x2007) == Physical(0x2000)
    ensures Frame(0x3007) == Physical(0x3000) && Frame(0x4007) == Physical(0x4000)
  {
  }

  lemma HalfMappedLive(h: Table)
    ensures Live(HalfMapped(), h) <==> h == Root || h == Node(3, 0) || h == Node(2, 0) || h == Node(1, 1)
  {
    hide Walk, HalfMapped, Present;
    HalfMappedBits();
    if h.Node? { HalfMappedWalks(h.k); }
  }

  lemma HalfMappedTree()
    ensures Tree(HalfMapped())
  {
    hide Walk, Frame, Present;
    var s := HalfMapped();
    HalfMappedBits();
    HalfMappedWalks(510);
    HalfMappedWalks(0);
    HalfMappedWalks(1);
    forall h | Live(s, h) ensures HasFrame(s, FrameOf(s, h)) { HalfMappedLive(h); }
    forall h, g | Live(s, h) && Live(s, g) && FrameOf(s, h) == FrameOf(s, g) ensures h == g {
      HalfMappedLive(h);
      HalfMappedLive(g);
    }
  }

  /** In that space, page 512 is the only mapped one outside the windows, and the one before it has no table. */
  lemma HalfMappedLeaves()
    ensures var t := Flat(HalfMapped());
            && AllUsed(t) && Leaf(t, 512) == Some(0x9163) && !HasTables(t, 511)
  {
    var s := HalfMapped();
    assert Present(0x9163) && AccessedDirty(0x9163) && !Present(0);
    hide Walk, HalfMapped, Flat, Present, AccessedDirty, Leaf;
    HalfMappedWalks(0);
    FlatAt(s, 511);
    forall q | Ordinary(q) ensures Leaf(Flat(s), q) == if q == 512 then Some(0x9163) else None {
      HalfMappedWalks(q);
      FlatLeaf(s, q);
    }
  }

  /** The overlooked case is real: unmapping pages 511 and 512 of that space leaves page 512 mapped. */
  method OverlookedExample() returns (left: bv64)
    ensures left == 0x9000
  {
    hide Walk, HalfMapped, Tree, AllUsed, HasTables, Flat, Leaf, Present, UnmappedUpTo;
    HalfMappedTree();
    HalfMappedLeaves();
    var a := new AddressSpace(HalfMapped());
    ghost var t := a.Shown();
    var flags := UnmapFlags(true, false, false);
    var _ := a.UnmapPages(511, 2, 0, flags, _ => false, false, 0);
    UnmapLeaves(t, a.Shown(), 511, 513, flags, 512);
    left := a.TranslateAddress(512 * 4096, false);
    TranslateByLeaf(a.Shown(), 512, false);
    assert Frame(0x9163).address == 0x9000;
  }

  /** Stopping and resuming at the reported position has the effect of one uninterrupted run. */
  lemma ResumeCompletes(t: Tables, u: Tables, v: Tables, first: nat, stop: nat, end: nat, flags: UnmapFlags)
    requires WellSized(t) && WellSized(u) && WellSized(v) && u == t.(l1 := u.l1) && v == u.(l1 := v.l1)
    requires first <= stop < end <= PAGES && HasTables(t, stop) && Reached(t, first, stop)
    requires UnmappedUpTo(t, u, first, stop + 1, flags) && UnmappedUpTo(u, v, stop, end, flags)
    ensures UnmappedUpTo(t, v, first, end, flags)
  {
    ZeroNotPresent();
    hide Present, Spared;
    forall q | 0 <= q < PAGES ensures v.l1[q] == if first <= q < end && Clears(t, first, q, flags) then 0 else t.l1[q] {
      UnmapLeaves(t, u, first, stop + 1, flags, q);
      if stop <= q { SameReach(t, u, first, stop, q); }
    }
  }

  lemma SameReach(t: Tables, u: Tables, first: nat, stop: nat, q: nat)
    requires WellSized(t) && WellSized(u) && u == t.(l1 := u.l1) && first <= stop <= q < PAGES
             && Reached(t, first, stop)
    ensures Reached(u, stop, q) == Reached(t, first, q)
  {
    if q > 0 { TablesSame(t, u, q - 1); }
  }
}
