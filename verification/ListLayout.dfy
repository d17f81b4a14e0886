/** Positions in a list of groups, computed from scratch: the reference for what the list view keeps incrementally. */
module ListLayout {

  /** Sizes and gaps of a fixed-size list that is not tiled. */
  datatype Metrics = Metrics(gapMinor: int, gapMajor: int, fixedSize: int, headerSize: int, footerSize: int)

  datatype Group = Group(itemCount: nat, totalSize: int, hasHeader: bool, hasFooter: bool, initialised: bool)

  function Extras(g: Group): nat { (if g.hasHeader then 1 else 0) + if g.hasFooter then 1 else 0 }

  /** A group is empty until it is initialised; from then on it holds its header and its footer. */
  predicate WellFormed(g: Group) { g.itemCount >= Extras(g) || (!g.initialised && g.itemCount == 0) }

  function ItemSize(m: Metrics, g: Group, index: int): int {
    if g.hasHeader && index == 0 then m.headerSize
    else if g.hasFooter && index == g.itemCount - 1 then m.footerSize
    else m.fixedSize
  }

  /** The sum of the sizes of `count` items from `first` on. */
  function SizeOf(m: Metrics, g: Group, first: int, count: nat): int {
    if count == 0 then 0 else SizeOf(m, g, first, count - 1) + ItemSize(m, g, first + count - 1)
  }

  /** Where an item starts within its group. */
  function Offset(m: Metrics, g: Group, index: nat): int {
    if index == 0 then 0 else Offset(m, g, index - 1) + ItemSize(m, g, index - 1) + m.gapMinor
  }

  function GroupTotal(m: Metrics, g: Group): int {
    if g.itemCount == 0 then 0 else Offset(m, g, g.itemCount) - m.gapMinor
  }

  /** Where a group starts, relative to the first one. */
  function GroupStart(m: Metrics, groups: seq<Group>, k: nat): int
    requires k <= |groups|
  {
    if k == 0 then 0 else GroupStart(m, groups, k - 1) + GroupTotal(m, groups[k - 1]) + m.gapMajor
  }

  function GrandTotal(m: Metrics, groups: seq<Group>): int {
    if groups == [] then 0 else GroupStart(m, groups, |groups|) - m.gapMajor
  }

  function ItemTotal(groups: seq<Group>): nat {
    if groups == [] then 0 else ItemTotal(groups[..|groups| - 1]) + groups[|groups| - 1].itemCount
  }

  function Position(m: Metrics, groups: seq<Group>, origin: int, group: nat, index: nat): int
    requires group < |groups|
  {
    origin + GroupStart(m, groups, group) + Offset(m, groups[group], index)
  }

  // ----- Measuring a range.

  /** `MeasureItems`, fixed-size branch. */
  function MeasureItems(m: Metrics, g: Group, first: int, count: int): int {
    if count == 0 then 0 else
    var header := if g.hasHeader && first == 0 then 1 else 0;
    var footer := if g.hasFooter && first + count == g.itemCount then 1 else 0;
    header * m.headerSize + footer * m.footerSize + (count - header - footer) * m.fixedSize
  }

  lemma {:induction false} SizeOfNormal(m: Metrics, g: Group, first: int, count: nat)
    requires forall k :: first <= k < first + count ==> ItemSize(m, g, k) == m.fixedSize
    ensures SizeOf(m, g, first, count) == count * m.fixedSize
  {
    if count > 0 { SizeOfNormal(m, g, first, count - 1); }
  }

  lemma {:induction false} SizeOfFront(m: Metrics, g: Group, first: int, count: nat)
    requires count > 0
    ensures SizeOf(m, g, first, count) == ItemSize(m, g, first) + SizeOf(m, g, first + 1, count - 1)
  {
    if count > 1 { SizeOfFront(m, g, first, count - 1); }
  }

  /** The closed form is the sum of the sizes of the items, unless one item is both header and footer. */
  lemma MeasureIsSize(m: Metrics, g: Group, first: nat, count: nat)
    requires first + count <= g.itemCount && (g.hasHeader && g.hasFooter ==> g.itemCount >= 2)
    ensures MeasureItems(m, g, first, count) == SizeOf(m, g, first, count)
  {
    if count > 0 {
      var header := g.hasHeader && first == 0;
      var footer := g.hasFooter && first + count == g.itemCount;
      var first', count' := if header then first + 1 else first, if header then count - 1 else count;
      if header { SizeOfFront(m, g, first, count); }
      SizeOfNormal(m, g, first', if footer then count' - 1 else count');
    }
  }

  // ----- What adding or removing items, or adding a group, does to the positions.

  /** `b` is `a` with `count` items more, starting at `first`; header and footer stay first and last. */
  predicate Spliced(a: Group, b: Group, first: nat, count: nat) {
    && a.hasHeader == b.hasHeader && a.hasFooter == b.hasFooter && b.itemCount == a.itemCount + count
      && first <= a.itemCount
    && (a.hasHeader && a.itemCount > 0 ==> first > 0) && (a.hasFooter && a.itemCount > 0 ==> first < a.itemCount)
  }

  lemma {:induction false} OffsetBefore(m: Metrics, a: Group, b: Group, first: nat, count: nat, i: nat)
    requires Spliced(a, b, first, count) && i <= first
    ensures Offset(m, b, i) == Offset(m, a, i)
  {
    if i > 0 { OffsetBefore(m, a, b, first, count, i - 1); }
  }

  lemma {:induction false} OffsetAcross(m: Metrics, g: Group, first: nat, count: nat)
    ensures Offset(m, g, first + count) == Offset(m, g, first) + SizeOf(m, g, first, count) + count * m.gapMinor
  {
    if count > 0 { OffsetAcross(m, g, first, count - 1); }
  }

  /** The space that the items in between take up, with one gap for each. */
  function Space(m: Metrics, g: Group, first: nat, count: nat): int { SizeOf(m, g, first, count) + count * m.gapMinor }

  lemma {:induction false} OffsetAfter(m: Metrics, a: Group, b: Group, first: nat, count: nat, i: nat)
    requires Spliced(a, b, first, count) && first <= i <= a.itemCount
    ensures Offset(m, b, i + count) == Offset(m, a, i) + Space(m, b, first, count)
  {
    if i == first {
      OffsetBefore(m, a, b, first, count, i);
      OffsetAcross(m, b, first, count);
    } else {
      OffsetAfter(m, a, b, first, count, i - 1);
    }
  }

  lemma TotalAfter(m: Metrics, a: Group, b: Group, first: nat, count: nat)
    requires Spliced(a, b, first, count) && count > 0
    ensures GroupTotal(m, b) == GroupTotal(m, a) + Space(m, b, first, count)
            - if a.itemCount == 0 then m.gapMinor else 0
  {
    OffsetAfter(m, a, b, first, count, a.itemCount);
  }

  lemma {:induction false} StartChanged(m: Metrics, groups: seq<Group>, g: nat, b: Group, k: nat)
    requires g < |groups| && k <= |groups|
    ensures GroupStart(m, groups[g := b], k) ==
            GroupStart(m, groups, k) + if k > g then GroupTotal(m, b) - GroupTotal(m, groups[g]) else 0
  {
    if k > 0 { StartChanged(m, groups, g, b, k - 1); }
  }

  lemma {:induction false} StartInserted(m: Metrics, groups: seq<Group>, g: nat, b: Group, k: nat)
    requires g <= |groups| && k <= |groups|
    ensures var groups' := groups[..g] + [b] + groups[g..];
            && (k <= g ==> GroupStart(m, groups', k) == GroupStart(m, groups, k))
            && (g <= k ==> GroupStart(m, groups', k + 1) == GroupStart(m, groups, k) + GroupTotal(m, b) + m.gapMajor)
  {
    var groups' := groups[..g] + [b] + groups[g..];
    if k > 0 {
      StartInserted(m, groups, g, b, k - 1);
      if k <= g { assert groups'[k - 1] == groups[k - 1]; } else { assert groups'[k] == groups[k - 1]; }
    }
    if g == k { assert groups'[g] == b; }
  }

  lemma {:induction false} ItemTotalSplit(groups: seq<Group>, more: seq<Group>)
    ensures ItemTotal(groups + more) == ItemTotal(groups) + ItemTotal(more)
  {
    if more == [] {
      assert groups + more == groups;
    } else {
      ItemTotalSplit(groups, more[..|more| - 1]);
      assert (groups + more)[..|groups + more| - 1] == groups + more[..|more| - 1];
    }
  }

  lemma ItemTotalChanged(groups: seq<Group>, g: nat, b: Group)
    requires g < |groups|
    ensures ItemTotal(groups[g := b]) == ItemTotal(groups) - groups[g].itemCount + b.itemCount
  {
    ItemTotalAt(groups, g, groups[g]);
    ItemTotalAt(groups, g, b);
    assert groups == groups[..g] + [groups[g]] + groups[g + 1..];
    assert groups[g := b] == groups[..g] + [b] + groups[g + 1..];
  }

  lemma ItemTotalAt(groups: seq<Group>, g: nat, b: Group)
    requires g < |groups|
    ensures ItemTotal(groups[..g] + [b] + groups[g + 1..]) ==
            ItemTotal(groups[..g]) + b.itemCount + ItemTotal(groups[g + 1..])
  {
    ItemTotalSplit(groups[..g] + [b], groups[g + 1..]);
    ItemTotalSplit(groups[..g], [b]);
    assert [b][..0] == [];
  }

  // ----- The space that the list view computes for a range of items is the change in the size of the group.

  function SpaceAdded(m: Metrics, a: Group, b: Group, first: nat, count: nat): int {
    (count - if a.itemCount == 0 then 1 else 0) * m.gapMinor + MeasureItems(m, b, first, count)
  }

  lemma SpaceAddedRight(m: Metrics, a: Group, b: Group, first: nat, count: nat)
    requires Spliced(a, b, first, count) && count > 0 && b.itemCount >= Extras(b)
    ensures SpaceAdded(m, a, b, first, count) == GroupTotal(m, b) - GroupTotal(m, a)
  {
    TotalAfter(m, a, b, first, count);
    MeasureIsSize(m, b, first, count);
    assert (count - 1) * m.gapMinor == count * m.gapMinor - m.gapMinor;
  }

  function SpaceRemoved(m: Metrics, a: Group, first: nat, count: nat): int {
    if a.itemCount == count then a.totalSize else count * m.gapMinor + MeasureItems(m, a, first, count)
  }

  lemma SpaceRemovedRight(m: Metrics, a: Group, b: Group, first: nat, count: nat)
    requires Spliced(b, a, first, count) && count > 0 && a.itemCount >= Extras(a) && a.totalSize == GroupTotal(m, a)
    ensures SpaceRemoved(m, a, first, count) == GroupTotal(m, a) - GroupTotal(m, b)
  {
    TotalAfter(m, b, a, first, count);
    MeasureIsSize(m, a, first, count);
  }
}
