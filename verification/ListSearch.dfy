/** Finding the first item in the viewport, and the position of one item, without walking the list. */
module ListSearch {
  import opened ListLayout

  datatype Place = Place(group: nat, index: nat)

  predicate Precedes(p: Place, q: Place) { p.group < q.group || (p.group == q.group && p.index < q.index) }

  predicate Exists(groups: seq<Group>, p: Place) { p.group < |groups| && p.index < groups[p.group].itemCount }

  /** Sizes and gaps are not negative, and a row of items takes up some space. */
  predicate Sane(m: Metrics) {
    m.gapMinor >= 0 && m.gapMajor >= 0 && m.fixedSize >= 0 && m.headerSize >= 0 && m.footerSize >= 0
      && m.fixedSize + m.gapMinor > 0
  }

  predicate TotalsRight(m: Metrics, groups: seq<Group>) {
    forall g :: 0 <= g < |groups| ==> WellFormed(groups[g]) && groups[g].totalSize == GroupTotal(m, groups[g])
  }

  /** An item is in the viewport or below it; an item before others still counts while the gap after it is in view. */
  predicate ShownAt(m: Metrics, g: Group, top: int, index: nat)
    requires index < g.itemCount
  {
    top + Offset(m, g, index) + ItemSize(m, g, index) +
    (if index == g.itemCount - 1 || (g.hasHeader && index == 0) then 0 else m.gapMinor) > 0
  }

  predicate Shown(m: Metrics, groups: seq<Group>, base: int, p: Place)
    requires Exists(groups, p)
  {
    ShownAt(m, groups[p.group], base + GroupStart(m, groups, p.group), p.index)
  }

  function GroupEnd(m: Metrics, groups: seq<Group>, base: int, k: nat): int
    requires k < |groups|
  {
    base + GroupStart(m, groups, k) + GroupTotal(m, groups[k])
  }

  // ----- Positions grow along the list.

  lemma {:induction false} OffsetGrows(m: Metrics, g: Group, i: nat, j: nat)
    requires Sane(m) && i < j
    ensures Offset(m, g, i) + ItemSize(m, g, i) + m.gapMinor <= Offset(m, g, j)
  {
    if i + 1 < j { OffsetGrows(m, g, i, j - 1); }
  }

  lemma {:induction false} StartGrows(m: Metrics, groups: seq<Group>, k: nat, l: nat)
    requires Sane(m) && k < l <= |groups|
    ensures GroupStart(m, groups, k) + GroupTotal(m, groups[k]) + m.gapMajor <= GroupStart(m, groups, l)
  {
    if k + 1 < l {
      StartGrows(m, groups, k, l - 1);
      TotalNotNegative(m, groups[l - 1]);
    }
  }

  lemma TotalNotNegative(m: Metrics, g: Group)
    requires Sane(m)
    ensures GroupTotal(m, g) >= 0
  {
    if g.itemCount > 0 { InsideGroup(m, g, 0); }
  }

  /** An item ends within its group, with its gap unless it is the last. */
  lemma InsideGroup(m: Metrics, g: Group, i: nat)
    requires Sane(m) && i < g.itemCount
    ensures 0 <= Offset(m, g, i)
    ensures Offset(m, g, i) + ItemSize(m, g, i) + (if i == g.itemCount - 1 then 0 else m.gapMinor) <= GroupTotal(m, g)
  {
    if i > 0 { OffsetGrows(m, g, 0, i); }
    if i < g.itemCount - 1 { OffsetGrows(m, g, i, g.itemCount - 1); }
  }

  lemma TopGrows(m: Metrics, groups: seq<Group>, base: int, p: Place, q: Place)
    requires Sane(m) && Exists(groups, p) && Exists(groups, q) && Precedes(p, q)
    ensures Position(m, groups, base, p.group, p.index) + ItemSize(m, groups[p.group], p.index)
            <= Position(m, groups, base, q.group, q.index)
  {
    if p.group == q.group {
      OffsetGrows(m, groups[p.group], p.index, q.index);
    } else {
      InsideGroup(m, groups[p.group], p.index);
      InsideGroup(m, groups[q.group], q.index);
      StartGrows(m, groups, p.group, q.group);
    }
  }

  /** Once an item is shown, so are all after it. */
  lemma ShownGrows(m: Metrics, groups: seq<Group>, base: int, p: Place, q: Place)
    requires Sane(m) && Exists(groups, p) && Exists(groups, q) && Precedes(p, q) && Shown(m, groups, base, p)
    ensures Shown(m, groups, base, q)
  {
    if p.group == q.group {
      OffsetGrows(m, groups[p.group], p.index, q.index);
    } else {
      InsideGroup(m, groups[p.group], p.index);
      InsideGroup(m, groups[q.group], q.index);
      StartGrows(m, groups, p.group, q.group);
    }
  }

  /** An item of a group that ends above the viewport is not shown. */
  lemma HiddenAbove(m: Metrics, groups: seq<Group>, base: int, p: Place)
    requires Sane(m) && Exists(groups, p) && GroupEnd(m, groups, base, p.group) <= 0
    ensures !Shown(m, groups, base, p)
  {
    InsideGroup(m, groups[p.group], p.index);
  }

  // ----- Within a group the position is linear.

  function HeaderCount(g: Group): nat { if g.hasHeader then 1 else 0 }

  function HeaderSpace(m: Metrics, g: Group): int { if g.hasHeader then m.headerSize + m.gapMinor else 0 }

  function Stride(m: Metrics): int { m.fixedSize + m.gapMinor }

  lemma {:induction false} OffsetLinear(m: Metrics, g: Group, i: nat)
    requires HeaderCount(g) <= i <= g.itemCount - if g.hasFooter then 1 else 0
    ensures Offset(m, g, i) == HeaderSpace(m, g) + (i - HeaderCount(g)) * Stride(m)
  {
    if i == HeaderCount(g) {
      assert Offset(m, g, 0) == 0;
    } else {
      OffsetLinear(m, g, i - 1);
      assert (i - HeaderCount(g)) * Stride(m) == (i - 1 - HeaderCount(g)) * Stride(m) + Stride(m);
    }
  }

  /** Division that truncates toward zero. */
  function Quotient(a: int, b: int): int
    requires b > 0
  {
    if a >= 0 then a / b else -((-a) / b)
  }

  function Band(m: Metrics, position: int): nat
    requires Sane(m)
  {
    var band := Quotient(-position, Stride(m));
    if band < 0 then 0 else band
  }

  lemma BandBounds(m: Metrics, position: int)
    requires Sane(m)
    ensures var band := Band(m, position);
            position <= 0 ==> band * Stride(m) <= -position < (band + 1) * Stride(m)
    ensures position > 0 ==> Band(m, position) == 0
  {
    var stride := Stride(m);
    if position <= 0 {
      var band := (-position) / stride;
      assert -position == band * stride + (-position) % stride;
      assert (band + 1) * stride == band * stride + stride;
    } else {
      assert position / stride >= 0;
    }
  }

  lemma Scaled(a: int, b: int, stride: int)
    requires stride > 0
    ensures a <= b <==> a * stride <= b * stride
    ensures (a + b) * stride == a * stride + b * stride
  {
    if a <= b {
      assert (b - a) * stride >= 0;
    } else {
      assert (a - b) * stride > 0;
    }
    assert (b - a) * stride == b * stride - a * stride;
  }

  datatype Found = Found(index: int, position: int)

  /** `FindFirstVisibleItem` once the group is known; `position` is where the group starts. */
  function FindInGroup(m: Metrics, g: Group, position: int): Found
    requires Sane(m)
  {
    if g.hasHeader && position + m.headerSize > 0 then Found(0, position) else
    var position' := position + HeaderSpace(m, g);
    var band := Band(m, position');
    var position'' := position' + band * Stride(m);
    var index := band + HeaderCount(g);
    if index >= g.itemCount then Found(g.itemCount - 1, position'' + (g.itemCount - 1 - band) * Stride(m))
    else Found(index, position'')
  }

  /** The group's footer starts more than one row above the viewport, in a group that has a header too. */
  predicate Overshot(m: Metrics, g: Group, position: int) {
    g.hasHeader && g.hasFooter && g.itemCount > 0 && position + Offset(m, g, g.itemCount - 1) + Stride(m) <= 0
  }

  ghost predicate FirstShown(m: Metrics, g: Group, position: int, index: int) {
    && 0 <= index < g.itemCount && ShownAt(m, g, position, index)
    && forall i :: 0 <= i < index ==> !ShownAt(m, g, position, i)
  }

  /** The item found in the group is its first shown one. */
  lemma FoundIsFirst(m: Metrics, g: Group, position: int)
    requires Sane(m) && g.itemCount > 0 && g.itemCount >= HeaderCount(g) + (if g.hasFooter then 1 else 0)
    requires position + GroupTotal(m, g) > 0
    ensures FirstShown(m, g, position, FindInGroup(m, g, position).index)
  {
    if !(g.hasHeader && position + m.headerSize > 0) {
      var position' := position + HeaderSpace(m, g);
      BandBounds(m, position');
      var band, h := Band(m, position'), HeaderCount(g);
      if band + h < g.itemCount {
        DirectHit(m, g, position, band);
      } else {
        FooterHit(m, g, position, band);
      }
    }
  }

  /** Rows that end above the viewport are not shown. */
  lemma RowHidden(m: Metrics, g: Group, position: int, i: nat, limit: nat)
    requires Sane(m) && HeaderCount(g) <= i < limit + HeaderCount(g) <= g.itemCount - if g.hasFooter then 1 else 0
    requires limit + HeaderCount(g) < g.itemCount
    requires position + HeaderSpace(m, g) + limit * Stride(m) <= 0
    ensures !ShownAt(m, g, position, i)
  {
    OffsetLinear(m, g, i);
    Scaled(i + 1 - HeaderCount(g), limit, Stride(m));
    Scaled(i - HeaderCount(g), 1, Stride(m));
  }

  lemma HeaderHidden(m: Metrics, g: Group, position: int)
    requires g.hasHeader && g.itemCount > 0 && position + m.headerSize <= 0
    ensures !ShownAt(m, g, position, 0)
  {
  }

  lemma DirectHit(m: Metrics, g: Group, position: int, band: nat)
    requires Sane(m) && g.itemCount >= HeaderCount(g) + (if g.hasFooter then 1 else 0)
             && position + GroupTotal(m, g) > 0
    requires g.hasHeader ==> position + m.headerSize <= 0
    requires band + HeaderCount(g) < g.itemCount
    requires var p := position + HeaderSpace(m, g);
             if p > 0 then band == 0 else band * Stride(m) <= -p < (band + 1) * Stride(m)
    ensures FirstShown(m, g, position, band + HeaderCount(g))
  {
    var h := HeaderCount(g);
    OffsetLinear(m, g, band + h);
    Scaled(band, 1, Stride(m));
    forall i: nat | i < band + h ensures !ShownAt(m, g, position, i) {
      if i < h { HeaderHidden(m, g, position); } else { RowHidden(m, g, position, i, band); }
    }
  }

  lemma FooterHit(m: Metrics, g: Group, position: int, band: nat)
    requires Sane(m) && g.itemCount >= HeaderCount(g) + (if g.hasFooter then 1 else 0)
             && position + GroupTotal(m, g) > 0
    requires g.hasHeader ==> position + m.headerSize <= 0
    requires g.itemCount > 0 && band + HeaderCount(g) >= g.itemCount
    requires var p := position + HeaderSpace(m, g);
             if p > 0 then band == 0 else band * Stride(m) <= -p < (band + 1) * Stride(m)
    ensures g.hasFooter && FirstShown(m, g, position, g.itemCount - 1)
  {
    var h := HeaderCount(g);
    var rows := g.itemCount - h - if g.hasFooter then 1 else 0;
    OffsetLinear(m, g, rows + h);
    Scaled(rows, band, Stride(m));
    if rows + h == g.itemCount {
      assert false;
    }
    forall i: nat | i < g.itemCount - 1 ensures !ShownAt(m, g, position, i) {
      if i < h { HeaderHidden(m, g, position); } else { RowHidden(m, g, position, i, rows); }
    }
  }

  /** How far the position returned with the item is off: one row too low if the footer is overshot. */
  function Excess(m: Metrics, g: Group, position: int): int { if Overshot(m, g, position) then Stride(m) else 0 }

  /** The position returned with the item is right exactly when the footer is not overshot. */
  lemma FoundPositionIff(m: Metrics, g: Group, position: int)
    requires Sane(m) && g.itemCount > 0 && g.itemCount >= HeaderCount(g) + (if g.hasFooter then 1 else 0)
    requires position + GroupTotal(m, g) > 0
    ensures FindInGroup(m, g, position).index >= 0
    ensures FindInGroup(m, g, position).position ==
            position + Offset(m, g, FindInGroup(m, g, position).index) + Excess(m, g, position)
    ensures FindInGroup(m, g, position).position == position + Offset(m, g, FindInGroup(m, g, position).index)
            <==> !Overshot(m, g, position)
  {
    FoundIsFirst(m, g, position);
    var h, stride := HeaderCount(g), Stride(m);
    if g.hasHeader && position + m.headerSize > 0 {
      InsideGroup(m, g, 0);
      if g.itemCount > 1 { OffsetGrows(m, g, 0, g.itemCount - 1); }
    } else {
      var p := position + HeaderSpace(m, g);
      BandBounds(m, p);
      var band := Band(m, p);
      if band + h >= g.itemCount { FooterHit(m, g, position, band); }
      LinearPosition(m, g, position, band);
    }
  }

  lemma LinearPosition(m: Metrics, g: Group, position: int, band: nat)
    requires Sane(m) && g.itemCount > 0 && g.itemCount >= HeaderCount(g) + (if g.hasFooter then 1 else 0)
    requires band + HeaderCount(g) >= g.itemCount ==> g.hasFooter
    requires var p := position + HeaderSpace(m, g);
             if p > 0 then band == 0 else band * Stride(m) <= -p < (band + 1) * Stride(m)
    ensures var start := position + HeaderSpace(m, g) + band * Stride(m);
            if band + HeaderCount(g) >= g.itemCount
            then start + (g.itemCount - 1 - band) * Stride(m) ==
              position + Offset(m, g, g.itemCount - 1) + Excess(m, g, position)
            else start == position + Offset(m, g, band + HeaderCount(g)) && !Overshot(m, g, position)
  {
    var h, stride := HeaderCount(g), Stride(m);
    if g.hasFooter {
      var rows := g.itemCount - h - 1;
      OffsetLinear(m, g, rows + h);
      Scaled(rows + 1, band, stride);
      Scaled(band + 1, rows + 1, stride);
      Scaled(rows, 1, stride);
      Scaled(rows, h, stride);
      Scaled(band, g.itemCount - 1 - band, stride);
    }
    if band + h < g.itemCount { OffsetLinear(m, g, band + h); }
  }

  /**
    * `FindFirstVisibleItem` for a fixed-size list: the first group that reaches into the viewport, then the item in it.
    */
  method FindFirstVisible(m: Metrics, groups: seq<Group>, base: int)
    returns (found: bool, group: nat, index: int, position: int)
    requires Sane(m) && TotalsRight(m, groups)
    ensures !found ==> forall p | Exists(groups, p) :: !Shown(m, groups, base, p)
    ensures !found ==> forall k :: 0 <= k < |groups| ==> GroupEnd(m, groups, base, k) <= 0
    ensures found ==> group < |groups| && GroupEnd(m, groups, base, group) > 0
                      && forall k :: 0 <= k < group ==> GroupEnd(m, groups, base, k) <= 0
    ensures found && groups[group].itemCount > 0 ==>
      && index >= 0 && Exists(groups, Place(group, index))
      && (forall p | Exists(groups, p) :: Shown(m, groups, base, p) <==> !Precedes(p, Place(group, index)))
      && position == Position(m, groups, base, group, index)
                     + Excess(m, groups[group], base + GroupStart(m, groups, group))
  {
    position := base;
    group, index, found := 0, 0, false;
    while group < |groups|
      invariant group <= |groups| && position == base + GroupStart(m, groups, group)
      invariant forall k :: 0 <= k < group ==> GroupEnd(m, groups, base, k) <= 0
    {
      if position + groups[group].totalSize > 0 {
        found := true;
        break;
      }
      position := position + groups[group].totalSize + m.gapMajor;
      group := group + 1;
    }
    if !found {
      forall p | Exists(groups, p) ensures !Shown(m, groups, base, p) { HiddenAbove(m, groups, base, p); }
      return;
    }
    var hit := FindInGroup(m, groups[group], position);
    if groups[group].itemCount > 0 {
      FoundPositionIff(m, groups[group], position);
      FoundIsFirst(m, groups[group], position);
      FirstInList(m, groups, base, group, hit.index);
    }
    index, position := hit.index, hit.position;
  }

  lemma FirstInList(m: Metrics, groups: seq<Group>, base: int, group: nat, index: int)
    requires Sane(m) && group < |groups| && FirstShown(m, groups[group], base + GroupStart(m, groups, group), index)
    requires forall k :: 0 <= k < group ==> GroupEnd(m, groups, base, k) <= 0
    ensures forall p | Exists(groups, p) :: Shown(m, groups, base, p) <==> !Precedes(p, Place(group, index))
  {
    forall p | Exists(groups, p) ensures Shown(m, groups, base, p) <==> !Precedes(p, Place(group, index)) {
      if p.group < group {
        HiddenAbove(m, groups, base, p);
      } else if Precedes(Place(group, index), p) {
        ShownGrows(m, groups, base, Place(group, index), p);
      }
    }
  }

  /** A footer taller than a row, scrolled one row past its top: the position is one row too low. */
  lemma OvershotExample()
    ensures var m := Metrics(0, 0, 10, 10, 100);
            var g := Group(3, 120, true, true, true);
            var base := -40;
            && Sane(m) && WellFormed(g) && g.totalSize == GroupTotal(m, g) && base + GroupTotal(m, g) > 0
            && Overshot(m, g, base)
            && FindInGroup(m, g, base).index == 2
            && FindInGroup(m, g, base).position == base + Offset(m, g, 2) + Stride(m)
  {
    var m, g := Metrics(0, 0, 10, 10, 100), Group(3, 120, true, true, true);
    OffsetLinear(m, g, 2);
    assert Offset(m, g, 2) == 20 && GroupTotal(m, g) == 120;
    hide Offset, GroupTotal;
    assert Band(m, -30) == 3 && HeaderSpace(m, g) == 10;
  }

  /** `GetItemPosition` for a fixed-size list that is not tiled: right exactly for the places in the last clause. */
  method GetItemPosition(m: Metrics, groups: seq<Group>, origin: int, group: nat, index: nat)
    returns (position: int, size: int)
    requires TotalsRight(m, groups) && Exists(groups, Place(group, index))
    ensures var g := groups[group];
            position == Position(m, groups, origin, group, index) && size == ItemSize(m, g, index)
            <==> index < g.itemCount - 1 || (g.hasHeader && index == 0) || g.hasHeader == g.hasFooter
                 || m.footerSize == m.fixedSize
    ensures index == groups[group].itemCount - 1 && !groups[group].hasHeader ==> size == m.fixedSize
  {
    position := origin;
    for i := 0 to group
      invariant position == origin + GroupStart(m, groups, i)
    {
      position := position + groups[i].totalSize + m.gapMajor;
    }
    var g := groups[group];
    if g.hasHeader && index == 0 {
      size := m.headerSize;
    } else if g.hasHeader && index == g.itemCount - 1 {
      position := position + g.totalSize - m.footerSize;
      size := m.footerSize;
    } else {
      OffsetLinear(m, g, index);
      var linearIndex := index;
      if g.hasHeader {
        linearIndex := linearIndex - 1;
        position := position + m.headerSize + m.gapMinor;
      }
      position := position + (m.fixedSize + m.gapMinor) * linearIndex;
      size := m.fixedSize;
    }
  }

  /** A group with a footer and no header: the footer is reported as tall as an item. */
  method FooterExample() returns (size: int)
    ensures size == 10 && ItemSize(Metrics(0, 0, 10, 10, 30), Group(2, 40, false, true, true), 1) == 30
  {
    var m, g := Metrics(0, 0, 10, 10, 30), Group(2, 40, false, true, true);
    OffsetLinear(m, g, 1);
    assert Offset(m, g, 2) == 40;
    var position;
    position, size := GetItemPosition(m, [g], 0, 0, 1);
  }

  // ----- Walking forwards.

  /** `IterateForwards`; past the last item it leaves the list. */
  function Next(groups: seq<Group>, p: Place): Place
    requires Exists(groups, p)
  {
    if p.index == groups[p.group].itemCount - 1 then Place(p.group + 1, 0) else Place(p.group, p.index + 1)
  }

  lemma NextPosition(m: Metrics, groups: seq<Group>, base: int, p: Place)
    requires Exists(groups, p) && Next(groups, p).group < |groups|
    ensures var q := Next(groups, p);
            Position(m, groups, base, q.group, q.index) == Position(m, groups, base, p.group, p.index)
              + ItemSize(m, groups[p.group], p.index) + if q.group == p.group then m.gapMinor else m.gapMajor
  {
  }

  lemma NextIsNext(groups: seq<Group>, p: Place, q: Place)
    requires Exists(groups, p) && Exists(groups, q)
    ensures Precedes(q, Next(groups, p)) <==> q == p || Precedes(q, p)
  {
  }
}
