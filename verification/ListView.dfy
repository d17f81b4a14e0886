/** The list view's incremental bookkeeping: group totals, the grand total, and the offsets of the visible items. */
module ListView {
  import opened ListLayout
  import opened ListSearch
  import opened Options

  datatype VisibleItem = VisibleItem(group: nat, index: nat, offset: int, size: int)

  /** The three structural changes, as they affect the group and index of an item. */
  datatype Change =
    | AddItems(group: nat, first: nat, count: nat)
    | RemoveItems(group: nat, first: nat, count: nat)
    | AddGroup(group: nat)

  predicate Less(a: VisibleItem, b: VisibleItem) { a.group < b.group || (a.group == b.group && a.index < b.index) }

  ghost predicate Ordered(items: seq<VisibleItem>) {
    forall i, j :: 0 <= i < j < |items| ==> Less(items[i], items[j])
  }

  /** The item lies before the place of the change. */
  predicate Before(c: Change, item: VisibleItem) {
    item.group < c.group || (!c.AddGroup? && item.group == c.group && item.index < c.first)
  }

  /** The new group and index of an item; `None` when it is removed. */
  function Adjust(c: Change, item: VisibleItem): Option<VisibleItem> {
    if Before(c, item) then Some(item) else
    match c
    case AddGroup(_) => Some(item.(group := item.group + 1))
    case AddItems(g, _, count) => Some(if item.group == g then item.(index := item.index + count) else item)
    case RemoveItems(g, first, count) =>
      if item.group > g then Some(item)
      else if item.index >= first + count then Some(item.(index := item.index - count))
      else None
  }

  ghost function AdjustAll(c: Change, items: seq<VisibleItem>): seq<VisibleItem> {
    if items == [] then [] else
    AdjustAll(c, items[..|items| - 1]) + match Adjust(c, items[|items| - 1]) case None => [] case Some(item) => [item]
  }

  lemma AdjustSnoc(c: Change, items: seq<VisibleItem>, j: nat)
    requires j < |items|
    ensures AdjustAll(c, items[..j + 1]) ==
            AdjustAll(c, items[..j]) + match Adjust(c, items[j]) case None => [] case Some(item) => [item]
  {
    assert items[..j + 1][..j] == items[..j];
  }

  lemma {:induction false} AdjustedFrom(c: Change, items: seq<VisibleItem>, k: nat) returns (j: nat)
    requires k < |AdjustAll(c, items)|
    ensures j < |items| && Adjust(c, items[j]) == Some(AdjustAll(c, items)[k])
  {
    if k < |AdjustAll(c, items[..|items| - 1])| {
      j := AdjustedFrom(c, items[..|items| - 1], k);
    } else {
      j := |items| - 1;
    }
  }

  lemma {:induction false} AdjustKeepsOrder(c: Change, items: seq<VisibleItem>)
    requires Ordered(items)
    ensures Ordered(AdjustAll(c, items))
  {
    if items != [] {
      var rest, last := items[..|items| - 1], items[|items| - 1];
      AdjustKeepsOrder(c, rest);
      if Adjust(c, last).Some? {
        forall k | 0 <= k < |AdjustAll(c, rest)| ensures Less(AdjustAll(c, rest)[k], Adjust(c, last).value) {
          var j := AdjustedFrom(c, rest, k);
          assert Less(items[j], last);
        }
      }
    }
  }

  /** From the first item of a later group on, adding or removing items renumbers nothing. */
  lemma {:induction false} AdjustTail(c: Change, items: seq<VisibleItem>, j: nat)
    requires j <= |items| && !c.AddGroup? && forall k :: j <= k < |items| ==> items[k].group > c.group
    ensures AdjustAll(c, items) == AdjustAll(c, items[..j]) + items[j..]
  {
    if j == |items| {
      assert items[..j] == items && items[j..] == [];
    } else {
      AdjustTail(c, items[..|items| - 1], j);
      assert items[..|items| - 1][..j] == items[..j];
      assert items[j..] == items[..|items| - 1][j..] + [items[|items| - 1]];
    }
  }

  /** The items from `move` on are those at or after the place of the change. */
  ghost predicate SplitAt(c: Change, items: seq<VisibleItem>, move: nat) {
    forall k :: 0 <= k < |items| ==> (Before(c, items[k]) <==> k < move)
  }

  function Shift(item: VisibleItem, space: int): VisibleItem { item.(offset := item.offset + space) }

  ghost function ShiftFrom(items: seq<VisibleItem>, move: nat, space: int): (shifted: seq<VisibleItem>)
    ensures |shifted| == |items| && forall k :: 0 <= k < |items| ==> shifted[k] == if k < move then items[k]
            else Shift(items[k], space)
  {
    seq(|items|, k requires 0 <= k < |items| => if k < move then items[k] else Shift(items[k], space))
  }

  // ----- The effect of a change on the groups, and that the shifted offsets are the new positions.

  ghost predicate Applies(m: Metrics, c: Change, groups: seq<Group>, groups': seq<Group>, space: int) {
    match c
    case AddItems(g, first, count) =>
      && g < |groups| == |groups'| && groups' == groups[g := groups'[g]] && count > 0
      && Spliced(groups[g], groups'[g], first, count)
      && space == GroupTotal(m, groups'[g]) - GroupTotal(m, groups[g])
    case RemoveItems(g, first, count) =>
      && g < |groups| == |groups'| && groups' == groups[g := groups'[g]] && count > 0
      && Spliced(groups'[g], groups[g], first, count)
      && space == GroupTotal(m, groups'[g]) - GroupTotal(m, groups[g])
    case AddGroup(g) =>
      && g <= |groups| && |groups'| == |groups| + 1 && groups' == groups[..g] + [groups'[g]] + groups[g..]
      && groups'[g].itemCount == 0 && space == if |groups| > 0 then m.gapMajor else 0
  }

  predicate InRange(groups: seq<Group>, item: VisibleItem) {
    item.group < |groups| && item.index < groups[item.group].itemCount
  }

  ghost predicate Placed(m: Metrics, groups: seq<Group>, base: int, item: VisibleItem) {
    && InRange(groups, item)
    && item.offset == Position(m, groups, base, item.group, item.index)
    && item.size == ItemSize(m, groups[item.group], item.index)
  }

  lemma PlacedMoves(m: Metrics, c: Change, groups: seq<Group>, groups': seq<Group>, space: int, base: int,
                    item: VisibleItem)
    requires Applies(m, c, groups, groups', space) && Placed(m, groups, base, item) && Adjust(c, item).Some?
    ensures Placed(m, groups', base, if Before(c, item) then Adjust(c, item).value
            else Shift(Adjust(c, item).value, space))
    ensures Before(c, Adjust(c, item).value) == Before(c, item)
  {
    var r := Adjust(c, item).value;
    match c
    case AddGroup(g) =>
      StartInserted(m, groups, g, groups'[g], item.group);
    case AddItems(g, first, count) =>
      StartChanged(m, groups, g, groups'[g], item.group);
      if item.group == g { InGroupMoves(m, groups[g], groups'[g], first, count, item.index); }
    case RemoveItems(g, first, count) =>
      StartChanged(m, groups, g, groups'[g], item.group);
      if item.group == g { InGroupMoves(m, groups'[g], groups[g], first, count, r.index); }
  }

  lemma InGroupMoves(m: Metrics, a: Group, b: Group, first: nat, count: nat, i: nat)
    requires Spliced(a, b, first, count) && count > 0 && i < a.itemCount
    ensures i < first ==> Offset(m, b, i) == Offset(m, a, i) && ItemSize(m, b, i) == ItemSize(m, a, i)
    ensures i >= first ==>
      && Offset(m, b, i + count) == Offset(m, a, i) + GroupTotal(m, b) - GroupTotal(m, a)
      && ItemSize(m, b, i + count) == ItemSize(m, a, i)
  {
    TotalAfter(m, a, b, first, count);
    if i < first { OffsetBefore(m, a, b, first, count, i); } else { OffsetAfter(m, a, b, first, count, i); }
  }

  lemma GrandTotalMoves(m: Metrics, c: Change, groups: seq<Group>, groups': seq<Group>, space: int)
    requires Applies(m, c, groups, groups', space)
    ensures GrandTotal(m, groups') == GrandTotal(m, groups) + space
  {
    if c.AddGroup? {
      StartInserted(m, groups, c.group, groups'[c.group], |groups|);
    } else {
      StartChanged(m, groups, c.group, groups'[c.group], |groups|);
    }
  }

  ghost predicate AllPlaced(m: Metrics, groups: seq<Group>, base: int, items: seq<VisibleItem>) {
    Ordered(items) && forall k :: 0 <= k < |items| ==> Placed(m, groups, base, items[k])
  }

  /** Renumbering the items and shifting those behind the change puts every visible item where it belongs. */
  lemma AllPlacedMoves(m: Metrics, c: Change, groups: seq<Group>, groups': seq<Group>, space: int, base: int,
                       items: seq<VisibleItem>, move: nat)
    requires Applies(m, c, groups, groups', space) && AllPlaced(m, groups, base, items)
    requires SplitAt(c, AdjustAll(c, items), move)
    ensures AllPlaced(m, groups', base, ShiftFrom(AdjustAll(c, items), move, space))
  {
    var items' := AdjustAll(c, items);
    AdjustKeepsOrder(c, items);
    forall k | 0 <= k < |items'| ensures Placed(m, groups', base, ShiftFrom(items', move, space)[k]) {
      var j := AdjustedFrom(c, items, k);
      PlacedMoves(m, c, groups, groups', space, base, items[j]);
    }
  }

  // ----- The loops that renumber the visible items.

  /**
    * The first `j` old items have been dealt with; `i` of them are left, and `move` is the first at or after the
    * change.
    */
  ghost predicate Renumbering(c: Change, items: seq<VisibleItem>, visible: seq<VisibleItem>, i: nat, j: nat,
                              move: nat) {
    && j <= |items| && i == |AdjustAll(c, items[..j])| && i <= j
    && visible == AdjustAll(c, items[..j]) + items[j..]
    && if move < i then SplitAt(c, visible[..i], move)
      else move == |items| && forall k :: 0 <= k < i ==> Before(c, visible[k])
  }

  lemma RenumberingStarts(c: Change, items: seq<VisibleItem>)
    ensures Renumbering(c, items, items, 0, 0, |items|)
  {
  }

  lemma RenumberingDrops(c: Change, items: seq<VisibleItem>, visible: seq<VisibleItem>, i: nat, j: nat, move: nat)
    requires Renumbering(c, items, visible, i, j, move) && i < |visible| && Adjust(c, visible[i]).None?
    ensures j < |items| && Renumbering(c, items, visible[..i] + visible[i + 1..], i, j + 1, move)
  {
    AdjustSnoc(c, items, j);
    assert visible[..i] == AdjustAll(c, items[..j]) && visible[i + 1..] == items[j + 1..];
    assert (visible[..i] + visible[i + 1..])[..i] == visible[..i];
    assert forall k :: 0 <= k < i ==> visible[..i][k] == visible[k];
  }

  lemma {:induction false} OldestFirst(c: Change, items: seq<VisibleItem>, j: nat, k: nat)
    requires Ordered(items) && j < |items| && Adjust(c, items[j]).Some? && k < |AdjustAll(c, items[..j])|
    ensures Before(c, Adjust(c, items[j]).value) ==> Before(c, AdjustAll(c, items[..j])[k])
    ensures Before(c, Adjust(c, items[j]).value) == Before(c, items[j])
  {
    var h := AdjustedFrom(c, items[..j], k);
    assert Less(items[h], items[j]);
  }

  lemma RenumberingSnoc(c: Change, items: seq<VisibleItem>, visible: seq<VisibleItem>, i: nat, j: nat)
    requires j <= |items| && i == |AdjustAll(c, items[..j])| && visible == AdjustAll(c, items[..j]) + items[j..]
    requires i < |visible| && Adjust(c, visible[i]).Some?
    ensures var item := Adjust(c, visible[i]).value;
            && j < |items| && visible[i] == items[j] && AdjustAll(c, items[..j + 1]) == visible[..i] + [item]
            && visible[i := item] == AdjustAll(c, items[..j + 1]) + items[j + 1..]
  {
    AdjustSnoc(c, items, j);
    assert visible[..i] == AdjustAll(c, items[..j]);
    assert visible[i + 1..] == items[j + 1..];
  }

  /** Adding an item behind those of a split keeps the split. */
  lemma SplitSnoc(c: Change, done: seq<VisibleItem>, item: VisibleItem, move: nat, length: nat)
    requires |done| < length
    requires if move < |done| then SplitAt(c, done, move)
             else move == length && forall k :: 0 <= k < |done| ==> Before(c, done[k])
    requires Before(c, item) ==> forall k :: 0 <= k < |done| ==> Before(c, done[k])
    ensures var move' := if !Before(c, item) && |done| < move then |done| else move;
            if move' < |done| + 1 then SplitAt(c, done + [item], move')
            else move' == length && forall k :: 0 <= k < |done| + 1 ==> Before(c, (done + [item])[k])
  {
    if move < |done| { assert !Before(c, done[move]); }
  }

  lemma RenumberingKeeps(c: Change, items: seq<VisibleItem>, visible: seq<VisibleItem>, i: nat, j: nat, move: nat)
    requires Renumbering(c, items, visible, i, j, move) && i < |visible| && Adjust(c, visible[i]).Some?
             && Ordered(items)
    ensures var item := Adjust(c, visible[i]).value;
            var move' := if !Before(c, item) && i < move then i else move;
            j < |items| && Renumbering(c, items, visible[i := item], i + 1, j + 1, move')
  {
    var item := Adjust(c, visible[i]).value;
    RenumberingSnoc(c, items, visible, i, j);
    hide AdjustAll, Adjust, Ordered, SplitAt, Before;
    assert visible[..i] == AdjustAll(c, items[..j]);
    forall k | 0 <= k < i && Before(c, item) ensures Before(c, visible[..i][k]) {
      OldestFirst(c, items, j, k);
    }
    assert forall k :: 0 <= k < i ==> visible[..i][k] == visible[k];
    SplitSnoc(c, visible[..i], item, move, |items|);
    assert visible[i := item][..i + 1] == visible[..i] + [item];
  }

  lemma RenumberingEnds(c: Change, items: seq<VisibleItem>, visible: seq<VisibleItem>, i: nat, j: nat, move: nat)
    requires Renumbering(c, items, visible, i, j, move) && i == |visible|
    ensures visible == AdjustAll(c, items) && SplitAt(c, visible, move)
  {
    assert j == |items| && items[..j] == items && visible[..i] == visible;
  }

  lemma LaterGroups(c: Change, items: seq<VisibleItem>, j: nat)
    requires Ordered(items) && j < |items| && items[j].group > c.group
    ensures forall k :: j <= k < |items| ==> items[k].group > c.group
  {
    assert forall k :: j < k < |items| ==> Less(items[j], items[k]);
  }

  lemma TailJoined(done: seq<VisibleItem>, items: seq<VisibleItem>, visible: seq<VisibleItem>, j: nat)
    requires j < |items| && visible == done + items[j..]
    ensures visible[|done|] == items[j] && visible[..|done|] == done
    ensures forall k :: |done| <= k < |visible| ==> visible[k] == items[j + (k - |done|)]
    ensures forall k :: 0 <= k < |done| ==> visible[k] == done[k]
  {
  }

  /** A split of the part before a later group is one of the whole. */
  lemma SplitBeforeTail(c: Change, visible: seq<VisibleItem>, i: nat, move: nat)
    requires !c.AddGroup? && i < |visible| && forall k :: i <= k < |visible| ==> visible[k].group > c.group
    requires if move < i then SplitAt(c, visible[..i], move)
             else move >= |visible| && forall k :: 0 <= k < i ==> Before(c, visible[k])
    ensures SplitAt(c, visible, if i < move then i else move)
  {
    assert forall k :: 0 <= k < i ==> visible[..i][k] == visible[k];
  }

  /** Stopping at the first item of a later group leaves nothing undone. */
  lemma RenumberingStops(c: Change, items: seq<VisibleItem>, visible: seq<VisibleItem>, i: nat, j: nat, move: nat)
    requires Renumbering(c, items, visible, i, j, move) && i < |visible| && Ordered(items)
    requires !c.AddGroup? && visible[i].group > c.group
    ensures visible == AdjustAll(c, items) && SplitAt(c, visible, if i < move then i else move)
  {
    hide AdjustAll, Ordered, SplitAt, Before, Adjust;
    var done := AdjustAll(c, items[..j]);
    assert j < |items| && |visible| <= |items|;
    TailJoined(done, items, visible, j);
    LaterGroups(c, items, j);
    AdjustTail(c, items, j);
    SplitBeforeTail(c, visible, i, move);
  }

  /** The visible items after the change: those that are left, renumbered, and those behind the change shifted. */
  ghost predicate Moved(c: Change, items: seq<VisibleItem>, items': seq<VisibleItem>, space: int) {
    exists move: nat :: SplitAt(c, AdjustAll(c, items), move) && items' == ShiftFrom(AdjustAll(c, items), move, space)
  }

  lemma MovedKeeps(m: Metrics, c: Change, groups: seq<Group>, groups': seq<Group>, space: int, base: int,
                   items: seq<VisibleItem>, items': seq<VisibleItem>)
    requires Applies(m, c, groups, groups', space) && AllPlaced(m, groups, base, items)
             && Moved(c, items, items', space)
    ensures AllPlaced(m, groups', base, items') && GrandTotal(m, groups') == GrandTotal(m, groups) + space
  {
    var move: nat :| SplitAt(c, AdjustAll(c, items), move) && items' == ShiftFrom(AdjustAll(c, items), move, space);
    AllPlacedMoves(m, c, groups, groups', space, base, items, move);
    GrandTotalMoves(m, c, groups, groups', space);
  }

  /** Where nothing is removed, the items stay in their order, renumbered one by one. */
  lemma {:induction false} AdjustEach(c: Change, items: seq<VisibleItem>, k: nat)
    requires !c.RemoveItems? && k < |items|
    ensures |AdjustAll(c, items)| == |items| && Adjust(c, items[k]) == Some(AdjustAll(c, items)[k])
  {
    if |items| > 1 { AdjustEach(c, items[..|items| - 1], if k < |items| - 1 then k else 0); }
  }

  ghost predicate SameItems(group: nat, items: seq<VisibleItem>, items': seq<VisibleItem>) {
    |items'| == |items| && forall k :: 0 <= k < |items| ==>
      && items'[k].group == items[k].group + (if items[k].group >= group then 1 else 0)
      && items'[k].index == items[k].index && items'[k].size == items[k].size
  }

  lemma GroupAdded(group: nat, count: nat, items: seq<VisibleItem>, items': seq<VisibleItem>, items'': seq<VisibleItem>,
                   space: int, space': int)
    requires Moved(AddGroup(group), items, items', space)
    requires if count == 0 then items'' == items' else Moved(AddItems(group, 0, count), items', items'', space')
    ensures SameItems(group, items, items'')
  {
    if items == [] {
      assert AdjustAll(AddGroup(group), items) == [] && AdjustAll(AddItems(group, 0, count), items') == [];
    }
    forall k | 0 <= k < |items|
      ensures |items'| == |items| && items'[k].group == items[k].group + (if items[k].group >= group then 1 else 0)
      ensures items'[k].index == items[k].index && items'[k].size == items[k].size
    {
      AdjustEach(AddGroup(group), items, k);
    }
    forall k | 0 <= k < |items'| && count > 0
      ensures |items''| == |items'| && items''[k].group == items'[k].group && items''[k].index == items'[k].index
              && items''[k].size == items'[k].size
    {
      AdjustEach(AddItems(group, 0, count), items', k);
    }
  }

  // ----- The focused item and the anchor of the selection.

  datatype Cursor = Cursor(present: bool, group: int, index: int)

  /** The cursor names the same item after the change, and is gone exactly if that item is. */
  predicate Follows(c: Change, before: Cursor, after: Cursor)
    requires before.present ==> before.group >= 0 && before.index >= 0
  {
    if !before.present then !after.present else
    match Adjust(c, VisibleItem(before.group, before.index, 0, 0))
    case None => !after.present
    case Some(item) => after.present && after.group == item.group && after.index == item.index
  }

  function CursorInserted(cursor: Cursor, group: nat, first: nat, count: nat): (after: Cursor)
    ensures cursor.present && cursor.group >= 0 && cursor.index >= 0 ==>
            Follows(AddItems(group, first, count), cursor, after)
    ensures !cursor.present ==> after == cursor
  {
    if cursor.present && cursor.group == group && cursor.index >= first then cursor.(index := cursor.index + count)
      else cursor
  }

  function FocusRemoved(focus: Cursor, group: nat, first: nat, count: nat): Cursor {
    if !focus.present || focus.group != group then focus
    else if first <= focus.index < first + count then focus.(present := false)
    else focus.(index := focus.index - count)
  }

  /** The anchor's test reads the focused index, which has been updated by then. */
  function AnchorRemoved(anchor: Cursor, focusIndex: int, group: nat, first: nat, count: nat): Cursor {
    if !anchor.present || anchor.group != group then anchor
    else if focusIndex >= first && anchor.index < first + count then anchor.(present := false)
    else anchor.(index := anchor.index - count)
  }

  /** Removing items keeps the focus on its item exactly when the focus is not before them in their group. */
  lemma FocusFollowsIff(focus: Cursor, group: nat, first: nat, count: nat)
    requires focus.present ==> focus.group >= 0 && focus.index >= 0
    requires count > 0
    ensures Follows(RemoveItems(group, first, count), focus, FocusRemoved(focus, group, first, count))
            <==> !(focus.present && focus.group == group && focus.index < first)
  {
  }

  lemma AnchorFollowsIff(anchor: Cursor, focusIndex: int, group: nat, first: nat, count: nat)
    requires anchor.present ==> anchor.group >= 0 && anchor.index >= 0
    requires count > 0
    ensures Follows(RemoveItems(group, first, count), anchor, AnchorRemoved(anchor, focusIndex, group, first, count))
            <==> (anchor.present && anchor.group == group ==>
                    anchor.index >= first + count || (anchor.index >= first && focusIndex >= first))
  {
  }

  /** Adding a group does not renumber the cursors' groups, which is right exactly for those in an earlier group. */
  lemma CursorStaysIff(cursor: Cursor, group: nat, extras: nat)
    requires cursor.present ==> cursor.group >= 0 && cursor.index >= 0
    ensures Follows(AddGroup(group), cursor, CursorInserted(cursor, group, 0, extras)) <==>
            !(cursor.present && cursor.group >= group)
  {
  }

  /**
    * The conditions fail: the first item has the focus and the anchor, and loses both to index -1 when the second is
    * removed; a group inserted before it takes its place.
    */
  lemma CursorExamples(cursor: Cursor)
    requires cursor == Cursor(true, 0, 0)
    ensures FocusRemoved(cursor, 0, 1, 1).index == -1 && AnchorRemoved(cursor, -1, 0, 1, 1).index == -1
    ensures !Follows(RemoveItems(0, 1, 1), cursor, FocusRemoved(cursor, 0, 1, 1))
    ensures !Follows(AddGroup(0), cursor, CursorInserted(cursor, 0, 0, 1))
  {
    FocusFollowsIff(cursor, 0, 1, 1);
    CursorStaysIff(cursor, 0, 1);
    hide Follows;
  }

  // ----- Populating the viewport.

  function PlaceOf(item: VisibleItem): Place { Place(item.group, item.index) }

  ghost function Places(items: seq<VisibleItem>): set<Place> { set k | 0 <= k < |items| :: PlaceOf(items[k]) }

  /** The items are exactly those of the list from `first` up to `current`. */
  ghost predicate Covers(groups: seq<Group>, items: seq<VisibleItem>, first: Place, current: Place) {
    forall p | Exists(groups, p) :: p in Places(items) <==> !Precedes(p, first) && Precedes(p, current)
  }

  ghost predicate AllPlacedAnyhow(m: Metrics, groups: seq<Group>, base: int, items: seq<VisibleItem>) {
    forall k :: 0 <= k < |items| ==> Placed(m, groups, base, items[k])
  }

  ghost predicate StartAbove(items: seq<VisibleItem>, limit: int) {
    forall k :: 0 <= k < |items| ==> items[k].offset < limit
  }

  ghost predicate Populated(m: Metrics, groups: seq<Group>, base: int, items: seq<VisibleItem>, first: Place,
                            current: Place, limit: int) {
    AllPlaced(m, groups, base, items) && Covers(groups, items, first, current) && StartAbove(items, limit)
      && !Precedes(current, first)
  }

  lemma PopulatedStarts(m: Metrics, groups: seq<Group>, base: int, first: Place, limit: int)
    ensures Populated(m, groups, base, [], first, first, limit)
  {
  }

  lemma CoversGrows(groups: seq<Group>, items: seq<VisibleItem>, first: Place, item: VisibleItem)
    requires Exists(groups, PlaceOf(item)) && Covers(groups, items, first, PlaceOf(item))
             && !Precedes(PlaceOf(item), first)
    ensures Covers(groups, items + [item], first, Next(groups, PlaceOf(item)))
  {
    var more := items + [item];
    assert Places(more) == Places(items) + {PlaceOf(item)} by {
      assert forall k :: 0 <= k < |items| ==> more[k] == items[k];
      assert more[|items|] == item;
    }
    forall p | Exists(groups, p)
      ensures p in Places(more) <==> !Precedes(p, first) && Precedes(p, Next(groups, PlaceOf(item)))
    {
      NextIsNext(groups, PlaceOf(item), p);
    }
  }

  lemma PopulatedGrows(m: Metrics, groups: seq<Group>, base: int, items: seq<VisibleItem>, first: Place, limit: int,
                       item: VisibleItem)
    requires Populated(m, groups, base, items, first, PlaceOf(item), limit) && Placed(m, groups, base, item)
             && item.offset < limit
    ensures Populated(m, groups, base, items + [item], first, Next(groups, PlaceOf(item)), limit)
  {
    CoversGrows(groups, items, first, item);
    forall k | 0 <= k < |items| ensures Less(items[k], item) {
      assert Placed(m, groups, base, items[k]);
      assert PlaceOf(items[k]) in Places(items);
    }
  }

  /** What is in the viewport: the items shown that start before its end. */
  ghost predicate InView(m: Metrics, groups: seq<Group>, origin: int, contentSize: int, p: Place)
    requires Exists(groups, p)
  {
    Shown(m, groups, origin, p) && Position(m, groups, origin, p.group, p.index) < contentSize
  }

  lemma PopulatedEnds(m: Metrics, groups: seq<Group>, origin: int, top: int, items: seq<VisibleItem>, first: Place,
                      current: Place, contentSize: int)
    requires Sane(m) && Populated(m, groups, origin + top, items, first, current, contentSize + top)
    requires forall p | Exists(groups, p) :: Shown(m, groups, origin, p) <==> !Precedes(p, first)
    requires current.group < |groups| ==>
               Exists(groups, current) && Position(m, groups, origin, current.group, current.index) >= contentSize
    ensures forall p | Exists(groups, p) :: p in Places(items) <==> InView(m, groups, origin, contentSize, p)
  {
    forall p | Exists(groups, p) ensures p in Places(items) <==> InView(m, groups, origin, contentSize, p) {
      if p in Places(items) {
        var k :| 0 <= k < |items| && PlaceOf(items[k]) == p;
        assert Placed(m, groups, origin + top, items[k]);
      } else if !Precedes(p, current) {
        if p != current { TopGrowsOnly(m, groups, origin, current, p); }
      }
    }
  }

  lemma TopGrowsOnly(m: Metrics, groups: seq<Group>, origin: int, p: Place, q: Place)
    requires Sane(m) && Exists(groups, p) && Exists(groups, q) && Precedes(p, q)
    ensures Position(m, groups, origin, p.group, p.index) <= Position(m, groups, origin, q.group, q.index)
  {
    TopGrows(m, groups, origin, p, q);
  }

  /** The visible items that are left when those above a position are removed from the front. */
  ghost function FromAbove(items: seq<VisibleItem>, limit: int): seq<VisibleItem> {
    if items == [] || items[0].offset >= limit then items else FromAbove(items[1..], limit)
  }

  /** The search for the first item in view comes out one row too low. */
  ghost predicate OvershotInView(m: Metrics, groups: seq<Group>, origin: int) {
    exists g :: 0 <= g < |groups| && GroupEnd(m, groups, origin, g) > 0
                && Overshot(m, groups[g], origin + GroupStart(m, groups, g))
  }

  ghost function ExcessInView(m: Metrics, groups: seq<Group>, origin: int): int {
    if OvershotInView(m, groups, origin) then Stride(m) else 0
  }

  lemma NotOvershotBelow(m: Metrics, groups: seq<Group>, origin: int, group: nat, g: nat)
    requires Sane(m) && group < g < |groups| && GroupEnd(m, groups, origin, group) > 0
    ensures !Overshot(m, groups[g], origin + GroupStart(m, groups, g))
  {
    StartGrows(m, groups, group, g);
    if groups[g].itemCount > 0 { InsideGroup(m, groups[g], groups[g].itemCount - 1); }
  }

  /** Only the first group in view can be overshot. */
  lemma ExcessOfFirst(m: Metrics, groups: seq<Group>, origin: int, group: nat)
    requires Sane(m) && group < |groups| && GroupEnd(m, groups, origin, group) > 0
    requires forall k :: 0 <= k < group ==> GroupEnd(m, groups, origin, k) <= 0
    ensures ExcessInView(m, groups, origin) == Excess(m, groups[group], origin + GroupStart(m, groups, group))
  {
    hide GroupEnd, Overshot, GroupStart;
    forall g | group < g < |groups| ensures !Overshot(m, groups[g], origin + GroupStart(m, groups, g)) {
      NotOvershotBelow(m, groups, origin, group, g);
    }
  }

  ghost predicate IsFirst(m: Metrics, groups: seq<Group>, origin: int, first: Place) {
    Exists(groups, first) && forall p | Exists(groups, p) :: Shown(m, groups, origin, p) <==> !Precedes(p, first)
  }

  /** The walk from `first`, with every position `excess` too far down, reaches the first of the items. */
  ghost predicate Reaches(m: Metrics, groups: seq<Group>, origin: int, first: Place, excess: int,
                          items: seq<VisibleItem>, contentSize: int) {
    && items != [] && Exists(groups, PlaceOf(items[0])) && !Precedes(PlaceOf(items[0]), first)
    && Position(m, groups, origin, items[0].group, items[0].index) + excess < contentSize
  }

  /** The walk has not come to the first of the items yet, unless it started behind it. */
  ghost predicate Awaits(items: seq<VisibleItem>, first: Place, current: Place) {
    items == [] || Precedes(PlaceOf(items[0]), first) || !Precedes(PlaceOf(items[0]), current)
  }

  lemma AwaitsFirst(items: seq<VisibleItem>, first: Place)
    ensures Awaits(items, first, first)
  {
  }

  lemma AwaitsNext(m: Metrics, groups: seq<Group>, base: int, items: seq<VisibleItem>, first: Place, current: Place)
    requires Awaits(items, first, current) && Exists(groups, current) && AllPlacedAnyhow(m, groups, base, items)
    requires items != [] ==> PlaceOf(items[0]) != current
    ensures Awaits(items, first, Next(groups, current))
  {
    if items != [] {
      assert Placed(m, groups, base, items[0]);
      NextIsNext(groups, current, PlaceOf(items[0]));
    }
  }

  lemma AwaitsForever(m: Metrics, groups: seq<Group>, origin: int, items: seq<VisibleItem>, first: Place,
                      current: Place,
                      excess: int, contentSize: int)
    requires Sane(m) && Awaits(items, first, current)
    requires current.group < |groups| ==>
               Exists(groups, current) && Position(m, groups, origin, current.group,
                 current.index) + excess >= contentSize
    ensures !Reaches(m, groups, origin, first, excess, items, contentSize)
  {
    hide Position;
    if items != [] && Exists(groups, PlaceOf(items[0])) && !Precedes(PlaceOf(items[0]), current)
      && PlaceOf(items[0]) != current {
      TopGrowsOnly(m, groups, origin, current, PlaceOf(items[0]));
    }
  }

  lemma FiredReaches(m: Metrics, groups: seq<Group>, origin: int, items: seq<VisibleItem>, first: Place, current: Place,
                     excess: int, contentSize: int)
    requires items != [] && PlaceOf(items[0]) == current && Exists(groups, current) && !Precedes(current, first)
    requires Position(m, groups, origin, current.group, current.index) + excess < contentSize
    ensures Reaches(m, groups, origin, first, excess, items, contentSize)
  {
  }

  lemma RestPlaced(m: Metrics, groups: seq<Group>, base: int, rest: seq<VisibleItem>, rest': seq<VisibleItem>)
    requires AllPlacedAnyhow(m, groups, base, rest) && (rest' == rest || (rest != [] && rest' == rest[1..]))
    ensures AllPlacedAnyhow(m, groups, base, rest')
  {
  }

  /** The check on an item's position allows for one unit. */
  predicate Apart(a: int, b: int) { a < b - 1 || a > b + 1 }

  ghost predicate ReachesVisible(m: Metrics, groups: seq<Group>, origin: int, first: Place, items: seq<VisibleItem>,
                                 contentSize: int)
    requires Exists(groups, first)
  {
    var excess := ExcessInView(m, groups, origin);
    var kept := FromAbove(items, Position(m, groups, origin, first.group, first.index) + excess);
    Reaches(m, groups, origin, first, excess, kept, contentSize)
  }

  /** The walk comes to an item that was visible before and is still there. */
  ghost predicate CheckFires(m: Metrics, groups: seq<Group>, origin: int, items: seq<VisibleItem>, contentSize: int) {
    exists first :: IsFirst(m, groups, origin, first) && ReachesVisible(m, groups, origin, first, items, contentSize)
  }

  lemma CheckFiresAt(m: Metrics, groups: seq<Group>, origin: int, first: Place, items: seq<VisibleItem>,
                     contentSize: int)
    requires IsFirst(m, groups, origin, first)
    ensures CheckFires(m, groups, origin, items, contentSize) <==>
            ReachesVisible(m, groups, origin, first, items, contentSize)
  {
    hide ReachesVisible, Shown;
    forall other | IsFirst(m, groups, origin, other) ensures other == first {
      assert Shown(m, groups, origin, other) && Shown(m, groups, origin, first);
    }
  }

  lemma {:induction false} FromAbovePlaced(m: Metrics, groups: seq<Group>, base: int, items: seq<VisibleItem>,
                                           limit: int)
    requires AllPlacedAnyhow(m, groups, base, items)
    ensures AllPlacedAnyhow(m, groups, base, FromAbove(items, limit))
    decreases |items|
  {
    if items != [] && items[0].offset < limit { FromAbovePlaced(m, groups, base, items[1..], limit); }
  }

  /** A list laid out with an offset is right only if the offset is zero. */
  lemma PlacedOnce(m: Metrics, groups: seq<Group>, base: int, excess: int, items: seq<VisibleItem>)
    requires AllPlaced(m, groups, base + excess, items) && items != []
    ensures AllPlaced(m, groups, base, items) <==> excess == 0
  {
    assert Placed(m, groups, base + excess, items[0]);
  }

  // ----- Inserting behind the last item.

  /** An index behind the last item means the end of the group. */
  function Within(g: Group, first: nat): nat { if first < g.itemCount then first else g.itemCount }

  lemma PastEndMeasures(m: Metrics, a: Group, b: Group, first: nat, count: nat)
    requires WellFormed(a) && b == a.(itemCount := a.itemCount + count)
    requires a.initialised && a.hasFooter ==> first < a.itemCount
    requires !a.initialised ==> first <= a.itemCount
    ensures SpaceAdded(m, a, b, first, count) == SpaceAdded(m, a, b, Within(a, first), count)
  {
  }

  lemma {:induction false} SameAdjust(c: Change, d: Change, items: seq<VisibleItem>)
    requires forall k :: 0 <= k < |items| ==> Adjust(c, items[k]) == Adjust(d, items[k])
    ensures AdjustAll(c, items) == AdjustAll(d, items)
  {
    if items != [] { SameAdjust(c, d, items[..|items| - 1]); }
  }

  lemma PastEndRenumbers(m: Metrics, groups: seq<Group>, base: int, group: nat, first: nat, count: nat,
                         items: seq<VisibleItem>, items': seq<VisibleItem>, move: nat)
    requires AllPlaced(m, groups, base, items) && group < |groups|
    requires items' == AdjustAll(AddItems(group, first, count), items)
             && SplitAt(AddItems(group, first, count), items', move)
    ensures var c := AddItems(group, Within(groups[group], first), count);
            items' == AdjustAll(c, items) && SplitAt(c, items', move)
  {
    var c, d := AddItems(group, first, count), AddItems(group, Within(groups[group], first), count);
    hide Position, ItemSize;
    forall k | 0 <= k < |items| ensures Adjust(c, items[k]) == Adjust(d, items[k]) {
      assert Placed(m, groups, base, items[k]);
    }
    SameAdjust(c, d, items);
    forall k | 0 <= k < |items'| ensures Before(c, items'[k]) == Before(d, items'[k]) {
      var j := AdjustedFrom(c, items, k);
      assert Placed(m, groups, base, items[j]);
    }
  }

  // ----- The view.

  class View {
    const m: Metrics
    /** How far the list's bounds start below the element's: the height of the column header. */
    const top: int
    var groups: seq<Group>
    var visible: seq<VisibleItem>
    var totalSize: int
    var totalItemCount: int
    /** Where the first group starts in the list's bounds: the inset less the scroll position. */
    var origin: int
    var focus: Cursor
    var anchor: Cursor
    /** How much too low the visible items are: what the last populate was off by. */
    ghost var shift: int

    ghost predicate GroupsValid()
      reads this
    {
      forall g :: 0 <= g < |groups| ==> WellFormed(groups[g]) && groups[g].totalSize == GroupTotal(m, groups[g])
    }

    ghost predicate TotalsValid()
      reads this
    {
      totalSize == GrandTotal(m, groups) && totalItemCount == ItemTotal(groups)
    }

    /**
      * Everything the view keeps is what measuring the list from scratch would give, except that all visible items may
      * be one row too low.
      */
    ghost predicate Valid()
      reads this
    {
      && GroupsValid() && TotalsValid() && (shift == 0 || shift == Stride(m))
      && AllPlaced(m, groups, origin + top + shift, visible)
    }

    constructor (m: Metrics, top: int, origin: int)
      ensures Valid() && groups == [] && visible == [] && this.m == m && this.top == top && this.origin == origin
      ensures !focus.present && !anchor.present && shift == 0
    {
      this.m, this.top, this.origin, shift := m, top, origin, 0;
      groups, visible, totalSize, totalItemCount := [], [], 0, 0;
      focus, anchor := Cursor(false, 0, 0), Cursor(false, 0, 0);
    }

    method InsertSpace(space: int, move: nat)
      modifies `totalSize, `visible
      ensures totalSize == old(totalSize) + space
      ensures visible == ShiftFrom(old(visible), move, space)
    {
      if space == 0 {
        assert forall k :: 0 <= k < |visible| ==> Shift(visible[k], 0) == visible[k];
        assert visible == ShiftFrom(old(visible), move, 0);
        return;
      }
      totalSize := totalSize + space;
      var i := move;
      while i < |visible|
        invariant |visible| == |old(visible)| && i >= move && totalSize == old(totalSize) + space
        invariant forall k :: 0 <= k < |visible| ==>
                    visible[k] == if move <= k < i then Shift(old(visible)[k], space) else old(visible)[k]
      {
        visible := visible[i := Shift(visible[i], space)];
        i := i + 1;
      }
      assert visible == ShiftFrom(old(visible), move, space);
    }

    method RenumberGroups(group: nat) returns (move: nat)
      requires Ordered(visible)
      modifies `visible
      ensures visible == AdjustAll(AddGroup(group), old(visible)) && SplitAt(AddGroup(group), visible, move)
    {
      hide Renumbering, AdjustAll, SplitAt, Ordered;
      ghost var c := AddGroup(group);
      move := |visible|;
      var i := 0;
      RenumberingStarts(c, visible);
      while i < |visible|
        invariant Renumbering(c, old(visible), visible, i, i, move) && i <= |visible|
      {
        RenumberingKeeps(c, old(visible), visible, i, i, move);
        if visible[i].group >= group {
          visible := visible[i := visible[i].(group := visible[i].group + 1)];
          if i < move { move := i; }
        } else {
          assert visible == visible[i := visible[i]];
        }
        i := i + 1;
      }
      RenumberingEnds(c, old(visible), visible, i, i, move);
    }

    method RenumberInserted(group: nat, first: nat, count: nat) returns (move: nat)
      requires Ordered(visible)
      modifies `visible
      ensures visible == AdjustAll(AddItems(group, first, count), old(visible))
              && SplitAt(AddItems(group, first, count), visible, move)
    {
      hide Renumbering, AdjustAll, SplitAt, Ordered;
      ghost var c := AddItems(group, first, count);
      move := |visible|;
      var i := 0;
      RenumberingStarts(c, visible);
      while i < |visible|
        invariant Renumbering(c, old(visible), visible, i, i, move) && i <= |visible|
      {
        if visible[i].group > group {
          RenumberingStops(c, old(visible), visible, i, i, move);
          if i < move { move := i; }
          return;
        }
        RenumberingKeeps(c, old(visible), visible, i, i, move);
        if visible[i].group == group && visible[i].index >= first {
          visible := visible[i := visible[i].(index := visible[i].index + count)];
          if i < move { move := i; }
        } else {
          assert visible == visible[i := visible[i]];
        }
        i := i + 1;
      }
      RenumberingEnds(c, old(visible), visible, i, i, move);
    }

    method RenumberRemoved(group: nat, first: nat, count: nat) returns (move: nat)
      requires Ordered(visible)
      modifies `visible
      ensures visible == AdjustAll(RemoveItems(group, first, count), old(visible))
              && SplitAt(RemoveItems(group, first, count), visible, move)
    {
      hide Renumbering, AdjustAll, SplitAt, Ordered;
      ghost var c := RemoveItems(group, first, count);
      move := |visible|;
      var i := 0;
      ghost var j := 0;
      RenumberingStarts(c, visible);
      while i < |visible|
        invariant Renumbering(c, old(visible), visible, i, j, move) && i <= |visible|
        decreases |visible| - i
      {
        if visible[i].group > group {
          RenumberingStops(c, old(visible), visible, i, j, move);
          if i < move { move := i; }
          return;
        }
        if visible[i].group == group && first <= visible[i].index < first + count {
          RenumberingDrops(c, old(visible), visible, i, j, move);
          visible := visible[..i] + visible[i + 1..];
        } else {
          RenumberingKeeps(c, old(visible), visible, i, j, move);
          if visible[i].group == group && visible[i].index >= first + count {
            visible := visible[i := visible[i].(index := visible[i].index - count)];
            if i < move { move := i; }
          } else {
            assert visible == visible[i := visible[i]];
          }
          i := i + 1;
        }
        j := j + 1;
      }
      RenumberingEnds(c, old(visible), visible, i, j, move);
    }

    method Insert(group: nat, first: nat, count: nat)
      requires Valid() && group < |groups|
      requires groups[group].initialised && groups[group].hasHeader ==> first > 0
      requires groups[group].initialised && groups[group].hasFooter ==> first < groups[group].itemCount
      requires !groups[group].initialised ==> groups[group].itemCount == 0 == first && count == Extras(groups[group])
      modifies `groups, `visible, `totalSize, `totalItemCount, `focus, `anchor
      ensures Valid()
      ensures count == 0 ==> unchanged(this)
      ensures group < |groups| && groups == old(groups)[group := old(groups)[group].(
                itemCount := old(groups)[group].itemCount + count, totalSize := groups[group].totalSize)]
      ensures count > 0 ==> Moved(AddItems(group, Within(old(groups)[group], first), count), old(visible), visible,
                                  totalSize - old(totalSize))
      ensures focus == CursorInserted(old(focus), group, first, count)
      ensures anchor == CursorInserted(old(anchor), group, first, count)
    {
      hide GroupTotal, GrandTotal, ItemTotal, AllPlaced, Ordered, MeasureItems, AdjustAll, SplitAt, ShiftFrom;
      if count == 0 {
        assert groups == groups[group := groups[group]];
        return;
      }
      var a := groups[group];
      var b := a.(itemCount := a.itemCount + count);
      var sizeToAdd := SpaceAdded(m, a, b, first, count);
      ghost var c := AddItems(group, Within(a, first), count);
      PastEndMeasures(m, a, b, first, count);
      SpaceAddedRight(m, a, b, Within(a, first), count);
      TotalIgnoresCache(m, b, a.totalSize + sizeToAdd);
      b := b.(totalSize := a.totalSize + sizeToAdd);
      ItemTotalChanged(groups, group, b);
      groups := groups[group := b];
      totalItemCount := totalItemCount + count;
      focus := CursorInserted(focus, group, first, count);
      anchor := CursorInserted(anchor, group, first, count);
      assert Ordered(visible) by { PlacedIsOrdered(m, old(groups), origin + top + shift, visible); }
      var move := RenumberInserted(group, first, count);
      PastEndRenumbers(m, old(groups), origin + top + shift, group, first, count, old(visible), visible, move);
      InsertSpace(sizeToAdd, move);
      assert Moved(c, old(visible), visible, sizeToAdd);
      MovedKeeps(m, c, old(groups), groups, sizeToAdd, origin + top + shift, old(visible), visible);
    }

    method Remove(group: nat, first: nat, count: nat)
      requires Valid() && group < |groups| && groups[group].initialised && first + count <= groups[group].itemCount
      requires groups[group].hasHeader ==> first > 0
      requires groups[group].hasFooter ==> first + count < groups[group].itemCount
      modifies `groups, `visible, `totalSize, `totalItemCount, `focus, `anchor
      ensures Valid()
      ensures count == 0 ==> unchanged(this)
      ensures group < |groups| && groups == old(groups)[group := old(groups)[group].(
                itemCount := old(groups)[group].itemCount - count, totalSize := groups[group].totalSize)]
      ensures count > 0 ==> Moved(RemoveItems(group, first, count), old(visible), visible, totalSize - old(totalSize))
      ensures focus == if count == 0 then old(focus) else FocusRemoved(old(focus), group, first, count)
      ensures anchor == if count == 0 then old(anchor) else AnchorRemoved(old(anchor), focus.index, group, first, count)
    {
      hide GroupTotal, GrandTotal, ItemTotal, AllPlaced, Ordered, MeasureItems, AdjustAll, SplitAt, ShiftFrom;
      if count == 0 {
        assert groups == groups[group := groups[group]];
        return;
      }
      var a := groups[group];
      var b := a.(itemCount := a.itemCount - count);
      var sizeToRemove := SpaceRemoved(m, a, first, count);
      SpaceRemovedRight(m, a, b, first, count);
      TotalIgnoresCache(m, b, a.totalSize - sizeToRemove);
      b := b.(totalSize := a.totalSize - sizeToRemove);
      ItemTotalChanged(groups, group, b);
      groups := groups[group := b];
      totalItemCount := totalItemCount - count;
      focus := FocusRemoved(focus, group, first, count);
      anchor := AnchorRemoved(anchor, focus.index, group, first, count);
      assert Ordered(visible) by { PlacedIsOrdered(m, old(groups), origin + top + shift, visible); }
      var move := RenumberRemoved(group, first, count);
      InsertSpace(-sizeToRemove, move);
      assert Moved(RemoveItems(group, first, count), old(visible), visible, -sizeToRemove);
      MovedKeeps(m, RemoveItems(group, first, count), old(groups), groups, -sizeToRemove, origin + top + shift,
        old(visible),
        visible);
    }

    method AddEmptyGroup(group: nat, hasHeader: bool, hasFooter: bool)
      requires Valid() && group <= |groups|
      modifies `groups, `visible, `totalSize
      ensures Valid()
      ensures groups == old(groups)[..group] + [Group(0, 0, hasHeader, hasFooter, false)] + old(groups)[group..]
      ensures Moved(AddGroup(group), old(visible), visible, if |groups| > 1 then m.gapMajor else 0)
    {
      hide GroupTotal, GrandTotal, ItemTotal, AllPlaced, Ordered, MeasureItems, AdjustAll, SplitAt, ShiftFrom;
      var empty := Group(0, 0, hasHeader, hasFooter, false);
      EmptyGroup(m, groups, group, empty);
      groups := groups[..group] + [empty] + groups[group..];
      assert Ordered(visible) by { PlacedIsOrdered(m, old(groups), origin + top + shift, visible); }
      var move := RenumberGroups(group);
      var space := if |groups| > 1 then m.gapMajor else 0;
      InsertSpace(space, move);
      assert Moved(AddGroup(group), old(visible), visible, space);
      MovedKeeps(m, AddGroup(group), old(groups), groups, space, origin + top + shift, old(visible), visible);
    }

    /** `EsListViewInsertGroup`: an empty group first, then its header and footer as its items. */
    method InsertGroup(group: nat, hasHeader: bool, hasFooter: bool)
      requires Valid() && group <= |groups|
      modifies `groups, `visible, `totalSize, `totalItemCount, `focus, `anchor
      ensures Valid()
      ensures group < |groups| && groups[group].initialised
      ensures groups == old(groups)[..group] + [groups[group]] + old(groups)[group..]
      ensures groups[group].hasHeader == hasHeader && groups[group].hasFooter == hasFooter
              && groups[group].itemCount == Extras(groups[group])
      ensures SameItems(group, old(visible), visible)
      ensures focus == CursorInserted(old(focus), group, 0, Extras(groups[group]))
      ensures anchor == CursorInserted(old(anchor), group, 0, Extras(groups[group]))
    {
      hide GroupTotal, GrandTotal, ItemTotal, AllPlaced, AdjustAll, Moved, SameItems;
      AddEmptyGroup(group, hasHeader, hasFooter);
      ghost var items, total := visible, totalSize;
      var extras := Extras(groups[group]);
      Insert(group, 0, extras);
      GroupAdded(group, extras, old(visible), items, visible, if |groups| > 1 then m.gapMajor
        else 0, totalSize - total);
      Initialise(group);
      assert groups == old(groups)[..group] + [groups[group]] + old(groups)[group..];
    }

    method Initialise(group: nat)
      requires Valid() && group < |groups| && groups[group].itemCount >= Extras(groups[group])
      modifies `groups
      ensures Valid() && groups == old(groups)[group := old(groups)[group].(initialised := true)]
    {
      var b := groups[group].(initialised := true);
      FlagIgnored(m, groups, group, b, origin + top + shift, visible);
      hide GroupTotal, GrandTotal, ItemTotal, AllPlaced;
      groups := groups[group := b];
    }

    method Scroll(delta: int)
      requires Valid()
      modifies `origin, `visible
      ensures Valid() && origin == old(origin) - delta
      ensures visible == ShiftFrom(old(visible), 0, -delta)
    {
      var i := 0;
      while i < |visible|
        invariant |visible| == |old(visible)| && 0 <= i <= |visible| && origin == old(origin)
        invariant forall k :: 0 <= k < |visible| ==>
                    visible[k] == if k < i then Shift(old(visible)[k], -delta) else old(visible)[k]
      {
        visible := visible[i := Shift(visible[i], -delta)];
        i := i + 1;
      }
      origin := origin - delta;
      assert visible == ShiftFrom(old(visible), 0, -delta);
    }

    /**
      * One step of the populating loop: the item is already there or it is added. Returns whether the check on the
      * position of an item that is already there fails, which ends the program.
      */
    method ShowItem(visibleIndex: nat, p: Place, position: int) returns (fired: bool)
      requires visibleIndex <= |visible| && Exists(groups, p) && groups[p.group].itemCount >= Extras(groups[p.group])
      requires AllPlacedAnyhow(m, groups, origin + top + shift, visible[visibleIndex..])
      modifies `visible
      ensures var there := visibleIndex < |old(visible)| && PlaceOf(old(visible)[visibleIndex]) == p;
              var excess := position - Position(m, groups, origin, p.group, p.index);
              && (fired <==> there && Apart(excess, shift))
              && (fired ==> visible == old(visible))
              && (!fired ==>
                  && visibleIndex < |visible| && visible[..visibleIndex] == old(visible)[..visibleIndex]
                  && PlaceOf(visible[visibleIndex]) == p
                    && Placed(m, groups, origin + top + excess, visible[visibleIndex])
                  && visible[visibleIndex + 1..] == old(visible)[if there then visibleIndex + 1 else visibleIndex..])
    {
      hide Position, Offset, GroupStart;
      SamePosition(m, groups, origin, top + shift, p);
      SamePosition(m, groups, origin, top + position - Position(m, groups, origin, p.group, p.index), p);
      if visibleIndex < |visible| && PlaceOf(visible[visibleIndex]) == p {
        assert visible[visibleIndex] == visible[visibleIndex..][0];
        var expected := visible[visibleIndex].offset - top;
        if position < expected - 1 || position > expected + 1 {
          return true;
        }
        visible := visible[visibleIndex := visible[visibleIndex].(offset := position + top)];
      } else {
        MeasureIsSize(m, groups[p.group], p.index, 1);
        assert SizeOf(m, groups[p.group], p.index, 0) == 0;
        var item := VisibleItem(p.group, p.index, position + top, MeasureItems(m, groups[p.group], p.index, 1));
        visible := visible[..visibleIndex] + [item] + visible[visibleIndex..];
      }
      return false;
    }

    method DropAbove(limit: int)
      modifies `visible
      ensures visible == FromAbove(old(visible), limit)
    {
      while |visible| > 0 && visible[0].offset < limit
        invariant FromAbove(visible, limit) == FromAbove(old(visible), limit)
        decreases |visible|
      {
        visible := visible[1..];
      }
    }

    method Truncate(visibleIndex: nat)
      requires visibleIndex <= |visible|
      modifies `visible
      ensures visible == old(visible)[..visibleIndex]
    {
      while visibleIndex < |visible|
        invariant visibleIndex <= |visible| && visible[..visibleIndex] == old(visible)[..visibleIndex]
        decreases |visible|
      {
        visible := visible[..visibleIndex] + visible[visibleIndex + 1..];
      }
    }

    /** The walk of `_Populate` from the first item; `start` may be off. */
    method PopulateFrom(first: Place, start: int, contentSize: int) returns (fired: bool)
      requires Sane(m) && IsFirst(m, groups, origin, first)
      requires forall g :: 0 <= g < |groups| ==> WellFormed(groups[g]) && groups[g].itemCount > 0
      requires AllPlacedAnyhow(m, groups, origin + top + shift, visible)
      modifies `visible
      ensures var excess := start - Position(m, groups, origin, first.group, first.index);
              && (fired <==> Apart(excess, shift)
                             && Reaches(m, groups, origin, first, excess, old(visible), contentSize))
              && (!fired ==>
                  && AllPlaced(m, groups, origin + top + excess, visible)
                  && forall p | Exists(groups, p) :: p in Places(visible) <==>
                    InView(m, groups, origin, contentSize - excess, p))
    {
      hide Position, Shown, AllPlaced, Covers, AllPlacedAnyhow, Places, InView, ItemSize, Precedes, Awaits, Reaches,
        Placed;
      ghost var excess := start - Position(m, groups, origin, first.group, first.index);
      ghost var base, wide := origin + top + excess, Apart(excess, shift);
      var visibleIndex, current, position, more := 0, first, start, true;
      PopulatedStarts(m, groups, base, first, contentSize + top);
      AwaitsFirst(visible, first);
      assert visible[..0] == [] && visible[0..] == visible;
      while more && position < contentSize
        invariant visibleIndex <= |visible|
        invariant Populated(m, groups, base, visible[..visibleIndex], first, current, contentSize + top)
        invariant AllPlacedAnyhow(m, groups, origin + top + shift, visible[visibleIndex..])
        invariant wide ==> visible[visibleIndex..] == old(visible) && Awaits(old(visible), first, current)
        invariant if more then Exists(groups, current)
                  && position == Position(m, groups, origin, current.group, current.index) + excess
                  else current.group == |groups|
        decreases |groups| - current.group, if more then groups[current.group].itemCount - current.index else 0
      {
        ghost var rest := visible[visibleIndex..];
        fired := ShowItem(visibleIndex, current, position);
        if fired {
          FiredReaches(m, groups, origin, old(visible), first, current, excess, contentSize);
          return;
        }
        ghost var item := visible[visibleIndex];
        PlacedMeans(m, groups, origin, top + excess, item);
        PopulatedGrows(m, groups, base, visible[..visibleIndex], first, contentSize + top, item);
        assert visible[..visibleIndex + 1] == visible[..visibleIndex] + [item];
        RestPlaced(m, groups, origin + top + shift, rest, visible[visibleIndex + 1..]);
        if wide { AwaitsNext(m, groups, origin + top + shift, old(visible), first, current); }
        position := position + visible[visibleIndex].size;
        visibleIndex := visibleIndex + 1;
        var next := Next(groups, current);
        if next.group == |groups| {
          more := false;
        } else {
          NextPosition(m, groups, origin, current);
          position := position + if next.group == current.group then m.gapMinor else m.gapMajor;
        }
        current := next;
      }
      if wide { AwaitsForever(m, groups, origin, old(visible), first, current, excess, contentSize); }
      PopulatedEnds(m, groups, origin, top + excess, visible[..visibleIndex], first, current, contentSize - excess);
      Truncate(visibleIndex);
      fired := false;
    }

    /**
      * `_Populate`. The check fires exactly if the search is off by something else than at the last populate, a row is
      * more than one unit high, and the walk comes to an item that is already visible. Otherwise the visible items are
      * those in view, all of them as far off as the search.
      */
    method Populate(contentSize: int) returns (fired: bool)
      requires Valid() && Sane(m)
      requires totalItemCount == 0 || forall g :: 0 <= g < |groups| ==> groups[g].itemCount > 0
      modifies `visible, `shift
      ensures fired <==> ExcessInView(m, groups, origin) != old(shift) && Stride(m) > 1
                         && CheckFires(m, groups, origin, old(visible), contentSize)
      ensures !fired ==>
        && Valid() && shift == ExcessInView(m, groups, origin)
        && (forall p | Exists(groups, p) ::
              p in Places(visible) <==> InView(m, groups, origin, contentSize - shift, p))
        && (visible != [] ==> (AllPlaced(m, groups, origin + top, visible) <==> !OvershotInView(m, groups, origin)))
    {
      hide Position, GroupStart, GroupTotal, GrandTotal, Shown, Overshot, Ordered, Placed, Precedes, Places, Reaches,
        FromAbove, AllPlaced, ItemTotal, AllPlacedAnyhow, CheckFires, OvershotInView;
      ghost var excess := ExcessInView(m, groups, origin);
      PlacedAnyhow(m, groups, origin + top + shift, visible);
      if totalItemCount == 0 {
        NoItems(groups);
        NothingPlaced(m, groups, origin + top + shift, visible);
        NothingVisible(m, groups, origin + top + excess);
        NothingFires(m, groups, origin, contentSize);
        shift := excess;
        return false;
      }
      var found, group, index, position := FindFirstVisible(m, groups, origin);
      FromAbovePlaced(m, groups, origin + top + shift, visible, if found then position else 0);
      DropAbove(if found then position else 0);
      if !found {
        Truncate(0);
        NothingVisible(m, groups, origin + top + excess);
        assert visible == [];
        NothingFirst(m, groups, origin, old(visible), contentSize);
        shift := excess;
        return false;
      }
      ExcessOfFirst(m, groups, origin, group);
      CheckFiresAt(m, groups, origin, Place(group, index), old(visible), contentSize);
      fired := PopulateFrom(Place(group, index), position, contentSize);
      if fired {
        return;
      }
      if visible != [] { PlacedOnce(m, groups, origin + top, excess, visible); }
      shift := excess;
    }

    ghost function Now(): Snapshot
      reads this
    {
      Snapshot(groups, origin, visible)
    }

    method Perform(op: Operation) returns (fired: bool)
      requires Valid() && Sane(m) && Allowed(groups, op)
      modifies this
      ensures fired <==> op.Populating? && Stride(m) > 1 && ExcessInView(m, old(groups), old(origin)) != old(shift)
                         && CheckFires(m, old(groups), old(origin), old(visible), op.contentSize)
      ensures !fired ==> Valid() && Stepped(m, old(Now()), op, Now())
      ensures !fired ==> shift == if op.Populating? then ExcessInView(m, old(groups), old(origin)) else old(shift)
    {
      hide GroupTotal, GrandTotal, ItemTotal, AllPlaced, Moved, SameItems, CheckFires, ExcessInView, InView, Places;
      fired := false;
      match op
      case Scrolling(delta) => Scroll(delta);
      case Inserting(group, first, count) => Insert(group, first, count);
      case Removing(group, first, count) => Remove(group, first, count);
      case InsertingGroup(group, hasHeader, hasFooter) => InsertGroup(group, hasHeader, hasFooter);
      case Populating(contentSize) => fired := Populate(contentSize);
    }
  }

  /** Nothing is visible where there is nothing. */
  lemma NothingPlaced(m: Metrics, groups: seq<Group>, base: int, items: seq<VisibleItem>)
    requires AllPlacedAnyhow(m, groups, base, items) && forall p :: !Exists(groups, p)
    ensures items == []
  {
    FirstExists(m, groups, base, items);
  }

  lemma FirstExists(m: Metrics, groups: seq<Group>, base: int, items: seq<VisibleItem>)
    requires AllPlacedAnyhow(m, groups, base, items)
    ensures items != [] ==> Exists(groups, PlaceOf(items[0]))
  {
  }

  lemma NothingFires(m: Metrics, groups: seq<Group>, origin: int, contentSize: int)
    ensures !CheckFires(m, groups, origin, [], contentSize)
  {
  }

  lemma NothingFirst(m: Metrics, groups: seq<Group>, origin: int, items: seq<VisibleItem>, contentSize: int)
    requires forall p | Exists(groups, p) :: !Shown(m, groups, origin, p)
    ensures !CheckFires(m, groups, origin, items, contentSize)
  {
    hide Shown;
    assert forall first :: IsFirst(m, groups, origin, first) ==> Shown(m, groups, origin, first);
  }

  lemma PlacedAnyhow(m: Metrics, groups: seq<Group>, base: int, items: seq<VisibleItem>)
    requires AllPlaced(m, groups, base, items)
    ensures AllPlacedAnyhow(m, groups, base, items)
  {
  }

  lemma NothingVisible(m: Metrics, groups: seq<Group>, base: int)
    ensures AllPlaced(m, groups, base, []) && Places([]) == {}
  {
  }

  lemma SamePosition(m: Metrics, groups: seq<Group>, origin: int, top: int, p: Place)
    requires Exists(groups, p)
    ensures Position(m, groups, origin + top, p.group, p.index) == Position(m, groups, origin, p.group, p.index) + top
  {
  }

  lemma PlacedMeans(m: Metrics, groups: seq<Group>, origin: int, top: int, item: VisibleItem)
    requires Placed(m, groups, origin + top, item)
    ensures Exists(groups, PlaceOf(item)) && item.size == ItemSize(m, groups[item.group], item.index)
    ensures item.offset == Position(m, groups, origin, item.group, item.index) + top
  {
  }

  lemma {:induction false} NoItems(groups: seq<Group>)
    requires ItemTotal(groups) == 0
    ensures forall p :: !Exists(groups, p)
  {
    forall g | 0 <= g < |groups| ensures groups[g].itemCount == 0 {
      ItemTotalAt(groups, g, groups[g]);
      assert groups == groups[..g] + [groups[g]] + groups[g + 1..];
    }
  }

  lemma PlacedIsOrdered(m: Metrics, groups: seq<Group>, base: int, items: seq<VisibleItem>)
    requires AllPlaced(m, groups, base, items)
    ensures Ordered(items)
  {
  }

  lemma EmptyGroup(m: Metrics, groups: seq<Group>, g: nat, b: Group)
    requires g <= |groups| && b.itemCount == 0
    ensures ItemTotal(groups[..g] + [b] + groups[g..]) == ItemTotal(groups)
    ensures GroupTotal(m, b) == 0
  {
    ItemTotalSplit(groups[..g] + [b], groups[g..]);
    ItemTotalSplit(groups[..g], [b]);
    ItemTotalSplit(groups[..g], groups[g..]);
    assert groups[..g] + groups[g..] == groups && [b][..0] == [];
  }

  lemma {:induction false} OffsetIgnores(m: Metrics, a: Group, b: Group, i: nat)
    requires a.itemCount == b.itemCount && a.hasHeader == b.hasHeader && a.hasFooter == b.hasFooter
    ensures Offset(m, a, i) == Offset(m, b, i)
  {
    if i > 0 { OffsetIgnores(m, a, b, i - 1); }
  }

  lemma TotalIgnoresCache(m: Metrics, b: Group, total: int)
    ensures GroupTotal(m, b.(totalSize := total)) == GroupTotal(m, b)
  {
    OffsetIgnores(m, b.(totalSize := total), b, b.itemCount);
  }

  lemma FlagIgnored(m: Metrics, groups: seq<Group>, g: nat, b: Group, base: int, items: seq<VisibleItem>)
    requires g < |groups| && b == groups[g].(initialised := true) && AllPlaced(m, groups, base, items)
    ensures GroupTotal(m, b) == GroupTotal(m, groups[g]) && AllPlaced(m, groups[g := b], base, items)
    ensures GrandTotal(m, groups[g := b]) == GrandTotal(m, groups) && ItemTotal(groups[g := b]) == ItemTotal(groups)
  {
    OffsetIgnores(m, groups[g], b, b.itemCount);
    StartChanged(m, groups, g, b, |groups|);
    ItemTotalChanged(groups, g, b);
    forall k | 0 <= k < |items| ensures Placed(m, groups[g := b], base, items[k]) {
      assert Placed(m, groups, base, items[k]);
      StartChanged(m, groups, g, b, items[k].group);
      OffsetIgnores(m, groups[g], b, items[k].index);
    }
  }

  // ----- Whole runs.

  datatype Operation =
    | Scrolling(delta: int)
    | Inserting(group: nat, first: nat, count: nat)
    | Removing(group: nat, first: nat, count: nat)
    | InsertingGroup(group: nat, hasHeader: bool, hasFooter: bool)
    | Populating(contentSize: int)

  datatype Snapshot = Snapshot(groups: seq<Group>, origin: int, visible: seq<VisibleItem>)

  /** What the operations ask of their callers. */
  predicate Allowed(groups: seq<Group>, op: Operation) {
    match op
    case Scrolling(_) => true
    case Inserting(group, first, count) =>
      && group < |groups| && groups[group].initialised && (groups[group].hasHeader ==> first > 0)
      && (groups[group].hasFooter ==> first < groups[group].itemCount)
    case Removing(group, first, count) =>
      && group < |groups| && groups[group].initialised && first + count <= groups[group].itemCount
      && (groups[group].hasHeader ==> first > 0)
      && (groups[group].hasFooter ==> first + count < groups[group].itemCount)
    case InsertingGroup(group, _, _) => group <= |groups|
    case Populating(_) => ItemTotal(groups) == 0 || forall g :: 0 <= g < |groups| ==> groups[g].itemCount > 0
  }

  /** One operation, as the clauses of the methods describe it. */
  ghost predicate Stepped(m: Metrics, s: Snapshot, op: Operation, s': Snapshot)
    requires Allowed(s.groups, op)
  {
    match op
    case Scrolling(delta) => s' == Snapshot(s.groups, s.origin - delta, ShiftFrom(s.visible, 0, -delta))
    case Inserting(group, first, count) =>
      && s'.origin == s.origin && group < |s'.groups|
      && s'.groups == s.groups[group := s.groups[group].(itemCount := s.groups[group].itemCount + count,
                                                         totalSize := GroupTotal(m, s'.groups[group]))]
      && if count == 0 then s'.visible == s.visible
         else Moved(AddItems(group, Within(s.groups[group], first), count), s.visible, s'.visible,
                    GrandTotal(m, s'.groups) - GrandTotal(m, s.groups))
    case Removing(group, first, count) =>
      && s'.origin == s.origin && group < |s'.groups|
      && s'.groups == s.groups[group := s.groups[group].(itemCount := s.groups[group].itemCount - count,
                                                         totalSize := GroupTotal(m, s'.groups[group]))]
      && if count == 0 then s'.visible == s.visible
         else Moved(RemoveItems(group, first, count), s.visible, s'.visible,
                    GrandTotal(m, s'.groups) - GrandTotal(m, s.groups))
    case InsertingGroup(group, hasHeader, hasFooter) =>
      && s'.origin == s.origin && group < |s'.groups|
      && s'.groups == s.groups[..group] + [s'.groups[group]] + s.groups[group..]
      && s'.groups[group] == Group(Extras(s'.groups[group]), GroupTotal(m, s'.groups[group]), hasHeader, hasFooter,
        true)
      && SameItems(group, s.visible, s'.visible)
    case Populating(contentSize) =>
      && s'.origin == s.origin && s'.groups == s.groups
      && forall p | Exists(s.groups, p) ::
           p in Places(s'.visible) <==>
           InView(m, s.groups, s.origin, contentSize - ExcessInView(m, s.groups, s.origin), p)
  }

  /** How far the visible items are off before operation `k`: as far as the search was at the last populate. */
  ghost function ShiftBefore(m: Metrics, ops: seq<Operation>, trace: seq<Snapshot>, k: nat): int
    requires k <= |ops| && k < |trace|
  {
    if k == 0 then 0
    else if ops[k - 1].Populating? then ExcessInView(m, trace[k - 1].groups, trace[k - 1].origin)
    else ShiftBefore(m, ops, trace, k - 1)
  }

  /** The check fires in operation `k`. */
  ghost predicate Fires(m: Metrics, ops: seq<Operation>, trace: seq<Snapshot>, k: nat)
    requires k < |ops| && k < |trace|
  {
    && ops[k].Populating? && Stride(m) > 1
    && ExcessInView(m, trace[k].groups, trace[k].origin) != ShiftBefore(m, ops, trace, k)
    && CheckFires(m, trace[k].groups, trace[k].origin, trace[k].visible, ops[k].contentSize)
  }

  /** Operation `k` has been carried out, and the check has not fired. */
  ghost predicate Performed(m: Metrics, ops: seq<Operation>, trace: seq<Snapshot>, k: nat)
    requires k < |ops| && k + 1 < |trace|
  {
    Allowed(trace[k].groups, ops[k]) && Stepped(m, trace[k], ops[k], trace[k + 1]) && !Fires(m, ops, trace, k)
  }

  /** Before operation `k`, the totals are right and every visible item is where it is said to be. */
  ghost predicate InPlace(m: Metrics, top: int, ops: seq<Operation>, trace: seq<Snapshot>, k: nat)
    requires k <= |ops| && k < |trace|
  {
    && TotalsRight(m, trace[k].groups)
    && AllPlaced(m, trace[k].groups, trace[k].origin + top + ShiftBefore(m, ops, trace, k), trace[k].visible)
  }

  /** A run up to operation `n`. */
  ghost predicate IsRun(m: Metrics, top: int, ops: seq<Operation>, trace: seq<Snapshot>, n: nat) {
    && n <= |ops| && |trace| == n + 1
    && (forall k :: 0 <= k < n ==> Performed(m, ops, trace, k))
    && (forall k :: 0 <= k <= n ==> InPlace(m, top, ops, trace, k))
  }

  lemma {:induction false} ShiftSame(m: Metrics, ops: seq<Operation>, trace: seq<Snapshot>, last: Snapshot, k: nat)
    requires k <= |ops| && k < |trace|
    ensures ShiftBefore(m, ops, trace + [last], k) == ShiftBefore(m, ops, trace, k)
  {
    if k > 0 { ShiftSame(m, ops, trace, last, k - 1); }
  }

  lemma PerformedSame(m: Metrics, ops: seq<Operation>, trace: seq<Snapshot>, last: Snapshot, k: nat)
    requires k < |ops| && k + 1 < |trace| && Performed(m, ops, trace, k)
    ensures Performed(m, ops, trace + [last], k)
  {
    hide Stepped, Allowed, CheckFires, ExcessInView, ShiftBefore;
    ShiftSame(m, ops, trace, last, k);
  }

  lemma InPlaceSame(m: Metrics, top: int, ops: seq<Operation>, trace: seq<Snapshot>, last: Snapshot, k: nat)
    requires k <= |ops| && k < |trace| && InPlace(m, top, ops, trace, k)
    ensures InPlace(m, top, ops, trace + [last], k)
  {
    hide AllPlaced, TotalsRight, ShiftBefore;
    ShiftSame(m, ops, trace, last, k);
  }

  lemma PerformedLast(m: Metrics, ops: seq<Operation>, trace: seq<Snapshot>, last: Snapshot, n: nat)
    requires n < |ops| && |trace| == n + 1 && Allowed(trace[n].groups, ops[n])
    requires Stepped(m, trace[n], ops[n], last) && !Fires(m, ops, trace, n)
    ensures Performed(m, ops, trace + [last], n)
  {
    hide Stepped, Allowed, CheckFires, ExcessInView, ShiftBefore;
    ShiftSame(m, ops, trace, last, n);
  }

  lemma RunGrows(m: Metrics, top: int, ops: seq<Operation>, trace: seq<Snapshot>, n: nat, last: Snapshot)
    requires IsRun(m, top, ops, trace, n) && n < |ops| && Allowed(trace[n].groups, ops[n])
    requires Stepped(m, trace[n], ops[n], last) && !Fires(m, ops, trace, n)
    requires InPlace(m, top, ops, trace + [last], n + 1)
    ensures IsRun(m, top, ops, trace + [last], n + 1)
  {
    hide Performed, InPlace, Stepped, Fires, Allowed;
    PerformedLast(m, ops, trace, last, n);
    forall k | 0 <= k < n ensures Performed(m, ops, trace + [last], k) { PerformedSame(m, ops, trace, last, k); }
    forall k | 0 <= k <= n ensures InPlace(m, top, ops, trace + [last], k) { InPlaceSame(m, top, ops, trace, last, k); }
  }

  /**
    * Any operations, from an empty view: the run goes on until an operation is not allowed or the check fires, and it
    * fires exactly at a populate where the search is off by something else than at the populate before, a row is more
    * than one unit high, and the walk comes to an item that is already visible.
    */
  method Run(m: Metrics, top: int, origin: int, ops: seq<Operation>)
    returns (done: nat, fired: bool, ghost trace: seq<Snapshot>)
    requires Sane(m)
    ensures IsRun(m, top, ops, trace, done) && trace[0] == Snapshot([], origin, [])
    ensures fired <==> done < |ops| && Allowed(trace[done].groups, ops[done]) && Fires(m, ops, trace, done)
    ensures !fired && done < |ops| ==> !Allowed(trace[done].groups, ops[done])
    ensures !TallFooters(m) ==> !fired
  {
    hide Stepped, AllPlaced, CheckFires, ExcessInView, Stride, Allowed, ShiftBefore, TallFooters;
    var view := new View(m, top, origin);
    done, fired, trace := 0, false, [Snapshot([], origin, [])];
    RunStarts(m, top, ops, origin);
    while done < |ops| && Allowed(view.groups, ops[done])
      invariant fresh(view) && view.m == m && view.top == top && view.Valid() && IsRun(m, top, ops, trace, done)
      invariant trace[done] == view.Now() && view.shift == ShiftBefore(m, ops, trace, done)
      invariant trace[0] == Snapshot([], origin, [])
    {
      fired := view.Perform(ops[done]);
      if fired {
        if !TallFooters(m) { OnlyTallFootersFire(m, top, ops, trace, done); }
        return;
      }
      ShiftNext(m, ops, trace, view.Now(), done);
      RunGrows(m, top, ops, trace, done, view.Now());
      trace := trace + [view.Now()];
      done := done + 1;
    }
  }

  lemma RunStarts(m: Metrics, top: int, ops: seq<Operation>, origin: int)
    ensures IsRun(m, top, ops, [Snapshot([], origin, [])], 0)
    ensures ShiftBefore(m, ops, [Snapshot([], origin, [])], 0) == 0
  {
  }

  lemma ShiftNext(m: Metrics, ops: seq<Operation>, trace: seq<Snapshot>, last: Snapshot, n: nat)
    requires n < |ops| && |trace| == n + 1
    ensures ShiftBefore(m, ops, trace + [last], n + 1) ==
            if ops[n].Populating? then ExcessInView(m, trace[n].groups, trace[n].origin)
            else ShiftBefore(m, ops, trace, n)
  {
    ShiftSame(m, ops, trace, last, n);
  }

  // ----- The metrics for which the check can fire at all.

  /** A footer is taller than a row with its gap, and a row is more than one unit high. */
  predicate TallFooters(m: Metrics) { Stride(m) > 1 && m.footerSize > Stride(m) }

  lemma FooterEnds(m: Metrics, g: Group, position: int)
    requires Sane(m) && m.footerSize <= Stride(m) && WellFormed(g) && position + GroupTotal(m, g) > 0
    ensures !Overshot(m, g, position)
  {
  }

  lemma NeverOvershot(m: Metrics, groups: seq<Group>, origin: int)
    requires Sane(m) && m.footerSize <= Stride(m) && TotalsRight(m, groups)
    ensures !OvershotInView(m, groups, origin)
  {
    hide GroupTotal, GroupStart, Overshot;
    forall g | 0 <= g < |groups| && GroupEnd(m, groups, origin, g) > 0
      ensures !Overshot(m, groups[g], origin + GroupStart(m, groups, g))
    {
      FooterEnds(m, groups[g], origin + GroupStart(m, groups, g));
    }
  }

  lemma {:induction false} NeverShifted(m: Metrics, top: int, ops: seq<Operation>, trace: seq<Snapshot>, n: nat, k: nat)
    requires Sane(m) && m.footerSize <= Stride(m) && IsRun(m, top, ops, trace, n) && k <= n
    ensures ShiftBefore(m, ops, trace, k) == 0
    decreases k
  {
    hide OvershotInView, AllPlaced, Performed, TotalsRight;
    if k > 0 {
      assert InPlace(m, top, ops, trace, k - 1);
      NeverShifted(m, top, ops, trace, n, k - 1);
      NeverOvershot(m, trace[k - 1].groups, trace[k - 1].origin);
    }
  }

  /** With other metrics it fires at no operation of any run. */
  lemma OnlyTallFootersFire(m: Metrics, top: int, ops: seq<Operation>, trace: seq<Snapshot>, n: nat)
    requires Sane(m) && !TallFooters(m) && IsRun(m, top, ops, trace, n) && n < |ops|
    ensures !Fires(m, ops, trace, n)
  {
    hide OvershotInView, AllPlaced, Performed, CheckFires, ShiftBefore, TotalsRight;
    assert InPlace(m, top, ops, trace, n);
    if m.footerSize <= Stride(m) {
      NeverShifted(m, top, ops, trace, n, n);
      NeverOvershot(m, trace[n].groups, trace[n].origin);
    }
  }

  /** A group of header and footer, and a group of one row. */
  predicate TwoGroups(groups: seq<Group>) {
    && |groups| == 2 && groups[0].itemCount == 2 && groups[0].hasHeader && groups[0].hasFooter
    && groups[1].itemCount == 1 && !groups[1].hasHeader && !groups[1].hasFooter
  }

  lemma TwoGroupsPositions(m: Metrics, groups: seq<Group>, origin: int)
    requires TwoGroups(groups)
    ensures GroupStart(m, groups, 0) == 0 && GroupTotal(m, groups[0]) == m.headerSize + m.gapMinor + m.footerSize
    ensures Offset(m, groups[0], 1) == m.headerSize + m.gapMinor
    ensures Position(m, groups, origin, 0, 0) == origin
    ensures Position(m, groups, origin, 0, 1) == origin + m.headerSize + m.gapMinor
    ensures Position(m, groups, origin, 1, 0) == origin + m.headerSize + m.gapMinor + m.footerSize + m.gapMajor
  {
    assert Offset(m, groups[0], 0) == 0 && Offset(m, groups[1], 0) == 0;
    assert Offset(m, groups[0], 1) == m.headerSize + m.gapMinor;
    assert Offset(m, groups[0], 2) == m.headerSize + m.gapMinor + m.footerSize + m.gapMinor;
    assert GroupStart(m, groups, 1) == GroupTotal(m, groups[0]) + m.gapMajor;
  }

  lemma TwoPlaces(groups: seq<Group>, p: Place)
    requires TwoGroups(groups) && Exists(groups, p)
    ensures p == Place(0, 0) || p == Place(0, 1) || p == Place(1, 0)
  {
  }

  /** With the footer one row above the viewport, the search is off, and only the row below is not above it. */
  lemma TwoGroupsOvershot(m: Metrics, groups: seq<Group>, origin: int)
    requires Sane(m) && TallFooters(m) && TwoGroups(groups) && origin == -m.headerSize - m.gapMinor - Stride(m)
    ensures OvershotInView(m, groups, origin) && IsFirst(m, groups, origin, Place(0, 1))
    ensures !OvershotInView(m, groups, 0)
  {
    TwoGroupsPositions(m, groups, origin);
    TwoGroupsPositions(m, groups, 0);
    assert GroupEnd(m, groups, origin, 0) > 0 && GroupEnd(m, groups, 0, 0) > 0;
    NotOvershotBelow(m, groups, 0, 0, 1);
    forall p | Exists(groups, p) ensures Shown(m, groups, origin, p) <==> !Precedes(p, Place(0, 1)) {
      TwoPlaces(groups, p);
    }
  }

  lemma TwoGroupsFire(m: Metrics, groups: seq<Group>, items: seq<VisibleItem>, origin: int, contentSize: int)
    requires Sane(m) && TallFooters(m) && TwoGroups(groups) && origin == -m.headerSize - m.gapMinor - Stride(m)
    requires AllPlaced(m, groups, origin, items) && Place(1, 0) in Places(items)
    requires contentSize > m.footerSize + m.gapMajor
    ensures CheckFires(m, groups, origin, items, contentSize)
  {
    hide Position, GroupStart, GroupTotal, Offset, Shown, FromAbove, OvershotInView;
    TwoGroupsOvershot(m, groups, origin);
    TwoGroupsPositions(m, groups, origin);
    var k :| 0 <= k < |items| && PlaceOf(items[k]) == Place(1, 0);
    assert Placed(m, groups, origin, items[k]);
    var j := FromAboveHead(items, 0, k);
    assert Placed(m, groups, origin, items[j]);
    TwoPlaces(groups, PlaceOf(items[j]));
    assert ReachesVisible(m, groups, origin, Place(0, 1), items, contentSize);
  }

  lemma {:induction false} FromAboveHead(items: seq<VisibleItem>, limit: int, k: nat) returns (j: nat)
    requires k < |items| && items[k].offset >= limit
    ensures j < |items| && items[j].offset >= limit && FromAbove(items, limit) != []
    ensures FromAbove(items, limit)[0] == items[j]
    decreases |items|
  {
    if items[0].offset >= limit {
      j := 0;
    } else {
      j := FromAboveHead(items[1..], limit, k - 1);
      j := j + 1;
    }
  }

  lemma {:induction false} FromAboveNone(items: seq<VisibleItem>, limit: int)
    requires forall k :: 0 <= k < |items| ==> items[k].offset < limit
    ensures FromAbove(items, limit) == []
    decreases |items|
  {
    if items != [] { FromAboveNone(items[1..], limit); }
  }

  lemma FromAboveAll(items: seq<VisibleItem>, limit: int)
    requires items != [] && items[0].offset >= limit
    ensures FromAbove(items, limit) == items
  {
  }

  /** A visible item that no other one precedes is the first of them. */
  lemma LeastIsFirst(m: Metrics, groups: seq<Group>, base: int, items: seq<VisibleItem>, first: Place)
    requires AllPlaced(m, groups, base, items) && first in Places(items)
    requires forall p | Exists(groups, p) :: p in Places(items) ==> !Precedes(p, first)
    ensures items != [] && PlaceOf(items[0]) == first && Placed(m, groups, base, items[0])
  {
    var k :| 0 <= k < |items| && PlaceOf(items[k]) == first;
    assert Placed(m, groups, base, items[0]) && PlaceOf(items[0]) in Places(items);
    OrderedFront(items, k);
  }

  lemma OrderedFront(items: seq<VisibleItem>, k: nat)
    requires Ordered(items) && k < |items|
    ensures k > 0 ==> Less(items[0], items[k])
  {
  }

  lemma RowInView(m: Metrics, groups: seq<Group>, items: seq<VisibleItem>, contentSize: int, delta: int)
    requires Sane(m) && TallFooters(m) && TwoGroups(groups)
    requires contentSize > m.headerSize + m.gapMinor + m.footerSize + m.gapMajor
    requires forall p | Exists(groups, p) :: p in Places(items) <==> InView(m, groups, 0, contentSize, p)
    ensures Place(1, 0) in Places(ShiftFrom(items, 0, delta))
  {
    TwoGroupsPositions(m, groups, 0);
    assert Exists(groups, Place(1, 0)) && InView(m, groups, 0, contentSize, Place(1, 0));
    hide InView;
    var k :| 0 <= k < |items| && PlaceOf(items[k]) == Place(1, 0);
    assert PlaceOf(ShiftFrom(items, 0, delta)[k]) == Place(1, 0);
  }

  method TwoGroupsView(m: Metrics) returns (view: View)
    ensures fresh(view) && view.Valid() && view.m == m && TwoGroups(view.groups)
    ensures view.top == 0 && view.origin == 0 && view.shift == 0
  {
    hide GroupTotal, Moved, SameItems, GrandTotal, ItemTotal, AllPlaced;
    view := new View(m, 0, 0);
    view.InsertGroup(0, true, true);
    view.InsertGroup(1, false, false);
    view.Insert(1, 0, 1);
  }

  /** With such metrics there is always a run in which it fires, where the search is off. */
  method TallFootersFire(m: Metrics) returns (fired: bool)
    requires Sane(m) && TallFooters(m)
    ensures fired
  {
    hide CheckFires, AllPlaced, OvershotInView, GrandTotal, ItemTotal, InView, IsFirst, Exists, Places, ShiftFrom,
      GroupTotal, WellFormed;
    var contentSize := m.headerSize + m.gapMinor + m.footerSize + m.gapMajor + 1;
    var delta := m.headerSize + m.gapMinor + Stride(m);
    var view := TwoGroupsView(m);
    TwoGroupsOvershot(m, view.groups, -delta);
    fired := view.Populate(contentSize);
    RowInView(m, view.groups, view.visible, contentSize, -delta);
    view.Scroll(delta);
    TwoGroupsFire(m, view.groups, view.visible, -delta, contentSize);
    fired := view.Populate(contentSize);
  }

  /** Nothing that was visible is still there when the walk begins. */
  lemma TwoGroupsSpared(m: Metrics, groups: seq<Group>, items: seq<VisibleItem>, delta: int, contentSize: int)
    requires Sane(m) && TallFooters(m) && TwoGroups(groups) && delta == m.headerSize + m.gapMinor + Stride(m)
    requires AllPlaced(m, groups, 0, items)
    requires forall p | Exists(groups, p) :: p in Places(items) <==> InView(m, groups, 0, 1, p)
    ensures !CheckFires(m, groups, -delta, ShiftFrom(items, 0, -delta), contentSize)
  {
    hide Position, GroupStart, GroupTotal, Offset, Shown, FromAbove, OvershotInView;
    var moved := ShiftFrom(items, 0, -delta);
    TwoGroupsOvershot(m, groups, -delta);
    TwoGroupsPositions(m, groups, -delta);
    TwoGroupsPositions(m, groups, 0);
    forall k | 0 <= k < |items| ensures moved[k].offset < 0 {
      assert Placed(m, groups, 0, items[k]) && PlaceOf(items[k]) in Places(items);
      TwoPlaces(groups, PlaceOf(items[k]));
      assert InView(m, groups, 0, 1, PlaceOf(items[k]));
    }
    FromAboveNone(moved, 0);
    CheckFiresAt(m, groups, -delta, Place(0, 1), moved, contentSize);
  }

  /** One unit back, the search is right, and the footer is still there, one row too low. */
  lemma TwoGroupsFireLater(m: Metrics, groups: seq<Group>, items: seq<VisibleItem>, delta: int)
    requires Sane(m) && TallFooters(m) && TwoGroups(groups) && delta == m.headerSize + m.gapMinor + Stride(m)
    requires AllPlaced(m, groups, -delta + Stride(m), items)
    requires forall p | Exists(groups, p) :: p in Places(items) <==> InView(m, groups, -delta, 1 - Stride(m), p)
    ensures CheckFires(m, groups, 1 - delta, ShiftFrom(items, 0, 1), 1) && !OvershotInView(m, groups, 1 - delta)
  {
    TwoGroupsBack(m, groups, 1 - delta);
    TwoGroupsOvershot(m, groups, -delta);
    hide Position, GroupStart, GroupTotal, Offset, Shown, FromAbove, OvershotInView, Places;
    var first, moved := Place(0, 1), ShiftFrom(items, 0, 1);
    TwoGroupsPositions(m, groups, -delta);
    TwoGroupsPositions(m, groups, -delta + Stride(m));
    TwoGroupsPositions(m, groups, 1 - delta);
    assert Exists(groups, first) && InView(m, groups, -delta, 1 - Stride(m), first);
    LeastIsFirst(m, groups, -delta + Stride(m), items, first);
    assert PlaceOf(moved[0]) == first && moved[0].offset == 1;
    FromAboveAll(moved, 1 - Stride(m));
    assert ReachesVisible(m, groups, 1 - delta, first, moved, 1);
  }

  lemma TwoGroupsBack(m: Metrics, groups: seq<Group>, origin: int)
    requires Sane(m) && TallFooters(m) && TwoGroups(groups) && origin == 1 - m.headerSize - m.gapMinor - Stride(m)
    ensures !OvershotInView(m, groups, origin) && IsFirst(m, groups, origin, Place(0, 1))
  {
    TwoGroupsPositions(m, groups, origin);
    assert GroupEnd(m, groups, origin, 0) > 0;
    NotOvershotBelow(m, groups, origin, 0, 1);
    forall p | Exists(groups, p) ensures Shown(m, groups, origin, p) <==> !Precedes(p, Place(0, 1)) {
      TwoPlaces(groups, p);
    }
  }

  /** And one in which it fires although the search is right by then: what was off is the populate before. */
  method TallFootersFireLater(m: Metrics) returns (fired: bool)
    requires Sane(m) && TallFooters(m)
    ensures fired
  {
    hide CheckFires, AllPlaced, OvershotInView, GrandTotal, ItemTotal, InView, IsFirst, Exists, Places, ShiftFrom,
      GroupTotal, WellFormed;
    var delta := m.headerSize + m.gapMinor + Stride(m);
    var view := TwoGroupsView(m);
    TwoGroupsOvershot(m, view.groups, -delta);
    fired := view.Populate(1);
    TwoGroupsSpared(m, view.groups, view.visible, delta, 1);
    view.Scroll(delta);
    fired := view.Populate(1);
    TwoGroupsFireLater(m, view.groups, view.visible, delta);
    view.Scroll(-1);
    fired := view.Populate(1);
  }

  /** Rows of 10 units and footers of 100. */
  method UnexpectedPosition() returns (fired: bool, later: bool)
    ensures fired && later
  {
    fired := TallFootersFire(Metrics(0, 0, 10, 10, 100));
    later := TallFootersFireLater(Metrics(0, 0, 10, 10, 100));
  }
}
