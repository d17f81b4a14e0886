/** The undo manager: two stacks of items whose callbacks push their own inverses, and the marks that end groups. */
module UndoManager {

  datatype Entry<I> = Entry(item: I, endOfGroup: bool)

  datatype Mode = Normal | Undoing | Redoing

  /** An item's callback, on invoke: the new document, and the items it pushes. */
  type Callback<!D, !I> = (D, I) -> (D, seq<I>)

  ghost function Opened<I>(items: seq<I>): (entries: seq<Entry<I>>)
    ensures |entries| == |items| && forall k :: 0 <= k < |items| ==> entries[k] == Entry(items[k], false)
  {
    seq(|items|, k requires 0 <= k < |items| => Entry(items[k], false))
  }

  ghost function Items<I>(entries: seq<Entry<I>>): (items: seq<I>)
    ensures |items| == |entries| && forall k :: 0 <= k < |items| ==> items[k] == entries[k].item
  {
    seq(|entries|, k requires 0 <= k < |entries| => entries[k].item)
  }

  /** The stack with its top marked. */
  function Marked<I>(stack: seq<Entry<I>>, endOfGroup: bool): seq<Entry<I>> {
    if stack == [] then [] else stack[|stack| - 1 := stack[|stack| - 1].(endOfGroup := endOfGroup)]
  }

  /** The stack is empty or its top ends a group. */
  predicate Closed<I>(stack: seq<Entry<I>>) { stack == [] || stack[|stack| - 1].endOfGroup }

  datatype Stacks<D, I> = Stacks(doc: D, from: seq<Entry<I>>, to: seq<Entry<I>>)

  /** The loop of `EsUndoInvokeGroup`. */
  ghost function Invoke<D, I>(f: Callback<D, I>, s: Stacks<D, I>, first: bool): Stacks<D, I>
    decreases |s.from|
  {
    if s.from == [] || (!first && s.from[|s.from| - 1].endOfGroup) then s else
    var (doc, pushed) := f(s.doc, s.from[|s.from| - 1].item);
    Invoke(f, Stacks(doc, s.from[..|s.from| - 1], s.to + Opened(pushed)), false)
  }

  ghost function InvokeGroup<D, I>(f: Callback<D, I>, s: Stacks<D, I>): Stacks<D, I> {
    var s' := Invoke(f, s, true);
    s'.(to := Marked(s'.to, true))
  }

  // ----- Undo, then redo.

  /** Each invoke pushes exactly one item, which takes the document back and pushes the first item again. */
  ghost predicate Reversible<D(!new), I(!new)>(f: Callback<D, I>) {
    forall d: D, i: I :: |f(d, i).1| == 1 && f(f(d, i).0, f(d, i).1[0]) == (d, [i])
  }

  /** Invoking items from the last to the first: the document, and the inverses in the order they are pushed. */
  ghost function RunDown<D, I>(f: Callback<D, I>, doc: D, items: seq<I>): (D, seq<I>)
    decreases |items|
  {
    if items == [] then (doc, []) else
    var (doc', pushed) := f(doc, items[|items| - 1]);
    var (doc'', rest) := RunDown(f, doc', items[..|items| - 1]);
    (doc'', pushed + rest)
  }

  lemma {:induction false} RunSplit<D, I>(f: Callback<D, I>, doc: D, a: seq<I>, b: seq<I>)
    ensures var (doc', below) := RunDown(f, doc, b);
            var (doc'', above) := RunDown(f, doc', a);
            RunDown(f, doc, a + b) == (doc'', below + above)
    decreases |b|
  {
    if b == [] {
      assert a + b == a;
      assert [] + RunDown(f, doc, a).1 == RunDown(f, doc, a).1;
    } else {
      var (doc', pushed) := f(doc, b[|b| - 1]);
      RunSplit(f, doc', a, b[..|b| - 1]);
      assert (a + b)[..|a + b| - 1] == a + b[..|b| - 1];
      var (d1, below) := RunDown(f, doc', b[..|b| - 1]);
      var (d2, above) := RunDown(f, d1, a);
      assert pushed + (below + above) == (pushed + below) + above;
    }
  }

  lemma RunOne<D, I>(f: Callback<D, I>, doc: D, item: I)
    ensures RunDown(f, doc, [item]) == f(doc, item)
  {
    var (doc', pushed) := f(doc, item);
    assert [item][..0] == [];
    assert RunDown(f, doc', []) == (doc', []);
    assert pushed + [] == pushed;
  }

  /** Running the inverses, in the order they lie on the other stack, takes everything back. */
  lemma {:induction false} RunBack<D(!new), I(!new)>(f: Callback<D, I>, doc: D, items: seq<I>)
    requires Reversible(f)
    ensures var (doc', inverses) := RunDown(f, doc, items);
            |inverses| == |items| && RunDown(f, doc', inverses) == (doc, items)
    decreases |items|
  {
    if items != [] {
      var last, rest := items[|items| - 1], items[..|items| - 1];
      var (doc1, pushed) := f(doc, last);
      var (doc2, inverses) := RunDown(f, doc1, rest);
      RunBack(f, doc1, rest);
      RunSplit(f, doc2, pushed, inverses);
      RunOne(f, doc1, pushed[0]);
      assert pushed == [pushed[0]];
      assert rest + [last] == items;
    }
  }

  /** Where the top group starts. */
  ghost function GroupStart<I>(stack: seq<Entry<I>>, first: bool): (k: nat)
    ensures k <= |stack| && (first && stack != [] ==> k < |stack|)
    ensures Closed(stack[..k])
    ensures forall j :: k <= j < |stack| - (if first then 1 else 0) ==> !stack[j].endOfGroup
    decreases |stack|
  {
    if stack == [] || (!first && stack[|stack| - 1].endOfGroup) then |stack| else
    assert forall j :: 0 <= j < |stack| - 1 ==> stack[..|stack| - 1][j] == stack[j];
    var k := GroupStart(stack[..|stack| - 1], false);
    assert stack[..|stack| - 1][..k] == stack[..k];
    k
  }

  predicate Stops<I>(stack: seq<Entry<I>>, first: bool) { stack == [] || (!first && stack[|stack| - 1].endOfGroup) }

  lemma GroupStartStep<I>(stack: seq<Entry<I>>, first: bool)
    ensures Stops(stack, first) ==> GroupStart(stack, first) == |stack|
    ensures !Stops(stack, first) ==> GroupStart(stack, first) == GroupStart(stack[..|stack| - 1], false)
  {
  }

  lemma InvokeStep<D, I>(f: Callback<D, I>, s: Stacks<D, I>, first: bool)
    ensures Stops(s.from, first) ==> Invoke(f, s, first) == s
    ensures !Stops(s.from, first) ==>
              var (doc, pushed) := f(s.doc, s.from[|s.from| - 1].item);
              Invoke(f, s, first) == Invoke(f, Stacks(doc, s.from[..|s.from| - 1], s.to + Opened(pushed)), false)
  {
  }

  lemma RunSnoc<D, I>(f: Callback<D, I>, doc: D, items: seq<I>, item: I)
    ensures var (doc', pushed) := f(doc, item);
            var (doc'', rest) := RunDown(f, doc', items);
            RunDown(f, doc, items + [item]) == (doc'', pushed + rest)
  {
    assert (items + [item])[..|items|] == items;
  }

  lemma OpenedJoin<I>(to: seq<Entry<I>>, a: seq<I>, b: seq<I>)
    ensures to + Opened(a) + Opened(b) == to + Opened(a + b)
  {
  }

  lemma ItemsSnoc<I>(stack: seq<Entry<I>>, k: nat)
    requires k < |stack|
    ensures Items(stack[k..]) == Items(stack[..|stack| - 1][k..]) + [stack[|stack| - 1].item]
  {
  }

  /** What running a whole part of the stack, from `k` up, leaves. */
  ghost function Popped<D, I>(f: Callback<D, I>, s: Stacks<D, I>, k: nat): Stacks<D, I>
    requires k <= |s.from|
  {
    var (doc, pushed) := RunDown(f, s.doc, Items(s.from[k..]));
    Stacks(doc, s.from[..k], s.to + Opened(pushed))
  }

  lemma PoppedNone<D, I>(f: Callback<D, I>, s: Stacks<D, I>)
    ensures Popped(f, s, |s.from|) == s
  {
    assert Items(s.from[|s.from|..]) == [] && s.to + Opened([]) == s.to && s.from[..|s.from|] == s.from;
  }

  lemma PoppedOne<D, I>(f: Callback<D, I>, s: Stacks<D, I>, k: nat)
    requires k < |s.from|
    ensures var (doc, pushed) := f(s.doc, s.from[|s.from| - 1].item);
            Popped(f, s, k) == Popped(f, Stacks(doc, s.from[..|s.from| - 1], s.to + Opened(pushed)), k)
  {
    var rest, item := s.from[..|s.from| - 1], s.from[|s.from| - 1].item;
    var (doc, pushed) := f(s.doc, item);
    hide RunDown, Items, Opened;
    ItemsSnoc(s.from, k);
    RunSnoc(f, s.doc, Items(rest[k..]), item);
    OpenedJoin(s.to, pushed, RunDown(f, doc, Items(rest[k..])).1);
    assert rest[..k] == s.from[..k];
  }

  /** Invoking pops the top group, and no more. */
  lemma {:induction false} InvokePopsGroup<D, I>(f: Callback<D, I>, s: Stacks<D, I>, first: bool)
    ensures Invoke(f, s, first) == Popped(f, s, GroupStart(s.from, first))
    decreases |s.from|
  {
    hide Popped, Invoke, GroupStart;
    InvokeStep(f, s, first);
    GroupStartStep(s.from, first);
    if Stops(s.from, first) {
      PoppedNone(f, s);
    } else {
      var (doc, pushed) := f(s.doc, s.from[|s.from| - 1].item);
      InvokePopsGroup(f, Stacks(doc, s.from[..|s.from| - 1], s.to + Opened(pushed)), false);
      PoppedOne(f, s, GroupStart(s.from, first));
    }
  }

  lemma {:induction false} GroupAboveRest<I>(stack: seq<Entry<I>>, group: seq<Entry<I>>)
    requires Closed(stack) && forall j :: 0 <= j < |group| ==> !group[j].endOfGroup
    ensures GroupStart(stack + group, false) == |stack|
  {
    if group == [] {
      assert stack + group == stack;
    } else {
      GroupAboveRest(stack, group[..|group| - 1]);
      assert (stack + group)[..|stack + group| - 1] == stack + group[..|group| - 1];
    }
  }

  lemma GroupAbove<I>(stack: seq<Entry<I>>, group: seq<Entry<I>>)
    requires Closed(stack) && group != [] && forall j :: 0 <= j < |group| - 1 ==> !group[j].endOfGroup
    ensures GroupStart(stack + group, true) == |stack|
  {
    GroupAboveRest(stack, group[..|group| - 1]);
    assert (stack + group)[..|stack + group| - 1] == stack + group[..|group| - 1];
  }

  /** How many groups there are. */
  ghost function Groups<I>(stack: seq<Entry<I>>): nat
    decreases |stack|
  {
    if stack == [] then 0 else 1 + Groups(stack[..GroupStart(stack, true)])
  }

  /** A group invoked leaves its inverses as one closed group on top of the other stack. */
  lemma InvokedGroup<D(!new), I(!new)>(f: Callback<D, I>, s: Stacks<D, I>) returns (group: seq<I>, inverses: seq<I>)
    requires Reversible(f) && s.from != [] && Closed(s.to)
    ensures var k, s' := GroupStart(s.from, true), InvokeGroup(f, s);
            && group == Items(s.from[k..]) && inverses != []
            && RunDown(f, s.doc, group) == (s'.doc, inverses) && RunDown(f, s'.doc, inverses) == (s.doc, group)
            && s' == Stacks(s'.doc, s.from[..k], s.to + Marked(Opened(inverses), true))
            && Closed(s'.from) && Closed(s'.to) && GroupStart(s'.to, true) == |s.to|
  {
    InvokePopsGroup(f, s, true);
    var k := GroupStart(s.from, true);
    group := Items(s.from[k..]);
    var (doc', pushed) := RunDown(f, s.doc, group);
    inverses := pushed;
    RunBack(f, s.doc, group);
    GroupStartBelow(s.from);
    hide RunDown, GroupStart, Invoke, Reversible, Opened, Items, Closed, Marked;
    InversesOnTop(s.to, inverses);
  }

  lemma GroupStartBelow<I>(stack: seq<Entry<I>>)
    requires stack != []
    ensures GroupStart(stack, true) < |stack| && Closed(stack[..GroupStart(stack, true)])
  {
  }

  lemma InversesOnTop<I>(to: seq<Entry<I>>, inverses: seq<I>)
    requires inverses != [] && Closed(to)
    ensures var to' := Marked(to + Opened(inverses), true);
            to' == to + Marked(Opened(inverses), true) && Closed(to') && GroupStart(to', true) == |to|
  {
    GroupAbove(to, Marked(Opened(inverses), true));
    hide GroupStart;
    assert Marked(to + Opened(inverses), true) == to + Marked(Opened(inverses), true);
  }

  /** Onto a closed stack: undoing a group and redoing it restores everything, except that the group ends up closed. */
  lemma UndoRedo<D(!new), I(!new)>(f: Callback<D, I>, s: Stacks<D, I>)
    requires Reversible(f) && s.from != [] && Closed(s.to)
    ensures var t := InvokeGroup(f, Swapped(InvokeGroup(f, s)));
            && t == Stacks(s.doc, s.to, Marked(s.from, true))
            && (t == Swapped(s) <==> s.from[|s.from| - 1].endOfGroup)
  {
    hide RunDown, GroupStart, Reversible, InvokeGroup, Items, Opened, Marked, Closed;
    var group, inverses := InvokedGroup(f, s);
    var s1 := InvokeGroup(f, s);
    InverseGroup(s.to, inverses);
    var group', inverses' := InvokedGroup(f, Swapped(s1));
    GroupRestored(s.from, GroupStart(s.from, true), group);
    MarkedSame(s.from);
  }

  /** Onto an open stack: the inverses join the group that was open there, and redoing takes that group along. */
  lemma OpenJoins<I>(to: seq<Entry<I>>, inverses: seq<I>)
    requires !Closed(to)
    ensures GroupStart(Marked(to + Opened(inverses), true), true) < |to|
  {
    var stack := Marked(to + Opened(inverses), true);
    var k := GroupStart(stack, true);
    assert Closed(stack[..k]);
  }

  /**
    * Undoing a group and redoing it restores the document, both stacks and all marks, exactly when the group was closed
    * and so was the top group of the other stack.
    */
  lemma UndoRedoIff<D(!new), I(!new)>(f: Callback<D, I>, s: Stacks<D, I>)
    requires Reversible(f) && s.from != []
    ensures InvokeGroup(f, Swapped(InvokeGroup(f, s))) == Swapped(s) <==>
            s.from[|s.from| - 1].endOfGroup && Closed(s.to)
  {
    if Closed(s.to) {
      UndoRedo(f, s);
    } else {
      var s1 := InvokeGroup(f, s);
      InvokePopsGroup(f, s, true);
      InvokePopsGroup(f, Swapped(s1), true);
      OpenJoins(s.to, RunDown(f, s.doc, Items(s.from[GroupStart(s.from, true)..])).1);
    }
  }

  /** A group that was left open comes back closed. */
  lemma OpenGroupExample(item: nat)
    ensures var f := (d: nat, i: nat) => (d, [i]);
            var s := Stacks(0, [Entry(item, false)], []);
            Reversible(f) && InvokeGroup(f, Swapped(InvokeGroup(f, s))) == Stacks(0, [], [Entry(item, true)])
  {
    var f := (d: nat, i: nat) => (d, [i]);
    var s := Stacks(0, [Entry(item, false)], []);
    UndoRedo(f, s);
    assert Marked(s.from, true) == [Entry(item, true)];
  }

  lemma InverseGroup<I>(to: seq<Entry<I>>, inverses: seq<I>)
    requires inverses != []
    ensures var to' := to + Marked(Opened(inverses), true);
            |to| < |to'| && to'[..|to|] == to && Items(to'[|to|..]) == inverses
  {
    var above := Marked(Opened(inverses), true);
    assert (to + above)[|to|..] == above;
    assert Items(above) == inverses;
  }

  lemma MarkedSame<I>(stack: seq<Entry<I>>)
    requires stack != []
    ensures Marked(stack, true) == stack <==> stack[|stack| - 1].endOfGroup
  {
    assert Marked(stack, true)[|stack| - 1].endOfGroup;
  }

  lemma GroupRestored<I>(stack: seq<Entry<I>>, k: nat, group: seq<I>)
    requires k < |stack| && group == Items(stack[k..])
    requires forall j :: k <= j < |stack| - 1 ==> !stack[j].endOfGroup
    ensures stack[..k] + Marked(Opened(group), true) == Marked(stack, true)
  {
  }

  ghost function Swapped<D, I>(s: Stacks<D, I>): Stacks<D, I> { Stacks(s.doc, s.to, s.from) }

  /** Invoking group after group. */
  ghost function Times<D, I>(f: Callback<D, I>, s: Stacks<D, I>, n: nat): Stacks<D, I>
    decreases n
  {
    if n == 0 || s.from == [] then s else Times(f, InvokeGroup(f, s), n - 1)
  }

  lemma {:induction false} TimesGroups<D(!new), I(!new)>(f: Callback<D, I>, s: Stacks<D, I>, n: nat)
    requires Reversible(f) && Closed(s.to) && n <= Groups(s.from)
    ensures Groups(Times(f, s, n).to) == Groups(s.to) + n
    decreases n
  {
    hide RunDown, GroupStart, Reversible, InvokeGroup, Opened, Items;
    if n > 0 {
      var group, inverses := InvokedGroup(f, s);
      var s1 := InvokeGroup(f, s);
      assert s1.to[..|s.to|] == s.to;
      TimesGroups(f, s1, n - 1);
    }
  }

  lemma {:induction false} OnceMore<D(!new), I(!new)>(f: Callback<D, I>, s: Stacks<D, I>, n: nat)
    requires Reversible(f) && Closed(s.to) && n < Groups(s.from)
    ensures Times(f, s, n).from != [] && Times(f, s, n + 1) == InvokeGroup(f, Times(f, s, n))
    decreases n
  {
    hide RunDown, GroupStart, Reversible, InvokeGroup, Opened, Items;
    if n > 0 {
      var group, inverses := InvokedGroup(f, s);
      OnceMore(f, InvokeGroup(f, s), n - 1);
    }
  }

  lemma {:induction false} TimesClosed<D(!new), I(!new)>(f: Callback<D, I>, s: Stacks<D, I>, n: nat)
    requires Reversible(f) && Closed(s.to) && 0 < n <= Groups(s.from)
    ensures Closed(Times(f, s, n).from) && Closed(Times(f, s, n).to)
    decreases n
  {
    hide RunDown, GroupStart, Reversible, InvokeGroup, Opened, Items;
    var group, inverses := InvokedGroup(f, s);
    if n > 1 { TimesClosed(f, InvokeGroup(f, s), n - 1); }
  }

  /** Any number of undos followed by as many redos restores everything, except that the top group ends up closed. */
  lemma {:induction false} UndosRedos<D(!new), I(!new)>(f: Callback<D, I>, s: Stacks<D, I>, n: nat)
    requires Reversible(f) && Closed(s.to) && n <= Groups(s.from)
    ensures Swapped(Times(f, Swapped(Times(f, s, n)), n)) == if n == 0 then s else s.(from := Marked(s.from, true))
    decreases n
  {
    hide RunDown, GroupStart, Reversible, InvokeGroup, Opened, Items;
    if n > 0 {
      var s1 := InvokeGroup(f, s);
      var group, inverses := InvokedGroup(f, s);
      UndoRedo(f, s);
      UndosRedos(f, s1, n - 1);
      assert Marked(s1.from, true) == s1.from;
      TimesGroups(f, s, n);
      TimesClosed(f, s, n);
      OnceMore(f, Swapped(Times(f, s, n)), n - 1);
    }
  }

  // ----- The manager.

  ghost function Bag<I>(stack: seq<Entry<I>>): multiset<I> { multiset(Items(stack)) }

  lemma BagSnoc<I>(stack: seq<Entry<I>>, entry: Entry<I>)
    ensures Bag(stack + [entry]) == Bag(stack) + multiset{entry.item}
  {
    assert Items(stack + [entry]) == Items(stack) + [entry.item];
  }

  lemma BagTop<I>(stack: seq<Entry<I>>)
    requires stack != []
    ensures Bag(stack) == Bag(stack[..|stack| - 1]) + multiset{stack[|stack| - 1].item}
  {
    BagSnoc(stack[..|stack| - 1], stack[|stack| - 1]);
    assert stack == stack[..|stack| - 1] + [stack[|stack| - 1]];
  }

  lemma BagMarked<I>(stack: seq<Entry<I>>, endOfGroup: bool)
    ensures Bag(Marked(stack, endOfGroup)) == Bag(stack)
  {
    assert Items(Marked(stack, endOfGroup)) == Items(stack);
  }

  class Manager<D(!new), I(!new, ==)> {
    const f: Callback<D, I>
    var doc: D
    var undoStack: seq<Entry<I>>
    var redoStack: seq<Entry<I>>
    var mode: Mode
    /** Every item pushed so far, and every item invoked or cancelled so far. */
    ghost var pushed: multiset<I>
    ghost var consumed: multiset<I>

    /** Each item pushed is on one stack, once, or has been consumed, once. */
    ghost predicate Conserved()
      reads this
    {
      Bag(undoStack) + Bag(redoStack) + consumed == pushed
    }

    /** Between calls the redo stack holds whole groups. */
    ghost predicate Valid()
      reads this
    {
      Conserved() && mode == Normal && Closed(redoStack)
    }

    constructor (f: Callback<D, I>, doc: D)
      ensures Valid() && undoStack == [] && redoStack == [] && this.f == f && this.doc == doc
    {
      this.f, this.doc := f, doc;
      undoStack, redoStack, mode := [], [], Normal;
      pushed, consumed := multiset{}, multiset{};
    }

    /** `EsUndoPop`: cancels the top item of the stack that pushes go to. */
    method Pop()
      requires Conserved() && (if mode == Undoing then redoStack else undoStack) != []
      modifies `undoStack, `redoStack, `consumed
      ensures Conserved()
      ensures if mode == Undoing
              then redoStack == old(redoStack)[..|old(redoStack)| - 1] && undoStack == old(undoStack)
                   && consumed == old(consumed) + multiset{old(redoStack)[|old(redoStack)| - 1].item}
              else undoStack == old(undoStack)[..|old(undoStack)| - 1] && redoStack == old(redoStack)
                   && consumed == old(consumed) + multiset{old(undoStack)[|old(undoStack)| - 1].item}
    {
      hide Bag;
      if mode == Undoing {
        BagTop(redoStack);
        consumed := consumed + multiset{redoStack[|redoStack| - 1].item};
        redoStack := redoStack[..|redoStack| - 1];
      } else {
        BagTop(undoStack);
        consumed := consumed + multiset{undoStack[|undoStack| - 1].item};
        undoStack := undoStack[..|undoStack| - 1];
      }
    }

    method Clear()
      requires Conserved()
      modifies `undoStack, `redoStack, `consumed
      ensures Conserved()
      ensures if mode == Undoing then redoStack == [] && undoStack == old(undoStack)
              else undoStack == [] && redoStack == old(redoStack)
    {
      while (if mode == Undoing then redoStack else undoStack) != []
        invariant Conserved()
        invariant if mode == Undoing then undoStack == old(undoStack) else redoStack == old(redoStack)
        decreases |if mode == Undoing then redoStack else undoStack|
      {
        Pop();
      }
    }

    method Push(item: I)
      requires Conserved()
      modifies `undoStack, `redoStack, `mode, `pushed, `consumed
      ensures Conserved() && mode == old(mode) && pushed == old(pushed) + multiset{item}
      ensures mode == Undoing ==> redoStack == old(redoStack) + [Entry(item, false)] && undoStack == old(undoStack)
      ensures mode != Undoing ==> undoStack == old(undoStack) + [Entry(item, false)]
      ensures mode == Normal ==> redoStack == []
      ensures mode == Redoing ==> redoStack == old(redoStack)
      ensures mode != Normal ==> consumed == old(consumed)
    {
      hide Bag;
      pushed := pushed + multiset{item};
      if mode == Undoing {
        BagSnoc(redoStack, Entry(item, false));
        redoStack := redoStack + [Entry(item, false)];
      } else {
        BagSnoc(undoStack, Entry(item, false));
        undoStack := undoStack + [Entry(item, false)];
      }
      if mode == Normal {
        mode := Undoing;
        Clear();
        mode := Normal;
      }
    }

    method ContinueGroup()
      requires Valid()
      modifies `undoStack
      ensures Valid() && undoStack == Marked(old(undoStack), false)
    {
      BagMarked(undoStack, false);
      undoStack := Marked(undoStack, false);
    }

    method EndGroup()
      requires Valid()
      modifies `undoStack
      ensures Valid() && undoStack == Marked(old(undoStack), true)
    {
      BagMarked(undoStack, true);
      undoStack := Marked(undoStack, true);
    }

    /** The stacks as the invoke loop sees them. */
    ghost function Facing(redo: bool): Stacks<D, I>
      reads this
    {
      if redo then Stacks(doc, redoStack, undoStack) else Stacks(doc, undoStack, redoStack)
    }

    /** The callback runs with the item still on its stack, and what it pushes goes to the other one. */
    method Callback(item: I, redo: bool)
      requires Conserved() && mode == if redo then Redoing else Undoing
      modifies `doc, `undoStack, `redoStack, `mode, `pushed, `consumed
      ensures Conserved() && mode == old(mode) && consumed == old(consumed)
      ensures Facing(redo) == Stacks(f(old(doc), item).0, old(Facing(redo)).from,
              old(Facing(redo)).to + Opened(f(old(doc), item).1))
    {
      var (doc', items) := f(doc, item);
      doc := doc';
      var i := 0;
      while i < |items|
        invariant i <= |items| && Conserved() && mode == old(mode) && consumed == old(consumed)
        invariant Facing(redo) == Stacks(doc', old(Facing(redo)).from, old(Facing(redo)).to + Opened(items[..i]))
      {
        OpenedNext(old(Facing(redo)).to, items, i);
        Push(items[i]);
        i := i + 1;
      }
      assert items[..i] == items;
    }

    /** Invokes the top item and takes it off its stack. */
    method InvokeItem(redo: bool)
      requires Conserved() && Facing(redo).from != [] && mode == if redo then Redoing else Undoing
      modifies `doc, `undoStack, `redoStack, `mode, `pushed, `consumed
      ensures Conserved() && mode == old(mode)
      ensures var s := old(Facing(redo));
              var (doc', items) := f(s.doc, s.from[|s.from| - 1].item);
              Facing(redo) == Stacks(doc', s.from[..|s.from| - 1], s.to + Opened(items))
    {
      hide Bag, Opened, Conserved;
      var stack := if redo then redoStack else undoStack;
      Callback(stack[|stack| - 1].item, redo);
      TakeOff(redo);
    }

    /** Takes the top item off the stack it was invoked from. */
    method TakeOff(redo: bool)
      requires Conserved() && Facing(redo).from != []
      modifies `undoStack, `redoStack, `consumed
      ensures Conserved() && Facing(redo) ==
              old(Facing(redo)).(from := old(Facing(redo)).from[..|old(Facing(redo)).from| - 1])
    {
      hide Bag;
      var stack := if redo then redoStack else undoStack;
      BagTop(stack);
      consumed := consumed + multiset{stack[|stack| - 1].item};
      if redo {
        redoStack := stack[..|stack| - 1];
      } else {
        undoStack := stack[..|stack| - 1];
      }
    }

    /**
      * `EsUndoInvokeGroup`. The assertion at its end holds exactly if the other stack is not empty then; `ok` says so.
      */
    method InvokeTop(redo: bool) returns (ok: bool)
      requires Valid() && (if redo then redoStack else undoStack) != []
      modifies `doc, `undoStack, `redoStack, `mode, `pushed, `consumed
      ensures Conserved() && (ok <==> Invoke(f, old(Facing(redo)), true).to != [])
      ensures ok ==> Valid() && Facing(redo) == InvokeGroup(f, old(Facing(redo)))
    {
      hide Conserved, Opened, Invoke;
      ghost var start := Facing(redo);
      BeginInvoke(redo);
      var first := true;
      while (if redo then redoStack else undoStack) != []
        invariant Conserved() && mode == (if redo then Redoing else Undoing)
        invariant Invoke(f, start, true) == Invoke(f, Facing(redo), first)
        decreases |Facing(redo).from|
      {
        InvokeStep(f, Facing(redo), first);
        var stack := if redo then redoStack else undoStack;
        if !first && stack[|stack| - 1].endOfGroup { break; }
        first := false;
        InvokeItem(redo);
      }
      InvokeStep(f, Facing(redo), first);
      InvokeCloses(f, start);
      ok := (if redo then undoStack else redoStack) != [];
      if ok {
        EndInvoke(redo);
      }
    }

    method BeginInvoke(redo: bool)
      requires Conserved()
      modifies `mode
      ensures Conserved() && mode == if redo then Redoing else Undoing
    {
      mode := if redo then Redoing else Undoing;
    }

    method EndInvoke(redo: bool)
      requires Conserved() && Facing(redo).to != [] && Closed(Facing(redo).from)
      modifies `undoStack, `redoStack, `mode
      ensures Valid() && Facing(redo) == old(Facing(redo)).(to := Marked(old(Facing(redo)).to, true))
    {
      hide Bag;
      if redo {
        BagMarked(undoStack, true);
        undoStack := Marked(undoStack, true);
      } else {
        BagMarked(redoStack, true);
        redoStack := Marked(redoStack, true);
      }
      mode := Normal;
    }
  }

  lemma OpenedNext<I>(to: seq<Entry<I>>, items: seq<I>, i: nat)
    requires i < |items|
    ensures to + Opened(items[..i + 1]) == to + Opened(items[..i]) + [Entry(items[i], false)]
  {
  }

  /** The other stack ends up empty only if it was empty and no callback of the group pushed anything. */
  lemma PushedSome<D, I>(f: Callback<D, I>, s: Stacks<D, I>)
    ensures Invoke(f, s, true).to != [] <==>
            s.to != [] || RunDown(f, s.doc, Items(s.from[GroupStart(s.from, true)..])).1 != []
  {
    InvokePopsGroup(f, s, true);
  }

  /** Invoking a group leaves whole groups behind. */
  lemma InvokeCloses<D, I>(f: Callback<D, I>, s: Stacks<D, I>)
    ensures Closed(Invoke(f, s, true).from)
  {
    InvokePopsGroup(f, s, true);
    hide RunDown, Invoke;
    assert Closed(s.from[..GroupStart(s.from, true)]);
  }
}
