/** The inspector's flat list of a window's elements, kept up to date as elements come and go. */
module Inspector {

  import opened Options

  datatype Tree = Node(id: nat, children: seq<Tree>)

  datatype Entry = Entry(element: nat, depth: nat)

  /** The walk of `InspectorFindElementsRecursively`. */
  ghost function Preorder(t: Tree, depth: nat): (list: seq<Entry>)
    ensures |list| > 0 && list[0] == Entry(t.id, depth)
    decreases t
  {
    [Entry(t.id, depth)] + PreorderAll(t.children, depth + 1)
  }

  ghost function PreorderAll(ts: seq<Tree>, depth: nat): seq<Entry>
    decreases ts
  {
    if ts == [] then [] else PreorderAll(ts[..|ts| - 1], depth) + Preorder(ts[|ts| - 1], depth)
  }

  // ----- Places in the tree.

  predicate IsPath(t: Tree, path: seq<nat>) {
    path == [] || (path[0] < |t.children| && IsPath(t.children[path[0]], path[1..]))
  }

  function Sub(t: Tree, path: seq<nat>): Tree
    requires IsPath(t, path)
  {
    if path == [] then t else Sub(t.children[path[0]], path[1..])
  }

  function Replace(t: Tree, path: seq<nat>, s: Tree): Tree
    requires IsPath(t, path)
  {
    if path == [] then s
    else Node(t.id, t.children[path[0] := Replace(t.children[path[0]], path[1..], s)])
  }

  /** The place of an element's parent; the window has none. */
  function ParentOf(path: seq<nat>): Option<seq<nat>> {
    if path == [] then None else Some(path[..|path| - 1])
  }

  /** The parent's place is that of an element which has the element as a child. */
  lemma {:induction false} ParentHolds(t: Tree, path: seq<nat>)
    requires IsPath(t, path) && path != []
    ensures var up := ParentOf(path).value;
            && IsPath(t, up) && path[|path| - 1] < |Sub(t, up).children|
            && Sub(t, up).children[path[|path| - 1]] == Sub(t, path)
  {
    if |path| > 1 {
      ParentHolds(t.children[path[0]], path[1..]);
      assert path[1..][..|path| - 2] == path[..|path| - 1][1..];
    }
  }

  function WithChild(t: Tree, k: nat, child: Tree): Tree
    requires k <= |t.children|
  {
    Node(t.id, t.children[..k] + [child] + t.children[k..])
  }

  function WithoutChild(t: Tree, k: nat): Tree
    requires k < |t.children|
  {
    Node(t.id, t.children[..k] + t.children[k + 1..])
  }

  // ----- The walk and its parts.

  lemma WalkSnoc(ts: seq<Tree>, t: Tree, depth: nat)
    ensures PreorderAll(ts + [t], depth) == PreorderAll(ts, depth) + Preorder(t, depth)
  {
    assert (ts + [t])[..|ts|] == ts;
  }

  lemma Associate(a: seq<Entry>, b: seq<Entry>, c: seq<Entry>)
    ensures (a + b) + c == a + (b + c)
  {
  }

  lemma {:induction false} WalkSplit(a: seq<Tree>, b: seq<Tree>, depth: nat)
    ensures PreorderAll(a + b, depth) == PreorderAll(a, depth) + PreorderAll(b, depth)
  {
    if b == [] {
      assert a + b == a && PreorderAll(b, depth) == [];
    } else {
      var rest, last := b[..|b| - 1], b[|b| - 1];
      WalkSplit(a, rest, depth);
      hide PreorderAll, Preorder;
      WalkSnoc(rest, last, depth);
      WalkSnoc(a + rest, last, depth);
      assert b == rest + [last] && a + b == (a + rest) + [last];
      Associate(PreorderAll(a, depth), PreorderAll(rest, depth), Preorder(last, depth));
    }
  }

  lemma WalkOne(t: Tree, depth: nat)
    ensures PreorderAll([t], depth) == Preorder(t, depth)
  {
    assert [t][..0] == [];
  }

  lemma WalkAround(ts: seq<Tree>, k: nat, t: Tree, depth: nat)
    requires k <= |ts|
    ensures PreorderAll(ts[..k] + [t] + ts[k..], depth) ==
            PreorderAll(ts[..k], depth) + Preorder(t, depth) + PreorderAll(ts[k..], depth)
  {
    WalkSplit(ts[..k] + [t], ts[k..], depth);
    WalkSplit(ts[..k], [t], depth);
    WalkOne(t, depth);
  }

  lemma {:induction false} WalkStarts(ts: seq<Tree>, depth: nat)
    requires ts != []
    ensures PreorderAll(ts, depth) != [] && PreorderAll(ts, depth)[0].depth == depth
  {
    if |ts| > 1 { WalkStarts(ts[..|ts| - 1], depth); } else { WalkOne(ts[0], depth); assert ts == [ts[0]]; }
  }

  lemma WalkDeep(t: Tree, depth: nat)
    ensures forall i :: 0 < i < |Preorder(t, depth)| ==> Preorder(t, depth)[i].depth > depth
    decreases t, 0
  {
    WalkDeepAll(t.children, depth + 1);
  }

  lemma WalkDeepAll(ts: seq<Tree>, depth: nat)
    ensures forall i :: 0 <= i < |PreorderAll(ts, depth)| ==> PreorderAll(ts, depth)[i].depth >= depth
    decreases ts, 0
  {
    if ts != [] {
      WalkDeepAll(ts[..|ts| - 1], depth);
      WalkDeep(ts[|ts| - 1], depth);
    }
  }

  lemma Regroup<T>(e: seq<T>, a: seq<T>, p: seq<T>, x: seq<T>, q: seq<T>, b: seq<T>)
    ensures e + (a + (p + x + q) + b) == (e + a + p) + x + (q + b)
  {
  }

  /**
    * A subtree's walk is one piece of the whole walk, whatever stands there, and what follows is no deeper than its
    * root.
    */
  lemma {:induction false} Context(t: Tree, path: seq<nat>, s: Tree, depth: nat)
    returns (pre: seq<Entry>, post: seq<Entry>)
    requires IsPath(t, path)
    ensures Preorder(t, depth) == pre + Preorder(Sub(t, path), depth + |path|) + post
    ensures Preorder(Replace(t, path, s), depth) == pre + Preorder(s, depth + |path|) + post
    ensures post != [] ==> post[0].depth <= depth + |path|
    decreases path
  {
    hide PreorderAll;
    if path == [] {
      pre, post := [], [];
    } else {
      var k, ch := path[0], t.children;
      var pre', post' := Context(ch[k], path[1..], s, depth + 1);
      var rest := ch[..k] + ch[k + 1..];
      assert rest[..k] == ch[..k] && rest[k..] == ch[k + 1..];
      WalkAround(rest, k, ch[k], depth + 1);
      WalkAround(rest, k, Replace(ch[k], path[1..], s), depth + 1);
      assert ch == rest[..k] + [ch[k]] + rest[k..];
      assert Replace(t, path, s).children == rest[..k] + [Replace(ch[k], path[1..], s)] + rest[k..];
      var e, a, b := [Entry(t.id, depth)], PreorderAll(rest[..k], depth + 1), PreorderAll(rest[k..], depth + 1);
      pre, post := e + a + pre', post' + b;
      Regroup(e, a, pre', Preorder(Sub(t, path), depth + |path|), post', b);
      Regroup(e, a, pre', Preorder(s, depth + |path|), post', b);
      if rest[k..] != [] { WalkStarts(rest[k..], depth + 1); } else { NoWalk(rest[k..], depth + 1); }
    }
  }

  /**
    * Within its parent's walk, a new leaf's entry comes after the parent, or after the subtree of the sibling before
    * it.
    */
  lemma LeafInNode(s: Tree, k: nat, id: nat, depth: nat) returns (pre: seq<Entry>, mid: seq<Entry>, post: seq<Entry>)
    requires k <= |s.children|
    ensures Preorder(s, depth) == pre + mid + post
    ensures Preorder(WithChild(s, k, Node(id, [])), depth) == pre + (mid + [Entry(id, depth + 1)]) + post
    ensures mid == Preorder(if k == 0 then Node(s.id, []) else s.children[k - 1], if k == 0 then depth else depth + 1)
    ensures k > 0 && post != [] ==> post[0].depth <= depth + 1
  {
    hide PreorderAll;
    var d, leaf, root := depth + 1, Node(id, []), [Entry(s.id, depth)];
    WalkAround(s.children, k, leaf, d);
    WalkSplit(s.children[..k], s.children[k..], d);
    assert s.children == s.children[..k] + s.children[k..];
    LeafWalk(id, d);
    post := PreorderAll(s.children[k..], d);
    if k == 0 {
      NoWalk(s.children[..0], d);
      LeafWalk(s.id, depth);
      pre, mid := [], root;
    } else {
      WalkSnoc(s.children[..k - 1], s.children[k - 1], d);
      assert s.children[..k] == s.children[..k - 1] + [s.children[k - 1]];
      var elder := PreorderAll(s.children[..k - 1], d);
      pre, mid := root + elder, Preorder(s.children[k - 1], d);
      LeafJoins(root, elder, mid, [Entry(id, d)], post);
      if s.children[k..] != [] { WalkStarts(s.children[k..], d); } else { NoWalk(s.children[k..], d); }
    }
  }

  lemma LeafJoins<T>(root: seq<T>, elder: seq<T>, mid: seq<T>, leaf: seq<T>, post: seq<T>)
    ensures root + (elder + mid + post) == (root + elder) + mid + post
    ensures root + (elder + mid + leaf + post) == (root + elder) + (mid + leaf) + post
  {
  }

  lemma Nested<T>(before: seq<T>, pre: seq<T>, mid: seq<T>, post: seq<T>, after: seq<T>)
    ensures before + (pre + mid + post) + after == (before + pre) + mid + (post + after)
  {
  }

  /**
    * Adding a leaf anywhere adds one entry to the walk, right after that of the parent or of the subtree of the sibling
    * before.
    */
  lemma LeafAdded(t: Tree, path: seq<nat>, k: nat, id: nat) returns (pre: seq<Entry>, mid: seq<Entry>, post: seq<Entry>)
    requires IsPath(t, path) && k <= |Sub(t, path).children|
    ensures var s := Sub(t, path);
            && Preorder(t, 0) == pre + mid + post
            && Preorder(Replace(t, path, WithChild(s, k, Node(id, []))), 0) ==
              pre + (mid + [Entry(id, |path| + 1)]) + post
            && mid == Preorder(if k == 0 then Node(s.id, []) else s.children[k - 1],
                               if k == 0 then |path| else |path| + 1)
            && (k > 0 && post != [] ==> post[0].depth <= |path| + 1)
  {
    hide Preorder, PreorderAll;
    var s := Sub(t, path);
    var before, after := Context(t, path, WithChild(s, k, Node(id, [])), 0);
    var a, m, b := LeafInNode(s, k, id, |path|);
    pre, mid, post := before + a, m, b + after;
    Nested(before, a, m, b, after);
    Nested(before, a, m + [Entry(id, |path| + 1)], b, after);
  }

  lemma LeafWalk(id: nat, depth: nat)
    ensures Preorder(Node(id, []), depth) == [Entry(id, depth)]
  {
  }

  lemma NoWalk(ts: seq<Tree>, depth: nat)
    requires ts == []
    ensures PreorderAll(ts, depth) == []
  {
  }

  // ----- The list.

  ghost predicate Distinct(list: seq<Entry>) {
    forall i, j :: 0 <= i < j < |list| ==> list[i].element != list[j].element
  }

  ghost predicate Mentions(list: seq<Entry>, id: nat) { exists i :: 0 <= i < |list| && list[i].element == id }

  /** The element that an index names. */
  ghost function Named(list: seq<Entry>, selected: int): Option<nat>
    requires -1 <= selected < |list|
  {
    if selected == -1 then None else Some(list[selected].element)
  }

  /** The run of entries behind which a child with index `k` goes. */
  ghost predicate RunFor(parent: Tree, k: nat, mid: seq<Entry>, post: seq<Entry>)
    requires k <= |parent.children|
  {
    && mid != [] && mid[0].element == (if k == 0 then parent.id else parent.children[k - 1].id)
    && if k == 0 then |mid| == 1
       else && (forall i :: 0 < i < |mid| ==> mid[i].depth > mid[0].depth)
            && (post != [] ==> post[0].depth <= mid[0].depth)
  }

  /** The list without the entries of an element. */
  ghost function Unlisted(list: seq<Entry>, id: nat): seq<Entry> {
    if list == [] then [] else (if list[0].element == id then [] else [list[0]]) + Unlisted(list[1..], id)
  }

  lemma {:induction false} UnlistedSame(list: seq<Entry>, id: nat)
    requires !Mentions(list, id)
    ensures Unlisted(list, id) == list
    decreases |list|
  {
    if list != [] { UnlistedSame(list[1..], id); }
  }

  lemma {:induction false} UnlistedIs(left: seq<Entry>, entry: Entry, right: seq<Entry>)
    requires Distinct(left + [entry] + right)
    ensures Unlisted(left + [entry] + right, entry.element) == left + right
    decreases |left|
  {
    var list := left + [entry] + right;
    if left == [] {
      assert list[1..] == right;
      forall i | 0 <= i < |right| ensures right[i].element != entry.element { assert list[i + 1] == right[i]; }
      UnlistedSame(right, entry.element);
    } else {
      assert list[|left|] == entry;
      assert list[1..] == left[1..] + [entry] + right;
      UnlistedIs(left[1..], entry, right);
    }
  }

  class Inspector {
    var elements: seq<Entry>
    var selected: int
    /** The window's elements; the inspector reads it but does not change it. */
    ghost var tree: Tree

    ghost predicate Valid()
      reads this
    {
      elements == Preorder(tree, 0) && Distinct(elements) && -1 <= selected < |elements|
    }

    constructor (window: Tree)
      requires Distinct(Preorder(window, 0))
      ensures Valid() && tree == window && selected == -1
    {
      elements, selected, tree := [], -1, window;
      new;
      FindElements(window, 0);
    }

    method FindElements(t: Tree, depth: nat)
      modifies `elements
      ensures elements == old(elements) + Preorder(t, depth)
      decreases t
    {
      elements := elements + [Entry(t.id, depth)];
      var i := 0;
      while i < |t.children|
        invariant i <= |t.children|
        invariant elements == old(elements) + [Entry(t.id, depth)] + PreorderAll(t.children[..i], depth + 1)
      {
        FindElements(t.children[i], depth + 1);
        assert t.children[..i + 1][..i] == t.children[..i];
        i := i + 1;
      }
      assert t.children[..i] == t.children;
    }

    /**
      * The entry after which a child with index `k` goes: its parent's, or the last one of the run that starts with the
      * sibling before it.
      */
    method InsertionPoint(parent: Tree, k: nat, ghost pre: seq<Entry>, ghost mid: seq<Entry>, ghost post: seq<Entry>)
      returns (after: int)
      requires k <= |parent.children| && Distinct(elements) && elements == pre + mid + post
               && RunFor(parent, k, mid, post)
      ensures after == |pre| + |mid| - 1
    {
      after := -1;
      ghost var p := |pre|;
      assert elements[p] == mid[0];
      var i := 0;
      while i < |elements|
        invariant i <= p && after == -1
      {
        if k == 0 {
          if elements[i].element == parent.id {
            after := i;
            return;
          }
        } else if elements[i].element == parent.children[k - 1].id {
          after := i;
          var baseDepth := elements[i].depth;
          i := i + 1;
          while i < |elements|
            invariant p < i <= p + |mid| && after == i - 1
          {
            assert i < p + |mid| ==> elements[i] == mid[i - p];
            assert i == p + |mid| ==> elements[i] == post[0];
            if elements[i].depth > baseDepth {
              after := after + 1;
            } else {
              break;
            }
            i := i + 1;
          }
          return;
        }
        i := i + 1;
      }
    }

    /** How many elements are above a child of the element at a path: the walk from its parent to the window. */
    method Ancestors(window: Tree, path: seq<nat>) returns (depth: nat)
      requires IsPath(window, path)
      ensures depth == |path| + 1
    {
      depth := 0;
      var ancestor := Some(path);
      while ancestor.Some?
        invariant ancestor.Some? ==> IsPath(window, ancestor.value)
        invariant depth + (if ancestor.Some? then |ancestor.value| + 1 else 0) == |path| + 1
        decreases |path| + 1 - depth
      {
        if ancestor.value != [] { ParentHolds(window, ancestor.value); }
        depth := depth + 1;
        ancestor := ParentOf(ancestor.value);
      }
    }

    /** `InspectorNotifyElementCreated`: the element `id`, child `k` of the element at `path`, gets an entry. */
    method AddEntry(window: Tree, path: seq<nat>, ghost k: nat, id: nat, ghost pre: seq<Entry>, ghost mid: seq<Entry>,
                    ghost post: seq<Entry>)
      requires Distinct(elements) && !Mentions(elements, id) && -1 <= selected < |elements|
               && elements == pre + mid + post
      requires IsPath(window, path) && k < |Sub(window, path).children| && Sub(window, path).children[k].id == id
      requires forall j :: 0 <= j < k ==> Sub(window, path).children[j].id != id
      requires RunFor(Sub(window, path), k, mid, post)
      modifies `elements, `selected
      ensures elements == pre + mid + [Entry(id, |path| + 1)] + post && Distinct(elements)
              && -1 <= selected < |elements|
      ensures Named(elements, selected) == old(Named(elements, selected))
    {
      hide IsPath, Sub;
      var parent := Sub(window, path);
      var indexInParent := 0;
      while parent.children[indexInParent].id != id
        invariant indexInParent <= k
        decreases k - indexInParent
      {
        indexInParent := indexInParent + 1;
      }
      var after := InsertionPoint(parent, indexInParent, pre, mid, post);
      var depth := Ancestors(window, path);
      hide Distinct;
      InsertedAt(pre + mid, post, Entry(id, depth), selected);
      assert elements[..after + 1] == pre + mid && elements[after + 1..] == post;
      if selected > after {
        selected := selected + 1;
      }
      elements := elements[..after + 1] + [Entry(id, depth)] + elements[after + 1..];
    }

    /** `InspectorNotifyElementDestroyed`: the entry of the element goes. */
    method RemoveEntry(id: nat, ghost left: seq<Entry>, ghost entry: Entry, ghost right: seq<Entry>)
      requires Distinct(elements) && -1 <= selected < |elements| && elements == left + [entry] + right
               && entry.element == id
      modifies `elements, `selected
      ensures elements == left + right && Distinct(elements) && -1 <= selected < |elements|
      ensures Named(elements, selected) == if old(Named(elements, selected)) == Some(id) then None
              else old(Named(elements, selected))
    {
      var i := 0;
      assert elements[|left|] == entry;
      while elements[i].element != id
        invariant i <= |left|
        decreases |left| - i
      {
        i := i + 1;
      }
      hide Distinct;
      RemovedAt(left, right, entry, selected);
      if selected == i {
        selected := -1;
      } else if selected > i {
        selected := selected - 1;
      }
      elements := elements[..i] + elements[i + 1..];
      assert elements == left + right;
    }

    /** The window has gained the leaf `id` as child `k` of the element at `path`. */
    method Created(window: Tree, path: seq<nat>, ghost k: nat, id: nat)
      requires Valid() && IsPath(tree, path) && k <= |Sub(tree, path).children| && !Mentions(elements, id)
      requires window == Replace(tree, path, WithChild(Sub(tree, path), k, Node(id, [])))
      modifies this
      ensures Valid() && tree == window
      ensures Named(elements, selected) == old(Named(elements, selected))
    {
      hide Preorder, PreorderAll, Distinct;
      ghost var pre, mid, post := LeafAdded(tree, path, k, id);
      ReplaceSub(tree, path, WithChild(Sub(tree, path), k, Node(id, [])));
      OnlyNew(tree, path, k, id);
      LeafBefore(Sub(tree, path), k, id, mid, post, |path|);
      AddEntry(window, path, k, id, pre, mid, post);
      assert elements == pre + (mid + [Entry(id, |path| + 1)]) + post;
      tree := window;
    }

    /** The window has lost the leaf that was child `k` of the element at `path`. */
    method Destroyed(ghost window: Tree, ghost path: seq<nat>, ghost k: nat, id: nat)
      requires Valid() && IsPath(tree, path) && k < |Sub(tree, path).children|
               && Sub(tree, path).children[k] == Node(id, [])
      requires window == Replace(tree, path, WithoutChild(Sub(tree, path), k))
      modifies this
      ensures Valid() && tree == window
      ensures Named(elements, selected) == if old(Named(elements, selected)) == Some(id) then None
              else old(Named(elements, selected))
    {
      hide Preorder, PreorderAll, Distinct;
      ghost var left, right := LeafRemoved(tree, path, k, id);
      RemoveEntry(id, left, Entry(id, |path| + 1), right);
      tree := window;
    }

    /**
      * `EsElement::BringToFront`: child `i` is removed from the list, exchanged with the last child, and added again.
      * The list stays the walk exactly if the child has no siblings, or has no children and was one of the last two.
      */
    method BringToFront(window: Tree, path: seq<nat>, ghost i: nat, id: nat)
      returns (ghost pre: seq<Entry>, ghost mid: seq<Entry>, ghost post: seq<Entry>)
      requires Valid() && IsPath(tree, path) && i < |Sub(tree, path).children| && Sub(tree, path).children[i].id == id
      requires window == Replace(tree, path, Fronted(Sub(tree, path), i))
      modifies this
      ensures tree == window && Distinct(elements) && -1 <= selected < |elements|
      ensures elements == Preorder(window, 0) <==> StaysInOrder(Sub(old(tree), path), i)
      ensures pre + mid + post == Unlisted(old(elements), id) && elements == pre + mid + [Entry(id, |path| + 1)] + post
      ensures IsPath(window, path) && Sub(window, path) == Fronted(Sub(old(tree), path), i)
      ensures RunFor(Sub(window, path), |Sub(window, path).children| - 1, mid, post)
      ensures Named(elements, selected) == if old(Named(elements, selected)) == Some(id) then None
              else old(Named(elements, selected))
    {
      hide Preorder, PreorderAll, Distinct, RunFor, FrontCase, Mentions, Unlisted, IsPath, Sub, Replace;
      ghost var s, n, e := Sub(tree, path), |Sub(tree, path).children|, Entry(id, |path| + 1);
      ghost var before, after := Context(tree, path, Fronted(s, i), 0);
      ghost var f, d, m, q := FrontNode(s, i, |path|);
      ghost var root := [Entry(s.id, |path|)];
      WholeList(before, root, f, e, d, m, q, after);
      ReplaceSub(tree, path, Fronted(s, i));
      FrontOnlyOnce(tree, path, i);
      EntryGone(before + root + f, e, d + m + q + after);
      UnlistedIs(before + root + f, e, d + m + q + after);
      RemoveEntry(id, before + root + f, e, d + m + q + after);
      pre, mid, post := FrontRun(s, i, |path|, f, d, m, q, after);
      WholeRun(before, Entry(s.id, |path|), f, d, m, q, after, n == 1, i == n - 1, pre, mid, post);
      AddEntry(window, path, n - 1, id, before + pre, mid, post);
      FrontIff(before, Entry(s.id, |path|), f, e, d, m, q, after, n == 1, i == n - 1, pre, mid, post);
      tree := window;
      pre := before + pre;
    }

    /** `EsElement::InternalDestroy` of a whole subtree: its children go first, in order, then the element itself. */
    method DestroySubtree(t: Tree, ghost path: seq<nat>, ghost k: nat)
      requires Valid() && IsPath(tree, path) && k < |Sub(tree, path).children| && Sub(tree, path).children[k] == t
      modifies this
      ensures Valid() && tree == Replace(old(tree), path, WithoutChild(Sub(old(tree), path), k))
      ensures Named(elements, selected) == Left(old(Named(elements, selected)), Ids(t))
      decreases t
    {
      hide Preorder, PreorderAll, Sub, Replace, IsPath, Distinct, Dwindled;
      ghost var window := tree;
      DwindledStarts(window, path, k);
      var i := 0;
      while i < |t.children|
        invariant i <= |t.children| && Valid() && tree == Dwindled(window, path, k, i)
        invariant Named(elements, selected) == Left(old(Named(elements, selected)), IdsAll(t.children[..i]))
      {
        DwindledAt(window, path, k, i);
        DestroySubtree(t.children[i], path + [k], 0);
        assert t.children[..i + 1][..i] == t.children[..i];
        i := i + 1;
      }
      DwindledAt(window, path, k, i);
      assert t.children[..i] == t.children && t.children[i..] == [];
      Destroyed(Replace(tree, path, WithoutChild(Sub(tree, path), k)), path, k, t.id);
    }
  }

  /** The first of three children is brought to the front: the list and the walk part. */
  method FrontExample() returns (elements: seq<Entry>)
    ensures elements == [Entry(0, 0), Entry(2, 1), Entry(1, 1), Entry(3, 1)]
    ensures Preorder(Node(0, [Node(3, []), Node(2, []), Node(1, [])]), 0) ==
            [Entry(0, 0), Entry(3, 1), Entry(2, 1), Entry(1, 1)]
  {
    var tree := Node(0, [Node(1, []), Node(2, []), Node(3, [])]);
    var window := Node(0, [Node(3, []), Node(2, []), Node(1, [])]);
    WalkOfThree(1, 2, 3);
    WalkOfThree(3, 2, 1);
    hide Preorder, PreorderAll;
    assert Replace(tree, [], Fronted(tree, 0)) == window;
    var inspector := new Inspector(tree);
    UnlistedIs([Entry(0, 0)], Entry(1, 1), [Entry(2, 1), Entry(3, 1)]);
    ghost var pre, mid, post := inspector.BringToFront(window, [], 0, 1);
    EntryMoved(pre, mid, post);
    elements := inspector.elements;
  }

  lemma WalkOfThree(a: nat, b: nat, c: nat)
    ensures Preorder(Node(0, [Node(a, []), Node(b, []), Node(c, [])]), 0) ==
            [Entry(0, 0), Entry(a, 1), Entry(b, 1), Entry(c, 1)]
  {
    NodeWalk(Node(0, [Node(a, []), Node(b, []), Node(c, [])]), 0);
    WalkOne(Node(a, []), 1);
    WalkSnoc([Node(a, [])], Node(b, []), 1);
    WalkSnoc([Node(a, []), Node(b, [])], Node(c, []), 1);
    LeafWalk(a, 1);
    LeafWalk(b, 1);
    LeafWalk(c, 1);
    hide Preorder, PreorderAll;
    assert [Node(a, [])] + [Node(b, [])] == [Node(a, []), Node(b, [])];
    assert [Node(a, []), Node(b, [])] + [Node(c, [])] == [Node(a, []), Node(b, []), Node(c, [])];
  }

  lemma PartAt(pre: seq<Entry>, mid: seq<Entry>, post: seq<Entry>, i: nat)
    ensures i < |mid| ==> (pre + mid + post)[|pre| + i] == mid[i]
  {
  }

  lemma EntryMoved(pre: seq<Entry>, mid: seq<Entry>, post: seq<Entry>)
    requires pre + mid + post == [Entry(0, 0), Entry(2, 1), Entry(3, 1)]
    requires RunFor(Node(0, [Node(3, []), Node(2, []), Node(1, [])]), 2, mid, post)
    ensures pre == [Entry(0, 0)] && mid == [Entry(2, 1)] && post == [Entry(3, 1)]
  {
    var list := pre + mid + post;
    assert list[|pre|] == mid[0];
    assert |pre| == 1;
    PartAt(pre, mid, post, 1);
    assert list[..1] == pre && list[1..2] == mid && list[2..] == post;
  }

  /** The elements of a subtree. */
  ghost function Ids(t: Tree): set<nat>
    decreases t
  {
    {t.id} + IdsAll(t.children)
  }

  ghost function IdsAll(ts: seq<Tree>): set<nat>
    decreases ts
  {
    if ts == [] then {} else IdsAll(ts[..|ts| - 1]) + Ids(ts[|ts| - 1])
  }

  function WithChildAt(t: Tree, k: nat, child: Tree): Tree
    requires k < |t.children|
  {
    Node(t.id, t.children[k := child])
  }

  lemma {:induction false} ChildPath(t: Tree, path: seq<nat>, k: nat, s: Tree)
    requires IsPath(t, path) && k < |Sub(t, path).children|
    ensures IsPath(t, path + [k]) && Sub(t, path + [k]) == Sub(t, path).children[k]
    ensures Replace(t, path + [k], s) == Replace(t, path, WithChildAt(Sub(t, path), k, s))
  {
    if path == [] {
      assert path + [k] == [k] && [k][1..] == [];
    } else {
      ChildPath(t.children[path[0]], path[1..], k, s);
      assert (path + [k])[1..] == path[1..] + [k];
    }
  }

  lemma {:induction false} ReplaceAgain(t: Tree, path: seq<nat>, r: Tree, s: Tree)
    requires IsPath(t, path) && IsPath(Replace(t, path, r), path)
    ensures Replace(Replace(t, path, r), path, s) == Replace(t, path, s)
  {
    if path != [] {
      ReplaceAgain(t.children[path[0]], path[1..], r, s);
      assert Replace(Replace(t, path, r), path, s).children == Replace(t, path, s).children;
    }
  }

  /** The window while the children of one element are going: those before `i` are gone. */
  ghost function Dwindled(window: Tree, path: seq<nat>, k: nat, i: nat): Tree
    requires IsPath(window, path) && k < |Sub(window, path).children| && i <= |Sub(window, path).children[k].children|
  {
    var t := Sub(window, path).children[k];
    Replace(window, path, WithChildAt(Sub(window, path), k, Node(t.id, t.children[i..])))
  }

  lemma DwindledAt(window: Tree, path: seq<nat>, k: nat, i: nat)
    requires IsPath(window, path) && k < |Sub(window, path).children| && i <= |Sub(window, path).children[k].children|
    ensures var w, t := Dwindled(window, path, k, i), Sub(window, path).children[k];
            && IsPath(w, path) && k < |Sub(w, path).children| && Sub(w, path).children[k] == Node(t.id, t.children[i..])
            && IsPath(w, path + [k]) && Sub(w, path + [k]) == Node(t.id, t.children[i..])
            && (i < |t.children| ==> Replace(w, path + [k], WithoutChild(Sub(w, path + [k]), 0)) ==
                                     Dwindled(window, path, k, i + 1))
            && Replace(w, path, WithoutChild(Sub(w, path), k)) ==
              Replace(window, path, WithoutChild(Sub(window, path), k))
  {
    var p, t := Sub(window, path), Sub(window, path).children[k];
    var child := Node(t.id, t.children[i..]);
    var w := Dwindled(window, path, k, i);
    ReplaceSub(window, path, WithChildAt(p, k, child));
    ChildPath(w, path, k, child);
    ReplaceAgain(window, path, WithChildAt(p, k, child), WithoutChild(p, k));
    assert WithoutChild(Sub(w, path), k) == WithoutChild(p, k);
    if i < |t.children| {
      var less := Node(t.id, t.children[i + 1..]);
      assert WithoutChild(child, 0) == less;
      ChildPath(w, path, k, less);
      ReplaceAgain(window, path, WithChildAt(p, k, child), WithChildAt(p, k, less));
      assert WithChildAt(WithChildAt(p, k, child), k, less) == WithChildAt(p, k, less);
    }
  }

  lemma DwindledStarts(window: Tree, path: seq<nat>, k: nat)
    requires IsPath(window, path) && k < |Sub(window, path).children|
    ensures Dwindled(window, path, k, 0) == window
  {
    var p := Sub(window, path);
    assert Node(p.children[k].id, p.children[k].children[0..]) == p.children[k];
    assert WithChildAt(p, k, p.children[k]) == p;
    ReplaceSub(window, path, p);
    ReplaceTwice(window, path, p, p);
    ReplaceAgain(window, path, p, p);
  }

  /** What is selected once some elements are gone. */
  ghost function Left(named: Option<nat>, gone: set<nat>): Option<nat> {
    if named.Some? && named.value in gone then None else named
  }

  /** Removing a leaf removes its entry. */
  lemma LeafRemoved(t: Tree, path: seq<nat>, k: nat, id: nat) returns (left: seq<Entry>, right: seq<Entry>)
    requires IsPath(t, path) && k < |Sub(t, path).children| && Sub(t, path).children[k] == Node(id, [])
    ensures Preorder(t, 0) == left + [Entry(id, |path| + 1)] + right
    ensures Preorder(Replace(t, path, WithoutChild(Sub(t, path), k)), 0) == left + right
  {
    hide Preorder, PreorderAll, Sub, Replace, IsPath;
    var s := Sub(t, path);
    var t' := Replace(t, path, WithoutChild(s, k));
    ReplaceSub(t, path, WithoutChild(s, k));
    ReplaceTwice(t, path, WithoutChild(s, k), s);
    var pre, mid, post := LeafAdded(t', path, k, id);
    assert WithChild(WithoutChild(s, k), k, Node(id, [])) == s by {
      assert WithChild(WithoutChild(s, k), k, Node(id, [])).children == s.children;
    }
    left, right := pre + mid, post;
  }

  lemma {:induction false} ReplaceTwice(t: Tree, path: seq<nat>, r: Tree, s: Tree)
    requires IsPath(t, path) && IsPath(Replace(t, path, r), path) && s == Sub(t, path)
    ensures Replace(Replace(t, path, r), path, s) == t
  {
    if path != [] {
      ReplaceTwice(t.children[path[0]], path[1..], r, s);
      assert Replace(Replace(t, path, r), path, s).children == t.children;
    }
  }

  lemma RemovedAt(left: seq<Entry>, right: seq<Entry>, entry: Entry, selected: int)
    requires Distinct(left + [entry] + right) && -1 <= selected < |left + [entry] + right|
    ensures Distinct(left + right)
    ensures var selected' := if selected == |left| then -1 else if selected > |left| then selected - 1 else selected;
            && -1 <= selected' < |left + right|
            && var was := Named(left + [entry] + right, selected);
               Named(left + right, selected') == if was == Some(entry.element) then None else was
  {
    forall i, j | 0 <= i < j < |left + right| ensures (left + right)[i].element != (left + right)[j].element {
      EntryAt(left, right, entry, if i < |left| then i else i + 1);
      EntryAt(left, right, entry, if j < |left| then j else j + 1);
    }
    EntryAt(left, right, entry, |left|);
    if selected >= 0 { EntryAt(left, right, entry, selected); }
  }

  lemma {:induction false} ReplaceSub(t: Tree, path: seq<nat>, s: Tree)
    requires IsPath(t, path)
    ensures IsPath(Replace(t, path, s), path) && Sub(Replace(t, path, s), path) == s
  {
    if path != [] { ReplaceSub(t.children[path[0]], path[1..], s); }
  }

  /** Every element below a place is in the walk. */
  lemma ChildListed(t: Tree, path: seq<nat>, k: nat)
    requires IsPath(t, path) && k < |Sub(t, path).children|
    ensures Mentions(Preorder(t, 0), Sub(t, path).children[k].id)
  {
    hide PreorderAll;
    var s := Sub(t, path);
    var pre, post := Context(t, path, s, 0);
    WalkSplit(s.children[..k], s.children[k..], |path| + 1);
    WalkSplit([s.children[k]], s.children[k + 1..], |path| + 1);
    WalkOne(s.children[k], |path| + 1);
    assert s.children == s.children[..k] + s.children[k..] && s.children[k..] == [s.children[k]] + s.children[k + 1..];
    var i := |pre| + 1 + |PreorderAll(s.children[..k], |path| + 1)|;
    assert Preorder(t, 0)[i].element == s.children[k].id;
  }

  /** The new leaf is the only child of its parent with its identity. */
  lemma OnlyNew(t: Tree, path: seq<nat>, k: nat, id: nat)
    requires IsPath(t, path) && k <= |Sub(t, path).children| && !Mentions(Preorder(t, 0), id)
    ensures var s := WithChild(Sub(t, path), k, Node(id, []));
            s.children[k].id == id && forall j :: 0 <= j < k ==> s.children[j].id != id
  {
    forall j | 0 <= j < k ensures Sub(t, path).children[j].id != id { ChildListed(t, path, j); }
  }

  lemma LeafBefore(s: Tree, k: nat, id: nat, mid: seq<Entry>, post: seq<Entry>, depth: nat)
    requires k <= |s.children|
    requires mid == Preorder(if k == 0 then Node(s.id, []) else s.children[k - 1], if k == 0 then depth else depth + 1)
    requires k > 0 && post != [] ==> post[0].depth <= depth + 1
    ensures RunFor(WithChild(s, k, Node(id, [])), k, mid, post)
  {
    if k == 0 { LeafWalk(s.id, depth); } else { WalkDeep(s.children[k - 1], depth + 1); }
  }

  /** The list with one entry more between its two parts. */
  lemma InsertedAt(left: seq<Entry>, right: seq<Entry>, entry: Entry, selected: int)
    requires Distinct(left + right) && !Mentions(left + right, entry.element) && -1 <= selected < |left + right|
    ensures Distinct(left + [entry] + right)
    ensures var selected' := if selected > |left| - 1 then selected + 1 else selected;
            Named(left + [entry] + right, selected') == Named(left + right, selected)
  {
    var all, list := left + right, left + [entry] + right;
    forall i, j | 0 <= i < j < |list| ensures list[i].element != list[j].element {
      EntryAt(left, right, entry, i);
      EntryAt(left, right, entry, j);
    }
    if selected >= 0 { EntryAt(left, right, entry, if selected > |left| - 1 then selected + 1 else selected); }
  }

  lemma EntryAt(left: seq<Entry>, right: seq<Entry>, entry: Entry, i: nat)
    requires i < |left + [entry] + right|
    ensures (left + [entry] + right)[i] == if i == |left| then entry
            else (left + right)[if i < |left| then i else i - 1]
  {
  }

  // ----- Bringing a child to the front.

  function Fronted(s: Tree, i: nat): Tree
    requires i < |s.children|
  {
    var last := |s.children| - 1;
    Node(s.id, s.children[i := s.children[last]][last := s.children[i]])
  }

  predicate StaysInOrder(s: Tree, i: nat)
    requires i < |s.children|
  {
    |s.children| == 1 || (i >= |s.children| - 2 && s.children[i].children == [])
  }

  lemma SomeWalk(ts: seq<Tree>, depth: nat)
    ensures PreorderAll(ts, depth) == [] <==> ts == []
  {
    if ts != [] { WalkStarts(ts, depth); }
  }

  /**
    * The parts of a parent's walk around child `i`: what is in front, its descendants, the siblings in between, the
    * last one.
    */
  ghost predicate Parts(s: Tree, i: nat, depth: nat, f: seq<Entry>, d: seq<Entry>, m: seq<Entry>, q: seq<Entry>)
    requires i < |s.children|
  {
    var ch, n := s.children, |s.children|;
    && f == PreorderAll(ch[..i], depth + 1) && d == PreorderAll(ch[i].children, depth + 2)
    && (if i == n - 1 then m == q == []
      else m == PreorderAll(ch[i + 1..n - 1], depth + 1) && q == Preorder(ch[n - 1], depth + 1))
    && (d == [] <==> ch[i].children == []) && (m == [] <==> i >= n - 2)
  }

  /** The walk of a parent before and after. */
  lemma FrontNode(s: Tree, i: nat, depth: nat) returns (f: seq<Entry>, d: seq<Entry>, m: seq<Entry>, q: seq<Entry>)
    requires i < |s.children|
    ensures Parts(s, i, depth, f, d, m, q)
    ensures var root, e := [Entry(s.id, depth)], [Entry(s.children[i].id, depth + 1)];
            Preorder(s, depth) == root + f + e + d + m + q && Preorder(Fronted(s, i), depth) == root + f + q + m + e + d
  {
    var ch, n, dep := s.children, |s.children|, depth + 1;
    SomeWalk(ch[i].children, depth + 2);
    hide PreorderAll, Preorder;
    f, d := PreorderAll(ch[..i], dep), PreorderAll(ch[i].children, depth + 2);
    var root, e := [Entry(s.id, depth)], [Entry(ch[i].id, dep)];
    NodeWalk(ch[i], dep);
    if i == n - 1 {
      m, q := [], [];
      FrontLast(s, depth, root, e, f, d);
    } else {
      m, q := PreorderAll(ch[i + 1..n - 1], dep), Preorder(ch[n - 1], dep);
      SomeWalk(ch[i + 1..n - 1], dep);
      FrontInner(s, i, depth, root, e, f, d, m, q);
    }
  }

  lemma FrontLast(s: Tree, depth: nat, root: seq<Entry>, e: seq<Entry>, f: seq<Entry>, d: seq<Entry>)
    requires s.children != [] && root == [Entry(s.id, depth)]
             && Preorder(s.children[|s.children| - 1], depth + 1) == e + d
    requires f == PreorderAll(s.children[..|s.children| - 1], depth + 1)
    ensures Preorder(s, depth) == root + f + e + d + [] + [] == root + f + [] + [] + e + d
    ensures Preorder(Fronted(s, |s.children| - 1), depth) == Preorder(s, depth)
  {
    NodeWalk(s, depth);
    LastWalk(s.children, depth + 1);
    hide PreorderAll, Preorder;
    assert Fronted(s, |s.children| - 1).children == s.children;
    OneNode(root, f, e, d);
  }

  lemma FrontInner(s: Tree, i: nat, depth: nat, root: seq<Entry>, e: seq<Entry>, f: seq<Entry>, d: seq<Entry>,
                   m: seq<Entry>, q: seq<Entry>)
    requires i < |s.children| - 1 && root == [Entry(s.id, depth)] && Preorder(s.children[i], depth + 1) == e + d
    requires f == PreorderAll(s.children[..i], depth + 1) && q == Preorder(s.children[|s.children| - 1], depth + 1)
    requires m == PreorderAll(s.children[i + 1..|s.children| - 1], depth + 1)
    ensures Preorder(s, depth) == root + f + e + d + m + q && Preorder(Fronted(s, i), depth) == root + f + q + m + e + d
  {
    hide PreorderAll, Preorder;
    NodeWalk(s, depth);
    NodeWalk(Fronted(s, i), depth);
    InnerWalk(s.children, i, depth + 1);
    FrontedWalk(s, i, depth + 1);
    SixParts(root, f, e, d, m, q);
    SixParts(root, f, q, m, e, d);
  }

  lemma NodeWalk(t: Tree, depth: nat)
    ensures Preorder(t, depth) == [Entry(t.id, depth)] + PreorderAll(t.children, depth + 1)
  {
  }

  lemma LastWalk(ch: seq<Tree>, depth: nat)
    requires ch != []
    ensures PreorderAll(ch, depth) == PreorderAll(ch[..|ch| - 1], depth) + Preorder(ch[|ch| - 1], depth)
  {
  }

  lemma InnerWalk(ch: seq<Tree>, i: nat, depth: nat)
    requires i < |ch| - 1
    ensures PreorderAll(ch, depth) == PreorderAll(ch[..i], depth) + Preorder(ch[i], depth)
              + (PreorderAll(ch[i + 1..|ch| - 1], depth) + Preorder(ch[|ch| - 1], depth))
  {
    hide PreorderAll, Preorder;
    var n := |ch|;
    WalkSnoc(ch[..i], ch[i], depth);
    WalkSnoc(ch[i + 1..n - 1], ch[n - 1], depth);
    WalkSplit(ch[..i] + [ch[i]], ch[i + 1..n - 1] + [ch[n - 1]], depth);
    assert ch == (ch[..i] + [ch[i]]) + (ch[i + 1..n - 1] + [ch[n - 1]]);
  }

  lemma FrontedWalk(s: Tree, i: nat, depth: nat)
    requires i < |s.children| - 1
    ensures var ch, n := s.children, |s.children|;
            PreorderAll(Fronted(s, i).children, depth) == PreorderAll(ch[..i], depth) + Preorder(ch[n - 1], depth)
              + PreorderAll(ch[i + 1..n - 1], depth) + Preorder(ch[i], depth)
  {
    hide PreorderAll, Preorder;
    var ch, n := s.children, |s.children|;
    var front := ch[..i] + [ch[n - 1]];
    WalkSnoc(ch[..i], ch[n - 1], depth);
    WalkSplit(front, ch[i + 1..n - 1], depth);
    WalkSnoc(front + ch[i + 1..n - 1], ch[i], depth);
    assert Fronted(s, i).children == front + ch[i + 1..n - 1] + [ch[i]];
  }

  lemma OneNode<T>(root: seq<T>, f: seq<T>, e: seq<T>, d: seq<T>)
    ensures root + (f + (e + d)) == root + f + e + d + [] + [] == root + f + [] + [] + e + d
  {
  }

  lemma SixParts<T>(root: seq<T>, f: seq<T>, e: seq<T>, d: seq<T>, m: seq<T>, q: seq<T>)
    ensures root + (f + (e + d) + (m + q)) == root + f + e + d + m + q
    ensures root + (f + e + d + (m + q)) == root + f + e + d + m + q
  {
  }

  lemma WholeList(before: seq<Entry>, root: seq<Entry>, f: seq<Entry>, e: Entry, d: seq<Entry>, m: seq<Entry>,
                  q: seq<Entry>, after: seq<Entry>)
    ensures before + (root + f + [e] + d + m + q) + after == (before + root + f) + [e] + (d + m + q + after)
  {
  }

  lemma EntryGone(left: seq<Entry>, e: Entry, right: seq<Entry>)
    requires Distinct(left + [e] + right)
    ensures !Mentions(left + right, e.element)
  {
    var list := left + [e] + right;
    assert list[|left|] == e;
    forall j | 0 <= j < |left + right| ensures (left + right)[j].element != e.element {
      EntryAt(left, right, e, if j < |left| then j else j + 1);
    }
  }

  /** No other child of the parent has the identity of child `i`, which is the last one afterwards. */
  lemma FrontOnlyOnce(t: Tree, path: seq<nat>, i: nat)
    requires IsPath(t, path) && i < |Sub(t, path).children| && Distinct(Preorder(t, 0))
    ensures var s := Fronted(Sub(t, path), i);
            && s.children[|s.children| - 1].id == Sub(t, path).children[i].id
            && forall j :: 0 <= j < |s.children| - 1 ==> s.children[j].id != Sub(t, path).children[i].id
  {
    var s := Sub(t, path);
    forall j | 0 <= j < |s.children| && j != i ensures s.children[j].id != s.children[i].id {
      ChildrenApart(t, path, if i < j then i else j, if i < j then j else i);
    }
  }

  lemma ChildrenApart(t: Tree, path: seq<nat>, i: nat, j: nat)
    requires IsPath(t, path) && i < j < |Sub(t, path).children| && Distinct(Preorder(t, 0))
    ensures Sub(t, path).children[i].id != Sub(t, path).children[j].id
  {
    hide PreorderAll;
    var s, d := Sub(t, path), |path| + 1;
    var pre, post := Context(t, path, s, 0);
    var a, b, c := s.children[..i], s.children[i..j], s.children[j..];
    assert s.children == a + (b + c);
    WalkSplit(a, b + c, d);
    WalkSplit(b, c, d);
    WalkHead(b, d);
    WalkHead(c, d);
    var wa, wb, wc := PreorderAll(a, d), PreorderAll(b, d), PreorderAll(c, d);
    var list := Preorder(t, 0);
    assert list == (pre + [Entry(s.id, |path|)] + wa) + wb + wc + post;
    var x := |pre| + 1 + |wa|;
    assert list[x] == wb[0] && list[x + |wb|] == wc[0];
  }

  lemma WalkHead(ts: seq<Tree>, depth: nat)
    requires ts != []
    ensures PreorderAll(ts, depth) != [] && PreorderAll(ts, depth)[0] == Entry(ts[0].id, depth)
  {
    WalkSplit([ts[0]], ts[1..], depth);
    WalkOne(ts[0], depth);
    assert ts == [ts[0]] + ts[1..];
  }

  /** What the child's entry is put behind, once the child's own entry is gone but its descendants are not. */
  lemma FrontRun(s: Tree, i: nat, depth: nat, f: seq<Entry>, d: seq<Entry>, m: seq<Entry>, q: seq<Entry>,
                 after: seq<Entry>)
    returns (pre: seq<Entry>, mid: seq<Entry>, post: seq<Entry>)
    requires i < |s.children| && (after != [] ==> after[0].depth <= depth) && Parts(s, i, depth, f, d, m, q)
    ensures RunFor(Fronted(s, i), |s.children| - 1, mid, post)
    ensures FrontCase(Entry(s.id, depth), f, d, m, q, after, |s.children| == 1, i == |s.children| - 1, pre, mid, post)
  {
    hide PreorderAll, Preorder;
    var ch, n, dep, root := s.children, |s.children|, depth + 1, [Entry(s.id, depth)];
    if n == 1 {
      NoWalk(ch[..i], dep);
      pre, mid, post := [], root, d + after;
    } else if i == n - 1 {
      LastWalk(ch[..i], dep);
      WalkDeepAll(ch[i].children, depth + 2);
      WalkDeep(ch[i - 1], dep);
      assert ch[..i][..i - 1] == ch[..i - 1];
      pre, mid, post := root + PreorderAll(ch[..i - 1], dep), Preorder(ch[i - 1], dep) + d, after;
      assert pre + mid == root + (PreorderAll(ch[..i - 1], dep) + Preorder(ch[i - 1], dep)) + d;
    } else if m == [] {
      WalkDeep(ch[n - 1], dep);
      pre, mid, post := root + f + d, q, after;
    } else {
      var between := ch[i + 1..n - 1];
      LastWalk(between, dep);
      assert |between| == n - 2 - i;
      assert between[..n - 3 - i] == ch[i + 1..n - 2];
      assert between[n - 3 - i] == ch[n - 2];
      WalkDeep(ch[n - 2], dep);
      pre, mid, post := root + f + d + PreorderAll(ch[i + 1..n - 2], dep), Preorder(ch[n - 2], dep), q + after;
      assert pre + mid == root + f + d + (PreorderAll(ch[i + 1..n - 2], dep) + Preorder(ch[n - 2], dep));
    }
  }

  /** Where the run lies, case by case. */
  ghost predicate FrontCase(root: Entry, f: seq<Entry>, d: seq<Entry>, m: seq<Entry>, q: seq<Entry>, after: seq<Entry>,
                            only: bool, last: bool, pre: seq<Entry>, mid: seq<Entry>, post: seq<Entry>) {
    && (only ==> last && f == []) && (last ==> m == q == []) && (!last ==> q != [])
    && if only then pre + mid == [root] && post == d + after
       else if last then pre + mid == [root] + f + d && post == after
       else if m == [] then pre + mid == [root] + f + d + q && post == after
       else pre + mid == [root] + f + d + m && post == q + after
  }

  lemma WholeRun(before: seq<Entry>, root: Entry, f: seq<Entry>, d: seq<Entry>, m: seq<Entry>, q: seq<Entry>,
                 after: seq<Entry>,
                 only: bool, last: bool, pre: seq<Entry>, mid: seq<Entry>, post: seq<Entry>)
    requires FrontCase(root, f, d, m, q, after, only, last, pre, mid, post)
    ensures (before + [root] + f) + (d + m + q + after) == (before + pre) + mid + post
  {
    assert (before + pre) + mid + post == before + (pre + mid) + post;
    if only {
      assert (before + [root] + f) + (d + m + q + after) == before + [root] + (d + after);
    } else if last {
      assert (before + [root] + f) + (d + m + q + after) == before + ([root] + f + d) + after;
    } else if m == [] {
      assert (before + [root] + f) + (d + m + q + after) == before + ([root] + f + d + q) + after;
    } else {
      assert (before + [root] + f) + (d + m + q + after) == before + ([root] + f + d + m) + (q + after);
    }
  }

  lemma Cancel(left: seq<Entry>, u: seq<Entry>, w: seq<Entry>)
    ensures left + u == left + w <==> u == w
  {
    assert (left + u)[|left|..] == u;
    assert (left + w)[|left|..] == w;
  }

  /** What follows the siblings in front, in the list once the entry is back. */
  ghost function Behind(e: Entry, d: seq<Entry>, m: seq<Entry>, q: seq<Entry>, after: seq<Entry>, only: bool,
                        last: bool): seq<Entry> {
    if only then [e] + d + after
    else if last then d + [e] + after
    else if m == [] then d + q + [e] + after
    else d + m + [e] + q + after
  }

  lemma NewList(before: seq<Entry>, root: Entry, f: seq<Entry>, e: Entry, d: seq<Entry>, m: seq<Entry>, q: seq<Entry>,
                after: seq<Entry>,
                only: bool, last: bool, pre: seq<Entry>, mid: seq<Entry>, post: seq<Entry>)
    requires FrontCase(root, f, d, m, q, after, only, last, pre, mid, post)
    ensures (before + pre) + mid + [e] + post == (before + [root] + f) + Behind(e, d, m, q, after, only, last)
  {
    assert (before + pre) + mid + [e] + post == before + (pre + mid) + [e] + post;
    if only {
      assert before + [root] + [e] + (d + after) == (before + [root] + []) + ([e] + d + after);
    } else if last {
      assert before + ([root] + f + d) + [e] + after == (before + [root] + f) + (d + [e] + after);
    } else if m == [] {
      assert before + ([root] + f + d + q) + [e] + after == (before + [root] + f) + (d + q + [e] + after);
    } else {
      assert before + ([root] + f + d + m) + [e] + (q + after) == (before + [root] + f) + (d + m + [e] + q + after);
    }
  }

  lemma BehindIff(e: Entry, d: seq<Entry>, m: seq<Entry>, q: seq<Entry>, after: seq<Entry>, only: bool, last: bool)
    requires (only ==> last) && (last ==> m == q == []) && (!last ==> q != [])
    requires d != [] ==> d[0].element != e.element && (q != [] ==> d[0].element != q[0].element)
    requires m != [] && q != [] ==> m[0].element != q[0].element
    ensures Behind(e, d, m, q, after, only, last) == q + m + [e] + d + after <==> only || (m == [] && d == [])
  {
    var u, w := Behind(e, d, m, q, after, only, last), q + m + [e] + d + after;
    assert w[0] == if q != [] then q[0] else e;
    if !only {
      assert d != [] ==> u[0] == d[0];
      assert d == [] && m != [] ==> u[0] == m[0];
    }
  }

  /** The new list against the walk: they agree exactly in the cases named. */
  lemma FrontIff(before: seq<Entry>, root: Entry, f: seq<Entry>, e: Entry, d: seq<Entry>, m: seq<Entry>, q: seq<Entry>,
                 after: seq<Entry>,
                 only: bool, last: bool, pre: seq<Entry>, mid: seq<Entry>, post: seq<Entry>)
    requires FrontCase(root, f, d, m, q, after, only, last, pre, mid, post)
    requires Distinct((before + [root] + f) + [e] + (d + m + q + after))
    ensures (before + pre) + mid + [e] + post == before + ([root] + f + q + m + [e] + d) + after <==>
            only || (m == [] && d == [])
  {
    hide Distinct, Behind;
    var left := before + [root] + f;
    NewList(before, root, f, e, d, m, q, after, only, last, pre, mid, post);
    WalkList(before, [root], f, q, m, [e], d, after);
    FirstsApart(left, e, d, m, q, after);
    BehindIff(e, d, m, q, after, only, last);
    Cancel(left, Behind(e, d, m, q, after, only, last), q + m + [e] + d + after);
  }

  lemma WalkList<T>(before: seq<T>, root: seq<T>, f: seq<T>, q: seq<T>, m: seq<T>, e: seq<T>, d: seq<T>, after: seq<T>)
    ensures before + (root + f + q + m + e + d) + after == (before + root + f) + (q + m + e + d + after)
  {
  }

  lemma FirstsApart(left: seq<Entry>, e: Entry, d: seq<Entry>, m: seq<Entry>, q: seq<Entry>, after: seq<Entry>)
    requires Distinct(left + [e] + (d + m + q + after))
    ensures d != [] ==> d[0].element != e.element
    ensures d != [] && q != [] ==> d[0].element != q[0].element
    ensures m != [] && q != [] ==> m[0].element != q[0].element
  {
    var list := left + [e] + (d + m + q + after);
    var x := |left|;
    assert list[x] == e;
    assert d != [] ==> list[x + 1] == d[0];
    assert m != [] ==> list[x + 1 + |d|] == m[0];
    assert q != [] ==> list[x + 1 + |d| + |m|] == q[0];
  }
}
