/** The sort and search templates that the desktop code instantiates with a comparison. */
module Sorting {

  type Comparison<!T> = (T, T) -> int

  ghost predicate TotalPreorder<T(!new)>(cmp: Comparison<T>) {
    && (forall a, b :: cmp(a, b) <= 0 <==> cmp(b, a) >= 0)
    && (forall a, b, c :: cmp(a, b) <= 0 && cmp(b, c) <= 0 ==> cmp(a, c) <= 0)
    && (forall a :: cmp(a, a) == 0)
  }

  ghost predicate SortedSeq<T>(cmp: Comparison<T>, s: seq<T>) {
    forall i, j :: 0 <= i < j < |s| ==> cmp(s[i], s[j]) <= 0
  }

  ghost predicate AllBelow<T>(cmp: Comparison<T>, s: seq<T>, p: T) {
    forall k :: 0 <= k < |s| ==> cmp(s[k], p) <= 0
  }

  ghost predicate AllAbove<T>(cmp: Comparison<T>, s: seq<T>, p: T) {
    forall k :: 0 <= k < |s| ==> cmp(s[k], p) >= 0
  }

  function Swapped<T>(s: seq<T>, i: nat, j: nat): seq<T>
    requires i < |s| && j < |s|
  {
    s[i := s[j]][j := s[i]]
  }

  // ----- Stability: the elements that compare equal to `x`, in order.

  ghost function Peers<T>(cmp: Comparison<T>, s: seq<T>, x: T): seq<T> {
    if s == [] then [] else (if cmp(s[0], x) == 0 then [s[0]] else []) + Peers(cmp, s[1..], x)
  }

  /** Every class of equal elements keeps its members and their order. */
  ghost predicate StablePermutation<T(!new)>(cmp: Comparison<T>, s: seq<T>, t: seq<T>) {
    forall x :: Peers(cmp, s, x) == Peers(cmp, t, x)
  }

  lemma {:induction false} PeersConcat<T>(cmp: Comparison<T>, s: seq<T>, t: seq<T>, x: T)
    ensures Peers(cmp, s + t, x) == Peers(cmp, s, x) + Peers(cmp, t, x)
  {
    if s == [] {
      assert s + t == t;
    } else {
      PeersConcat(cmp, s[1..], t, x);
      assert (s + t)[1..] == s[1..] + t;
      var head := if cmp(s[0], x) == 0 then [s[0]] else [];
      assert Peers(cmp, s + t, x) == head + (Peers(cmp, s[1..], x) + Peers(cmp, t, x));
    }
  }

  lemma StableRefl<T(!new)>(cmp: Comparison<T>, s: seq<T>)
    ensures StablePermutation(cmp, s, s)
  {
  }

  lemma StableTrans<T(!new)>(cmp: Comparison<T>, s: seq<T>, t: seq<T>, u: seq<T>)
    requires StablePermutation(cmp, s, t) && StablePermutation(cmp, t, u)
    ensures StablePermutation(cmp, s, u)
  {
  }

  /** Exchanging two neighbours that do not compare equal keeps every class in order. */
  lemma SwapKeepsPeers<T(!new)>(cmp: Comparison<T>, s: seq<T>, j: nat)
    requires TotalPreorder(cmp) && 0 < j < |s| && cmp(s[j], s[j - 1]) < 0
    ensures StablePermutation(cmp, s, Swapped(s, j, j - 1))
  {
    var t := Swapped(s, j, j - 1);
    assert s == s[..j - 1] + ([s[j - 1]] + [s[j]]) + s[j + 1..];
    assert t == s[..j - 1] + ([s[j]] + [s[j - 1]]) + s[j + 1..];
    forall x ensures Peers(cmp, s, x) == Peers(cmp, t, x) {
      PeersOfPair(cmp, s[j - 1], s[j], x);
      PeersConcat(cmp, s[..j - 1] + ([s[j - 1]] + [s[j]]), s[j + 1..], x);
      PeersConcat(cmp, s[..j - 1], [s[j - 1]] + [s[j]], x);
      PeersConcat(cmp, s[..j - 1] + ([s[j]] + [s[j - 1]]), s[j + 1..], x);
      PeersConcat(cmp, s[..j - 1], [s[j]] + [s[j - 1]], x);
    }
  }

  lemma PeersOfPair<T(!new)>(cmp: Comparison<T>, a: T, b: T, x: T)
    requires TotalPreorder(cmp) && cmp(b, a) < 0
    ensures Peers(cmp, [a] + [b], x) == Peers(cmp, [b] + [a], x)
  {
    assert ([a] + [b])[1..] == [b] && ([b] + [a])[1..] == [a];
    assert [a][1..] == [] && [b][1..] == [];
    assert !(cmp(a, x) == 0 && cmp(b, x) == 0);
  }

  /** Keeping every class in order is a permutation: each element keeps its number of occurrences. */
  lemma {:induction false} PeersCount<T>(cmp: Comparison<T>, s: seq<T>, x: T)
    requires cmp(x, x) == 0
    ensures multiset(s)[x] == multiset(Peers(cmp, s, x))[x]
  {
    if s != [] {
      PeersCount(cmp, s[1..], x);
      assert s == [s[0]] + s[1..];
    } else {
      assert multiset(s)[x] == 0;
    }
  }

  lemma StableIsPermutation<T(!new)>(cmp: Comparison<T>, s: seq<T>, t: seq<T>)
    requires TotalPreorder(cmp) && StablePermutation(cmp, s, t)
    ensures multiset(s) == multiset(t)
  {
    forall x ensures multiset(s)[x] == multiset(t)[x] {
      PeersCount(cmp, s, x);
      PeersCount(cmp, t, x);
    }
  }

  // ----- The branch for at most sixteen items: insertion by neighbouring swaps.

  /** The items up to `i` are in order, except that item `j` may be smaller than what precedes it. */
  ghost predicate Inserting<T>(cmp: Comparison<T>, s: seq<T>, i: int, j: int) {
    0 <= j <= i < |s| && forall p, q :: 0 <= p < q <= i && q != j ==> cmp(s[p], s[q]) <= 0
  }

  lemma InsertBegins<T>(cmp: Comparison<T>, s: seq<T>, i: int)
    requires 0 <= i < |s| && SortedSeq(cmp, s[..i])
    ensures Inserting(cmp, s, i, i)
  {
    assert forall p, q :: 0 <= p < q < i ==> s[..i][p] == s[p] && s[..i][q] == s[q];
  }

  lemma InsertStep<T(!new)>(cmp: Comparison<T>, s: seq<T>, i: int, j: int)
    requires TotalPreorder(cmp) && Inserting(cmp, s, i, j) && j > 0 && cmp(s[j], s[j - 1]) < 0
    ensures Inserting(cmp, Swapped(s, j, j - 1), i, j - 1)
  {
  }

  lemma InsertDone<T(!new)>(cmp: Comparison<T>, s: seq<T>, i: int, j: int)
    requires TotalPreorder(cmp) && Inserting(cmp, s, i, j) && (j > 0 ==> cmp(s[j], s[j - 1]) >= 0)
    ensures SortedSeq(cmp, s[..i + 1])
  {
    forall p | 0 <= p < j ensures cmp(s[p], s[j]) <= 0 {
      assert p < j - 1 ==> cmp(s[p], s[j - 1]) <= 0;
      assert cmp(s[j - 1], s[j]) <= 0;
    }
  }

  ghost function Segment<T>(a: array<T>, lo: nat, n: nat): seq<T>
    requires lo + n <= a.Length
    reads a
  {
    a[lo..lo + n]
  }

  /** Two states of an array differ at most in the segment. */
  ghost predicate OnlySegment<T>(before: seq<T>, after: seq<T>, lo: nat, n: nat) {
    lo + n <= |before| == |after| && before[..lo] == after[..lo] && before[lo + n..] == after[lo + n..]
  }

  method SwapItems<T>(a: array<T>, lo: nat, n: nat, i: nat, j: nat)
    requires lo + n <= a.Length && i < n && j < n
    modifies a
    ensures Segment(a, lo, n) == Swapped(old(Segment(a, lo, n)), i, j)
    ensures OnlySegment(old(a[..]), a[..], lo, n)
  {
    var swap := a[lo + i];
    a[lo + i] := a[lo + j];
    a[lo + j] := swap;
  }

  method InsertionSort<T(!new)>(cmp: Comparison<T>, a: array<T>, lo: nat, n: nat)
    requires TotalPreorder(cmp) && lo + n <= a.Length
    modifies a
    ensures SortedSeq(cmp, Segment(a, lo, n))
    ensures StablePermutation(cmp, old(Segment(a, lo, n)), Segment(a, lo, n))
    ensures OnlySegment(old(a[..]), a[..], lo, n)
  {
    var i := 1;
    while i < n
      invariant 1 <= i && (i <= n || n == 0)
      invariant n > 0 ==> SortedSeq(cmp, Segment(a, lo, n)[..i])
      invariant StablePermutation(cmp, old(Segment(a, lo, n)), Segment(a, lo, n))
      invariant OnlySegment(old(a[..]), a[..], lo, n)
    {
      InsertItem(cmp, a, lo, n, i);
      i := i + 1;
    }
    assert n > 0 ==> Segment(a, lo, n)[..n] == Segment(a, lo, n);
  }

  /** Moves item `i` down past every strictly greater item. */
  method InsertItem<T(!new)>(cmp: Comparison<T>, a: array<T>, lo: nat, n: nat, i: nat)
    requires TotalPreorder(cmp) && lo + n <= a.Length && 1 <= i < n
    requires SortedSeq(cmp, Segment(a, lo, n)[..i])
    modifies a
    ensures SortedSeq(cmp, Segment(a, lo, n)[..i + 1])
    ensures StablePermutation(cmp, old(Segment(a, lo, n)), Segment(a, lo, n))
    ensures OnlySegment(old(a[..]), a[..], lo, n)
  {
    hide StablePermutation, TotalPreorder, SortedSeq, Inserting, Swapped;
    var j := i;
    InsertBegins(cmp, Segment(a, lo, n), i);
    StableRefl(cmp, Segment(a, lo, n));
    while j > 0 && cmp(a[lo + j], a[lo + j - 1]) < 0
      invariant 0 <= j <= i && Inserting(cmp, Segment(a, lo, n), i, j)
      invariant StablePermutation(cmp, old(Segment(a, lo, n)), Segment(a, lo, n))
      invariant OnlySegment(old(a[..]), a[..], lo, n)
    {
      ghost var t := Segment(a, lo, n);
      SwapKeepsPeers(cmp, t, j);
      InsertStep(cmp, t, i, j);
      SwapItems(a, lo, n, j, j - 1);
      StableTrans(cmp, old(Segment(a, lo, n)), t, Segment(a, lo, n));
      j := j - 1;
    }
    InsertDone(cmp, Segment(a, lo, n), i, j);
  }

  // ----- The recursive branch. The pivot is read through a pointer to the first item, so the first exchange replaces
  // it.

  /** Between exchanges: items up to `i` are at most, items from `j` on at least, the item now first. */
  ghost predicate Partitioning<T>(cmp: Comparison<T>, s: seq<T>, i: int, j: int) {
    && -1 <= i < j <= |s| && (i == -1 <==> j == |s|) && |s| > 1
    && (forall k :: 0 <= k <= i ==> cmp(s[k], s[0]) <= 0)
    && (forall k :: j <= k < |s| ==> cmp(s[k], s[0]) >= 0)
  }

  /** After both scans: `i` and `j` stopped at items on the wrong side, or met. */
  ghost predicate Stopped<T>(cmp: Comparison<T>, s: seq<T>, i: int, j: int) {
    && 0 <= i < |s| && 0 <= j < |s| - (if i == 0 then 0 else 1)
    && (forall k :: 0 <= k < i ==> cmp(s[k], s[0]) <= 0) && cmp(s[i], s[0]) >= 0
    && (forall k :: j < k < |s| ==> cmp(s[k], s[0]) >= 0) && cmp(s[j], s[0]) <= 0
  }

  /**
    * Exchanging keeps the bounds, also the first time: the new first item is at most the old one, and everything
    * above `j` was at least the old one.
    */
  lemma ExchangeKeeps<T(!new)>(cmp: Comparison<T>, s: seq<T>, i: int, j: int)
    requires TotalPreorder(cmp) && Stopped(cmp, s, i, j) && i < j
    ensures Partitioning(cmp, Swapped(s, i, j), i, j)
  {
    var t := Swapped(s, i, j);
    forall k | j <= k < |t| ensures cmp(t[k], t[0]) >= 0 {
      assert cmp(t[0], s[0]) <= 0;
      assert cmp(s[0], t[k]) <= 0;
    }
    forall k | 0 <= k <= i ensures cmp(t[k], t[0]) <= 0 {
      if i > 0 { assert t[0] == s[0]; } else { assert t[k] == t[0]; }
    }
  }

  /** When the scans meet, both parts are non-empty and the first item separates them. */
  lemma MeetingSplits<T(!new)>(cmp: Comparison<T>, s: seq<T>, i: int, j: int)
    requires TotalPreorder(cmp) && |s| > 1 && Stopped(cmp, s, i, j) && i >= j
    ensures j + 1 < |s| && AllBelow(cmp, s[..j + 1], s[0]) && AllAbove(cmp, s[j + 1..], s[0])
  {
  }

  method ScanUp<T(!new)>(cmp: Comparison<T>, a: array<T>, lo: nat, n: nat, i: int, j: int) returns (i': int)
    requires TotalPreorder(cmp) && lo + n <= a.Length && Partitioning(cmp, Segment(a, lo, n), i, j)
    ensures i < i' < n && i' <= j && (i == -1 ==> i' == 0)
    ensures var s := Segment(a, lo, n);
            (forall k :: 0 <= k < i' ==> cmp(s[k], s[0]) <= 0) && cmp(s[i'], s[0]) >= 0
  {
    i' := i + 1;
    ghost var s := Segment(a, lo, n);
    while cmp(a[lo + i'], a[lo]) < 0
      invariant i < i' < n && i' <= j && (i == -1 ==> i' == 0)
      invariant forall k :: 0 <= k < i' ==> cmp(s[k], s[0]) <= 0
      decreases n - i'
    {
      assert s[i'] == a[lo + i'] && s[0] == a[lo];
      i' := i' + 1;
    }
    assert s[i'] == a[lo + i'] && s[0] == a[lo];
  }

  method ScanDown<T(!new)>(cmp: Comparison<T>, a: array<T>, lo: nat, n: nat, i: int, j: int) returns (j': int)
    requires TotalPreorder(cmp) && lo + n <= a.Length && Partitioning(cmp, Segment(a, lo, n), i, j)
    ensures 0 <= j' < j
    ensures var s := Segment(a, lo, n);
            (forall k :: j' < k < n ==> cmp(s[k], s[0]) >= 0) && cmp(s[j'], s[0]) <= 0
  {
    j' := j - 1;
    ghost var s := Segment(a, lo, n);
    while cmp(a[lo + j'], a[lo]) > 0
      invariant 0 <= j' < j
      invariant forall k :: j' < k < n ==> cmp(s[k], s[0]) >= 0
      decreases j'
    {
      assert s[j'] == a[lo + j'] && s[0] == a[lo];
      j' := j' - 1;
    }
    assert s[j'] == a[lo + j'] && s[0] == a[lo];
  }

  method Partition<T(!new)>(cmp: Comparison<T>, a: array<T>, lo: nat, n: nat) returns (m: nat, ghost pivot: T)
    requires TotalPreorder(cmp) && lo + n <= a.Length && n > 1
    modifies a
    ensures 0 < m < n
    ensures AllBelow(cmp, Segment(a, lo, n)[..m], pivot) && AllAbove(cmp, Segment(a, lo, n)[m..], pivot)
    ensures multiset(Segment(a, lo, n)) == multiset(old(Segment(a, lo, n)))
    ensures OnlySegment(old(a[..]), a[..], lo, n)
  {
    hide TotalPreorder, Partitioning, Stopped, Swapped, AllBelow, AllAbove;
    var i, j := -1, n;
    PartitionBegins(cmp, Segment(a, lo, n));
    while true
      invariant Partitioning(cmp, Segment(a, lo, n), i, j)
      invariant multiset(Segment(a, lo, n)) == multiset(old(Segment(a, lo, n)))
      invariant OnlySegment(old(a[..]), a[..], lo, n)
      decreases j - i
    {
      ghost var s := Segment(a, lo, n);
      PartitionInside(cmp, s, i, j);
      var i' := ScanUp(cmp, a, lo, n, i, j);
      var j' := ScanDown(cmp, a, lo, n, i, j);
      ScansStop(cmp, s, i, j, i', j');
      i, j := i', j';
      if i >= j {
        MeetingSplits(cmp, s, i, j);
        return j + 1, s[0];
      }
      ExchangeKeeps(cmp, s, i, j);
      SwapPermutes(s, i, j);
      SwapItems(a, lo, n, i, j);
    }
  }

  lemma PartitionBegins<T>(cmp: Comparison<T>, s: seq<T>)
    requires |s| > 1
    ensures Partitioning(cmp, s, -1, |s|)
  {
  }

  lemma PartitionInside<T>(cmp: Comparison<T>, s: seq<T>, i: int, j: int)
    requires Partitioning(cmp, s, i, j)
    ensures -1 <= i < j <= |s| && |s| > 1
  {
  }

  lemma ScansStop<T>(cmp: Comparison<T>, s: seq<T>, i: int, j: int, i': int, j': int)
    requires Partitioning(cmp, s, i, j) && i < i' < |s| && 0 <= j' < j && (i == -1 ==> i' == 0)
    requires (forall k :: 0 <= k < i' ==> cmp(s[k], s[0]) <= 0) && cmp(s[i'], s[0]) >= 0
    requires (forall k :: j' < k < |s| ==> cmp(s[k], s[0]) >= 0) && cmp(s[j'], s[0]) <= 0
    ensures Stopped(cmp, s, i', j')
  {
  }

  lemma SwapPermutes<T>(s: seq<T>, i: nat, j: nat)
    requires i < |s| && j < |s|
    ensures multiset(Swapped(s, i, j)) == multiset(s)
  {
  }

  /** Bounds survive any permutation. */
  lemma BoundsSurvive<T>(cmp: Comparison<T>, s: seq<T>, t: seq<T>, p: T)
    requires multiset(s) == multiset(t)
    ensures AllBelow(cmp, s, p) ==> AllBelow(cmp, t, p)
    ensures AllAbove(cmp, s, p) ==> AllAbove(cmp, t, p)
  {
    forall k | 0 <= k < |t| ensures exists m :: 0 <= m < |s| && s[m] == t[k] {
      assert t[k] in multiset(t);
      assert t[k] in multiset(s);
    }
  }

  /** Two sorted parts with a separating value form a sorted whole. */
  lemma JoinSorted<T(!new)>(cmp: Comparison<T>, s: seq<T>, m: nat, p: T)
    requires TotalPreorder(cmp) && m <= |s| && SortedSeq(cmp, s[..m]) && SortedSeq(cmp, s[m..])
    requires AllBelow(cmp, s[..m], p) && AllAbove(cmp, s[m..], p)
    ensures SortedSeq(cmp, s)
  {
    forall i, j | 0 <= i < j < |s| ensures cmp(s[i], s[j]) <= 0 {
      if j < m {
        assert s[i] == s[..m][i] && s[j] == s[..m][j];
      } else if i >= m {
        assert s[i] == s[m..][i - m] && s[j] == s[m..][j - m];
      } else {
        assert s[i] == s[..m][i] && s[j] == s[m..][j - m];
        assert cmp(p, s[j]) <= 0;
      }
    }
  }

  lemma AlreadySorted<T(!new)>(cmp: Comparison<T>, s: seq<T>, lo: nat, n: nat)
    requires lo + n <= |s| && n <= 1
    ensures SortedSeq(cmp, s[lo..lo + n]) && StablePermutation(cmp, s[lo..lo + n], s[lo..lo + n])
            && OnlySegment(s, s, lo, n)
  {
  }

  /** The sort template: a sorted permutation of the items, stable when there are at most sixteen. */
  method Sort<T(!new)>(cmp: Comparison<T>, a: array<T>, lo: nat, n: nat)
    requires TotalPreorder(cmp) && lo + n <= a.Length
    modifies a
    ensures SortedSeq(cmp, Segment(a, lo, n))
    ensures multiset(Segment(a, lo, n)) == multiset(old(Segment(a, lo, n)))
    ensures n <= 16 ==> StablePermutation(cmp, old(Segment(a, lo, n)), Segment(a, lo, n))
    ensures OnlySegment(old(a[..]), a[..], lo, n)
    decreases n
  {
    hide TotalPreorder, SortedSeq, StablePermutation, AllBelow, AllAbove, OnlySegment;
    if n <= 1 {
      AlreadySorted(cmp, a[..], lo, n);
      return;
    }
    if n <= 16 {
      InsertionSort(cmp, a, lo, n);
      StableIsPermutation(cmp, old(Segment(a, lo, n)), Segment(a, lo, n));
      return;
    }
    var m, pivot := Partition(cmp, a, lo, n);
    ghost var split := a[..];
    Sort(cmp, a, lo, m);
    ghost var half := a[..];
    Sort(cmp, a, lo + m, n - m);
    PartsJoin(cmp, old(a[..]), split, half, a[..], lo, n, m, pivot);
  }

  /** The two recursive calls work on disjoint segments, and together sort the whole. */
  lemma PartsJoin<T(!new)>(cmp: Comparison<T>, before: seq<T>, split: seq<T>, half: seq<T>, after: seq<T>, lo: nat,
    n: nat, m: nat, pivot: T)
    requires TotalPreorder(cmp) && m <= n && OnlySegment(before, split, lo, n) && OnlySegment(split, half, lo, m)
             && OnlySegment(half, after, lo + m, n - m)
    requires multiset(split[lo..lo + n]) == multiset(before[lo..lo + n])
    requires multiset(half[lo..lo + m]) == multiset(split[lo..lo + m]) && SortedSeq(cmp, half[lo..lo + m])
    requires multiset(after[lo + m..lo + n]) == multiset(half[lo + m..lo + n]) && SortedSeq(cmp, after[lo + m..lo + n])
    requires AllBelow(cmp, split[lo..lo + n][..m], pivot) && AllAbove(cmp, split[lo..lo + n][m..], pivot)
    ensures OnlySegment(before, after, lo, n)
    ensures multiset(after[lo..lo + n]) == multiset(before[lo..lo + n]) && SortedSeq(cmp, after[lo..lo + n])
  {
    hide TotalPreorder, SortedSeq, AllBelow, AllAbove;
    SameSlices(split, half, lo, m, lo + m, n - m);
    SameSlices(half, after, lo + m, n - m, lo, m);
    assert split[lo..lo + n] == split[lo..lo + m] + split[lo + m..lo + n];
    assert after[lo..lo + n] == after[lo..lo + m] + after[lo + m..lo + n];
    BoundsSurvive(cmp, split[lo..lo + m], after[lo..lo + m], pivot);
    BoundsSurvive(cmp, split[lo + m..lo + n], after[lo + m..lo + n], pivot);
    JoinSorted(cmp, after[lo..lo + n], m, pivot);
    OutsideBoth(before, split, half, after, lo, n, m);
  }

  lemma SameSlices<T>(before: seq<T>, after: seq<T>, lo: nat, n: nat, lo': nat, n': nat)
    requires OnlySegment(before, after, lo, n) && lo' + n' <= |before| && (lo' + n' <= lo || lo + n <= lo')
    ensures before[lo'..lo' + n'] == after[lo'..lo' + n']
  {
    if lo' + n' <= lo {
      assert before[lo'..lo' + n'] == before[..lo][lo'..lo' + n'] && after[lo'..lo' + n'] == after[..lo][lo'..lo' + n'];
    } else {
      var k := lo' - lo - n;
      assert before[lo'..lo' + n'] == before[lo + n..][k..k + n'] && after[lo'..lo' + n'] == after[lo + n..][k..k + n'];
    }
  }

  lemma OutsideBoth<T>(before: seq<T>, split: seq<T>, half: seq<T>, after: seq<T>, lo: nat, n: nat, m: nat)
    requires m <= n && OnlySegment(before, split, lo, n) && OnlySegment(split, half, lo, m)
             && OnlySegment(half, after, lo + m, n - m)
    ensures OnlySegment(before, after, lo, n)
  {
    SameSlices(split, half, lo, m, lo + n, |split| - lo - n);
    SameSlices(half, after, lo + m, n - m, 0, lo);
  }

  // ----- The search template.

  /** The items are in order relative to the key: what compares above stays above, what compares below stays below. */
  ghost predicate Monotone(compare: nat -> int, count: nat) {
    forall i, j :: 0 <= i < j < count ==> (compare(i) < 0 ==> compare(j) < 0) && (compare(j) > 0 ==> compare(i) > 0)
  }

  /** `compare(i)` compares the key with item `i`. */
  method Search(compare: nat -> int, count: nat) returns (result: nat, found: bool)
    requires Monotone(compare, count)
    ensures found <==> exists i :: 0 <= i < count && compare(i) == 0
    ensures found ==> result < count && compare(result) == 0
    ensures !found ==> result <= count && (forall i :: 0 <= i < result ==> compare(i) > 0)
                                                       && (forall i :: result <= i < count ==> compare(i) < 0)
  {
    var low, high := 0, count - 1;
    while low <= high
      invariant 0 <= low <= high + 1 <= count
      invariant forall i :: 0 <= i < low ==> compare(i) > 0
      invariant forall i :: high < i < count ==> compare(i) < 0
    {
      var index := (high - low) / 2 + low;
      if compare(index) < 0 {
        high := index - 1;
      } else if compare(index) > 0 {
        low := index + 1;
      } else {
        return index, true;
      }
    }
    return low, false;
  }
}
