/** lib/stdlib.c's heap sort and binary search, for any element type and any comparison
    function that is a total preorder. */
module Sorting {
  /** A strcmp()-type comparison: one way up is the other way down, and it is transitive. */
  ghost predicate TotalPreorder<T(!new)>(c: (T, T) -> int) {
    (forall a, b :: c(a, b) > 0 <==> c(b, a) < 0) &&
    forall a, b, d :: c(a, b) <= 0 && c(b, d) <= 0 ==> c(a, d) <= 0
  }

  lemma Transitive<T(!new)>(c: (T, T) -> int, a: T, b: T, d: T)
    requires TotalPreorder(c) && c(a, b) <= 0 && c(b, d) <= 0
    ensures c(a, d) <= 0
  {}

  lemma Total<T(!new)>(c: (T, T) -> int, a: T, b: T)
    requires TotalPreorder(c)
    ensures c(a, b) <= 0 || c(b, a) <= 0
    ensures c(a, b) > 0 <==> c(b, a) < 0
  {}

  // ---------------------------------------------------------------- heaps

  /** Element k of the heap, by its 1-based number, is not above its parent. */
  ghost predicate BelowParent<T(!new)>(c: (T, T) -> int, s: seq<T>, k: int)
    requires 2 <= k <= |s|
  {
    c(s[k - 1], s[k / 2 - 1]) <= 0
  }

  /** The first cnt elements are a heap from number lo on: each one whose parent's number is
      at least lo is not above its parent. */
  ghost predicate IsHeap<T(!new)>(c: (T, T) -> int, s: seq<T>, lo: int, cnt: int) {
    cnt <= |s| && forall k :: 2 <= k <= cnt && lo <= k / 2 ==> BelowParent(c, s, k)
  }

  /** Element k is in the subtree with root r. */
  predicate Under(r: int, k: int)
    decreases k
  {
    1 <= r <= k && (k == r || Under(r, k / 2))
  }

  /** The subtree with root r is a heap. */
  ghost predicate SubHeap<T(!new)>(c: (T, T) -> int, s: seq<T>, r: int, cnt: int) {
    cnt <= |s| && forall k :: 2 <= k <= cnt && Under(r, k / 2) ==> BelowParent(c, s, k)
  }

  /** The two subtrees under r are heaps. */
  ghost predicate SubHeaps<T(!new)>(c: (T, T) -> int, s: seq<T>, r: int, cnt: int) {
    cnt <= |s| && forall k :: 2 <= k <= cnt && Under(r, k / 2) && k / 2 != r ==> BelowParent(c, s, k)
  }

  /** The subtree with root r is in order but for element i, whose children are not above
      its parent. */
  ghost predicate AllBut<T(!new)>(c: (T, T) -> int, s: seq<T>, r: int, i: int, cnt: int) {
    cnt <= |s| && Under(r, i) &&
    (forall k :: 2 <= k <= cnt && Under(r, k / 2) && k / 2 != i ==> BelowParent(c, s, k)) &&
    forall k :: 4 <= k <= cnt && k / 2 == i && Under(r, i / 2) ==> c(s[k - 1], s[i / 2 - 1]) <= 0
  }

  /** The two differ at most in the subtree with root r of the first cnt elements. */
  ghost predicate OnlyUnder<T(!new)>(s: seq<T>, t: seq<T>, r: int, cnt: int) {
    |s| == |t| && forall k :: 1 <= k <= |s| && !(k <= cnt && Under(r, k)) ==> t[k - 1] == s[k - 1]
  }

  /** Swap elements by their 1-based numbers. */
  function Swapped<T>(s: seq<T>, i: int, j: int): (r: seq<T>)
    requires 1 <= i <= |s| && 1 <= j <= |s|
    ensures |r| == |s|
  {
    s[i - 1 := s[j - 1]][j - 1 := s[i - 1]]
  }

  lemma SwapKeeps<T>(s: seq<T>, i: int, j: int, cnt: int)
    requires 1 <= i <= cnt && 1 <= j <= cnt && cnt <= |s|
    ensures multiset(Swapped(s, i, j)[..cnt]) == multiset(s[..cnt])
    ensures Swapped(s, i, j)[cnt..] == s[cnt..]
  {
    assert Swapped(s, i, j)[..cnt] == Swapped(s[..cnt], i, j);
    SwapMultiset(s[..cnt], i, j);
  }

  lemma SwapMultiset<T>(s: seq<T>, i: int, j: int)
    requires 1 <= i <= |s| && 1 <= j <= |s|
    ensures multiset(Swapped(s, i, j)) == multiset(s)
  {}

  /** The child to go down to: the highest of i and its children. */
  ghost predicate Highest<T(!new)>(c: (T, T) -> int, s: seq<T>, i: int, cnt: int, m: int)
    requires 1 <= i <= cnt <= |s|
  {
    1 <= m <= cnt && (m == i || m == 2 * i || m == 2 * i + 1) && c(s[i - 1], s[m - 1]) <= 0 &&
    forall k :: 2 <= k <= cnt && k / 2 == i ==> c(s[k - 1], s[m - 1]) <= 0
  }

  /** Swapping i with its highest child moves the gap down to that child. */
  lemma GapMoves<T(!new)>(c: (T, T) -> int, s: seq<T>, r: int, i: int, cnt: int, m: int)
    requires TotalPreorder(c) && 1 <= i <= cnt <= |s| && AllBut(c, s, r, i, cnt) && Highest(c, s, i, cnt, m) && m != i
    ensures AllBut(c, Swapped(s, i, m), r, m, cnt)
  {
    var t := Swapped(s, i, m);
    assert m / 2 == i && Under(r, m) && m <= cnt;
    hide TotalPreorder, Highest;
    forall k | 2 <= k <= cnt && Under(r, k / 2) && k / 2 != m
      ensures BelowParent(c, t, k)
    {
      GapBelow(c, s, r, i, cnt, m, k);
    }
    forall k | 4 <= k <= cnt && k / 2 == m && Under(r, m / 2)
      ensures c(t[k - 1], t[m / 2 - 1]) <= 0
    {
      GapAbove(c, s, r, i, cnt, m, k);
    }
  }

  lemma GapAbove<T(!new)>(c: (T, T) -> int, s: seq<T>, r: int, i: int, cnt: int, m: int, k: int)
    requires 1 <= i <= cnt <= |s| && AllBut(c, s, r, i, cnt) && 1 <= m <= cnt && m != i && m / 2 == i
    requires 4 <= k <= cnt && k / 2 == m
    ensures c(Swapped(s, i, m)[k - 1], Swapped(s, i, m)[m / 2 - 1]) <= 0
  {
    assert Under(r, m) && BelowParent(c, s, k);
  }

  lemma GapBelow<T(!new)>(c: (T, T) -> int, s: seq<T>, r: int, i: int, cnt: int, m: int, k: int)
    requires 1 <= i <= cnt <= |s| && AllBut(c, s, r, i, cnt) && Highest(c, s, i, cnt, m) && m != i && m / 2 == i
    requires 2 <= k <= cnt && Under(r, k / 2) && k / 2 != m
    ensures BelowParent(c, Swapped(s, i, m), k)
  {
    if k == i {
      assert c(s[m - 1], s[i / 2 - 1]) <= 0;
    } else if k / 2 != i {
      assert BelowParent(c, s, k);
    }
  }

  /** No child is above i: the subtree is in order. */
  lemma GapCloses<T(!new)>(c: (T, T) -> int, s: seq<T>, r: int, i: int, cnt: int)
    requires 1 <= i <= cnt <= |s| && AllBut(c, s, r, i, cnt) && Highest(c, s, i, cnt, i)
    ensures SubHeap(c, s, r, cnt)
  {
    forall k | 2 <= k <= cnt && Under(r, k / 2)
      ensures BelowParent(c, s, k)
    {}
  }

  lemma GapOpens<T(!new)>(c: (T, T) -> int, s: seq<T>, i: int, cnt: int)
    requires 1 <= i <= cnt && SubHeaps(c, s, i, cnt)
    ensures AllBut(c, s, i, i, cnt)
  {}

  /** With everything past r in heap order, putting r's subtree in order puts everything
      from r on in order. */
  lemma FromSubtree<T(!new)>(c: (T, T) -> int, s: seq<T>, t: seq<T>, r: int, cnt: int)
    requires 1 <= r && IsHeap(c, s, r + 1, cnt) && OnlyUnder(s, t, r, cnt) && SubHeap(c, t, r, cnt)
    ensures IsHeap(c, t, r, cnt)
  {
    forall k | 2 <= k <= cnt && r <= k / 2
      ensures BelowParent(c, t, k)
    {
      if !Under(r, k / 2) {
        assert !Under(r, k) && t[k - 1] == s[k - 1] && t[k / 2 - 1] == s[k / 2 - 1];
        assert BelowParent(c, s, k);
      }
    }
  }

  /** The root of a heap is the highest. */
  lemma {:induction false} RootHighest<T(!new)>(c: (T, T) -> int, s: seq<T>, cnt: int, k: int)
    requires TotalPreorder(c) && IsHeap(c, s, 1, cnt) && 1 <= k <= cnt
    ensures c(s[k - 1], s[0]) <= 0
    decreases k
  {
    if k == 1 {
      Total(c, s[0], s[0]);
    } else {
      assert BelowParent(c, s, k);
      RootHighest(c, s, cnt, k / 2);
    }
  }

  // ---------------------------------------------------------------- heapify

  /** do_swap. */
  method DoSwap<T>(a: array<T>, i: nat, j: nat)
    requires 1 <= i <= a.Length && 1 <= j <= a.Length
    modifies a
    ensures a[..] == Swapped(old(a[..]), i, j)
  {
    a[i - 1], a[j - 1] := a[j - 1], a[i - 1];
  }

  /** The children of i compared with it and with each other. */
  method MaxOfThree<T(!new)>(c: (T, T) -> int, a: array<T>, i: nat, cnt: nat) returns (max: nat)
    requires TotalPreorder(c) && 1 <= i <= cnt <= a.Length
    ensures Highest(c, a[..], i, cnt, max)
  {
    var left, right := 2 * i, 2 * i + 1;
    max := i;
    ghost var s := a[..];
    Total(c, a[i - 1], a[i - 1]);
    if left <= cnt && c(a[left - 1], a[max - 1]) > 0 {
      max := left;
    }
    LeftSeen(c, s, i, left, cnt, max);
    ghost var first := max;
    if right <= cnt && c(a[right - 1], a[max - 1]) > 0 {
      max := right;
    }
    RightSeen(c, s, i, left, right, cnt, first, max);
  }

  lemma LeftSeen<T(!new)>(c: (T, T) -> int, s: seq<T>, i: int, left: int, cnt: int, m: int)
    requires TotalPreorder(c) && 1 <= i <= cnt <= |s| && left == 2 * i
    requires m == if left <= cnt && c(s[left - 1], s[i - 1]) > 0 then left else i
    ensures c(s[i - 1], s[m - 1]) <= 0 && (left <= cnt ==> c(s[left - 1], s[m - 1]) <= 0)
  {
    Total(c, s[i - 1], s[i - 1]);
    if left <= cnt {
      Total(c, s[left - 1], s[i - 1]);
      Total(c, s[left - 1], s[left - 1]);
    }
    hide TotalPreorder;
  }

  lemma RightSeen<T(!new)>(c: (T, T) -> int, s: seq<T>, i: int, left: int, right: int, cnt: int, first: int, m: int)
    requires TotalPreorder(c) && 1 <= i <= cnt <= |s| && left == 2 * i && right == left + 1
    requires (first == i || first == left) && first <= cnt
    requires c(s[i - 1], s[first - 1]) <= 0 && (left <= cnt ==> c(s[left - 1], s[first - 1]) <= 0)
    requires m == if right <= cnt && c(s[right - 1], s[first - 1]) > 0 then right else first
    ensures Highest(c, s, i, cnt, m)
  {
    if right <= cnt {
      Total(c, s[right - 1], s[first - 1]);
      Total(c, s[right - 1], s[right - 1]);
      if m == right {
        Transitive(c, s[i - 1], s[first - 1], s[right - 1]);
        Transitive(c, s[left - 1], s[first - 1], s[right - 1]);
      }
    }
    hide TotalPreorder;
  }

  /** heapify: when the two subtrees under element i0 are heaps, it floats down until its
      own subtree is one.  The subtree keeps its elements, and all others stay where they are. */
  method Heapify<T(!new)>(c: (T, T) -> int, a: array<T>, i0: nat, cnt: nat)
    requires TotalPreorder(c) && 1 <= i0 <= cnt <= a.Length && SubHeaps(c, a[..], i0, cnt)
    modifies a
    ensures SubHeap(c, a[..], i0, cnt) && OnlyUnder(old(a[..]), a[..], i0, cnt)
    ensures multiset(a[..cnt]) == multiset(old(a[..cnt])) && a[cnt..] == old(a[cnt..])
    ensures IsHeap(c, old(a[..]), i0 + 1, cnt) ==> IsHeap(c, a[..], i0, cnt)
  {
    var i := i0;
    hide TotalPreorder, Highest, AllBut, SubHeaps, SubHeap, IsHeap, OnlyUnder;
    GapOpens(c, a[..], i0, cnt);
    Untouched(a[..], i0, cnt);
    while true
      invariant 1 <= i <= cnt && AllBut(c, a[..], i0, i, cnt) && OnlyUnder(old(a[..]), a[..], i0, cnt)
      invariant multiset(a[..cnt]) == multiset(old(a[..cnt])) && a[cnt..] == old(a[cnt..])
      decreases cnt - i
    {
      var max := MaxOfThree(c, a, i, cnt);
      if max == i {
        GapCloses(c, a[..], i0, i, cnt);
        break;
      }
      ChildBelow(c, a[..], i, cnt, max);
      GapMoves(c, a[..], i0, i, cnt, max);
      SwapUnder(c, old(a[..]), a[..], i0, i, max, cnt);
      SwapKeeps(a[..], i, max, cnt);
      DoSwap(a, i, max);
      i := max;
    }
    if IsHeap(c, old(a[..]), i0 + 1, cnt) { FromSubtree(c, old(a[..]), a[..], i0, cnt); }
  }

  lemma Untouched<T(!new)>(s: seq<T>, r: int, cnt: int)
    ensures OnlyUnder(s, s, r, cnt)
  {}

  lemma SwapUnder<T(!new)>(c: (T, T) -> int, s: seq<T>, t: seq<T>, r: int, i: int, m: int, cnt: int)
    requires 1 <= i <= cnt <= |t| && 1 <= m <= cnt && OnlyUnder(s, t, r, cnt)
    requires AllBut(c, t, r, i, cnt) && AllBut(c, Swapped(t, i, m), r, m, cnt)
    ensures OnlyUnder(s, Swapped(t, i, m), r, cnt)
  {}

  /** Heap order past i takes in i's two subtrees. */
  lemma BothSubtrees<T(!new)>(c: (T, T) -> int, s: seq<T>, i: int, cnt: int)
    requires IsHeap(c, s, i + 1, cnt)
    ensures SubHeaps(c, s, i, cnt)
  {
    forall k | 2 <= k <= cnt && Under(i, k / 2) && k / 2 != i
      ensures BelowParent(c, s, k)
    {
      assert k / 2 >= i + 1;
    }
  }

  lemma ChildBelow<T(!new)>(c: (T, T) -> int, s: seq<T>, i: int, cnt: int, m: int)
    requires 1 <= i <= cnt <= |s| && Highest(c, s, i, cnt, m) && m != i
    ensures i < m <= cnt
  {}

  // ---------------------------------------------------------------- sort

  ghost predicate SortedFrom<T(!new)>(c: (T, T) -> int, s: seq<T>, lo: int) {
    0 <= lo && forall k, l :: lo <= k < l < |s| ==> c(s[k], s[l]) <= 0
  }

  ghost predicate Sorted<T(!new)>(c: (T, T) -> int, s: seq<T>) {
    SortedFrom(c, s, 0)
  }

  /** Nothing in front of position i is above anything from i on. */
  ghost predicate Split<T(!new)>(c: (T, T) -> int, s: seq<T>, i: int) {
    0 <= i <= |s| && forall k, l :: 0 <= k < i <= l < |s| ==> c(s[k], s[l]) <= 0
  }

  lemma RootAboveAll<T(!new)>(c: (T, T) -> int, s: seq<T>, i: int)
    requires TotalPreorder(c) && IsHeap(c, s, 1, i)
    ensures forall x :: 0 <= x < i ==> c(s[x], s[0]) <= 0
  {
    forall x | 0 <= x < i
      ensures c(s[x], s[0]) <= 0
    {
      RootHighest(c, s, i, x + 1);
    }
  }

  lemma ShorterHeap<T(!new)>(c: (T, T) -> int, s: seq<T>, i: int)
    requires 1 < i <= |s| && IsHeap(c, s, 1, i)
    ensures IsHeap(c, Swapped(s, 1, i), 2, i - 1)
  {
    var t := Swapped(s, 1, i);
    forall k | 2 <= k <= i - 1 && 2 <= k / 2
      ensures BelowParent(c, t, k)
    {
      assert BelowParent(c, s, k);
    }
  }

  /** The root joins the sorted end. */
  lemma RootMoves<T(!new)>(c: (T, T) -> int, s: seq<T>, i: int)
    requires TotalPreorder(c) && 1 < i <= |s| && IsHeap(c, s, 1, i) && SortedFrom(c, s, i) && Split(c, s, i)
    ensures var t := Swapped(s, 1, i);
            IsHeap(c, t, 2, i - 1) && SortedFrom(c, t, i - 1) && Split(c, t, i - 1)
  {
    var t := Swapped(s, 1, i);
    RootAboveAll(c, s, i);
    ShorterHeap(c, s, i);
    hide TotalPreorder, IsHeap;
    forall k, l | 0 <= k < i - 1 <= l < |t|
      ensures c(t[k], t[l]) <= 0
    {
      assert t[k] == s[if k == 0 then i - 1 else k];
    }
  }

  /** Rearranging the front keeps the split and the sorted end. */
  lemma FrontShuffled<T(!new)>(c: (T, T) -> int, s: seq<T>, t: seq<T>, i: int)
    requires SortedFrom(c, s, i) && Split(c, s, i) && |t| == |s| && multiset(t[..i]) == multiset(s[..i]) &&
             t[i..] == s[i..]
    ensures SortedFrom(c, t, i) && Split(c, t, i)
  {
    forall k, l | i <= k < l < |t|
      ensures c(t[k], t[l]) <= 0
    {
      assert t[i..][k - i] == s[i..][k - i] && t[i..][l - i] == s[i..][l - i];
    }
    forall k, l | 0 <= k < i <= l < |t|
      ensures c(t[k], t[l]) <= 0
    {
      assert t[i..][l - i] == s[i..][l - i];
      FromFront(s[..i], t[..i], k);
      var x :| 0 <= x < i && s[..i][x] == t[..i][k];
    }
  }

  lemma FromFront<T>(s: seq<T>, t: seq<T>, k: int)
    requires multiset(s) == multiset(t) && 0 <= k < |t|
    ensures exists x :: 0 <= x < |s| && s[x] == t[k]
  {
    assert t[k] in multiset(t);
    assert t[k] in s;
  }

  lemma WholeMultiset<T>(s: seq<T>, t: seq<T>, i: int)
    requires |s| == |t| && 0 <= i <= |s| && multiset(t[..i]) == multiset(s[..i]) && t[i..] == s[i..]
    ensures multiset(t) == multiset(s)
  {
    assert s == s[..i] + s[i..] && t == t[..i] + t[i..];
  }

  /** The end of the second loop: a one-element heap in front of a sorted end. */
  lemma AllSorted<T(!new)>(c: (T, T) -> int, s: seq<T>, i: int)
    requires 0 <= i <= 1 && SortedFrom(c, s, i) && Split(c, s, i)
    ensures Sorted(c, s)
  {}

  /** The elements of t are those of s. */
  ghost predicate Permuted<T>(s: seq<T>, t: seq<T>) {
    multiset(s) == multiset(t)
  }

  /** sort: the same elements, in order. */
  method Sort<T(!new)>(c: (T, T) -> int, a: array<T>)
    requires TotalPreorder(c)
    modifies a
    ensures Sorted(c, a[..]) && multiset(a[..]) == multiset(old(a[..]))
  {
    hide TotalPreorder, IsHeap, Sorted;
    BuildHeap(c, a);
    SortHeap(c, a);
  }

  /** The first loop of sort. */
  method BuildHeap<T(!new)>(c: (T, T) -> int, a: array<T>)
    requires TotalPreorder(c)
    modifies a
    ensures IsHeap(c, a[..], 1, a.Length) && Permuted(old(a[..]), a[..])
  {
    hide TotalPreorder, IsHeap, SubHeaps, SubHeap, OnlyUnder;
    var cnt := a.Length;
    NoParents(c, a[..], cnt);
    var i := cnt / 2;
    while i > 0
      invariant 0 <= i <= cnt / 2 && IsHeap(c, a[..], i + 1, cnt) && Permuted(old(a[..]), a[..])
    {
      ghost var before := a[..];
      BothSubtrees(c, a[..], i, cnt);
      Heapify(c, a, i, cnt);
      WholeMultiset(before, a[..], cnt);
      i := i - 1;
    }
  }

  /** The second loop of sort: the root goes to the sorted end and the rest becomes a heap. */
  method SortHeap<T(!new)>(c: (T, T) -> int, a: array<T>)
    requires TotalPreorder(c) && IsHeap(c, a[..], 1, a.Length)
    modifies a
    ensures Sorted(c, a[..]) && Permuted(old(a[..]), a[..])
  {
    hide TotalPreorder, IsHeap, SortedFrom, Split, Sorted, SubHeaps, SubHeap, OnlyUnder;
    NothingSorted(c, a[..]);
    var i := a.Length;
    while i > 1
      invariant 0 <= i <= a.Length && IsHeap(c, a[..], 1, i) && SortedFrom(c, a[..], i) && Split(c, a[..], i)
      invariant Permuted(old(a[..]), a[..])
    {
      RootMoves(c, a[..], i);
      SwapMultiset(a[..], 1, i);
      DoSwap(a, 1, i);
      ghost var before := a[..];
      BothSubtrees(c, a[..], 1, i - 1);
      Heapify(c, a, 1, i - 1);
      FrontShuffled(c, before, a[..], i - 1);
      WholeMultiset(before, a[..], i - 1);
      i := i - 1;
    }
    AllSorted(c, a[..], i);
  }

  /** Past the middle no element has a child. */
  lemma NoParents<T(!new)>(c: (T, T) -> int, s: seq<T>, cnt: int)
    requires cnt == |s|
    ensures IsHeap(c, s, cnt / 2 + 1, cnt)
  {}

  lemma NothingSorted<T(!new)>(c: (T, T) -> int, s: seq<T>)
    ensures SortedFrom(c, s, |s|) && Split(c, s, |s|)
  {}

  // ---------------------------------------------------------------- binary_search

  lemma BelowToo<T(!new)>(c: (T, T) -> int, key: T, x: T, y: T)
    requires TotalPreorder(c) && c(x, y) <= 0
    ensures c(key, y) > 0 ==> c(key, x) > 0
    ensures c(key, x) < 0 ==> c(key, y) < 0
  {
    Total(c, y, key);
    Total(c, x, key);
    if c(key, x) <= 0 { Transitive(c, key, x, y); }
    if c(y, key) <= 0 { Transitive(c, x, y, key); }
  }

  /** In a sorted sequence everything in front of an element below the key is below it too. */
  lemma FrontBelow<T(!new)>(c: (T, T) -> int, s: seq<T>, key: T, m: int)
    requires TotalPreorder(c) && Sorted(c, s) && 0 <= m < |s| && c(key, s[m]) > 0
    ensures forall j :: 0 <= j <= m ==> c(key, s[j]) > 0
  {
    forall j | 0 <= j < m
      ensures c(key, s[j]) > 0
    {
      BelowToo(c, key, s[j], s[m]);
    }
  }

  lemma EndAbove<T(!new)>(c: (T, T) -> int, s: seq<T>, key: T, m: int)
    requires TotalPreorder(c) && Sorted(c, s) && 0 <= m < |s| && c(key, s[m]) < 0
    ensures forall j :: m <= j < |s| ==> c(key, s[j]) < 0
  {
    forall j | m < j < |s|
      ensures c(key, s[j]) < 0
    {
      BelowToo(c, key, s[m], s[j]);
    }
  }

  /** binary_search: the place of a match, or -1 (null) when there is none. */
  method BinarySearch<T(!new)>(c: (T, T) -> int, key: T, a: array<T>) returns (r: int)
    requires TotalPreorder(c) && Sorted(c, a[..])
    ensures r == -1 || (0 <= r < a.Length && c(key, a[r]) == 0)
    ensures r == -1 <==> forall j :: 0 <= j < a.Length ==> c(key, a[j]) != 0
  {
    hide TotalPreorder, Sorted;
    var first, last := 0, a.Length;
    while first < last
      invariant 0 <= first <= last <= a.Length
      invariant forall j :: 0 <= j < first || last <= j < a.Length ==> c(key, a[j]) != 0
    {
      var range := last - first;
      var middle := first + range / 2;
      var cmp := c(key, a[middle]);
      if cmp < 0 {
        EndAbove(c, a[..], key, middle);
        assert forall j :: middle <= j < a.Length ==> c(key, a[..][j]) < 0;
        last := middle;
      } else if cmp > 0 {
        FrontBelow(c, a[..], key, middle);
        assert forall j :: 0 <= j <= middle ==> c(key, a[..][j]) > 0;
        first := middle + 1;
      } else {
        return middle;
      }
    }
    return -1;
  }
}
