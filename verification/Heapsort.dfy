/** In-place heapsort and binary search (proj-pregame/src/lib/stdlib.c:55-178). Elements are numbered from 1, as
    there. */
module Heapsort {
  import opened Basics

  type Compare<!T> = (T, T) -> int

  /** What a comparison function must satisfy. The trigger keeps the law from being used unasked. */
  ghost predicate Preorder<T(!new)>(cmp: Compare<T>) {
    forall a, b, c {:trigger Consider(a, b, c)} :: Consider(a, b, c) ==>
      (cmp(a, b) <= 0 && cmp(b, c) <= 0 ==> cmp(a, c) <= 0) && (cmp(a, b) < 0 <==> 0 < cmp(b, a))
  }

  ghost predicate Consider<T>(a: T, b: T, c: T) { true }

  lemma Trans<T(!new)>(cmp: Compare<T>, a: T, b: T, c: T)
    requires Preorder(cmp) && cmp(a, b) <= 0 && cmp(b, c) <= 0
    ensures cmp(a, c) <= 0
  {
    assert Consider(a, b, c);
  }

  lemma Flip<T(!new)>(cmp: Compare<T>, a: T, b: T)
    requires Preorder(cmp)
    ensures (cmp(a, b) < 0 <==> 0 < cmp(b, a)) && cmp(a, a) == 0
  {
    assert Consider(a, b, a) && Consider(b, a, b) && Consider(a, a, a);
  }

  /** Elements `i` and `j` exchanged. */
  function Swapped<T>(s: seq<T>, i: nat, j: nat): (r: seq<T>)
    requires 1 <= i <= |s| && 1 <= j <= |s|
    ensures |r| == |s|
  {
    s[i - 1 := s[j - 1]][j - 1 := s[i - 1]]
  }

  /** Element `c` is not above its parent `p`. */
  ghost predicate Ok<T>(s: seq<T>, p: int, c: int, cmp: Compare<T>) {
    1 <= p <= |s| && 1 <= c <= |s| && cmp(s[c - 1], s[p - 1]) <= 0
  }

  function Parent(c: int): int { c / 2 }

  /** The first `cnt` elements are in heap order below every element from `lo` on. */
  ghost predicate Heap<T>(s: seq<T>, lo: int, cnt: int, cmp: Compare<T>) {
    0 <= cnt <= |s| && (forall c :: 2 <= c <= cnt && lo <= Parent(c) ==> Ok(s, Parent(c), c, cmp))
  }

  /** The same, except that element `i` may be below its children; these are not above the parent of `i`. */
  ghost predicate Sifting<T>(s: seq<T>, lo: int, i: int, cnt: int, cmp: Compare<T>) {
    && 1 <= lo <= i && 0 <= cnt <= |s|
    && (forall c :: 2 <= c <= cnt && lo <= Parent(c) && Parent(c) != i ==> Ok(s, Parent(c), c, cmp))
    && (forall c :: 2 <= c <= cnt && Parent(c) == i && lo <= Parent(i) ==> Ok(s, Parent(i), c, cmp))
  }

  /** `max` is `i` or its child, and no child of `i` is above it. */
  ghost predicate Largest<T>(s: seq<T>, i: int, max: int, cnt: int, cmp: Compare<T>) {
    && 1 <= i && (max == i || (max <= cnt && Parent(max) == i && max > i)) && 1 <= max <= |s| && 1 <= i <= |s|
    && cnt <= |s|
    && cmp(s[i - 1], s[max - 1]) <= 0
    && (forall c :: 2 <= c <= cnt && Parent(c) == i ==> Ok(s, max, c, cmp))
  }

  lemma SiftDone<T>(s: seq<T>, lo: int, i: int, cnt: int, cmp: Compare<T>)
    requires Sifting(s, lo, i, cnt, cmp) && Largest(s, i, i, cnt, cmp)
    ensures Heap(s, lo, cnt, cmp)
  {
  }

  lemma SiftOne<T(!new)>(s: seq<T>, lo: int, i: int, max: int, cnt: int, cmp: Compare<T>, c: int)
    requires Preorder(cmp) && Sifting(s, lo, i, cnt, cmp) && Largest(s, i, max, cnt, cmp) && max != i
    requires 2 <= c <= cnt && lo <= Parent(c) && Parent(c) != max
    ensures Ok(Swapped(s, i, max), Parent(c), c, cmp)
  {
    var r := Swapped(s, i, max);
    if Parent(c) == i {
      assert Ok(s, max, c, cmp);
    } else {
      assert Ok(s, Parent(c), c, cmp);
      if c == i { assert Ok(s, Parent(i), max, cmp); }
    }
  }

  /** Exchanging an element with its largest child moves the disorder down. */
  lemma SiftStep<T(!new)>(s: seq<T>, lo: int, i: int, max: int, cnt: int, cmp: Compare<T>)
    requires Preorder(cmp) && Sifting(s, lo, i, cnt, cmp) && Largest(s, i, max, cnt, cmp) && max != i
    ensures Sifting(Swapped(s, i, max), lo, max, cnt, cmp)
  {
    var r := Swapped(s, i, max);
    forall c | 2 <= c <= cnt && lo <= Parent(c) && Parent(c) != max ensures Ok(r, Parent(c), c, cmp) {
      SiftOne(s, lo, i, max, cnt, cmp, c);
    }
    forall c | 2 <= c <= cnt && Parent(c) == max && lo <= Parent(max) ensures Ok(r, Parent(max), c, cmp) {
      assert Ok(s, max, c, cmp);
    }
  }

  /** Only the first `n` elements have moved, among themselves. */
  ghost predicate Shuffled<T>(s: seq<T>, r: seq<T>, n: nat) {
    n <= |s| == |r| && multiset(s[..n]) == multiset(r[..n]) && s[n..] == r[n..]
  }

  lemma SwapShuffles<T>(s: seq<T>, i: nat, j: nat, n: nat)
    requires 1 <= i <= n && 1 <= j <= n <= |s|
    ensures Shuffled(s, Swapped(s, i, j), n)
  {
    var p, r := s[..n], Swapped(s, i, j);
    assert r[..n] == p[i - 1 := p[j - 1]][j - 1 := p[i - 1]];
    SwapPermutes(p, i - 1, j - 1);
  }

  lemma SwapPermutes<T>(p: seq<T>, i: nat, j: nat)
    requires i < |p| && j < |p|
    ensures multiset(p[i := p[j]][j := p[i]]) == multiset(p)
  {
  }

  /** `do_swap`. */
  method DoSwap<T>(a: array<T>, i: nat, j: nat)
    requires 1 <= i <= a.Length && 1 <= j <= a.Length
    modifies a
    ensures a[..] == Swapped(old(a[..]), i, j)
  {
    a[i - 1], a[j - 1] := a[j - 1], a[i - 1];
  }

  /** The choice in the loop of `heapify`. */
  method FindLargest<T(!new)>(a: array<T>, i: nat, cnt: nat, cmp: Compare<T>) returns (max: nat)
    requires Preorder(cmp) && 1 <= i <= cnt <= a.Length
    ensures Largest(a[..], i, max, cnt, cmp)
  {
    var left, right := 2 * i, 2 * i + 1;
    max := i;
    Flip(cmp, a[i - 1], a[i - 1]);
    if left <= cnt && cmp(a[left - 1], a[max - 1]) > 0 {
      Flip(cmp, a[i - 1], a[left - 1]);
      Flip(cmp, a[left - 1], a[left - 1]);
      max := left;
    }
    if right <= cnt && cmp(a[right - 1], a[max - 1]) > 0 {
      Flip(cmp, a[max - 1], a[right - 1]);
      Flip(cmp, a[right - 1], a[right - 1]);
      if max == left {
        Trans(cmp, a[i - 1], a[left - 1], a[right - 1]);
      } else {
        Trans(cmp, a[left - 1], a[i - 1], a[right - 1]);
      }
      max := right;
    }
    assert forall c :: Parent(c) == i ==> c == left || c == right;
  }

  /** `heapify`: afterwards the heap reaches up to `i`, and the same elements stand in the first `cnt` places. */
  method Heapify<T(!new)>(a: array<T>, start: nat, cnt: nat, cmp: Compare<T>)
    requires Preorder(cmp) && 1 <= start <= cnt <= a.Length && Heap(a[..], start + 1, cnt, cmp)
    modifies a
    ensures Heap(a[..], start, cnt, cmp) && Shuffled(old(a[..]), a[..], cnt)
  {
    var i := start;
    while true
      invariant 1 <= i <= cnt && Sifting(a[..], start, i, cnt, cmp) && Shuffled(old(a[..]), a[..], cnt)
      decreases cnt - i
    {
      var max := FindLargest(a, i, cnt, cmp);
      if max == i {
        SiftDone(a[..], start, i, cnt, cmp);
        break;
      }
      SiftStep(a[..], start, i, max, cnt, cmp);
      SwapShuffles(a[..], i, max, cnt);
      DoSwap(a, i, max);
      i := max;
    }
  }

  /* ---- Sorting ---- */

  ghost predicate Sorted<T>(s: seq<T>, cmp: Compare<T>) {
    forall x, y :: 0 <= x < y < |s| ==> cmp(s[x], s[y]) <= 0
  }

  /** Everything behind the first `n` elements is in its final place. */
  ghost predicate SortedBehind<T>(s: seq<T>, n: int, cmp: Compare<T>) {
    forall x, y :: 0 <= x < y < |s| && n <= y ==> cmp(s[x], s[y]) <= 0
  }

  lemma {:induction false} RootIsMax<T(!new)>(s: seq<T>, cnt: nat, cmp: Compare<T>, c: nat)
    requires Preorder(cmp) && Heap(s, 1, cnt, cmp) && 1 <= c <= cnt
    ensures cmp(s[c - 1], s[0]) <= 0
  {
    if c == 1 {
      Flip(cmp, s[0], s[0]);
    } else {
      RootIsMax(s, cnt, cmp, Parent(c));
      assert Ok(s, Parent(c), c, cmp);
      Trans(cmp, s[c - 1], s[Parent(c) - 1], s[0]);
    }
  }

  /** The root goes behind the heap. */
  lemma RootGoesBehind<T(!new)>(s: seq<T>, i: nat, cmp: Compare<T>)
    requires Preorder(cmp) && 2 <= i <= |s| && Heap(s, 1, i, cmp) && SortedBehind(s, i, cmp)
    ensures SortedBehind(Swapped(s, 1, i), i - 1, cmp) && Heap(Swapped(s, 1, i), 2, i - 1, cmp)
  {
    var r := Swapped(s, 1, i);
    forall x, y | 0 <= x < y < |r| && i - 1 <= y ensures cmp(r[x], r[y]) <= 0 {
      if y == i - 1 {
        RootIsMax(s, i, cmp, if x == 0 then i else x + 1);
      }
    }
    forall c | 2 <= c <= i - 1 && 2 <= Parent(c) ensures Ok(r, Parent(c), c, cmp) {
      assert Ok(s, Parent(c), c, cmp);
    }
  }

  lemma ShuffledBehind<T>(s: seq<T>, r: seq<T>, n: nat, cmp: Compare<T>)
    requires Shuffled(s, r, n) && SortedBehind(s, n, cmp)
    ensures SortedBehind(r, n, cmp)
  {
    forall x, y | 0 <= x < y < |r| && n <= y ensures cmp(r[x], r[y]) <= 0 {
      assert r[y] == s[n..][y - n] == s[y];
      if x < n {
        assert r[x] == r[..n][x] && r[x] in multiset(s[..n]);
        var k :| 0 <= k < n && s[..n][k] == r[x];
        assert s[k] == r[x];
      } else {
        assert r[x] == s[n..][x - n] == s[x];
      }
    }
  }

  lemma ShuffledMore<T>(s: seq<T>, r: seq<T>, t: seq<T>, n: nat)
    requires |s| == |r| && multiset(s) == multiset(r) && Shuffled(r, t, n)
    ensures |t| == |s| && multiset(t) == multiset(s)
  {
    assert r == r[..n] + r[n..] && t == t[..n] + t[n..];
  }

  /** `sort`: the array ends up sorted, with the elements it had. */
  method Sort<T(!new)>(a: array<T>, cmp: Compare<T>)
    requires Preorder(cmp)
    modifies a
    ensures Sorted(a[..], cmp) && multiset(a[..]) == multiset(old(a[..]))
  {
    var cnt := a.Length;
    var i := cnt / 2;
    while i > 0
      invariant 0 <= i <= cnt / 2 && Heap(a[..], i + 1, cnt, cmp) && multiset(a[..]) == multiset(old(a[..]))
    {
      ghost var s := a[..];
      Heapify(a, i, cnt, cmp);
      ShuffledMore(old(a[..]), s, a[..], cnt);
      i := i - 1;
    }
    i := cnt;
    while i > 1
      invariant 0 <= i <= cnt && Heap(a[..], 1, i, cmp) && SortedBehind(a[..], i, cmp)
                && multiset(a[..]) == multiset(old(a[..]))
    {
      SortOne(a, i, cmp);
      i := i - 1;
    }
  }

  /** One round of the second loop of `sort`. */
  method SortOne<T(!new)>(a: array<T>, i: nat, cmp: Compare<T>)
    requires Preorder(cmp) && 2 <= i <= a.Length && Heap(a[..], 1, i, cmp) && SortedBehind(a[..], i, cmp)
    modifies a
    ensures Heap(a[..], 1, i - 1, cmp) && SortedBehind(a[..], i - 1, cmp) && multiset(a[..]) == multiset(old(a[..]))
  {
    ghost var s := a[..];
    RootGoesBehind(s, i, cmp);
    SwapShuffles(s, 1, i, i);
    ShuffledMore(s, s, Swapped(s, 1, i), i);
    DoSwap(a, 1, i);
    ghost var r := a[..];
    Heapify(a, 1, i - 1, cmp);
    ShuffledBehind(r, a[..], i - 1, cmp);
    ShuffledMore(s, r, a[..], i - 1);
  }

  /** `binary_search`: finds an equal element exactly when there is one. */
  method BinarySearch<T(!new)>(key: T, a: array<T>, cmp: Compare<T>) returns (r: Option<nat>)
    requires Preorder(cmp) && Sorted(a[..], cmp)
    ensures r.Some? ==> r.value < a.Length && cmp(key, a[r.value]) == 0
    ensures r.None? ==> forall k :: 0 <= k < a.Length ==> cmp(key, a[k]) != 0
  {
    var first, last := 0, a.Length;
    while first < last
      invariant 0 <= first <= last <= a.Length
      invariant forall k :: 0 <= k < first ==> cmp(key, a[k]) > 0
      invariant forall k :: last <= k < a.Length ==> cmp(key, a[k]) < 0
    {
      var middle := first + (last - first) / 2;
      var c := cmp(key, a[middle]);
      if c < 0 {
        forall k | middle <= k < last ensures cmp(key, a[k]) < 0 { AboveKey(key, a[..], middle, k, cmp); }
        last := middle;
      } else if c > 0 {
        forall k | first <= k <= middle ensures cmp(key, a[k]) > 0 { BelowKey(key, a[..], middle, k, cmp); }
        first := middle + 1;
      } else {
        return Some(middle);
      }
    }
    r := None;
  }

  lemma AboveKey<T(!new)>(key: T, s: seq<T>, m: nat, k: nat, cmp: Compare<T>)
    requires Preorder(cmp) && Sorted(s, cmp) && m <= k < |s| && cmp(key, s[m]) < 0
    ensures cmp(key, s[k]) < 0
  {
    if m < k {
      assert cmp(s[m], s[k]) <= 0;
      Flip(cmp, key, s[m]);
      Flip(cmp, key, s[k]);
      if cmp(s[k], key) <= 0 { Trans(cmp, s[m], s[k], key); }
    }
  }

  lemma BelowKey<T(!new)>(key: T, s: seq<T>, m: nat, k: nat, cmp: Compare<T>)
    requires Preorder(cmp) && Sorted(s, cmp) && k <= m < |s| && cmp(key, s[m]) > 0
    ensures cmp(key, s[k]) > 0
  {
    if k < m {
      assert cmp(s[k], s[m]) <= 0;
      Flip(cmp, s[m], key);
      Flip(cmp, s[k], key);
      if cmp(key, s[k]) <= 0 { Trans(cmp, key, s[k], s[m]); }
    }
  }
}
