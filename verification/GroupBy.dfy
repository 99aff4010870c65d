/** A MapReduce run computes a group-by: every key is reduced once, in one task, with all its values. */
module GroupBy {
  import opened Codec
  import opened Keys
  import opened MapReduce

  /** The pairs with key `k`, in order. */
  function WithKey(s: Kvs, k: Bytes): Kvs {
    if s == [] then [] else (if s[0].key == k then [s[0]] else []) + WithKey(s[1..], k)
  }

  lemma {:induction false} WithKeyAppend(a: Kvs, b: Kvs, k: Bytes)
    ensures WithKey(a + b, k) == WithKey(a, k) + WithKey(b, k)
  {
    if a == [] {
      assert a + b == b;
    } else {
      var first := if a[0].key == k then [a[0]] else [];
      calc {
        WithKey(a + b, k);
        { assert (a + b)[1..] == a[1..] + b; }
        first + WithKey(a[1..] + b, k);
        { WithKeyAppend(a[1..], b, k); }
        first + (WithKey(a[1..], k) + WithKey(b, k));
        { RegroupKvs(first, WithKey(a[1..], k), WithKey(b, k)); }
        WithKey(a, k) + WithKey(b, k);
      }
    }
  }

  lemma RegroupKvs(a: Kvs, b: Kvs, c: Kvs)
    ensures a + (b + c) == (a + b) + c
  {
  }

  lemma {:induction false} WithKeyCount(s: Kvs, k: Bytes, kv: KeyValue)
    ensures multiset(WithKey(s, k))[kv] == if kv.key == k then multiset(s)[kv] else 0
  {
    if s != [] {
      WithKeyCount(s[1..], k, kv);
      assert s == [s[0]] + s[1..];
    }
  }

  lemma PermutedWithKey(a: Kvs, b: Kvs, k: Bytes)
    requires multiset(a) == multiset(b)
    ensures multiset(WithKey(a, k)) == multiset(WithKey(b, k))
  {
    forall kv ensures multiset(WithKey(a, k))[kv] == multiset(WithKey(b, k))[kv] {
      WithKeyCount(a, k, kv);
      WithKeyCount(b, k, kv);
    }
  }

  /* ---- Partition ---- */

  lemma {:induction false} PartAppend(a: Kvs, b: Kvs, part: Bytes -> int, j: int)
    ensures Part(a + b, part, j) == Part(a, part, j) + Part(b, part, j)
  {
    if b == [] {
      assert a + b == a;
    } else {
      var last := if part(b[|b| - 1].key) == j then [b[|b| - 1]] else [];
      PartAppend(a, b[..|b| - 1], part, j);
      assert (a + b)[..|a + b| - 1] == a + b[..|b| - 1] && (a + b)[|a + b| - 1] == b[|b| - 1];
      assert Part(a, part, j) + Part(b[..|b| - 1], part, j) + last
               == Part(a, part, j) + (Part(b[..|b| - 1], part, j) + last);
    }
  }

  lemma {:induction false} PartWithKey(s: Kvs, part: Bytes -> int, j: int, k: Bytes)
    ensures WithKey(Part(s, part, j), k) == if part(k) == j then WithKey(s, k) else []
  {
    if s != [] {
      var init, last := s[..|s| - 1], s[|s| - 1];
      PartWithKey(init, part, j, k);
      assert s == init + [last];
      WithKeyAppend(init, [last], k);
      WithKeyAppend(Part(init, part, j), if part(last.key) == j then [last] else [], k);
    }
  }

  /** The intermediate files of reduce task `j`, one for each map task. */
  function FilesFor(f: Format, ms: seq<Kvs>, part: Bytes -> int, j: int): seq<Bytes> {
    if ms == [] then [] else FilesFor(f, ms[..|ms| - 1], part, j) + [FileOf(f, Part(ms[|ms| - 1], part, j))]
  }

  lemma {:induction false} PartIn(s: Kvs, part: Bytes -> int, j: int, kv: KeyValue)
    requires kv in Part(s, part, j)
    ensures kv in s && part(kv.key) == j
  {
    if kv in Part(s[..|s| - 1], part, j) {
      PartIn(s[..|s| - 1], part, j, kv);
    }
  }

  /** Reduce task `j` reads exactly the pairs of its part, over all map tasks. */
  lemma {:induction false} LoadFiles(f: Format, ms: seq<Kvs>, part: Bytes -> int, j: int)
    requires forall kv :: kv in Concat(ms) ==> KvFits(f, kv)
    ensures LoadAll(f, FilesFor(f, ms, part, j)) == Part(Concat(ms), part, j)
    ensures Entries(f, FilesFor(f, ms, part, j)) == 2 * |Part(Concat(ms), part, j)|
  {
    if ms != [] {
      var init, last := ms[..|ms| - 1], ms[|ms| - 1];
      LoadFiles(f, init, part, j);
      var files, mine := FilesFor(f, init, part, j), Part(last, part, j);
      forall kv | kv in mine ensures KvFits(f, kv) { PartIn(last, part, j, kv); }
      LoadFile(f, mine);
      assert (files + [FileOf(f, mine)])[..|files|] == files;
      PartAppend(Concat(init), last, part, j);
    }
  }

  /* ---- Groups ---- */

  /** `cmp` orders the keys of `s`. The trigger keeps the law from being used unasked. */
  ghost predicate Preorder(cmp: Compare, s: Kvs) {
    forall x, y, z {:trigger Compared(x, y, z)} :: Compared(x, y, z) && x in s && y in s && z in s ==>
      && (cmp(x.key, y.key) <= 0 && cmp(y.key, z.key) <= 0 ==> cmp(x.key, z.key) <= 0)
      && (cmp(x.key, y.key) < 0 <==> 0 < cmp(y.key, x.key))
  }

  ghost predicate Compared(x: KeyValue, y: KeyValue, z: KeyValue) { true }

  lemma Trans(cmp: Compare, s: Kvs, x: KeyValue, y: KeyValue, z: KeyValue)
    requires Preorder(cmp, s) && x in s && y in s && z in s && cmp(x.key, y.key) <= 0 && cmp(y.key, z.key) <= 0
    ensures cmp(x.key, z.key) <= 0
  {
    assert Compared(x, y, z);
  }

  lemma Flip(cmp: Compare, s: Kvs, x: KeyValue, y: KeyValue)
    requires Preorder(cmp, s) && x in s && y in s
    ensures (cmp(x.key, y.key) < 0 <==> 0 < cmp(y.key, x.key)) && (cmp(x.key, y.key) == 0 <==> cmp(y.key, x.key) == 0)
    ensures cmp(x.key, x.key) == 0
  {
    assert Compared(x, y, x) && Compared(y, x, y) && Compared(x, x, x);
  }

  lemma PreorderPart(cmp: Compare, s: Kvs, part: Kvs)
    requires Preorder(cmp, s) && (forall x :: x in part ==> x in s)
    ensures Preorder(cmp, part)
  {
  }

  ghost predicate Separates(cmp: Compare, s: Kvs) {
    forall x, y :: x in s && y in s && cmp(x.key, y.key) == 0 ==> x.key == y.key
  }

  /** What sorting promises: neighbours are in order. */
  predicate Sorted(s: Kvs, cmp: Compare) {
    |s| >= 2 ==> cmp(s[0].key, s[1].key) <= 0 && Sorted(s[1..], cmp)
  }

  lemma {:induction false} FirstIsLeast(s: Kvs, cmp: Compare, x: KeyValue)
    requires Preorder(cmp, s) && Sorted(s, cmp) && x in s
    ensures cmp(s[0].key, x.key) <= 0
  {
    Flip(cmp, s, x, x);
    if x != s[0] {
      var t := s[1..];
      assert x in t && t[0] in s && s[0] in s;
      PreorderPart(cmp, s, t);
      FirstIsLeast(t, cmp, x);
      Trans(cmp, s, s[0], t[0], x);
    }
  }

  lemma {:induction false} SortedTail(s: Kvs, cmp: Compare, n: nat)
    requires Sorted(s, cmp) && n <= |s|
    ensures Sorted(s[n..], cmp)
  {
    if n > 0 {
      SortedTail(s[1..], cmp, n - 1);
      assert s[1..][n - 1..] == s[n..];
    }
  }

  lemma {:induction false} AllWithKey(s: Kvs, k: Bytes)
    requires forall x :: x in s ==> x.key == k
    ensures WithKey(s, k) == s
  {
    if s != [] {
      AllWithKey(s[1..], k);
    }
  }

  lemma {:induction false} NoneWithKey(s: Kvs, k: Bytes)
    requires forall x :: x in s ==> x.key != k
    ensures WithKey(s, k) == []
  {
    if s != [] {
      NoneWithKey(s[1..], k);
    }
  }

  lemma {:induction false} RunHasKey(s: Kvs, k: Bytes, cmp: Compare, x: KeyValue)
    requires x in s[..RunLength(s, k, cmp)]
    ensures x in s && cmp(k, x.key) == 0
  {
    if x != s[0] {
      assert s[..RunLength(s, k, cmp)] == [s[0]] + s[1..][..RunLength(s[1..], k, cmp)];
      RunHasKey(s[1..], k, cmp, x);
    }
  }

  lemma {:induction false} RunEnds(s: Kvs, k: Bytes, cmp: Compare)
    ensures var n := RunLength(s, k, cmp); n < |s| ==> cmp(k, s[n].key) != 0
  {
    if s != [] && cmp(k, s[0].key) == 0 {
      RunEnds(s[1..], k, cmp);
    }
  }

  lemma RunOfFirst(s: Kvs, cmp: Compare, x: KeyValue)
    requires s != [] && Preorder(cmp, s) && x in s[..1 + RunLength(s[1..], s[0].key, cmp)]
    ensures x in s && cmp(s[0].key, x.key) == 0
  {
    var n := RunLength(s[1..], s[0].key, cmp);
    assert s[..1 + n] == [s[0]] + s[1..][..n];
    Flip(cmp, s, s[0], s[0]);
    if x != s[0] {
      RunHasKey(s[1..], s[0].key, cmp, x);
    }
  }

  lemma AfterRun(s: Kvs, cmp: Compare, n: nat, x: KeyValue)
    requires Preorder(cmp, s) && 0 < n < |s| && Sorted(s, cmp) && Sorted(s[n..], cmp) && cmp(s[0].key, s[n].key) != 0
             && x in s[n..]
    ensures x in s && cmp(s[0].key, x.key) != 0
  {
    var t := s[n..];
    assert x in s && s[0] in s && t[0] in s;
    FirstIsLeast(s, cmp, t[0]);
    PreorderPart(cmp, s, t);
    FirstIsLeast(t, cmp, x);
    Flip(cmp, s, s[0], t[0]);
    Flip(cmp, s, s[0], x);
    if cmp(x.key, s[0].key) <= 0 {
      Trans(cmp, s, t[0], x, s[0]);
    }
  }

  /** The first group holds exactly the pairs whose keys compare equal to its first. */
  lemma FirstGroup(s: Kvs, cmp: Compare, n: nat)
    requires s != [] && Preorder(cmp, s) && Sorted(s, cmp) && n == 1 + RunLength(s[1..], s[0].key, cmp)
    ensures forall x :: x in s[..n] ==> x in s && cmp(s[0].key, x.key) == 0
    ensures forall x :: x in s[n..] ==> x in s && cmp(s[0].key, x.key) != 0
    ensures Sorted(s[n..], cmp) && Preorder(cmp, s[n..])
  {
    forall x | x in s[..n] ensures x in s && cmp(s[0].key, x.key) == 0 { RunOfFirst(s, cmp, x); }
    SortedTail(s, cmp, n);
    RunEnds(s[1..], s[0].key, cmp);
    forall x | x in s[n..] ensures x in s && cmp(s[0].key, x.key) != 0 { AfterRun(s, cmp, n, x); }
    PreorderPart(cmp, s, s[n..]);
  }

  /** The groups whose key is `k`. */
  function GroupsFor(g: seq<Kvs>, k: Bytes): (r: seq<Kvs>)
    ensures forall i :: 0 <= i < |r| ==> r[i] != []
  {
    if g == [] then [] else (if g[0] != [] && g[0][0].key == k then [g[0]] else []) + GroupsFor(g[1..], k)
  }

  lemma WithKeyFirst(s: Kvs, k: Bytes, n: nat)
    requires 0 < n <= |s|
    requires forall x :: x in s[..n] ==> x.key == s[0].key
    requires forall x :: x in s[n..] ==> x.key != s[0].key
    ensures WithKey(s, k) == if k == s[0].key then s[..n] else WithKey(s[n..], k)
  {
    assert s == s[..n] + s[n..];
    WithKeyAppend(s[..n], s[n..], k);
    if k == s[0].key {
      AllWithKey(s[..n], k);
      NoneWithKey(s[n..], k);
    } else {
      NoneWithKey(s[..n], k);
    }
  }

  lemma GroupsForFirst(first: Kvs, rest: seq<Kvs>, k: Bytes)
    requires first != []
    ensures GroupsFor([first] + rest, k) == (if first[0].key == k then [first] else []) + GroupsFor(rest, k)
  {
    assert ([first] + rest)[1..] == rest;
  }

  /** For separated keys, comparing equal to the first is having its key. */
  lemma SameKeyIff(s: Kvs, cmp: Compare)
    requires s != [] && Preorder(cmp, s) && Separates(cmp, s)
    ensures forall x :: x in s ==> (cmp(s[0].key, x.key) == 0 <==> x.key == s[0].key)
  {
    assert s[0] in s;
    Flip(cmp, s, s[0], s[0]);
  }

  /** Each key has exactly one group, which holds exactly the pairs with that key. */
  lemma {:induction false} GroupsExact(s: Kvs, cmp: Compare, k: Bytes)
    requires Preorder(cmp, s) && Sorted(s, cmp) && Separates(cmp, s)
    ensures GroupsFor(Groups(s, cmp), k) == if WithKey(s, k) == [] then [] else [WithKey(s, k)]
    decreases |s|
  {
    if s != [] {
      var n := 1 + RunLength(s[1..], s[0].key, cmp);
      FirstGroup(s, cmp, n);
      SameKeyIff(s, cmp);
      assert Separates(cmp, s[n..]);
      GroupsExact(s[n..], cmp, k);
      WithKeyFirst(s, k, n);
      if k == s[0].key {
        NoneWithKey(s[n..], k);
      }
      GroupsForFirst(s[..n], Groups(s[n..], cmp), k);
    }
  }

  /** The run as a whole. Map tasks produce `ms`; reduce task `j` sorts what it reads into `s`. Key `k` is reduced
      once, in task `part(k)` and in no other, with exactly the pairs that the map tasks produced for it. */
  lemma RunIsGroupBy(f: Format, ms: seq<Kvs>, part: Bytes -> int, j: int, s: Kvs, cmp: Compare, k: Bytes)
    requires forall kv :: kv in Concat(ms) ==> KvFits(f, kv)
    requires Preorder(cmp, Part(Concat(ms), part, j)) && Separates(cmp, Part(Concat(ms), part, j))
    requires Sorted(s, cmp) && multiset(s) == multiset(LoadAll(f, FilesFor(f, ms, part, j)))
    ensures var g, all := GroupsFor(Groups(s, cmp), k), WithKey(Concat(ms), k);
            && |g| == (if part(k) == j && all != [] then 1 else 0)
            && (g != [] ==> multiset(g[0]) == multiset(all))
  {
    var mine := Part(Concat(ms), part, j);
    SortedPart(f, ms, part, j, s, cmp);
    GroupsExact(s, cmp, k);
    PermutedWithKey(s, mine, k);
    PartWithKey(Concat(ms), part, j, k);
    assert |multiset(WithKey(s, k))| == |multiset(WithKey(mine, k))|;
  }

  /** What task `j` sorts is its part. */
  lemma SortedPart(f: Format, ms: seq<Kvs>, part: Bytes -> int, j: int, s: Kvs, cmp: Compare)
    requires forall kv :: kv in Concat(ms) ==> KvFits(f, kv)
    requires Preorder(cmp, Part(Concat(ms), part, j)) && multiset(s) == multiset(LoadAll(f, FilesFor(f, ms, part, j)))
    ensures multiset(s) == multiset(Part(Concat(ms), part, j)) && Preorder(cmp, s)
    ensures forall x :: x in s <==> x in Part(Concat(ms), part, j)
  {
    var mine := Part(Concat(ms), part, j);
    LoadFiles(f, ms, part, j);
    forall x ensures x in s <==> x in mine { assert x in s <==> x in multiset(s); }
    PreorderPart(cmp, mine, s);
  }

  lemma GroupsHead(s: Kvs, cmp: Compare, n: nat)
    requires s != [] && n == 1 + RunLength(s[1..], s[0].key, cmp)
    ensures Groups(s, cmp) == [s[..n]] + Groups(s[n..], cmp)
  {
  }

  lemma FirstOrRest(s: Kvs, cmp: Compare, n: nat, x: KeyValue)
    requires s != [] && Preorder(cmp, s) && Sorted(s, cmp) && n == 1 + RunLength(s[1..], s[0].key, cmp) && x in s
    ensures if cmp(s[0].key, x.key) == 0 then x in s[..n] else x in s[n..]
  {
    FirstGroup(s, cmp, n);
    InParts(s, n, x);
  }

  lemma InParts(s: Kvs, n: nat, x: KeyValue)
    requires n <= |s| && x in s
    ensures x in s[..n] || x in s[n..]
  {
    assert s == s[..n] + s[n..];
  }

  /** Pairs whose keys compare equal end up in the same group, whatever their keys. */
  lemma {:induction false} SameGroup(s: Kvs, cmp: Compare, x: KeyValue, y: KeyValue) returns (i: nat)
    requires Preorder(cmp, s) && Sorted(s, cmp) && x in s && y in s && cmp(x.key, y.key) == 0
    ensures i < |Groups(s, cmp)| && x in Groups(s, cmp)[i] && y in Groups(s, cmp)[i]
    decreases |s|
  {
    var n := 1 + RunLength(s[1..], s[0].key, cmp);
    FirstOrRest(s, cmp, n, x);
    FirstOrRest(s, cmp, n, y);
    Alike(s, cmp, x, y);
    GroupsHead(s, cmp, n);
    if cmp(s[0].key, x.key) == 0 {
      i := 0;
    } else {
      FirstGroup(s, cmp, n);
      var k := SameGroup(s[n..], cmp, x, y);
      i := k + 1;
      assert Groups(s, cmp)[i] == Groups(s[n..], cmp)[k];
    }
  }

  lemma Alike(s: Kvs, cmp: Compare, x: KeyValue, y: KeyValue)
    requires s != [] && Preorder(cmp, s) && x in s && y in s && cmp(x.key, y.key) == 0
    ensures cmp(s[0].key, x.key) == 0 <==> cmp(s[0].key, y.key) == 0
  {
    assert s[0] in s;
    Flip(cmp, s, x, y);
    if cmp(s[0].key, x.key) == 0 { AlikeToo(s, cmp, s[0], x, y); }
    if cmp(s[0].key, y.key) == 0 { AlikeToo(s, cmp, s[0], y, x); }
  }

  lemma AlikeToo(s: Kvs, cmp: Compare, x: KeyValue, y: KeyValue, z: KeyValue)
    requires Preorder(cmp, s) && x in s && y in s && z in s && cmp(x.key, y.key) == 0 && cmp(y.key, z.key) == 0
    ensures cmp(x.key, z.key) == 0
  {
    Flip(cmp, s, x, y);
    Flip(cmp, s, y, z);
    Flip(cmp, s, x, z);
    Trans(cmp, s, x, y, z);
    Trans(cmp, s, z, y, x);
  }

  /** Every group has a single key. */
  ghost predicate OneKeyEach(g: seq<Kvs>) {
    forall i, x, y :: 0 <= i < |g| && x in g[i] && y in g[i] ==> x.key == y.key
  }

  lemma {:induction false} GroupAlike(s: Kvs, cmp: Compare, i: nat, x: KeyValue, y: KeyValue)
    requires Preorder(cmp, s) && Sorted(s, cmp) && i < |Groups(s, cmp)| && x in Groups(s, cmp)[i]
             && y in Groups(s, cmp)[i]
    ensures x in s && y in s && cmp(x.key, y.key) == 0
    decreases |s|
  {
    var n := 1 + RunLength(s[1..], s[0].key, cmp);
    GroupsHead(s, cmp, n);
    if i == 0 {
      RunOfFirst(s, cmp, x);
      RunOfFirst(s, cmp, y);
      LikeFirst(s, cmp, x, y);
    } else {
      FirstGroup(s, cmp, n);
      assert Groups(s, cmp)[i] == Groups(s[n..], cmp)[i - 1];
      GroupAlike(s[n..], cmp, i - 1, x, y);
    }
  }

  lemma LikeFirst(s: Kvs, cmp: Compare, x: KeyValue, y: KeyValue)
    requires s != [] && Preorder(cmp, s) && x in s && y in s && cmp(s[0].key, x.key) == 0 && cmp(s[0].key, y.key) == 0
    ensures cmp(x.key, y.key) == 0
  {
    assert s[0] in s;
    Flip(cmp, s, s[0], x);
    AlikeToo(s, cmp, x, s[0], y);
  }

  /** Grouping is by key exactly if the comparison separates the keys that a task reads; otherwise two different
      keys are reduced together. */
  lemma GroupByIff(f: Format, ms: seq<Kvs>, part: Bytes -> int, j: int, s: Kvs, cmp: Compare)
    requires forall kv :: kv in Concat(ms) ==> KvFits(f, kv)
    requires Preorder(cmp, Part(Concat(ms), part, j))
    requires Sorted(s, cmp) && multiset(s) == multiset(LoadAll(f, FilesFor(f, ms, part, j)))
    ensures OneKeyEach(Groups(s, cmp)) <==> Separates(cmp, Part(Concat(ms), part, j))
  {
    SortedPart(f, ms, part, j, s, cmp);
    if OneKeyEach(Groups(s, cmp)) {
      forall x, y | x in s && y in s && cmp(x.key, y.key) == 0 ensures x.key == y.key {
        var i := SameGroup(s, cmp, x, y);
      }
    }
    if Separates(cmp, s) {
      forall i, x, y | 0 <= i < |Groups(s, cmp)| && x in Groups(s, cmp)[i] && y in Groups(s, cmp)[i]
        ensures x.key == y.key {
        GroupAlike(s, cmp, i, x, y);
      }
    }
  }

  /* ---- Grouping by `by_key` ---- */

  /** `by_key` orders any two keys as it should. */
  ghost predicate AllComparable(s: Kvs) {
    forall x, y :: x in s && y in s ==> Comparable(x.key, y.key)
  }

  lemma ByKeyPreorder(s: Kvs)
    requires AllComparable(s)
    ensures Preorder(ByKey, s)
  {
    forall x, y, z | Compared(x, y, z) && x in s && y in s && z in s
      ensures ByKey(x.key, y.key) <= 0 && ByKey(y.key, z.key) <= 0 ==> ByKey(x.key, z.key) <= 0
      ensures ByKey(x.key, y.key) < 0 <==> 0 < ByKey(y.key, x.key)
    {
      ByKeyIsWideIff(x.key, y.key);
      ByKeyIsWideIff(y.key, x.key);
      WideFlips(x.key, y.key);
      if ByKey(x.key, y.key) <= 0 && ByKey(y.key, z.key) <= 0 {
        ByKeyTransitive(x.key, y.key, z.key);
      }
    }
  }

  /** No two different keys have the same length and agree up to their first NUL. */
  ghost predicate NulsHideNothing(s: Kvs) {
    forall x, y :: x in s && y in s && |x.key| == |y.key| && TillNul(x.key) == TillNul(y.key) ==> x.key == y.key
  }

  /** The C worker reduces keys apart exactly if no difference between keys of the task is hidden behind a NUL. */
  lemma CGroupsIff(f: Format, ms: seq<Kvs>, part: Bytes -> int, j: int, s: Kvs)
    requires forall kv :: kv in Concat(ms) ==> KvFits(f, kv)
    requires AllComparable(Part(Concat(ms), part, j))
    requires Sorted(s, ByKey) && multiset(s) == multiset(LoadAll(f, FilesFor(f, ms, part, j)))
    ensures OneKeyEach(Groups(s, ByKey)) <==> NulsHideNothing(Part(Concat(ms), part, j))
  {
    var mine := Part(Concat(ms), part, j);
    ByKeyPreorder(mine);
    GroupByIff(f, ms, part, j, s, ByKey);
    forall x, y | x in mine && y in mine
      ensures ByKey(x.key, y.key) == 0 <==> |x.key| == |y.key| && TillNul(x.key) == TillNul(y.key) {
      ByKeyZero(x.key, y.key);
    }
  }

  lemma ThreeGroups(x: KeyValue, y: KeyValue, z: KeyValue, cmp: Compare)
    requires cmp(x.key, y.key) != 0 && cmp(y.key, z.key) != 0
    ensures Groups([x, y, z], cmp) == [[x], [y], [z]]
  {
    assert [x, y, z][1..] == [y, z] && [y, z][1..] == [z] && [z][1..] == [];
    GroupsHead([x, y, z], cmp, 1);
    GroupsHead([y, z], cmp, 1);
    GroupsHead([z], cmp, 1);
    assert [x, y, z][..1] == [x] && [y, z][..1] == [y] && [z][..1] == [z];
  }

  lemma OuterGroups(x: KeyValue, y: KeyValue, z: KeyValue)
    requires x.key == z.key != y.key
    ensures GroupsFor([[x], [y], [z]], x.key) == [[x], [z]]
  {
    GroupsForFirst([x], [[y], [z]], x.key);
    GroupsForFirst([y], [[z]], x.key);
    GroupsForFirst([z], [], x.key);
  }

  lemma SortedThree(x: KeyValue, y: KeyValue, z: KeyValue, cmp: Compare)
    requires cmp(x.key, y.key) <= 0 && cmp(y.key, z.key) <= 0
    ensures Sorted([x, y, z], cmp)
  {
    assert [x, y, z][1..] == [y, z] && [y, z][1..] == [z];
  }

  /** Keys that are not comparable can be reduced twice although they are told apart: with a key of 2^31 bytes between
      them, two pairs with the empty key are in order, and in two groups. */
  lemma HalfwayKeyIsReducedTwice(b: Bytes, u: Bytes, v: Bytes, w: Bytes)
    requires |b| == 0x8000_0000
    ensures var x, y, z := KeyValue([], u), KeyValue(b, v), KeyValue([], w);
            && Sorted([x, y, z], ByKey) && Separates(ByKey, [x, y, z])
            && GroupsFor(Groups([x, y, z], ByKey), []) == [[x], [z]]
  {
    var x, y, z := KeyValue([], u), KeyValue(b, v), KeyValue([], w);
    HalfwayKeys(b);
    SortedThree(x, y, z, ByKey);
    ThreeGroups(x, y, z, ByKey);
    OuterGroups(x, y, z);
  }

  /* ---- Conservation ---- */

  /** The number of pairs in all groups. */
  function Size(g: seq<Kvs>): nat { if g == [] then 0 else |g[0]| + Size(g[1..]) }

  lemma {:induction false} GroupsConserve(s: Kvs, cmp: Compare)
    ensures Size(Groups(s, cmp)) == |s|
    decreases |s|
  {
    if s != [] {
      var n := 1 + RunLength(s[1..], s[0].key, cmp);
      GroupsConserve(s[n..], cmp);
      assert Groups(s, cmp)[1..] == Groups(s[n..], cmp);
    }
  }

  /** The number of pairs in parts `0` to `n` (exclusive). */
  function PartsSize(s: Kvs, part: Bytes -> int, n: nat): nat {
    if n == 0 then 0 else PartsSize(s, part, n - 1) + |Part(s, part, n - 1)|
  }

  lemma PartLast(s: Kvs, part: Bytes -> int, j: int)
    requires s != []
    ensures |Part(s, part, j)| == |Part(s[..|s| - 1], part, j)| + if part(s[|s| - 1].key) == j then 1 else 0
  {
  }

  lemma PartsUnfold(s: Kvs, part: Bytes -> int, n: nat)
    requires n > 0
    ensures PartsSize(s, part, n) == PartsSize(s, part, n - 1) + |Part(s, part, n - 1)|
  {
  }

  lemma {:induction false} PartsStep(s: Kvs, part: Bytes -> int, n: nat)
    requires s != []
    ensures PartsSize(s, part, n) == PartsSize(s[..|s| - 1], part, n) + if 0 <= part(s[|s| - 1].key) < n then 1 else 0
  {
    if n > 0 {
      var init := s[..|s| - 1];
      var a, b := |Part(s, part, n - 1)|, |Part(init, part, n - 1)|;
      PartsUnfold(s, part, n);
      PartsUnfold(init, part, n);
      PartsStep(s, part, n - 1);
      assert a == b + if part(s[|s| - 1].key) == n - 1 then 1 else 0 by { PartLast(s, part, n - 1); }
    }
  }

  lemma {:induction false} PartsOfNothing(part: Bytes -> int, n: nat)
    ensures PartsSize([], part, n) == 0
  {
    if n > 0 {
      PartsOfNothing(part, n - 1);
    }
  }

  /** No pair is lost or sent twice. */
  lemma {:induction false} PartsConserve(s: Kvs, part: Bytes -> int, n: nat)
    requires forall kv :: kv in s ==> 0 <= part(kv.key) < n
    ensures PartsSize(s, part, n) == |s|
  {
    if s == [] {
      PartsOfNothing(part, n);
    } else {
      PartsStep(s, part, n);
      PartsConserve(s[..|s| - 1], part, n);
    }
  }
}
