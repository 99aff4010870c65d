/** The natural merge sort of hw-list/list.c:302-377 on sequences: what one pass and the whole sort
    compute, and what every strict weak order promises about it. */
module NaturalMerge {
  import opened Basics

  /* ---- Orders, sortedness and stability ---- */

  /** `less` is a strict weak order on the elements of `dom`. */
  ghost predicate StrictWeak<T>(less: (T, T) -> bool, dom: set<T>) {
    && (forall x, y :: x in dom && y in dom && less(x, y) ==> !less(y, x))
    && (forall x, y, z :: x in dom && y in dom && z in dom && !less(x, y) && !less(y, z) ==> !less(x, z))
  }

  ghost function Elements<T>(s: seq<T>): set<T> {
    set x | x in s
  }

  /** Adjacent elements are in nondecreasing order, as `is_sorted` tests. */
  ghost predicate Sorted<T>(s: seq<T>, less: (T, T) -> bool) {
    forall i :: 0 < i < |s| ==> !less(s[i], s[i - 1])
  }

  ghost predicate Before<T>(s: seq<T>, x: T, y: T) {
    exists i, j :: 0 <= i < j < |s| && s[i] == x && s[j] == y
  }

  /** Every pair of `a` that is not out of order keeps its order in `b`. */
  ghost predicate Stable<T>(a: seq<T>, b: seq<T>, less: (T, T) -> bool) {
    forall i, j :: 0 <= i < j < |a| && !less(a[j], a[i]) ==> Before(b, a[i], a[j])
  }

  /** `b` is `a` rearranged, without disturbing any pair that is in order. */
  ghost predicate Rearranged<T>(a: seq<T>, b: seq<T>, less: (T, T) -> bool) {
    multiset(a) == multiset(b) && Stable(a, b, less)
  }

  lemma {:induction false} SortedFar<T>(s: seq<T>, less: (T, T) -> bool, i: nat, j: nat)
    requires StrictWeak(less, Elements(s)) && Sorted(s, less) && i < j < |s|
    ensures !less(s[j], s[i])
  {
    if i + 1 < j {
      SortedFar(s, less, i, j - 1);
      assert s[i] in Elements(s) && s[j - 1] in Elements(s) && s[j] in Elements(s);
    }
  }

  lemma RearrangedTrans<T>(a: seq<T>, b: seq<T>, c: seq<T>, less: (T, T) -> bool)
    requires Rearranged(a, b, less) && Rearranged(b, c, less)
    ensures Rearranged(a, c, less)
  {
    forall i, j | 0 <= i < j < |a| && !less(a[j], a[i]) ensures Before(c, a[i], a[j]) {
      assert Before(b, a[i], a[j]);
    }
  }

  lemma RearrangedRefl<T>(a: seq<T>, less: (T, T) -> bool)
    ensures Rearranged(a, a, less)
  {
  }

  lemma BeforeCons<T>(s: seq<T>, h: T, x: T, y: T)
    requires Before(s, x, y)
    ensures Before([h] + s, x, y)
  {
    var i, j :| 0 <= i < j < |s| && s[i] == x && s[j] == y;
    assert ([h] + s)[i + 1] == x && ([h] + s)[j + 1] == y;
  }

  lemma BeforeHead<T>(s: seq<T>, h: T, y: T)
    requires y in s
    ensures Before([h] + s, h, y)
  {
    var j :| 0 <= j < |s| && s[j] == y;
    assert ([h] + s)[0] == h && ([h] + s)[j + 1] == y;
  }

  /* ---- inplace_merge ---- */

  /** The merge of two runs: the right one goes first only when it is strictly less. */
  function Merge<T>(xs: seq<T>, ys: seq<T>, less: (T, T) -> bool): seq<T>
    decreases |xs| + |ys|
  {
    if xs == [] then ys
    else if ys == [] then xs
    else if !less(ys[0], xs[0]) then [xs[0]] + Merge(xs[1..], ys, less)
    else [ys[0]] + Merge(xs, ys[1..], less)
  }

  /** Taking an element out of the middle and putting it in front. */
  lemma ToFront<T>(xs: seq<T>, y: T, rest: seq<T>)
    ensures multiset([y] + (xs + rest)) == multiset(xs + ([y] + rest))
  {
    assert multiset(xs + ([y] + rest)) == multiset(xs) + multiset([y] + rest);
  }

  lemma HeadOut<T>(xs: seq<T>, ys: seq<T>)
    requires xs != []
    ensures xs + ys == [xs[0]] + (xs[1..] + ys)
  {
  }

  lemma MergeLeft<T>(xs: seq<T>, ys: seq<T>, less: (T, T) -> bool)
    requires xs != [] && ys != [] && !less(ys[0], xs[0])
    ensures Merge(xs, ys, less) == [xs[0]] + Merge(xs[1..], ys, less)
  {
  }

  lemma MergeRight<T>(xs: seq<T>, ys: seq<T>, less: (T, T) -> bool)
    requires xs != [] && ys != [] && less(ys[0], xs[0])
    ensures Merge(xs, ys, less) == [ys[0]] + Merge(xs, ys[1..], less)
  {
  }

  lemma SameInFront<T>(h: T, a: seq<T>, b: seq<T>)
    requires multiset(a) == multiset(b)
    ensures multiset([h] + a) == multiset([h] + b)
  {
  }

  lemma {:induction false} MergePermutes<T>(xs: seq<T>, ys: seq<T>, less: (T, T) -> bool)
    ensures multiset(Merge(xs, ys, less)) == multiset(xs + ys)
    decreases |xs| + |ys|
  {
    if xs == [] {
      assert xs + ys == ys;
    } else if ys == [] {
      assert xs + ys == xs;
    } else if !less(ys[0], xs[0]) {
      MergeLeft(xs, ys, less);
      HeadOut(xs, ys);
      MergePermutes(xs[1..], ys, less);
      SameInFront(xs[0], Merge(xs[1..], ys, less), xs[1..] + ys);
    } else {
      MergeRight(xs, ys, less);
      MergePermutes(xs, ys[1..], less);
      SameInFront(ys[0], Merge(xs, ys[1..], less), xs + ys[1..]);
      ToFront(xs, ys[0], ys[1..]);
      assert ys == [ys[0]] + ys[1..];
    }
  }

  lemma MergeHead<T>(xs: seq<T>, ys: seq<T>, less: (T, T) -> bool)
    requires xs != [] || ys != []
    ensures Merge(xs, ys, less) != []
    ensures (xs != [] && Merge(xs, ys, less)[0] == xs[0]) || (ys != [] && Merge(xs, ys, less)[0] == ys[0])
  {
  }

  lemma SortedCons<T>(h: T, s: seq<T>, less: (T, T) -> bool)
    requires Sorted(s, less) && (s != [] ==> !less(s[0], h))
    ensures Sorted([h] + s, less)
  {
    var hs := [h] + s;
    forall i | 0 < i < |hs| ensures !less(hs[i], hs[i - 1]) {
      assert hs[i] == s[i - 1];
      if i > 1 { assert hs[i - 1] == s[i - 2]; assert !less(s[i - 1], s[i - 1 - 1]); }
    }
  }

  lemma {:induction false} MergeSorts<T>(xs: seq<T>, ys: seq<T>, less: (T, T) -> bool)
    requires StrictWeak(less, Elements(xs) + Elements(ys)) && Sorted(xs, less) && Sorted(ys, less)
    ensures Sorted(Merge(xs, ys, less), less)
    decreases |xs| + |ys|
  {
    if xs != [] && ys != [] {
      assert xs[0] in Elements(xs) && ys[0] in Elements(ys);
      if !less(ys[0], xs[0]) {
        MergeSorts(xs[1..], ys, less);
        MergeHead(xs[1..], ys, less);
        SortedCons(xs[0], Merge(xs[1..], ys, less), less);
      } else {
        MergeSorts(xs, ys[1..], less);
        MergeHead(xs, ys[1..], less);
        SortedCons(ys[0], Merge(xs, ys[1..], less), less);
      }
    }
  }

  lemma {:induction false} MergeStable<T>(xs: seq<T>, ys: seq<T>, less: (T, T) -> bool, i: nat, j: nat)
    requires StrictWeak(less, Elements(xs) + Elements(ys)) && Sorted(xs, less)
    requires i < j < |xs + ys| && !less((xs + ys)[j], (xs + ys)[i])
    ensures Before(Merge(xs, ys, less), (xs + ys)[i], (xs + ys)[j])
    decreases |xs| + |ys|
  {
    if xs == [] || ys == [] {
      assert Merge(xs, ys, less) == xs + ys;
    } else if !less(ys[0], xs[0]) {
      MergeStableLeft(xs, ys, less, i, j);
    } else {
      MergeStableRight(xs, ys, less, i, j);
    }
  }

  lemma InMerge<T>(xs: seq<T>, ys: seq<T>, less: (T, T) -> bool, k: nat)
    requires k < |xs + ys|
    ensures (xs + ys)[k] in Merge(xs, ys, less)
  {
    MergePermutes(xs, ys, less);
    assert (xs + ys)[k] in multiset(xs + ys);
  }

  lemma {:induction false} MergeStableLeft<T>(xs: seq<T>, ys: seq<T>, less: (T, T) -> bool, i: nat, j: nat)
    requires StrictWeak(less, Elements(xs) + Elements(ys)) && Sorted(xs, less)
    requires xs != [] && ys != [] && !less(ys[0], xs[0])
    requires i < j < |xs + ys| && !less((xs + ys)[j], (xs + ys)[i])
    ensures Before(Merge(xs, ys, less), (xs + ys)[i], (xs + ys)[j])
    decreases |xs| + |ys|, 0
  {
    HeadOut(xs, ys);
    if i == 0 {
      HeadIsFirst(xs, ys, less, j);
    } else {
      SortedRest(xs, ys, less);
      MergeStable(xs[1..], ys, less, i - 1, j - 1);
      BeforeLeft(xs, ys, less, (xs + ys)[i], (xs + ys)[j]);
    }
  }

  lemma HeadIsFirst<T>(xs: seq<T>, ys: seq<T>, less: (T, T) -> bool, j: nat)
    requires xs != [] && ys != [] && !less(ys[0], xs[0]) && 0 < j < |xs + ys|
    ensures Before(Merge(xs, ys, less), xs[0], (xs + ys)[j])
  {
    HeadOut(xs, ys);
    MergeLeft(xs, ys, less);
    InMerge(xs[1..], ys, less, j - 1);
    BeforeHead(Merge(xs[1..], ys, less), xs[0], (xs + ys)[j]);
  }

  lemma BeforeLeft<T>(xs: seq<T>, ys: seq<T>, less: (T, T) -> bool, x: T, y: T)
    requires xs != [] && ys != [] && !less(ys[0], xs[0]) && Before(Merge(xs[1..], ys, less), x, y)
    ensures Before(Merge(xs, ys, less), x, y)
  {
    MergeLeft(xs, ys, less);
    BeforeCons(Merge(xs[1..], ys, less), xs[0], x, y);
  }

  lemma SortedRest<T>(xs: seq<T>, ys: seq<T>, less: (T, T) -> bool)
    requires StrictWeak(less, Elements(xs) + Elements(ys)) && Sorted(xs, less) && xs != []
    ensures StrictWeak(less, Elements(xs[1..]) + Elements(ys)) && Sorted(xs[1..], less)
  {
    WeakPart(less, Elements(xs) + Elements(ys), Elements(xs[1..]) + Elements(ys));
  }

  lemma LessThanAll<T>(xs: seq<T>, y: T, less: (T, T) -> bool, dom: set<T>, i: nat)
    requires StrictWeak(less, dom) && Elements(xs) <= dom && y in dom && Sorted(xs, less) && i < |xs| && less(y, xs[0])
    ensures less(y, xs[i])
  {
    assert xs[0] in Elements(xs) && xs[i] in Elements(xs);
    if i > 0 {
      WeakPart(less, dom, Elements(xs));
      SortedFar(xs, less, 0, i);
    }
  }

  lemma {:induction false} MergeStableRight<T>(xs: seq<T>, ys: seq<T>, less: (T, T) -> bool, i: nat, j: nat)
    requires StrictWeak(less, Elements(xs) + Elements(ys)) && Sorted(xs, less)
    requires xs != [] && ys != [] && less(ys[0], xs[0])
    requires i < j < |xs + ys| && !less((xs + ys)[j], (xs + ys)[i])
    ensures Before(Merge(xs, ys, less), (xs + ys)[i], (xs + ys)[j])
    decreases |xs| + |ys|, 0
  {
    var s := xs + ys;
    var rest := xs + ys[1..];
    var mr := Merge(xs, ys[1..], less);
    assert forall k :: 0 <= k < |s| && k != |xs| ==> s[k] == rest[if k < |xs| then k else k - 1];
    if j == |xs| {
      // An element of xs is not less than xs[0], so ys[0] is less than each and passes nothing in order.
      assert s[i] == xs[i] && s[j] == ys[0];
      LessThanAll(xs, ys[0], less, Elements(xs) + Elements(ys), i);
    } else if i == |xs| {
      MergePermutes(xs, ys[1..], less);
      assert s[j] in multiset(rest);
      BeforeHead(mr, ys[0], s[j]);
    } else {
      var i', j' := if i < |xs| then i else i - 1, if j < |xs| then j else j - 1;
      MergeStable(xs, ys[1..], less, i', j');
      BeforeCons(mr, ys[0], s[i], s[j]);
    }
  }

  /* ---- find_end_of_run ---- */

  /** Where the nondecreasing run that starts at 0 and is known to reach `k` ends. */
  function RunEndFrom<T>(s: seq<T>, less: (T, T) -> bool, k: nat): (e: nat)
    requires 1 <= k <= |s|
    ensures k <= e <= |s| && (e < |s| ==> less(s[e], s[e - 1]))
    ensures forall i :: k <= i < e ==> !less(s[i], s[i - 1])
    decreases |s| - k
  {
    if k < |s| && !less(s[k], s[k - 1]) then RunEndFrom(s, less, k + 1) else k
  }

  function RunEnd<T>(s: seq<T>, less: (T, T) -> bool): nat
    requires s != []
  {
    RunEndFrom(s, less, 1)
  }

  /** The number of adjacent pairs that are out of order. */
  function Descents<T>(s: seq<T>, less: (T, T) -> bool): nat {
    if |s| < 2 then 0 else (if less(s[1], s[0]) then 1 else 0) + Descents(s[1..], less)
  }

  /** The number of maximal nondecreasing runs. */
  function NaturalRuns<T>(s: seq<T>, less: (T, T) -> bool): nat {
    if s == [] then 0 else 1 + Descents(s, less)
  }

  lemma {:induction false} DescentsConcat<T>(a: seq<T>, b: seq<T>, less: (T, T) -> bool)
    requires a != [] && b != []
    ensures Descents(a + b, less) == Descents(a, less) + Descents(b, less) + (if less(b[0], a[|a| - 1]) then 1 else 0)
  {
    assert (a + b)[1..] == a[1..] + b;
    if |a| > 1 {
      DescentsConcat(a[1..], b, less);
    }
  }

  lemma {:induction false} SortedHasNoDescents<T>(s: seq<T>, less: (T, T) -> bool)
    ensures Sorted(s, less) <==> Descents(s, less) == 0
  {
    if |s| >= 2 {
      SortedHasNoDescents(s[1..], less);
      var t := s[1..];
      assert forall i :: 0 < i < |t| ==> t[i] == s[i + 1] && t[i - 1] == s[i];
      if Sorted(t, less) && !less(s[1], s[0]) {
        SortedCons(s[0], t, less);
        assert s == [s[0]] + t;
      }
    }
  }

  /* ---- One pass of list_sort ---- */

  /** One pass: adjacent runs are merged two by two. */
  function Pass<T>(s: seq<T>, less: (T, T) -> bool): seq<T>
    decreases |s|
  {
    if s == [] then [] else
      var k := RunEnd(s, less);
      if k == |s| then s else
        var e := RunEnd(s[k..], less);
        Merge(s[..k], s[k..][..e], less) + Pass(s[k..][e..], less)
  }

  /** `output_run_cnt` after the pass. */
  function OutputRuns<T>(s: seq<T>, less: (T, T) -> bool): nat
    decreases |s|
  {
    if s == [] then 0 else
      var k := RunEnd(s, less);
      if k == |s| then 1 else 1 + OutputRuns(s[k..][RunEnd(s[k..], less)..], less)
  }

  /** A nonempty sequence is its first run followed by the runs of the rest. */
  lemma FirstRun<T>(s: seq<T>, less: (T, T) -> bool)
    requires s != []
    ensures var k := RunEnd(s, less);
            && 0 < k <= |s| && Sorted(s[..k], less)
            && NaturalRuns(s, less) == 1 + NaturalRuns(s[k..], less)
  {
    var k := RunEnd(s, less);
    SortedHasNoDescents(s[..k], less);
    if k < |s| {
      assert s == s[..k] + s[k..];
      DescentsConcat(s[..k], s[k..], less);
    } else {
      assert s[..k] == s;
    }
  }

  /** Each pass halves the number of runs that it counts. */
  lemma {:induction false} PassHalvesRuns<T>(s: seq<T>, less: (T, T) -> bool)
    ensures OutputRuns(s, less) == (NaturalRuns(s, less) + 1) / 2
    decreases |s|
  {
    if s != [] {
      FirstRun(s, less);
      var t := s[RunEnd(s, less)..];
      if t != [] {
        FirstRun(t, less);
        PassHalvesRuns(t[RunEnd(t, less)..], less);
      }
    }
  }

  lemma RearrangedConcat<T>(a: seq<T>, a': seq<T>, b: seq<T>, b': seq<T>, less: (T, T) -> bool)
    requires Rearranged(a, a', less) && Rearranged(b, b', less)
    ensures Rearranged(a + b, a' + b', less)
  {
    forall i, j | 0 <= i < j < |a + b| && !less((a + b)[j], (a + b)[i])
      ensures Before(a' + b', (a + b)[i], (a + b)[j]) {
      BeforeConcat(a, a', b, b', less, i, j);
    }
  }

  lemma BeforeConcat<T>(a: seq<T>, a': seq<T>, b: seq<T>, b': seq<T>, less: (T, T) -> bool, i: nat, j: nat)
    requires Rearranged(a, a', less) && Rearranged(b, b', less)
    requires i < j < |a + b| && !less((a + b)[j], (a + b)[i])
    ensures Before(a' + b', (a + b)[i], (a + b)[j])
  {
    var x, y := (a + b)[i], (a + b)[j];
    var m, n := 0, 0;
    if j < |a| {
      assert Before(a', x, y);
      m, n :| 0 <= m < n < |a'| && a'[m] == x && a'[n] == y;
    } else if i >= |a| {
      assert x == b[i - |a|] && y == b[j - |a|];
      assert Before(b', x, y);
      m, n :| 0 <= m < n < |b'| && b'[m] == x && b'[n] == y;
      m, n := |a'| + m, |a'| + n;
    } else {
      assert x in multiset(a) && y in multiset(b);
      m :| 0 <= m < |a'| && a'[m] == x;
      n :| 0 <= n < |b'| && b'[n] == y;
      n := |a'| + n;
    }
    assert (a' + b')[m] == x && (a' + b')[n] == y;
  }

  /** Any part of a sequence is ordered by the order of the whole. */
  lemma WeakPart<T>(less: (T, T) -> bool, dom: set<T>, part: set<T>)
    requires StrictWeak(less, dom) && part <= dom
    ensures StrictWeak(less, part)
  {
  }

  lemma MergeRearranges<T>(xs: seq<T>, ys: seq<T>, less: (T, T) -> bool)
    requires StrictWeak(less, Elements(xs) + Elements(ys)) && Sorted(xs, less)
    ensures Rearranged(xs + ys, Merge(xs, ys, less), less)
  {
    MergePermutes(xs, ys, less);
    forall i, j | 0 <= i < j < |xs + ys| && !less((xs + ys)[j], (xs + ys)[i])
      ensures Before(Merge(xs, ys, less), (xs + ys)[i], (xs + ys)[j])
    {
      MergeStable(xs, ys, less, i, j);
    }
  }

  /** A pass rearranges without disturbing pairs in order, and leaves at most one run for each that it counts. */
  lemma {:induction false} PassImproves<T>(s: seq<T>, less: (T, T) -> bool)
    requires StrictWeak(less, Elements(s))
    ensures Rearranged(s, Pass(s, less), less)
    ensures NaturalRuns(Pass(s, less), less) <= OutputRuns(s, less)
    decreases |s|
  {
    if s == [] {
      RearrangedRefl(s, less);
    } else {
      FirstRun(s, less);
      var k := RunEnd(s, less);
      if k == |s| {
        assert s[k..] == [];
        RearrangedRefl(s, less);
      } else {
        PassImprovesPair(s, less);
      }
    }
  }

  lemma RunIsSorted<T>(s: seq<T>, less: (T, T) -> bool)
    requires s != []
    ensures 0 < RunEnd(s, less) <= |s| && Sorted(s[..RunEnd(s, less)], less)
  {
  }

  /** `Pass` on two runs and what follows them. */
  lemma PassUnfold<T>(s: seq<T>, less: (T, T) -> bool) returns (xs: seq<T>, ys: seq<T>, rest: seq<T>)
    requires s != [] && RunEnd(s, less) < |s|
    ensures s == xs + ys + rest && xs != [] && ys != [] && Sorted(xs, less) && Sorted(ys, less)
    ensures |xs| == RunEnd(s, less) && |ys| == RunEnd(ys + rest, less)
    ensures Pass(s, less) == Merge(xs, ys, less) + Pass(rest, less)
    ensures OutputRuns(s, less) == 1 + OutputRuns(rest, less)
  {
    var k := RunEnd(s, less);
    var t := s[k..];
    var e := RunEnd(t, less);
    xs, ys, rest := s[..k], t[..e], t[e..];
    assert ys + rest == t;
    RunIsSorted(s, less);
    RunIsSorted(t, less);
  }

  lemma ElementsConcat<T>(a: seq<T>, b: seq<T>)
    ensures Elements(a + b) == Elements(a) + Elements(b)
  {
  }

  lemma PassOne<T>(s: seq<T>, less: (T, T) -> bool)
    ensures s == [] ==> Pass(s, less) == [] && OutputRuns(s, less) == 0
    ensures s != [] && RunEnd(s, less) == |s| ==> Pass(s, less) == s && OutputRuns(s, less) == 1
  {
  }

  lemma OneMoreRun<T>(m: seq<T>, r: seq<T>, less: (T, T) -> bool)
    requires Sorted(m, less) && m != []
    ensures NaturalRuns(m + r, less) <= 1 + NaturalRuns(r, less)
  {
    SortedHasNoDescents(m, less);
    if r == [] {
      assert m + r == m;
    } else {
      DescentsConcat(m, r, less);
    }
  }

  lemma PassImprovesPair<T>(s: seq<T>, less: (T, T) -> bool)
    requires StrictWeak(less, Elements(s)) && s != [] && RunEnd(s, less) < |s|
    ensures Rearranged(s, Pass(s, less), less)
    ensures NaturalRuns(Pass(s, less), less) <= OutputRuns(s, less)
    decreases |s|, 0
  {
    var xs, ys, rest := PassUnfold(s, less);
    ElementsConcat(xs + ys, rest);
    ElementsConcat(xs, ys);
    WeakPart(less, Elements(s), Elements(xs) + Elements(ys));
    WeakPart(less, Elements(s), Elements(rest));
    var m := Merge(xs, ys, less);
    MergeRearranges(xs, ys, less);
    MergeSorts(xs, ys, less);
    MergeHead(xs, ys, less);
    PassImproves(rest, less);
    RearrangedConcat(xs + ys, m, rest, Pass(rest, less), less);
    OneMoreRun(m, Pass(rest, less), less);
  }

  /* ---- list_sort ---- */

  /** A pass brings the sort of `s` closer to its end: it keeps what the passes before it achieved, leaves
      fewer runs as long as it outputs more than one, and is the last one when it does not. */
  lemma PassAdvances<T>(s: seq<T>, w: seq<T>, less: (T, T) -> bool)
    requires StrictWeak(less, Elements(s)) && Rearranged(s, w, less)
    ensures Rearranged(s, Pass(w, less), less)
    ensures OutputRuns(w, less) > 1 ==> NaturalRuns(Pass(w, less), less) < NaturalRuns(w, less)
    ensures OutputRuns(w, less) <= 1 ==> Sorted(Pass(w, less), less)
  {
    SameElements(s, w);
    PassImproves(w, less);
    PassHalvesRuns(w, less);
    RearrangedTrans(s, w, Pass(w, less), less);
    SortedHasNoDescents(Pass(w, less), less);
  }

  lemma SameElements<T>(a: seq<T>, b: seq<T>)
    requires multiset(a) == multiset(b)
    ensures Elements(a) == Elements(b) && (a == [] <==> b == [])
  {
    forall x ensures x in a <==> x in b {
      assert x in a <==> x in multiset(a);
      assert x in b <==> x in multiset(b);
    }
    assert a == [] || a[0] in a;
    assert b == [] || b[0] in b;
  }

  /* ---- Sorted, stable and a permutation determine the result ---- */

  lemma NotBefore<T>(s: seq<T>, i: nat, j: nat)
    requires Distinct(s) && i < j < |s|
    ensures !Before(s, s[j], s[i])
  {
  }

  /** Two sorted and stable arrangements agree on the order of every two elements. */
  lemma StableOrder<T>(s: seq<T>, a: seq<T>, b: seq<T>, less: (T, T) -> bool, i: nat, j: nat)
    requires StrictWeak(less, Elements(s)) && Distinct(a) && i < j < |a|
    requires Sorted(a, less) && Rearranged(s, a, less) && Sorted(b, less) && Rearranged(s, b, less)
    ensures Before(b, a[i], a[j])
  {
    var x, y := a[i], a[j];
    SameElements(s, a);
    SameElements(s, b);
    SortedFar(a, less, i, j);
    assert x in Elements(a) && y in Elements(a);
    var m :| 0 <= m < |s| && s[m] == x;
    var n :| 0 <= n < |s| && s[n] == y;
    if n < m {
      NotBefore(a, i, j);
      assert !less(x, y) ==> Before(a, y, x);
      assert x in Elements(b) && y in Elements(b);
      var m' :| 0 <= m' < |b| && b[m'] == x;
      var n' :| 0 <= n' < |b| && b[n'] == y;
      if n' < m' {
        SortedFar(b, less, n', m');
      }
    }
  }

  /** At most one arrangement of distinct elements is sorted and stable. */
  lemma StableSortIsUnique<T>(s: seq<T>, a: seq<T>, b: seq<T>, less: (T, T) -> bool)
    requires StrictWeak(less, Elements(s)) && Distinct(a) && Distinct(b)
    requires Sorted(a, less) && Rearranged(s, a, less) && Sorted(b, less) && Rearranged(s, b, less)
    ensures a == b
  {
    assert |a| == |multiset(a)| && |b| == |multiset(b)|;
    AgreeUpTo(s, a, b, less, |a|);
    assert a == a[..|a|] && b == b[..|b|];
  }

  lemma {:induction false} AgreeUpTo<T>(s: seq<T>, a: seq<T>, b: seq<T>, less: (T, T) -> bool, k: nat)
    requires StrictWeak(less, Elements(s)) && Distinct(a) && Distinct(b) && k <= |a| == |b|
    requires Sorted(a, less) && Rearranged(s, a, less) && Sorted(b, less) && Rearranged(s, b, less)
    ensures a[..k] == b[..k]
  {
    if k > 0 {
      AgreeUpTo(s, a, b, less, k - 1);
      AgreeAt(s, a, b, less, k - 1);
      assert a[..k] == a[..k - 1] + [a[k - 1]] && b[..k] == b[..k - 1] + [b[k - 1]];
    }
  }

  lemma AgreeAt<T>(s: seq<T>, a: seq<T>, b: seq<T>, less: (T, T) -> bool, k: nat)
    requires StrictWeak(less, Elements(s)) && Distinct(a) && Distinct(b) && k < |a| == |b| && a[..k] == b[..k]
    requires Sorted(a, less) && Rearranged(s, a, less) && Sorted(b, less) && Rearranged(s, b, less)
    ensures a[k] == b[k]
  {
    SameElements(a, b);
    assert forall m :: 0 <= m < k ==> a[m] == a[..k][m] && b[m] == b[..k][m];
    assert b[k] in Elements(b);
    var q :| 0 <= q < |a| && a[q] == b[k];
    if q > k {
      StableOrder(s, a, b, less, k, q);
    }
  }
}
