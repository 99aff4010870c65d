/** Doubly linked lists with two sentinels and their in-place sort (hw-list/list.c).

    As in the original, the elements carry no data here: `less` compares elements, whatever they are
    embedded in. The ghost sequence of a list runs from its head through its elements to its tail. */
module LinkedList {
  import opened Basics
  import opened NaturalMerge

  class Elem {
    var prev: Elem?
    var next: Elem?
    constructor ()
      ensures prev == null && next == null
    {
      prev := null;
      next := null;
    }
  }

  /** `s` is a well-formed list: head, elements, tail, linked both ways. */
  ghost predicate Chain(s: seq<Elem>)
    reads s
  {
    && |s| >= 2 && Distinct(s)
    && s[0].prev == null && s[|s| - 1].next == null
    && (forall i {:trigger s[i].next} :: 0 <= i < |s| - 1 ==> s[i].next == s[i + 1])
    && (forall i {:trigger s[i].prev} :: 0 < i < |s| ==> s[i].prev == s[i - 1])
  }

  /** Where element `i` comes from when elements `q` to `e` (exclusive) move to just before element `p`. */
  function Origin(i: int, p: int, q: int, e: int): int {
    if i < p then i else if i < p + (e - q) then q + (i - p) else if i < e then i - (e - q) else i
  }

  /** `t` is `s` with its elements `q` to `e` (exclusive) moved to just before element `p`. */
  ghost predicate Moved(s: seq<Elem>, t: seq<Elem>, p: nat, q: nat, e: nat)
    requires p <= q <= e <= |s|
  {
    |t| == |s| && forall i :: 0 <= i < |t| ==> t[i] == s[Origin(i, p, q, e)]
  }

  /** The links that six assignments leave behind, element by element. */
  ghost predicate Spliced(s: seq<Elem>, p: nat, q: nat, e: nat)
    requires 0 < p < q < e < |s|
    reads s
  {
    && s[0].prev == null && s[|s| - 1].next == null
    && (forall i {:trigger s[i].next} :: 0 <= i < |s| - 1 ==>
          s[i].next == if i == p - 1 then s[q] else if i == q - 1 then s[e] else if i == e - 1 then s[p] else s[i + 1])
    && (forall i {:trigger s[i].prev} :: 0 < i < |s| ==>
          s[i].prev == if i == p then s[e - 1] else if i == q then s[p - 1] else if i == e then s[q - 1] else s[i - 1])
  }

  lemma SplicedChain(s: seq<Elem>, t: seq<Elem>, p: nat, q: nat, e: nat)
    requires 0 < p < q < e < |s| && Distinct(s) && Spliced(s, p, q, e) && Moved(s, t, p, q, e)
    ensures Chain(t)
  {
    forall i | 0 <= i < |t| - 1 ensures t[i].next == t[i + 1] && t[i + 1].prev == t[i] {
      var a, b := Origin(i, p, q, e), Origin(i + 1, p, q, e);
      assert s[a].next == s[b] && s[b].prev == s[a];
    }
    forall i | 0 < i < |t| ensures t[i].prev == t[i - 1] {
      assert t[i - 1].next == t[i - 1 + 1] && t[i - 1 + 1].prev == t[i - 1];
    }
  }

  /** The six assignments of `list_splice`: three elements get another `next`, three another `prev`, and when
      the range is already where it should go, nothing changes. */
  method Relink(before: Elem, first: Elem, last: Elem, ghost repr: set<Elem>)
    requires before in repr && first in repr && last in repr && before != first
    requires before.prev in repr && first.prev in repr && last.next in repr
    modifies repr
    ensures before != old(last.next) ==> forall x {:trigger x.next} :: x in repr ==>
              x.next == if x == old(before.prev) then first
                        else if x == last then before
                        else if x == old(first.prev) then old(last.next)
                        else old(x.next)
    ensures before != old(last.next) ==> forall x {:trigger x.prev} :: x in repr ==>
              x.prev == if x == before then last
                        else if x == first then old(before.prev)
                        else if x == old(last.next) then old(first.prev)
                        else old(x.prev)
    ensures before == old(last.next) && old(before.prev) == last && old(first.prev.next) == first ==>
              forall x {:trigger x.next} {:trigger x.prev} ::
                x in repr ==> x.next == old(x.next) && x.prev == old(x.prev)
  {
    first.prev.next := last.next;
    last.next.prev := first.prev;
    first.prev := before.prev;
    last.next := before;
    before.prev.next := first;
    before.prev := last;
  }

  /** The assignments when `before` comes earlier in the list. */
  method RelinkEarlier(before: Elem, first: Elem, last: Elem, ghost s: seq<Elem>, ghost p: nat, ghost q: nat,
                       ghost e: nat, ghost repr: set<Elem>)
    requires Chain(s) && 0 < p < q < e < |s| && (forall x :: x in s ==> x in repr)
    requires s[p] == before && s[q] == first && s[e - 1] == last
    modifies repr
    ensures Spliced(s, p, q, e)
  {
    Relink(before, first, last, repr);
  }

  /** The assignments when `before` comes later in the list. */
  method RelinkLater(before: Elem, first: Elem, last: Elem, ghost s: seq<Elem>, ghost q: nat, ghost e: nat,
                     ghost p: nat, ghost repr: set<Elem>)
    requires Chain(s) && 0 < q < e < p < |s| && (forall x :: x in s ==> x in repr)
    requires s[p] == before && s[q] == first && s[e - 1] == last
    modifies repr
    ensures Spliced(s, q, e, p)
  {
    Relink(before, first, last, repr);
  }

  /** The assignments when `before` is where the range ends. */
  method RelinkHere(before: Elem, first: Elem, last: Elem, ghost s: seq<Elem>, ghost q: nat, ghost e: nat,
                    ghost repr: set<Elem>)
    requires Chain(s) && 0 < q < e < |s| && (forall x :: x in s ==> x in repr)
    requires s[e] == before && s[q] == first && s[e - 1] == last
    modifies repr
    ensures Chain(s)
  {
    Relink(before, first, last, repr);
  }

  lemma MovedNowhere(s: seq<Elem>, t: seq<Elem>, p: nat, q: nat, e: nat)
    requires p <= q <= e <= |s| && (p == q || q == e) && Moved(s, t, p, q, e)
    ensures t == s
  {
  }

  /** `list_splice` within a list: the elements from `first` to `last` (exclusive) move to just before
      the earlier element `before`. */
  method Splice(before: Elem, first: Elem, last: Elem, ghost s: seq<Elem>, ghost p: nat, ghost q: nat, ghost e: nat,
                ghost t: seq<Elem>, ghost repr: set<Elem>)
    requires Chain(s) && 0 < p < q <= e < |s| && Moved(s, t, p, q, e) && (forall x :: x in s ==> x in repr)
    requires s[p] == before && s[q] == first && s[e] == last
    modifies repr
    ensures Chain(t)
  {
    if first == last {
      MovedNowhere(s, t, p, q, e);
      return;
    }
    RelinkEarlier(before, first, last.prev, s, p, q, e, repr);
    SplicedChain(s, t, p, q, e);
  }

  /** `list_splice` to a later place of the same list: moving a range behind others is moving these before it. */
  method SpliceLater(before: Elem, first: Elem, last: Elem, ghost s: seq<Elem>, ghost q: nat, ghost e: nat,
                     ghost p: nat, ghost t: seq<Elem>, ghost repr: set<Elem>)
    requires Chain(s) && 0 < q <= e <= p < |s| && Moved(s, t, q, e, p) && (forall x :: x in s ==> x in repr)
    requires s[p] == before && s[q] == first && s[e] == last
    modifies repr
    ensures Chain(t)
  {
    if first == last {
      MovedNowhere(s, t, q, e, p);
    } else if before == last {
      MovedNowhere(s, t, q, e, p);
      RelinkHere(before, first, last.prev, s, q, e, repr);
    } else {
      RelinkLater(before, first, last.prev, s, q, e, p, repr);
      SplicedChain(s, t, q, e, p);
    }
  }

  /** The links of the list that loses its elements `q` to `e` (exclusive), which now stand between `l` and `r`. */
  ghost predicate CutOut(s: seq<Elem>, q: nat, e: nat, l: Elem, r: Elem)
    requires 0 < q < e < |s|
    reads s
  {
    && s[0].prev == null && s[|s| - 1].next == null
    && (forall i {:trigger s[i].next} :: 0 <= i < |s| - 1 ==>
          s[i].next == if i == q - 1 then s[e] else if i == e - 1 then r else s[i + 1])
    && (forall i {:trigger s[i].prev} :: 0 < i < |s| ==>
          s[i].prev == if i == q then l else if i == e then s[q - 1] else s[i - 1])
  }

  /** The links of the list that gets elements from `first` to `last` just before its element `p`. */
  ghost predicate PutIn(u: seq<Elem>, p: nat, first: Elem, last: Elem)
    requires 0 < p < |u|
    reads u
  {
    && u[0].prev == null && u[|u| - 1].next == null
    && (forall i {:trigger u[i].next} :: 0 <= i < |u| - 1 ==> u[i].next == if i == p - 1 then first else u[i + 1])
    && (forall i {:trigger u[i].prev} :: 0 < i < |u| ==> u[i].prev == if i == p then last else u[i - 1])
  }

  /** No element is in both lists. */
  ghost predicate Apart(s: seq<Elem>, u: seq<Elem>) {
    forall i, k :: 0 <= i < |s| && 0 <= k < |u| ==> s[i] != u[k]
  }

  /** The assignments when `before` is in another list. */
  method RelinkBetween(before: Elem, first: Elem, last: Elem, ghost s: seq<Elem>, ghost q: nat, ghost e: nat,
                       ghost u: seq<Elem>, ghost p: nat, ghost repr: set<Elem>)
    requires Chain(s) && Chain(u) && 0 < q < e < |s| && 0 < p < |u| && Apart(s, u)
    requires u[p] == before && s[q] == first && s[e - 1] == last && (forall x :: x in s || x in u ==> x in repr)
    modifies repr
    ensures CutOut(s, q, e, u[p - 1], u[p]) && PutIn(u, p, s[q], s[e - 1])
  {
    Relink(before, first, last, repr);
  }

  lemma CutChain(s: seq<Elem>, q: nat, e: nat, l: Elem, r: Elem, t: seq<Elem>)
    requires 0 < q < e < |s| && Distinct(s) && CutOut(s, q, e, l, r) && t == s[..q] + s[e..]
    ensures Chain(t)
  {
    forall i | 0 <= i < |t| - 1 ensures t[i].next == t[i + 1] && t[i + 1].prev == t[i] {
      var a, b := if i < q then i else i + (e - q), if i + 1 < q then i + 1 else i + 1 + (e - q);
      assert t[i] == s[a] && t[i + 1] == s[b];
      assert s[a].next == s[b] && s[b].prev == s[a];
    }
    forall i | 0 < i < |t| ensures t[i].prev == t[i - 1] {
      assert t[i - 1].next == t[i - 1 + 1] && t[i - 1 + 1].prev == t[i - 1];
    }
  }

  /** Two neighbours of the list with the range `s[q..e]` put in are linked. */
  lemma PutLink(s: seq<Elem>, q: nat, e: nat, u: seq<Elem>, p: nat, t: seq<Elem>, i: nat)
    requires 0 < q < e < |s| && 0 < p < |u| && t == u[..p] + s[q..e] + u[p..] && i + 1 < |t|
    requires CutOut(s, q, e, u[p - 1], u[p]) && PutIn(u, p, s[q], s[e - 1])
    ensures t[i].next == t[i + 1] && t[i + 1].prev == t[i]
  {
    var n := e - q;
    if i + 1 < p {
      assert u[i].next == u[i + 1] && u[i + 1].prev == u[i];
    } else if i < p {
      assert u[i].next == s[q] && s[q].prev == u[i];
    } else if i + 1 < p + n {
      assert s[q + (i - p)].next == s[q + (i - p) + 1] && s[q + (i - p) + 1].prev == s[q + (i - p)];
    } else if i < p + n {
      assert s[e - 1].next == u[p] && u[p].prev == s[e - 1];
    } else {
      assert u[i - n].next == u[i - n + 1] && u[i - n + 1].prev == u[i - n];
    }
  }

  lemma PutDistinct(s: seq<Elem>, q: nat, e: nat, u: seq<Elem>, p: nat, t: seq<Elem>)
    requires 0 < q < e < |s| && 0 < p < |u| && t == u[..p] + s[q..e] + u[p..]
    requires Distinct(s) && Distinct(u) && Apart(s, u)
    ensures Distinct(t)
  {
  }

  lemma PutChain(s: seq<Elem>, q: nat, e: nat, u: seq<Elem>, p: nat, t: seq<Elem>)
    requires 0 < q < e < |s| && 0 < p < |u| && t == u[..p] + s[q..e] + u[p..]
    requires Distinct(s) && Distinct(u) && Apart(s, u)
    requires CutOut(s, q, e, u[p - 1], u[p]) && PutIn(u, p, s[q], s[e - 1])
    ensures Chain(t)
  {
    PutDistinct(s, q, e, u, p, t);
    forall i {:trigger t[i].next} | 0 <= i < |t| - 1 ensures t[i].next == t[i + 1] {
      PutLink(s, q, e, u, p, t, i);
    }
    forall i {:trigger t[i].prev} | 0 < i < |t| ensures t[i].prev == t[i - 1] {
      PutLink(s, q, e, u, p, t, i - 1);
    }
  }

  /** `list_splice` from one list into another: both end up well formed. */
  method SpliceBetween(before: Elem, first: Elem, last: Elem, ghost s: seq<Elem>, ghost q: nat, ghost e: nat,
                       ghost u: seq<Elem>, ghost p: nat, ghost repr: set<Elem>)
    requires Chain(s) && Chain(u) && 0 < q <= e < |s| && 0 < p < |u| && Apart(s, u)
    requires u[p] == before && s[q] == first && s[e] == last && (forall x :: x in s || x in u ==> x in repr)
    modifies repr
    ensures Chain(s[..q] + s[e..]) && Chain(u[..p] + s[q..e] + u[p..])
  {
    if first == last {
      assert s[..q] + s[e..] == s && u[..p] + s[q..e] + u[p..] == u;
      return;
    }
    RelinkBetween(before, first, last.prev, s, q, e, u, p, repr);
    CutChain(s, q, e, u[p - 1], u[p], s[..q] + s[e..]);
    PutChain(s, q, e, u, p, u[..p] + s[q..e] + u[p..]);
  }

  /** `find_end_of_run`: where, in the range `r` of a list, the first element is out of order. */
  method FindEndOfRun(a: Elem, b: Elem, less: (Elem, Elem) -> bool,
                      ghost s: seq<Elem>, ghost pre: seq<Elem>, ghost r: seq<Elem>, ghost post: seq<Elem>)
    returns (e: Elem)
    requires s == pre + r + post && Chain(s) && pre != [] && r != [] && post != [] && r[0] == a && post[0] == b
    ensures RunEnd(r, less) <= |r| && (r + post)[RunEnd(r, less)] == e
  {
    assert forall x :: 0 <= x < |r| ==> r[x] == s[|pre| + x];
    assert forall x :: 0 <= x < |r + post| ==> (r + post)[x] == s[|pre| + x];
    e := Scan(a, b, less, s, |pre|, r);
  }

  /** The loop of `find_end_of_run`, for the range `r` that starts at element `i`. */
  method Scan(a: Elem, b: Elem, less: (Elem, Elem) -> bool, ghost s: seq<Elem>, ghost i: nat, ghost r: seq<Elem>)
    returns (e: Elem)
    requires Chain(s) && r != [] && i + |r| < |s| && s[i] == a && s[i + |r|] == b
    requires forall x :: 0 <= x < |r| ==> r[x] == s[i + x]
    ensures RunEnd(r, less) <= |r| && s[i + RunEnd(r, less)] == e
  {
    assert s[i].next == s[i + 1] && s[i + 1].prev == s[i];
    e := a.next;
    ghost var k: nat := 1;
    while e != b && !less(e, e.prev)
      invariant 1 <= k <= |r| && s[i + k] == e && e.prev == s[i + k - 1]
      invariant RunEndFrom(r, less, k) == RunEnd(r, less)
      decreases |r| - k
    {
      assert s[i + k].next == s[i + k + 1] && s[i + k + 1].prev == s[i + k];
      e := e.next;
      k := k + 1;
    }
    assert RunEnd(r, less) == k;
  }

  /** The merge in progress: `c` holds the merged part up to `p`, what is left of the two runs from `p` to
      `q` and from `q` to `j`, and the rest of the list, which does not change. */
  ghost predicate Merging(c: seq<Elem>, less: (Elem, Elem) -> bool, p: nat, q: nat, j: nat,
                          xs: seq<Elem>, ys: seq<Elem>, goal: seq<Elem>, post: seq<Elem>) {
    && 0 < p <= q <= j < |c| && c[p..q] == xs && c[q..j] == ys && c[j..] == post
    && c[..p] + Merge(xs, ys, less) == goal
  }

  /** The list after its element `q` has moved to just before element `p`. */
  ghost function MovedOne(c: seq<Elem>, p: nat, q: nat): seq<Elem>
    requires p <= q < |c|
  {
    c[..p] + [c[q]] + c[p..q] + c[q + 1..]
  }

  lemma MovedSlices(c: seq<Elem>, p: nat, q: nat, j: nat)
    requires p < q < j < |c|
    ensures var t := MovedOne(c, p, q);
            && |t| == |c| && t[..p + 1] == c[..p] + [c[q]] && t[p + 1..q + 1] == c[p..q] && t[q + 1..j] == c[q + 1..j]
            && t[j..] == c[j..]
  {
  }

  lemma MovedIs(c: seq<Elem>, p: nat, q: nat)
    requires p < q < |c| - 1
    ensures var t := MovedOne(c, p, q);
            Moved(c, t, p, q, q + 1) && t[p + 1] == c[p] && t[q + 1] == c[q + 1] && (forall e :: e in t ==> e in c)
  {
  }

  lemma MergeTakesRight(xs: seq<Elem>, ys: seq<Elem>, less: (Elem, Elem) -> bool)
    requires xs != [] && ys != [] && less(ys[0], xs[0])
    ensures Merge(xs, ys, less) == [ys[0]] + Merge(xs, ys[1..], less)
  {
  }

  lemma MoveMerges(c: seq<Elem>, less: (Elem, Elem) -> bool, p: nat, q: nat, j: nat,
                   xs: seq<Elem>, ys: seq<Elem>, goal: seq<Elem>, post: seq<Elem>)
    returns (t: seq<Elem>)
    requires Merging(c, less, p, q, j, xs, ys, goal, post) && p < q < j && less(c[q], c[p])
    ensures Moved(c, t, p, q, q + 1) && Merging(t, less, p + 1, q + 1, j, xs, ys[1..], goal, post)
    ensures t[p + 1] == c[p] && t[q + 1] == c[q + 1] && t[j] == c[j] && (forall e :: e in t ==> e in c)
  {
    t := MovedOne(c, p, q);
    MovedSlices(c, p, q, j);
    MovedIs(c, p, q);
    MergeTakesRight(xs, ys, less);
    Regroup3(c[..p], [c[q]], Merge(xs, ys[1..], less));
    assert ys[1..] == c[q + 1..j] && t[j] == t[j..][0] && c[j] == c[j..][0];
  }

  lemma KeepMerges(c: seq<Elem>, less: (Elem, Elem) -> bool, p: nat, q: nat, j: nat,
                   xs: seq<Elem>, ys: seq<Elem>, goal: seq<Elem>, post: seq<Elem>)
    requires Merging(c, less, p, q, j, xs, ys, goal, post) && p < q < j && !less(c[q], c[p])
    ensures Merging(c, less, p + 1, q, j, xs[1..], ys, goal, post)
  {
    assert c[..p + 1] == c[..p] + [xs[0]];
  }

  lemma MergeDone(c: seq<Elem>, less: (Elem, Elem) -> bool, p: nat, q: nat, j: nat,
                  xs: seq<Elem>, ys: seq<Elem>, goal: seq<Elem>, post: seq<Elem>)
    requires Merging(c, less, p, q, j, xs, ys, goal, post) && (p == q || q == j)
    ensures c == goal + post
  {
    assert c == c[..p] + xs + ys + post;
  }

  lemma Slices(s: seq<Elem>, pre: seq<Elem>, xs: seq<Elem>, ys: seq<Elem>, post: seq<Elem>)
    requires s == pre + xs + ys + post
    ensures var p, q, j := |pre|, |pre| + |xs|, |pre| + |xs| + |ys|;
            s[..p] == pre && s[p..q] == xs && s[q..j] == ys && s[j..] == post
  {
  }

  lemma MergeBegins(s: seq<Elem>, pre: seq<Elem>, xs: seq<Elem>, ys: seq<Elem>, post: seq<Elem>,
                    less: (Elem, Elem) -> bool)
    requires s == pre + xs + ys + post && pre != [] && post != []
    ensures Merging(s, less, |pre|, |pre| + |xs|, |pre| + |xs| + |ys|, xs, ys, pre + Merge(xs, ys, less), post)
  {
    Slices(s, pre, xs, ys, post);
  }

  /** `inplace_merge`: in a list made of `pre`, the runs `xs` and `ys`, and `post`, the two runs become their
      stable merge, by moving links only. */
  method InplaceMerge(a0: Elem, a1b0: Elem, b1: Elem, less: (Elem, Elem) -> bool, ghost s: seq<Elem>,
                      ghost pre: seq<Elem>, ghost xs: seq<Elem>, ghost ys: seq<Elem>, ghost post: seq<Elem>,
                      ghost repr: set<Elem>)
    returns (ghost c: seq<Elem>)
    requires s == pre + xs + ys + post && Chain(s) && (forall e :: e in s ==> e in repr)
    requires pre != [] && xs != [] && ys != [] && post != [] && xs[0] == a0 && ys[0] == a1b0 && post[0] == b1
    requires Sorted(xs, less) && Sorted(ys, less)
    modifies repr
    ensures Chain(c) && c == pre + Merge(xs, ys, less) + post && (forall e :: e in c ==> e in repr)
  {
    MergeBegins(s, pre, xs, ys, post, less);
    ghost var goal := pre + Merge(xs, ys, less);
    c := MergeRange(a0, a1b0, b1, less, Cursor(s, |pre|, |pre| + |xs|, xs, ys), |pre| + |xs| + |ys|, goal, post, repr);
  }

  /** Where the loop of `inplace_merge` is: in list `c`, at elements `p` and `q`. */
  datatype Cursor = Cursor(c: seq<Elem>, p: nat, q: nat, xs: seq<Elem>, ys: seq<Elem>)

  ghost predicate CursorOk(k: Cursor, less: (Elem, Elem) -> bool, j: nat, goal: seq<Elem>, post: seq<Elem>,
                           repr: set<Elem>)
    reads k.c
  {
    Chain(k.c) && (forall e :: e in k.c ==> e in repr) && Merging(k.c, less, k.p, k.q, j, k.xs, k.ys, goal, post)
  }

  /** The first branch of the loop: the element at `x` stays where it is. */
  method KeepOne(x: Elem, y: Elem, less: (Elem, Elem) -> bool,
                 ghost k: Cursor, ghost j: nat, ghost goal: seq<Elem>, ghost post: seq<Elem>, ghost repr: set<Elem>)
    returns (x': Elem, ghost k': Cursor)
    requires CursorOk(k, less, j, goal, post, repr) && k.p < k.q < j && k.c[k.p] == x && k.c[k.q] == y && !less(y, x)
    ensures CursorOk(k', less, j, goal, post, repr) && k'.p == k.p + 1 && k'.q == k.q && k'.c == k.c
            && k.c[k.p + 1] == x'
  {
    assert k.c[k.p].next == k.c[k.p + 1];
    KeepMerges(k.c, less, k.p, k.q, j, k.xs, k.ys, goal, post);
    x' := x.next;
    k' := k.(p := k.p + 1, xs := k.xs[1..]);
  }

  lemma Neighbours(s: seq<Elem>, i: nat)
    requires Chain(s) && i + 1 < |s|
    ensures s[i].next == s[i + 1] && s[i + 1].prev == s[i]
  {
  }

  /** The second branch of the loop: the element at `y` moves to just before `x`. */
  method MoveOne(x: Elem, y: Elem, less: (Elem, Elem) -> bool,
                 ghost k: Cursor, ghost j: nat, ghost goal: seq<Elem>, ghost post: seq<Elem>, ghost repr: set<Elem>)
    returns (y': Elem, ghost k': Cursor)
    requires CursorOk(k, less, j, goal, post, repr) && k.p < k.q < j && k.c[k.p] == x && k.c[k.q] == y && less(y, x)
    modifies repr
    ensures CursorOk(k', less, j, goal, post, repr) && k'.p == k.p + 1 && k'.q == k.q + 1
    ensures k'.c[k'.p] == x && k'.c[k'.q] == y' && k'.c[j] == k.c[j]
  {
    Neighbours(k.c, k.q);
    ghost var t := MoveMerges(k.c, less, k.p, k.q, j, k.xs, k.ys, goal, post);
    y' := y.next;
    Splice(x, y'.prev, y', k.c, k.p, k.q, k.q + 1, t, repr);
    k' := Cursor(t, k.p + 1, k.q + 1, k.xs, k.ys[1..]);
  }

  /** The loop of `inplace_merge`. */
  method MergeRange(a0: Elem, a1b0: Elem, b1: Elem, less: (Elem, Elem) -> bool,
                    ghost k0: Cursor, ghost j: nat, ghost goal: seq<Elem>, ghost post: seq<Elem>, ghost repr: set<Elem>)
    returns (ghost c: seq<Elem>)
    requires CursorOk(k0, less, j, goal, post, repr) && k0.c[k0.p] == a0 && k0.c[k0.q] == a1b0 && k0.c[j] == b1
    modifies repr
    ensures Chain(c) && c == goal + post && (forall e :: e in c ==> e in repr)
  {
    var x, y := a0, a1b0;
    ghost var k := k0;
    while x != y && y != b1
      invariant CursorOk(k, less, j, goal, post, repr) && k.c[k.p] == x && k.c[k.q] == y && k.c[j] == b1
      decreases j - k.p + j - k.q
    {
      assert k.p < k.q < j;
      if !less(y, x) {
        x, k := KeepOne(x, y, less, k, j, goal, post, repr);
      } else {
        y, k := MoveOne(x, y, less, k, j, goal, post, repr);
      }
    }
    c := k.c;
    MergeDone(c, less, k.p, k.q, j, k.xs, k.ys, goal, post);
  }

  /** The elements of a list between its head and its tail. */
  ghost function Interior(s: seq<Elem>): seq<Elem>
    requires |s| >= 2
  {
    s[1..|s| - 1]
  }

  /** A pass over elements `w` in progress: `done` is final, with `cnt` runs output, and `rest` is to do. */
  ghost predicate Passing(done: seq<Elem>, rest: seq<Elem>, less: (Elem, Elem) -> bool, cnt: nat, w: seq<Elem>) {
    && done + Pass(rest, less) == Pass(w, less)
    && cnt + OutputRuns(rest, less) == OutputRuns(w, less)
  }

  ghost function Whole(head: Elem, s: seq<Elem>, tail: Elem): seq<Elem> {
    [head] + s + [tail]
  }

  lemma Regroup3(a: seq<Elem>, b: seq<Elem>, c: seq<Elem>)
    ensures a + (b + c) == a + b + c
  {
  }

  /** The next two runs `xs` and `ys` are merged. */
  lemma PassMerges(done: seq<Elem>, rest: seq<Elem>, less: (Elem, Elem) -> bool, cnt: nat, w: seq<Elem>)
    returns (xs: seq<Elem>, ys: seq<Elem>, rest': seq<Elem>)
    requires Passing(done, rest, less, cnt, w) && rest != [] && RunEnd(rest, less) < |rest|
    ensures rest == xs + ys + rest' && |xs| == RunEnd(rest, less) && ys != [] && |ys| == RunEnd(ys + rest', less)
    ensures Sorted(xs, less) && Sorted(ys, less)
    ensures Passing(done + Merge(xs, ys, less), rest', less, cnt + 1, w)
  {
    xs, ys, rest' := PassUnfold(rest, less);
    Regroup3(done, Merge(xs, ys, less), Pass(rest', less));
  }

  /** Only one run is left. */
  lemma PassLast(done: seq<Elem>, rest: seq<Elem>, less: (Elem, Elem) -> bool, cnt: nat, w: seq<Elem>)
    requires Passing(done, rest, less, cnt, w) && rest != [] && RunEnd(rest, less) == |rest|
    ensures Passing(done + rest, [], less, cnt + 1, w)
  {
    PassOne(rest, less);
    PassOne<Elem>([], less);
  }

  lemma PassEnds(done: seq<Elem>, less: (Elem, Elem) -> bool, cnt: nat, w: seq<Elem>)
    requires Passing(done, [], less, cnt, w)
    ensures done == Pass(w, less) && cnt == OutputRuns(w, less)
  {
    PassOne<Elem>([], less);
  }

  /** Only the tail is the tail. */
  lemma LastRun(s: seq<Elem>, pre: seq<Elem>, rest: seq<Elem>, tail: Elem, k: nat)
    requires Distinct(s) && s == pre + rest + [tail] && k <= |rest| && (rest + [tail])[k] == tail
    ensures k == |rest|
  {
    assert s[|pre| + k] == (rest + [tail])[k] && s[|s| - 1] == tail;
  }

  /** A list of `done`, two runs and `rest`, seen by `find_end_of_run` and by `inplace_merge`. */
  lemma Regroup(head: Elem, done: seq<Elem>, xs: seq<Elem>, ys: seq<Elem>, rest: seq<Elem>, tail: Elem)
    requires xs != [] && ys != []
    ensures var s, pre := Whole(head, done + (xs + ys + rest), tail), [head] + done;
            && s == (pre + xs) + (ys + rest) + [tail] && s == pre + xs + ys + (rest + [tail])
            && s[1 + |done|] == xs[0] && (xs + ys + rest)[|xs|] == ys[0] && (ys + rest)[0] == ys[0]
            && (ys + rest + [tail])[|ys|] == (rest + [tail])[0]
  {
  }

  lemma Regrouped(head: Elem, done: seq<Elem>, merged: seq<Elem>, rest: seq<Elem>, tail: Elem)
    ensures var s := [head] + done + merged + (rest + [tail]);
            s == Whole(head, (done + merged) + rest, tail) && s[1 + |done + merged|] == (rest + [tail])[0]
            && s[0] == head && s[|s| - 1] == tail
  {
  }

  class List {
    const head: Elem
    const tail: Elem
    ghost var nodes: seq<Elem>

    ghost predicate Valid()
      reads this, nodes
    {
      Chain(nodes) && nodes[0] == head && nodes[|nodes| - 1] == tail
    }

    ghost function Elems(): seq<Elem>
      requires Valid()
      reads this, nodes
    {
      Interior(nodes)
    }

    /** `list_init`: two sentinels linked to each other. */
    constructor ()
      ensures Valid() && Elems() == [] && fresh(head) && fresh(tail)
    {
      head := new Elem();
      tail := new Elem();
      new;
      head.next := tail;
      tail.prev := head;
      nodes := [head, tail];
    }

    /** The list is `done` and `rest` between its sentinels, made of nodes in `repr`, and `e` is the first of `rest`. */
    ghost predicate At(e: Elem, done: seq<Elem>, rest: seq<Elem>, repr: set<Elem>)
      reads this, nodes
    {
      && Valid() && (forall x :: x in nodes ==> x in repr)
      && nodes == Whole(head, done + rest, tail) && nodes[1 + |done|] == e
    }

    /** One iteration of the inner loop of `list_sort`: two runs are located and merged. The tail is returned when
        there is no second run. */
    method MergeRuns(a0: Elem, less: (Elem, Elem) -> bool,
                     ghost done: seq<Elem>, ghost rest: seq<Elem>, ghost cnt: nat, ghost w: seq<Elem>,
                     ghost repr: set<Elem>)
      returns (b1: Elem, ghost done': seq<Elem>, ghost rest': seq<Elem>)
      requires At(a0, done, rest, repr) && Passing(done, rest, less, cnt, w) && rest != []
      modifies this`nodes, repr
      ensures At(b1, done', rest', repr) && Passing(done', rest', less, cnt + 1, w) && |rest'| < |rest|
    {
      ghost var pre := [head] + done;
      assert nodes == pre + rest + [tail] && nodes[1 + |done|] == rest[0];
      var a1b0 := FindEndOfRun(a0, tail, less, nodes, pre, rest, [tail]);
      if a1b0 == tail {
        LastRun(nodes, pre, rest, tail, RunEnd(rest, less));
        PassLast(done, rest, less, cnt, w);
        return tail, done + rest, [];
      }
      b1, done', rest' := MergeTwo(a0, a1b0, less, done, rest, cnt, w, repr);
    }

    /** Two runs, the first from `a0` to `a1b0`. */
    method MergeTwo(a0: Elem, a1b0: Elem, less: (Elem, Elem) -> bool,
                    ghost done: seq<Elem>, ghost rest: seq<Elem>, ghost cnt: nat, ghost w: seq<Elem>,
                    ghost repr: set<Elem>)
      returns (b1: Elem, ghost done': seq<Elem>, ghost rest': seq<Elem>)
      requires At(a0, done, rest, repr) && Passing(done, rest, less, cnt, w)
      requires rest != [] && RunEnd(rest, less) < |rest| && rest[RunEnd(rest, less)] == a1b0
      modifies this`nodes, repr
      ensures At(b1, done', rest', repr) && Passing(done', rest', less, cnt + 1, w) && |rest'| < |rest|
    {
      ghost var xs, ys;
      xs, ys, rest' := PassMerges(done, rest, less, cnt, w);
      Regroup(head, done, xs, ys, rest', tail);
      ghost var pre := [head] + done;
      b1 := FindEndOfRun(a1b0, tail, less, nodes, pre + xs, ys + rest', [tail]);
      nodes := InplaceMerge(a0, a1b0, b1, less, nodes, pre, xs, ys, rest' + [tail], repr);
      done' := done + Merge(xs, ys, less);
      Regrouped(head, done, Merge(xs, ys, less), rest', tail);
    }

    /** One pass of the outer loop of `list_sort`, on a list that earlier passes made out of `s`. */
    method SortPass(less: (Elem, Elem) -> bool, ghost s: seq<Elem>, ghost repr: set<Elem>) returns (cnt: nat)
      requires Valid() && (forall e :: e in nodes ==> e in repr)
      requires StrictWeak(less, Elements(s)) && Rearranged(s, Elems(), less)
      modifies this`nodes, repr
      ensures Valid() && (forall e :: e in nodes ==> e in repr) && Rearranged(s, Elems(), less)
      ensures cnt > 1 ==> NaturalRuns(Elems(), less) < NaturalRuns(old(Elems()), less)
      ensures cnt <= 1 ==> Sorted(Elems(), less)
    {
      ghost var w := Elems();
      cnt := 0;
      var a0: Elem := head.next;
      ghost var done, rest := [], w;
      while a0 != tail
        invariant At(a0, done, rest, repr) && Passing(done, rest, less, cnt, w)
        decreases |rest|
      {
        a0, done, rest := MergeRuns(a0, less, done, rest, cnt, w, repr);
        cnt := cnt + 1;
      }
      assert rest == [];
      PassEnds(done, less, cnt, w);
      PassAdvances(s, w, less);
    }

    /** `list_sort` sorts in place, stably, by relinking the elements that it was given. */
    method Sort(less: (Elem, Elem) -> bool)
      requires Valid() && StrictWeak(less, Elements(Elems()))
      modifies this`nodes, nodes
      ensures Valid() && (forall e :: e in nodes ==> e in old(nodes))
      ensures Sorted(Elems(), less) && Rearranged(old(Elems()), Elems(), less)
    {
      ghost var s, repr := Elems(), set e | e in nodes;
      RearrangedRefl(s, less);
      var cnt := SortPass(less, s, repr);
      while cnt > 1
        invariant Valid() && (forall e :: e in nodes ==> e in repr) && Rearranged(s, Elems(), less)
        invariant cnt <= 1 ==> Sorted(Elems(), less)
        decreases if cnt > 1 then 1 + NaturalRuns(Elems(), less) else 0
      {
        cnt := SortPass(less, s, repr);
      }
    }
  }
}
