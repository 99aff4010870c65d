/** Applications that count keys: the map side writes each key with the number one, the reduce side adds up
    (wc.c:29-69 and vertex_degree.rs:25-71). */
module Counting {
  import opened Codec
  import opened MapReduce
  import opened GroupBy

  /** A number as a value: `int` in C, big-endian `u64` in Rust. */
  function Number(f: Format, n: nat): Bytes { if f == Native then Le(n, 4) else Be(n, 8) }

  function NumberLimit(f: Format): nat { if f == Native then Pow256(4) else Pow256(8) }

  lemma NumberInverse(f: Format, n: nat)
    requires n < NumberLimit(f)
    ensures Length(f, Number(f, n)) == n
  {
    if f == Native { LeInverse(n, 4); } else { BeInverse(n, 8); }
  }

  lemma OneIsOne(f: Format)
    ensures Length(f, Number(f, 1)) == 1
  {
    assert Pow256(0) == 1 && Pow256(1) == 256 && Pow256(2) == 65536 && Pow256(3) == 0x100_0000
           && Pow256(4) == 0x1_0000_0000;
    assert Pow256(8) > 1 by { assert Pow256(5) > 1 && Pow256(6) > 1 && Pow256(7) > 1; }
    NumberInverse(f, 1);
  }

  /** What the map side produces for some keys. */
  function Ones(one: Bytes, keys: seq<Bytes>): Kvs {
    if keys == [] then [] else [KeyValue(keys[0], one)] + Ones(one, keys[1..])
  }

  function Total(f: Format, s: Kvs): nat {
    if s == [] then 0 else Total(f, s[..|s| - 1]) + Length(f, s[|s| - 1].value)
  }

  /** `wc_reduce` and the `reduce` of vertex_degree: the key with the sum of the values. */
  function SumReduce(f: Format): (Bytes, Kvs) -> KeyValue {
    (k: Bytes, g: Kvs) => KeyValue(k, Number(f, Total(f, g)))
  }

  /** The summing loop. */
  method AddUp(f: Format, key: Bytes, s: Kvs) returns (r: KeyValue)
    ensures r == SumReduce(f)(key, s)
  {
    var count := 0;
    for i := 0 to |s|
      invariant count == Total(f, s[..i])
    {
      assert s[..i + 1][..i] == s[..i];
      count := count + Length(f, s[i].value);
    }
    assert s[..|s|] == s;
    r := KeyValue(key, Number(f, count));
  }

  lemma {:induction false} TotalOfOnes(f: Format, s: Kvs)
    requires forall kv :: kv in s ==> kv.value == Number(f, 1)
    ensures Total(f, s) == |s|
  {
    if s != [] {
      TotalOfOnes(f, s[..|s| - 1]);
      OneIsOne(f);
    }
  }

  lemma {:induction false} OnesIn(one: Bytes, keys: seq<Bytes>, kv: KeyValue)
    requires kv in Ones(one, keys)
    ensures kv.key in keys && kv.value == one
  {
    if kv in Ones(one, keys[1..]) {
      OnesIn(one, keys[1..], kv);
    }
  }

  lemma {:induction false} OnesWithKey(one: Bytes, keys: seq<Bytes>, k: Bytes)
    ensures |Ones(one, keys)| == |keys| && |WithKey(Ones(one, keys), k)| == multiset(keys)[k]
  {
    if keys != [] {
      OnesWithKey(one, keys[1..], k);
      assert keys == [keys[0]] + keys[1..];
      assert Ones(one, keys)[1..] == Ones(one, keys[1..]);
    }
  }

  lemma {:induction false} OnesAppend(one: Bytes, a: seq<Bytes>, b: seq<Bytes>)
    ensures Ones(one, a + b) == Ones(one, a) + Ones(one, b)
  {
    if a == [] {
      assert a + b == b;
    } else {
      OnesAppend(one, a[1..], b);
      assert (a + b)[1..] == a[1..] + b;
    }
  }

  function ConcatKeys(ks: seq<seq<Bytes>>): seq<Bytes> {
    if ks == [] then [] else ConcatKeys(ks[..|ks| - 1]) + ks[|ks| - 1]
  }

  /** The outputs of the map tasks, from the keys that each finds. */
  function MapOutputs(f: Format, ks: seq<seq<Bytes>>): seq<Kvs> {
    if ks == [] then [] else MapOutputs(f, ks[..|ks| - 1]) + [Ones(Number(f, 1), ks[|ks| - 1])]
  }

  lemma {:induction false} ConcatOutputs(f: Format, ks: seq<seq<Bytes>>)
    ensures Concat(MapOutputs(f, ks)) == Ones(Number(f, 1), ConcatKeys(ks))
  {
    if ks != [] {
      var init, last := MapOutputs(f, ks[..|ks| - 1]), ks[|ks| - 1];
      ConcatOutputs(f, ks[..|ks| - 1]);
      OnesAppend(Number(f, 1), ConcatKeys(ks[..|ks| - 1]), last);
      assert (init + [Ones(Number(f, 1), last)])[..|init|] == init;
    }
  }

  /* ---- The outputs of reduce tasks ---- */

  lemma {:induction false} GroupsForAppend(a: seq<Kvs>, b: seq<Kvs>, k: Bytes)
    ensures GroupsFor(a + b, k) == GroupsFor(a, k) + GroupsFor(b, k)
  {
    if a == [] {
      assert a + b == b;
    } else {
      var first := if a[0] != [] && a[0][0].key == k then [a[0]] else [];
      calc {
        GroupsFor(a + b, k);
        { assert (a + b)[1..] == a[1..] + b; }
        first + GroupsFor(a[1..] + b, k);
        { GroupsForAppend(a[1..], b, k); }
        first + (GroupsFor(a[1..], k) + GroupsFor(b, k));
        { RegroupGroups(first, GroupsFor(a[1..], k), GroupsFor(b, k)); }
        GroupsFor(a, k) + GroupsFor(b, k);
      }
    }
  }

  lemma RegroupGroups(a: seq<Kvs>, b: seq<Kvs>, c: seq<Kvs>)
    ensures a + (b + c) == (a + b) + c
  {
  }

  lemma ReducedLast(init: seq<Kvs>, last: Kvs, reduce: (Bytes, Kvs) -> KeyValue)
    requires (forall i :: 0 <= i < |init| ==> init[i] != []) && last != []
    ensures Reduced(init + [last], reduce) == Reduced(init, reduce) + [reduce(last[0].key, last)]
  {
    assert (init + [last])[..|init|] == init;
  }

  /** A reduce task writes, for key `k`, what the groups of `k` reduce to. */
  lemma {:induction false} ReducedFor(g: seq<Kvs>, reduce: (Bytes, Kvs) -> KeyValue, k: Bytes)
    requires forall i :: 0 <= i < |g| ==> g[i] != [] && reduce(g[i][0].key, g[i]).key == g[i][0].key
    ensures WithKey(Reduced(g, reduce), k) == Reduced(GroupsFor(g, k), reduce)
  {
    if g != [] {
      var init, last := g[..|g| - 1], g[|g| - 1];
      var kv := reduce(last[0].key, last);
      assert g == init + [last];
      calc {
        WithKey(Reduced(g, reduce), k);
        { ReducedLast(init, last, reduce); WithKeyAppend(Reduced(init, reduce), [kv], k); }
        WithKey(Reduced(init, reduce), k) + WithKey([kv], k);
        { ReducedFor(init, reduce, k); }
        Reduced(GroupsFor(init, k), reduce) + WithKey([kv], k);
        { OneOrNone(GroupsFor(init, k), last, reduce, k); }
        Reduced(GroupsFor(init, k) + GroupsFor([last], k), reduce);
        { GroupsForAppend(init, [last], k); }
        Reduced(GroupsFor(g, k), reduce);
      }
    }
  }

  lemma OneOrNone(gs: seq<Kvs>, last: Kvs, reduce: (Bytes, Kvs) -> KeyValue, k: Bytes)
    requires (forall i :: 0 <= i < |gs| ==> gs[i] != []) && last != [] && reduce(last[0].key, last).key == last[0].key
    ensures Reduced(gs + GroupsFor([last], k), reduce) == Reduced(gs, reduce) + WithKey([reduce(last[0].key, last)], k)
  {
    if last[0].key == k {
      assert GroupsFor([last], k) == [last];
      ReducedLast(gs, last, reduce);
    } else {
      assert gs + GroupsFor([last], k) == gs;
    }
  }

  /** Counting is exact. The map tasks find the keys `ks`, task `j` sorts what it reads into `s`. Its output has
      exactly one pair for each key that occurs and belongs to task `j`: the number of occurrences in all of `ks`. */
  lemma CountsAreTrue(f: Format, ks: seq<seq<Bytes>>, part: Bytes -> int, j: int, s: Kvs, cmp: Compare, k: Bytes)
    requires forall kv :: kv in Concat(MapOutputs(f, ks)) ==> KvFits(f, kv)
    requires var mine := Part(Concat(MapOutputs(f, ks)), part, j); Preorder(cmp, mine) && Separates(cmp, mine)
    requires Sorted(s, cmp) && multiset(s) == multiset(LoadAll(f, FilesFor(f, MapOutputs(f, ks), part, j)))
    ensures var count := multiset(ConcatKeys(ks))[k];
            WithKey(Reduced(Groups(s, cmp), SumReduce(f)), k)
            == if part(k) == j && count > 0 then [KeyValue(k, Number(f, count))] else []
  {
    var g := GroupsFor(Groups(s, cmp), k);
    RunIsGroupBy(f, MapOutputs(f, ks), part, j, s, cmp, k);
    ReducedFor(Groups(s, cmp), SumReduce(f), k);
    ConcatOutputs(f, ks);
    OnesWithKey(Number(f, 1), ConcatKeys(ks), k);
    ReducedOne(f, ConcatKeys(ks), k, g);
  }

  lemma ReducedOne(f: Format, keys: seq<Bytes>, k: Bytes, g: seq<Kvs>)
    requires |g| <= 1 && (g != [] ==> g[0] != [] && multiset(g[0]) == multiset(WithKey(Ones(Number(f, 1), keys), k)))
    ensures Reduced(g, SumReduce(f)) == if g == [] then [] else [KeyValue(k, Number(f, multiset(keys)[k]))]
  {
    if g != [] {
      SameTotal(f, keys, k, g[0]);
      assert g[0][0] in multiset(g[0]);
      WithKeyIn(Ones(Number(f, 1), keys), k, g[0][0]);
      assert g[..0] == [];
      assert SumReduce(f)(g[0][0].key, g[0]) == KeyValue(k, Number(f, multiset(keys)[k]));
    }
  }

  lemma SameTotal(f: Format, keys: seq<Bytes>, k: Bytes, g: Kvs)
    requires multiset(g) == multiset(WithKey(Ones(Number(f, 1), keys), k))
    ensures Total(f, g) == multiset(keys)[k]
  {
    var one := Number(f, 1);
    var all := WithKey(Ones(one, keys), k);
    OnesWithKey(one, keys, k);
    forall kv | kv in g ensures kv.value == one {
      assert kv in multiset(g);
      WithKeyIn(Ones(one, keys), k, kv);
      OnesIn(one, keys, kv);
    }
    TotalOfOnes(f, g);
    assert |g| == |multiset(g)| == |multiset(all)| == |all|;
  }

  lemma {:induction false} WithKeyIn(s: Kvs, k: Bytes, kv: KeyValue)
    requires kv in WithKey(s, k)
    ensures kv in s && kv.key == k
  {
    if kv in WithKey(s[1..], k) {
      WithKeyIn(s[1..], k, kv);
    }
  }
}
