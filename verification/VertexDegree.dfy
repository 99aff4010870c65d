/** Vertex degrees (hw-map-reduce-rs/src/app/vertex_degree.rs), on edges that have been parsed. */
module VertexDegree {
  import opened Codec
  import opened Keys
  import opened MapReduce
  import opened GroupBy
  import opened Counting

  datatype Edge = Edge(a: nat, b: nat)

  /** A vertex as a key: its number in eight bytes. */
  function Key(v: nat): Bytes { Be(v, 8) }

  /** The keys that `map` emits: both ends of every edge. */
  function Endpoints(es: seq<Edge>): seq<Bytes> {
    if es == [] then [] else Endpoints(es[..|es| - 1]) + [Key(es[|es| - 1].a), Key(es[|es| - 1].b)]
  }

  /** The degree of a vertex; a loop counts twice. */
  function Degree(es: seq<Edge>, v: nat): nat {
    if es == [] then 0
    else Degree(es[..|es| - 1], v) + (if es[|es| - 1].a == v then 1 else 0) + (if es[|es| - 1].b == v then 1 else 0)
  }

  ghost predicate InRange(es: seq<Edge>) {
    forall i :: 0 <= i < |es| ==> es[i].a < Pow256(8) && es[i].b < Pow256(8)
  }

  /** `put_u64`: eight bytes, the lowest last. */
  lemma KeyOrder(v: nat)
    ensures |Key(v)| == 8 && Key(v)[7] == v % 256
  {
  }

  lemma KeysDiffer(v: nat, w: nat)
    requires v < Pow256(8) && w < Pow256(8)
    ensures Key(v) == Key(w) <==> v == w
  {
    BeInverse(v, 8);
    BeInverse(w, 8);
  }

  lemma {:induction false} DegreeIsCount(es: seq<Edge>, v: nat)
    requires InRange(es) && v < Pow256(8)
    ensures multiset(Endpoints(es))[Key(v)] == Degree(es, v)
  {
    if es != [] {
      var init, last := es[..|es| - 1], es[|es| - 1];
      DegreeIsCount(init, v);
      KeysDiffer(last.a, v);
      KeysDiffer(last.b, v);
      assert multiset(Endpoints(init) + [Key(last.a), Key(last.b)])
               == multiset(Endpoints(init)) + multiset{Key(last.a), Key(last.b)};
    }
  }

  function ConcatEdges(gs: seq<seq<Edge>>): seq<Edge> {
    if gs == [] then [] else ConcatEdges(gs[..|gs| - 1]) + gs[|gs| - 1]
  }

  /** The keys that each map task finds. */
  function KeyLists(gs: seq<seq<Edge>>): seq<seq<Bytes>> {
    if gs == [] then [] else KeyLists(gs[..|gs| - 1]) + [Endpoints(gs[|gs| - 1])]
  }

  lemma {:induction false} EndpointsAppend(a: seq<Edge>, b: seq<Edge>)
    ensures Endpoints(a + b) == Endpoints(a) + Endpoints(b)
  {
    if b == [] {
      assert a + b == a;
    } else {
      EndpointsAppend(a, b[..|b| - 1]);
      assert (a + b)[..|a + b| - 1] == a + b[..|b| - 1];
    }
  }

  lemma {:induction false} KeysOfEdges(gs: seq<seq<Edge>>)
    ensures ConcatKeys(KeyLists(gs)) == Endpoints(ConcatEdges(gs))
  {
    if gs != [] {
      var init, last := KeyLists(gs[..|gs| - 1]), gs[|gs| - 1];
      KeysOfEdges(gs[..|gs| - 1]);
      EndpointsAppend(ConcatEdges(gs[..|gs| - 1]), last);
      assert (init + [Endpoints(last)])[..|init|] == init;
    }
  }

  lemma {:induction false} EndpointsFit(es: seq<Edge>, k: Bytes)
    requires k in Endpoints(es)
    ensures |k| == 8
  {
    if k in Endpoints(es[..|es| - 1]) {
      EndpointsFit(es[..|es| - 1], k);
    }
  }

  lemma {:induction false} TwoEnds(es: seq<Edge>)
    ensures |Endpoints(es)| == 2 * |es|
  {
    if es != [] {
      TwoEnds(es[..|es| - 1]);
    }
  }

  lemma LexPreorder(s: Kvs)
    ensures Preorder(Lex, s) && Separates(Lex, s)
  {
    forall x, y, z | Compared(x, y, z) && x in s && y in s && z in s
      ensures (Lex(x.key, y.key) <= 0 && Lex(y.key, z.key) <= 0 ==> Lex(x.key, z.key) <= 0)
      ensures Lex(x.key, y.key) < 0 <==> 0 < Lex(y.key, x.key)
    {
      LexFlips(x.key, y.key);
      if Lex(x.key, y.key) <= 0 && Lex(y.key, z.key) <= 0 {
        LexTransitive(x.key, y.key, z.key);
      }
    }
    forall x, y | x in s && y in s && Lex(x.key, y.key) == 0 ensures x.key == y.key { LexSeparates(x.key, y.key); }
  }

  lemma OutputsFit(gs: seq<seq<Edge>>)
    ensures forall kv :: kv in Concat(MapOutputs(Network, KeyLists(gs))) ==>
              KvFits(Network, kv) && kv.value == Number(Network, 1)
    ensures |Concat(MapOutputs(Network, KeyLists(gs)))| == 2 * |ConcatEdges(gs)|
  {
    var keys := ConcatKeys(KeyLists(gs));
    ConcatOutputs(Network, KeyLists(gs));
    KeysOfEdges(gs);
    TwoEnds(ConcatEdges(gs));
    OnesWithKey(Number(Network, 1), keys, []);
    forall kv | kv in Ones(Number(Network, 1), keys) ensures KvFits(Network, kv) && kv.value == Number(Network, 1) {
      OnesIn(Number(Network, 1), keys, kv);
      EndpointsFit(ConcatEdges(gs), kv.key);
    }
  }

  /** The output of task `j` that sorted its pairs into `s`. */
  function Output(s: Kvs): Kvs { Reduced(Groups(s, Lex), SumReduce(Network)) }

  /** What sorting in task `j` may give. */
  ghost predicate SortedInput(gs: seq<seq<Edge>>, part: Bytes -> int, j: int, s: Kvs) {
    Sorted(s, Lex) && multiset(s)
      == multiset(LoadAll(Network, FilesFor(Network, MapOutputs(Network, KeyLists(gs)), part, j)))
  }

  /** Every vertex that has an edge is written once, by its own task, with its degree in the whole graph. */
  lemma DegreesAreTrue(gs: seq<seq<Edge>>, part: Bytes -> int, j: int, s: Kvs, v: nat)
    requires InRange(ConcatEdges(gs)) && v < Pow256(8) && SortedInput(gs, part, j, s)
    ensures var degree := Degree(ConcatEdges(gs), v);
            WithKey(Output(s), Key(v))
              == if part(Key(v)) == j && degree > 0 then [KeyValue(Key(v), Number(Network, degree))] else []
  {
    var all := Concat(MapOutputs(Network, KeyLists(gs)));
    OutputsFit(gs);
    LexPreorder(Part(all, part, j));
    CountsAreTrue(Network, KeyLists(gs), part, j, s, Lex, Key(v));
    KeysOfEdges(gs);
    DegreeIsCount(ConcatEdges(gs), v);
  }

  /* ---- The sum of all degrees ---- */

  lemma {:induction false} TotalAppend(f: Format, s: Kvs, kv: KeyValue)
    ensures Total(f, s + [kv]) == Total(f, s) + Length(f, kv.value)
  {
    assert (s + [kv])[..|s|] == s;
  }

  lemma {:induction false} SizeAppend(g: seq<Kvs>, x: Kvs)
    ensures Size(g + [x]) == Size(g) + |x|
  {
    if g != [] {
      SizeAppend(g[1..], x);
      assert (g + [x])[1..] == g[1..] + [x];
    }
  }

  /** Numbers below `limit` survive being written. */
  ghost predicate Exact(f: Format, limit: nat) {
    forall n: nat :: n < limit ==> Length(f, Number(f, n)) == n
  }

  lemma ReducedTotal(f: Format, init: seq<Kvs>, last: Kvs, limit: nat)
    requires (forall i :: 0 <= i < |init| ==> init[i] != []) && last != [] && Total(f, last) < limit && Exact(f, limit)
    ensures Total(f, Reduced(init + [last], SumReduce(f))) == Total(f, Reduced(init, SumReduce(f))) + Total(f, last)
  {
    ReducedLast(init, last, SumReduce(f));
    TotalAppend(f, Reduced(init, SumReduce(f)), SumReduce(f)(last[0].key, last));
  }

  /** A task's counts add up to the number of pairs it read. */
  lemma {:induction false} OutputTotal(f: Format, g: seq<Kvs>, limit: nat)
    requires forall i :: 0 <= i < |g| ==> g[i] != [] && Total(f, g[i]) == |g[i]|
    requires Size(g) < limit && Exact(f, limit)
    ensures Total(f, Reduced(g, SumReduce(f))) == Size(g)
  {
    if g != [] {
      var init, last := g[..|g| - 1], g[|g| - 1];
      assert g == init + [last];
      SizeAppend(init, last);
      OutputTotal(f, init, limit);
      ReducedTotal(f, init, last, limit);
    }
  }

  lemma {:induction false} GroupsIn(s: Kvs, cmp: Compare, i: nat, kv: KeyValue)
    requires i < |Groups(s, cmp)| && kv in Groups(s, cmp)[i]
    ensures kv in s
    decreases |s|
  {
    var n := 1 + RunLength(s[1..], s[0].key, cmp);
    if i == 0 {
      assert Groups(s, cmp)[0] == s[..n];
    } else {
      assert Groups(s, cmp)[i] == Groups(s[n..], cmp)[i - 1];
      GroupsIn(s[n..], cmp, i - 1, kv);
      assert kv in s[n..];
    }
  }

  /** The sum of all numbers in some outputs. */
  function Sum(outs: seq<Kvs>): nat {
    if outs == [] then 0 else Sum(outs[..|outs| - 1]) + Total(Network, outs[|outs| - 1])
  }

  function Outputs(inputs: seq<Kvs>): seq<Kvs> {
    if inputs == [] then [] else Outputs(inputs[..|inputs| - 1]) + [Output(inputs[|inputs| - 1])]
  }

  lemma TaskTotal(gs: seq<seq<Edge>>, part: Bytes -> int, j: int, s: Kvs)
    requires SortedInput(gs, part, j, s) && 2 * |ConcatEdges(gs)| < Pow256(8)
    ensures Total(Network, Output(s)) == |Part(Concat(MapOutputs(Network, KeyLists(gs))), part, j)|
  {
    var all := Concat(MapOutputs(Network, KeyLists(gs)));
    var mine := Part(all, part, j);
    OutputsFit(gs);
    LoadFiles(Network, MapOutputs(Network, KeyLists(gs)), part, j);
    assert |s| == |multiset(s)| == |multiset(mine)| == |mine|;
    forall kv | kv in s ensures kv.value == Number(Network, 1) {
      assert kv in multiset(s);
      PartIn(all, part, j, kv);
    }
    PartSmaller(all, part, j);
    GroupsConserve(s, Lex);
    var g := Groups(s, Lex);
    forall i | 0 <= i < |g| ensures Total(Network, g[i]) == |g[i]| {
      forall kv: KeyValue | kv in g[i] ensures kv.value == Number(Network, 1) { GroupsIn(s, Lex, i, kv); }
      TotalOfOnes(Network, g[i]);
    }
    forall n: nat | n < Pow256(8) ensures Length(Network, Number(Network, n)) == n { NumberInverse(Network, n); }
    OutputTotal(Network, g, Pow256(8));
  }

  lemma {:induction false} PartSmaller(s: Kvs, part: Bytes -> int, j: int)
    ensures |Part(s, part, j)| <= |s|
  {
    if s != [] {
      PartSmaller(s[..|s| - 1], part, j);
    }
  }

  lemma {:induction false} SumIsParts(gs: seq<seq<Edge>>, part: Bytes -> int, inputs: seq<Kvs>)
    requires 2 * |ConcatEdges(gs)| < Pow256(8)
    requires forall j :: 0 <= j < |inputs| ==> SortedInput(gs, part, j, inputs[j])
    ensures Sum(Outputs(inputs)) == PartsSize(Concat(MapOutputs(Network, KeyLists(gs))), part, |inputs|)
  {
    if inputs != [] {
      var n := |inputs| - 1;
      SumIsParts(gs, part, inputs[..n]);
      TaskTotal(gs, part, n, inputs[n]);
      SumLast(Outputs(inputs[..n]), Output(inputs[n]));
    }
  }

  lemma SumLast(outs: seq<Kvs>, last: Kvs)
    ensures Sum(outs + [last]) == Sum(outs) + Total(Network, last)
  {
    assert (outs + [last])[..|outs|] == outs;
  }

  /** The degrees that all tasks write add up to twice the number of edges. */
  lemma DegreesSum(gs: seq<seq<Edge>>, part: Bytes -> int, inputs: seq<Kvs>)
    requires 2 * |ConcatEdges(gs)| < Pow256(8)
    requires forall k :: 0 <= part(k) < |inputs|
    requires forall j :: 0 <= j < |inputs| ==> SortedInput(gs, part, j, inputs[j])
    ensures Sum(Outputs(inputs)) == 2 * |ConcatEdges(gs)|
  {
    SumIsParts(gs, part, inputs);
    PartsConserve(Concat(MapOutputs(Network, KeyLists(gs))), part, |inputs|);
    OutputsFit(gs);
  }
}
