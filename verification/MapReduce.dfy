/** The data path of a MapReduce job: partition, intermediate files, sort and group
    (hw-map-reduce/worker/task_handler.c, hw-map-reduce-rs/src/worker/mod.rs:71-196). */
module MapReduce {
  import opened Basics
  import opened Codec

  datatype KeyValue = KeyValue(key: Bytes, value: Bytes)

  type Kvs = seq<KeyValue>

  predicate KvFits(f: Format, kv: KeyValue) { Fits(f, kv.key) && Fits(f, kv.value) }

  /* ---- Pairs in a stream of packets ---- */

  /** Each pair as two packets, in order. */
  function Flat(kvs: Kvs): seq<Bytes> {
    if kvs == [] then [] else [kvs[0].key, kvs[0].value] + Flat(kvs[1..])
  }

  /** Packets taken two by two; a last one without partner is dropped. */
  function Pairs(ps: seq<Bytes>): Kvs {
    if |ps| < 2 then [] else [KeyValue(ps[0], ps[1])] + Pairs(ps[2..])
  }

  lemma {:induction false} PairsFlat(kvs: Kvs)
    ensures Pairs(Flat(kvs)) == kvs && |Flat(kvs)| == 2 * |kvs|
  {
    if kvs != [] {
      PairsFlat(kvs[1..]);
      assert Flat(kvs)[2..] == Flat(kvs[1..]);
    }
  }

  lemma {:induction false} PairsCount(ps: seq<Bytes>)
    ensures |Pairs(ps)| == |ps| / 2
  {
    if |ps| >= 2 {
      PairsCount(ps[2..]);
    }
  }

  lemma {:induction false} FlatAppend(a: Kvs, b: Kvs)
    ensures Flat(a + b) == Flat(a) + Flat(b)
  {
    if a == [] {
      assert a + b == b;
    } else {
      FlatAppend(a[1..], b);
      assert (a + b)[1..] == a[1..] + b;
    }
  }

  lemma {:induction false} FlatFits(f: Format, kvs: Kvs)
    requires forall kv :: kv in kvs ==> KvFits(f, kv)
    ensures forall p :: p in Flat(kvs) ==> Fits(f, p)
  {
    if kvs != [] {
      FlatFits(f, kvs[1..]);
      assert KvFits(f, kvs[0]);
    }
  }

  /** A file of pairs. */
  function FileOf(f: Format, kvs: Kvs): Bytes { Encode(f, Flat(kvs)) }

  function Load(f: Format, file: Bytes): Kvs { Pairs(Decode(f, file)) }

  /** A file of pairs is read back as it was written, and has an even number of packets. */
  lemma LoadFile(f: Format, kvs: Kvs)
    requires forall kv :: kv in kvs ==> KvFits(f, kv)
    ensures Load(f, FileOf(f, kvs)) == kvs && |Decode(f, FileOf(f, kvs))| == 2 * |kvs|
  {
    FlatFits(f, kvs);
    RoundTrip(f, Flat(kvs));
    PairsFlat(kvs);
  }

  lemma FileAppend(f: Format, a: Kvs, b: Kvs)
    ensures FileOf(f, a + b) == FileOf(f, a) + FileOf(f, b)
  {
    FlatAppend(a, b);
    EncodeAppend(f, Flat(a), Flat(b));
  }

  /* ---- Map: partition by key ---- */

  /** The pairs that go to reduce task `j`, in order. `part` is the hash modulo the number of tasks. */
  function Part(kvs: Kvs, part: Bytes -> int, j: int): Kvs {
    if kvs == [] then []
    else Part(kvs[..|kvs| - 1], part, j) + (if part(kvs[|kvs| - 1].key) == j then [kvs[|kvs| - 1]] else [])
  }

  /** Lines 172-175 of task_handler.c: one pair goes to the file of its task. */
  method WritePair(w: Writer, kv: KeyValue)
    modifies w
    ensures w.out == old(w.out) + FileOf(w.format, [kv])
  {
    w.Write(kv.key);
    w.Write(kv.value);
    EncodeAppend(w.format, [kv.key], [kv.value]);
    assert Flat([kv]) == [kv.key] + [kv.value];
  }

  /** A file with the pairs of task `k` appended. */
  function Filled(f: Format, file: Bytes, kvs: Kvs, part: Bytes -> int, k: int): Bytes {
    file + FileOf(f, Part(kvs, part, k))
  }

  lemma FilledStep(f: Format, file: Bytes, kvs: Kvs, part: Bytes -> int, i: nat, k: int)
    requires i < |kvs|
    ensures Filled(f, file, kvs[..i + 1], part, k)
            == if part(kvs[i].key) == k then Filled(f, file, kvs[..i], part, k) + FileOf(f, [kvs[i]])
               else Filled(f, file, kvs[..i], part, k)
  {
    var a := Part(kvs[..i], part, k);
    assert kvs[..i + 1][..i] == kvs[..i];
    if part(kvs[i].key) == k {
      FileAppend(f, a, [kvs[i]]);
      Regroup(file, FileOf(f, a), FileOf(f, [kvs[i]]));
    } else {
      assert a + [] == a;
    }
  }

  /** `write_map_kvs` and the loop of `Worker::map`: file `j` gets exactly the pairs of task `j`. */
  method WriteMapKvs(f: Format, writers: seq<Writer>, kvs: Kvs, part: Bytes -> int)
    requires forall k :: 0 <= k < |writers| ==> writers[k].format == f
    requires forall i, k :: 0 <= i < k < |writers| ==> writers[i] != writers[k]
    requires forall i :: 0 <= i < |kvs| ==> 0 <= part(kvs[i].key) < |writers|
    modifies writers
    ensures forall k :: 0 <= k < |writers| ==> writers[k].out == Filled(f, old(writers[k].out), kvs, part, k)
  {
    Filled0(f, part);
    for i := 0 to |kvs|
      invariant forall k :: 0 <= k < |writers| ==> writers[k].out == Filled(f, old(writers[k].out), kvs[..i], part, k)
    {
      var reduceTask := part(kvs[i].key);
      forall k | 0 <= k < |writers| ensures Filled(f, old(writers[k].out), kvs[..i + 1], part, k)
        == if part(kvs[i].key) == k then Filled(f, old(writers[k].out), kvs[..i], part, k) + FileOf(f, [kvs[i]])
           else Filled(f, old(writers[k].out), kvs[..i], part, k)
      {
        FilledStep(f, old(writers[k].out), kvs, part, i, k);
      }
      WritePair(writers[reduceTask], kvs[i]);
    }
    assert kvs[..|kvs|] == kvs;
  }

  lemma Filled0(f: Format, part: Bytes -> int)
    ensures forall file, k :: Filled(f, file, [], part, k) == file
  {
    forall file, k ensures Filled(f, file, [], part, k) == file { assert file + [] == file; }
  }

  /* ---- Reduce: read the files of all map tasks ---- */

  function Concat(ms: seq<Kvs>): Kvs {
    if ms == [] then [] else Concat(ms[..|ms| - 1]) + ms[|ms| - 1]
  }

  /** All pairs in some files, file after file. */
  function LoadAll(f: Format, files: seq<Bytes>): Kvs {
    if files == [] then [] else LoadAll(f, files[..|files| - 1]) + Load(f, files[|files| - 1])
  }

  function Entries(f: Format, files: seq<Bytes>): nat {
    if files == [] then 0 else Entries(f, files[..|files| - 1]) + |Decode(f, files[|files| - 1])|
  }

  /** The array for the pairs is always big enough, even when files have packets without a partner. */
  lemma {:induction false} EntriesSuffice(f: Format, files: seq<Bytes>)
    ensures |LoadAll(f, files)| <= Entries(f, files) / 2
  {
    if files != [] {
      EntriesSuffice(f, files[..|files| - 1]);
      PairsCount(Decode(f, files[|files| - 1]));
    }
  }

  /** `open_reduce_readers`: counts the packets of all files. */
  method CountEntries(f: Format, files: seq<Bytes>) returns (entries: nat)
    ensures entries == Entries(f, files)
  {
    entries := 0;
    for i := 0 to |files|
      invariant entries == Entries(f, files[..i])
    {
      var reader := new Reader(f, files[i]);
      var count := reader.Count();
      entries := entries + count;
      assert files[..i + 1][..i] == files[..i];
    }
    assert files[..|files|] == files;
  }

  /** Lines 77-84: the pairs of one file are appended, as long as there is room. */
  method ReadFile(f: Format, file: Bytes, kvs: Kvs, length: nat) returns (r: Kvs)
    requires |kvs| + |Load(f, file)| <= length
    ensures r == kvs + Load(f, file)
  {
    r := kvs;
    ghost var all := Load(f, file);
    var reader := new Reader(f, file);
    var next := NextPair(reader);
    while |r| < length && next.Some?
      invariant reader.Valid() && fresh(reader) && reader.format == f
      invariant Upcoming(r, next, Load(f, reader.Rest())) == kvs + all
      decreases next.Some?, |reader.Rest()|
    {
      ghost var rest := Load(f, reader.Rest());
      UpcomingNext(r, next.value, rest);
      r := r + [next.value];
      next := NextPair(reader);
      assert rest == if next.Some? then [next.value] + Load(f, reader.Rest()) else [];
      assert next.None? ==> r + rest == r;
    }
    assert next.Some? ==> |r| < |kvs + all|;
  }

  /** The pairs read so far, the one read ahead, and those still in the file. */
  ghost function Upcoming(r: Kvs, next: Option<KeyValue>, rest: Kvs): Kvs {
    match next
    case None => r
    case Some(kv) => r + ([kv] + rest)
  }

  lemma UpcomingNext(r: Kvs, kv: KeyValue, rest: Kvs)
    ensures Upcoming(r, Some(kv), rest) == (r + [kv]) + rest
  {
  }

  /** Two packets, or nothing when the file ends before that. */
  method NextPair(reader: Reader) returns (r: Option<KeyValue>)
    requires reader.Valid()
    modifies reader
    ensures reader.Valid()
    ensures r.None? ==> Load(reader.format, old(reader.Rest())) == []
    ensures r.Some? ==> Load(reader.format, old(reader.Rest())) == [r.value] + Load(reader.format, reader.Rest())
                        && |reader.Rest()| < old(|reader.Rest()|)
  {
    ghost var all := Decode(reader.format, reader.Rest());
    var key := reader.Next();
    ghost var mid := Decode(reader.format, reader.Rest());
    var value := reader.Next();
    if key.Some? && value.Some? {
      assert all[2..] == Decode(reader.format, reader.Rest());
      r := Some(KeyValue(key.value, value.value));
    } else {
      r := None;
    }
  }

  /** `read_map_kvs`. */
  method ReadMapKvs(f: Format, files: seq<Bytes>, length: nat) returns (kvs: Kvs)
    requires |LoadAll(f, files)| <= length
    ensures kvs == LoadAll(f, files)
  {
    kvs := [];
    for i := 0 to |files|
      invariant kvs == LoadAll(f, files[..i])
    {
      LoadPrefix(f, files, i);
      assert files[..i + 1][..i] == files[..i];
      kvs := ReadFile(f, files[i], kvs, length);
    }
    assert files[..|files|] == files;
  }

  lemma {:induction false} LoadPrefix(f: Format, files: seq<Bytes>, i: nat)
    requires i < |files|
    ensures |LoadAll(f, files[..i])| + |Load(f, files[i])| <= |LoadAll(f, files)|
    decreases |files|
  {
    if i == |files| - 1 {
    } else {
      LoadPrefix(f, files[..|files| - 1], i);
      assert files[..|files| - 1][..i] == files[..i];
    }
  }

  /** The first steps of `handle_reduce_task`: files with an odd number of packets in all are refused. */
  method CollectPairs(f: Format, files: seq<Bytes>) returns (r: Option<Kvs>)
    ensures r == if Entries(f, files) % 2 == 1 then None else Some(LoadAll(f, files))
  {
    var entries := CountEntries(f, files);
    if entries % 2 == 1 {
      return None;
    }
    EntriesSuffice(f, files);
    var kvs := ReadMapKvs(f, files, entries / 2);
    r := Some(kvs);
  }

  /* ---- Reduce: group ---- */

  type Compare = (Bytes, Bytes) -> int

  /** The number of pairs at the front whose keys compare equal to `k`. */
  function RunLength(s: Kvs, k: Bytes, cmp: Compare): (n: nat)
    ensures n <= |s|
  {
    if s == [] || cmp(k, s[0].key) != 0 then 0 else 1 + RunLength(s[1..], k, cmp)
  }

  /** Runs of pairs that compare equal to the first of the run. */
  function Groups(s: Kvs, cmp: Compare): (g: seq<Kvs>)
    ensures forall i :: 0 <= i < |g| ==> g[i] != []
    decreases |s|
  {
    if s == [] then []
    else
      var n := 1 + RunLength(s[1..], s[0].key, cmp);
      [s[..n]] + Groups(s[n..], cmp)
  }

  /** What reducing all groups writes. */
  function Reduced(g: seq<Kvs>, reduce: (Bytes, Kvs) -> KeyValue): (r: Kvs)
    requires forall i :: 0 <= i < |g| ==> g[i] != []
    ensures |r| == |g|
  {
    if g == [] then [] else Reduced(g[..|g| - 1], reduce) + [reduce(g[|g| - 1][0].key, g[|g| - 1])]
  }

  /** The pairs from `p1` up to `p2` belong to one group. */
  ghost predicate InGroup(s: Kvs, p1: nat, p2: nat, cmp: Compare) {
    p1 < p2 <= |s| && (forall i :: p1 < i < p2 ==> cmp(s[p1].key, s[i].key) == 0)
  }

  lemma {:induction false} RunLengthIs(s: Kvs, k: Bytes, cmp: Compare, n: nat)
    requires n <= |s| && (forall i :: 0 <= i < n ==> cmp(k, s[i].key) == 0) && (n == |s| || cmp(k, s[n].key) != 0)
    ensures RunLength(s, k, cmp) == n
  {
    if n > 0 {
      RunLengthIs(s[1..], k, cmp, n - 1);
    }
  }

  lemma GroupEnds(s: Kvs, p1: nat, p2: nat, cmp: Compare)
    requires InGroup(s, p1, p2, cmp) && (p2 == |s| || cmp(s[p1].key, s[p2].key) != 0)
    ensures Groups(s[p1..], cmp) == [s[p1..p2]] + Groups(s[p2..], cmp)
  {
    RunLengthIs(s[p1 + 1..], s[p1].key, cmp, p2 - p1 - 1);
    SlicesOfSlice(s, p1, p2);
  }

  lemma SlicesOfSlice(s: Kvs, p1: nat, p2: nat)
    requires p1 < p2 <= |s|
    ensures s[p1..][1..] == s[p1 + 1..] && s[p1..][..p2 - p1] == s[p1..p2] && s[p1..][p2 - p1..] == s[p2..]
  {
  }

  /** The groups before `p1` are `done`, and their results have been appended to the file `start`. */
  ghost predicate Progress(f: Format, out: Bytes, start: Bytes, s: Kvs, p1: nat, done: seq<Kvs>, cmp: Compare,
                           reduce: (Bytes, Kvs) -> KeyValue) {
    && p1 <= |s| && (forall i :: 0 <= i < |done| ==> done[i] != [])
    && Groups(s, cmp) == done + Groups(s[p1..], cmp)
    && out == start + FileOf(f, Reduced(done, reduce))
  }

  lemma ProgressStart(f: Format, out: Bytes, s: Kvs, cmp: Compare, reduce: (Bytes, Kvs) -> KeyValue)
    ensures Progress(f, out, out, s, 0, [], cmp, reduce)
    ensures s != [] ==> InGroup(s, 0, 1, cmp)
  {
    assert s[0..] == s && out + [] == out;
  }

  lemma ProgressEnd(f: Format, out: Bytes, start: Bytes, s: Kvs, done: seq<Kvs>, cmp: Compare,
                    reduce: (Bytes, Kvs) -> KeyValue)
    requires Progress(f, out, start, s, |s|, done, cmp, reduce)
    ensures out == start + FileOf(f, Reduced(Groups(s, cmp), reduce))
  {
    assert s[|s|..] == [] && done + [] == done;
  }

  lemma ProgressStep(f: Format, out: Bytes, start: Bytes, s: Kvs, p1: nat, p2: nat, done: seq<Kvs>, cmp: Compare,
                     reduce: (Bytes, Kvs) -> KeyValue)
    requires Progress(f, out, start, s, p1, done, cmp, reduce)
    requires InGroup(s, p1, p2, cmp) && (p2 == |s| || cmp(s[p1].key, s[p2].key) != 0)
    ensures Progress(f, out + FileOf(f, [reduce(s[p1].key, s[p1..p2])]), start, s, p2, done + [s[p1..p2]], cmp, reduce)
    ensures p2 < |s| ==> InGroup(s, p2, p2 + 1, cmp)
  {
    var g := s[p1..p2];
    GroupEnds(s, p1, p2, cmp);
    NextGroup(Groups(s, cmp), done, g, Groups(s[p2..], cmp));
    ReducedNext(f, done, g, reduce);
    Regroup(start, FileOf(f, Reduced(done, reduce)), FileOf(f, [reduce(g[0].key, g)]));
  }

  lemma NextGroup(all: seq<Kvs>, done: seq<Kvs>, g: Kvs, rest: seq<Kvs>)
    requires all == done + ([g] + rest)
    ensures all == (done + [g]) + rest
  {
  }

  lemma GroupGrows(s: Kvs, p1: nat, p2: nat, cmp: Compare)
    requires InGroup(s, p1, p2, cmp) && p2 < |s| && cmp(s[p1].key, s[p2].key) == 0
    ensures InGroup(s, p1, p2 + 1, cmp)
  {
  }

  /** Lines 103-106: one group is reduced and its pair is written. */
  method EndGroup(w: Writer, s: Kvs, p1: nat, p2: nat, ghost done: seq<Kvs>, ghost start: Bytes, cmp: Compare,
                  reduce: (Bytes, Kvs) -> KeyValue)
    requires Progress(w.format, w.out, start, s, p1, done, cmp, reduce)
    requires InGroup(s, p1, p2, cmp) && (p2 == |s| || cmp(s[p1].key, s[p2].key) != 0)
    modifies w
    ensures Progress(w.format, w.out, start, s, p2, done + [s[p1..p2]], cmp, reduce)
    ensures p2 < |s| ==> InGroup(s, p2, p2 + 1, cmp)
  {
    ProgressStep(w.format, w.out, start, s, p1, p2, done, cmp, reduce);
    var kv := reduce(s[p1].key, s[p1..p2]);
    WritePair(w, kv);
  }

  /** Lines 101-112: one round of the loop. */
  method ReduceRound(w: Writer, s: Kvs, p1: nat, p2: nat, ghost done: seq<Kvs>, ghost start: Bytes, cmp: Compare,
                     reduce: (Bytes, Kvs) -> KeyValue)
    returns (q1: nat, q2: nat, ghost more: seq<Kvs>)
    requires p1 < |s| && InGroup(s, p1, p2, cmp) && Progress(w.format, w.out, start, s, p1, done, cmp, reduce)
    modifies w
    ensures q1 <= |s| && (q1 < |s| ==> InGroup(s, q1, q2, cmp))
            && Progress(w.format, w.out, start, s, q1, more, cmp, reduce)
    ensures p1 < q1 || (p1 == q1 && p2 < q2)
  {
    q1, more := p1, done;
    if p2 >= |s| || cmp(s[p1].key, s[p2].key) != 0 {
      if p2 > p1 {
        EndGroup(w, s, p1, p2, done, start, cmp, reduce);
        more := done + [s[p1..p2]];
      }
      q1 := p2;
    } else {
      GroupGrows(s, p1, p2, cmp);
    }
    q2 := p2 + 1;
  }

  /** The loop of `reduce_kvs` with its two indices, on pairs that are already sorted. The output file gets one pair
      for each group, in order. */
  method ReduceKvs(w: Writer, s: Kvs, cmp: Compare, reduce: (Bytes, Kvs) -> KeyValue)
    modifies w
    ensures w.out == old(w.out) + FileOf(w.format, Reduced(Groups(s, cmp), reduce))
  {
    ghost var done: seq<Kvs>, start := [], w.out;
    var p1: nat, p2: nat := 0, 1;
    ProgressStart(w.format, w.out, s, cmp, reduce);
    while p1 < |s|
      invariant p1 <= |s| && (p1 < |s| ==> InGroup(s, p1, p2, cmp))
      invariant Progress(w.format, w.out, start, s, p1, done, cmp, reduce)
      decreases |s| - p1, |s| - p2
    {
      p1, p2, done := ReduceRound(w, s, p1, p2, done, start, cmp, reduce);
    }
    ProgressEnd(w.format, w.out, start, s, done, cmp, reduce);
  }

  lemma ReducedNext(f: Format, done: seq<Kvs>, g: Kvs, reduce: (Bytes, Kvs) -> KeyValue)
    requires (forall i :: 0 <= i < |done| ==> done[i] != []) && g != []
    ensures FileOf(f, Reduced(done + [g], reduce))
              == FileOf(f, Reduced(done, reduce)) + FileOf(f, [reduce(g[0].key, g)])
  {
    assert (done + [g])[..|done|] == done;
    FileAppend(f, Reduced(done, reduce), [reduce(g[0].key, g)]);
  }
}
