/** Word count (hw-map-reduce/app/wc/wc.c). */
module WordCount {
  import opened Basics
  import opened Codec
  import opened Keys
  import opened MapReduce
  import opened GroupBy
  import opened Counting

  /** `isalpha` and `tolower` of the C locale. */
  predicate IsAlpha(b: Byte) { 65 <= b <= 90 || 97 <= b <= 122 }

  function ToLower(b: Byte): Byte { if 65 <= b <= 90 then b + 32 else b }

  function Lower(s: Bytes): (r: Bytes)
    ensures |r| == |s|
  {
    if s == [] then [] else Lower(s[..|s| - 1]) + [ToLower(s[|s| - 1])]
  }

  /** The number of letters from position `p` on. */
  function Letters(s: Bytes, p: nat): (n: nat)
    requires p <= |s|
    ensures p + n <= |s|
    decreases |s| - p
  {
    if p == |s| || !IsAlpha(s[p]) then 0 else 1 + Letters(s, p + 1)
  }

  /** The words of a text from position `p` on: its maximal runs of letters, without those of a single letter, in
      lower case. */
  function WordsFrom(s: Bytes, p: nat): seq<Bytes>
    decreases |s| - p
  {
    if p >= |s| then []
    else
      var n := Letters(s, p);
      if n <= 1 then WordsFrom(s, p + 1) else [Lower(s[p..p + n])] + WordsFrom(s, p + n)
  }

  function Words(s: Bytes): seq<Bytes> { WordsFrom(s, 0) }

  ghost predicate AllLetters(s: Bytes, p1: nat, p2: nat) {
    p1 <= p2 <= |s| && (forall i :: p1 <= i < p2 ==> IsAlpha(s[i]))
  }

  lemma {:induction false} LettersIs(s: Bytes, p1: nat, p2: nat)
    requires AllLetters(s, p1, p2) && (p2 == |s| || !IsAlpha(s[p2]))
    ensures Letters(s, p1) == p2 - p1
    decreases p2 - p1
  {
    if p1 < p2 {
      LettersIs(s, p1 + 1, p2);
    }
  }

  function WordIf(s: Bytes, p1: nat, p2: nat): seq<Bytes>
    requires p1 <= p2 <= |s|
  {
    if p2 - p1 > 1 then [Lower(s[p1..p2])] else []
  }

  /** A run of letters that ends at `p2` is the next word, if it is long enough; the scan goes on behind `p2`. */
  lemma WordEnds(s: Bytes, p1: nat, p2: nat)
    requires AllLetters(s, p1, p2) && (p2 == |s| || !IsAlpha(s[p2]))
    ensures WordsFrom(s, p1) == WordIf(s, p1, p2) + WordsFrom(s, p2 + 1)
  {
    LettersIs(s, p1, p2);
    GapSkipped(s, p2);
    if p1 < p2 {
      assert WordsFrom(s, p1) == WordIf(s, p1, p2) + WordsFrom(s, p2);
    }
  }

  lemma GapSkipped(s: Bytes, p: nat)
    requires p == |s| || (p < |s| && !IsAlpha(s[p]))
    ensures WordsFrom(s, p) == WordsFrom(s, p + 1)
  {
  }

  lemma WordEndsCount(s: Bytes, p1: nat, p2: nat)
    requires AllLetters(s, p1, p2) && (p2 == |s| || !IsAlpha(s[p2]))
    ensures |WordsFrom(s, p1)| == (if p2 - p1 > 1 then 1 else 0) + |WordsFrom(s, p2 + 1)|
  {
    WordEnds(s, p1, p2);
  }

  /** `num_words`: one pass with a counter. */
  method NumWords(s: Bytes) returns (n: nat)
    ensures n == |Words(s)|
  {
    n := 0;
    var counter := 0;
    ghost var p1, all := 0, |Words(s)|;
    for i := 0 to |s|
      invariant p1 == i - counter && 0 <= counter && AllLetters(s, p1, i)
      invariant n + |WordsFrom(s, p1)| == all
    {
      if IsAlpha(s[i]) {
        counter := counter + 1;
      } else {
        WordEndsCount(s, p1, i);
        if counter > 1 {
          n := n + 1;
        }
        counter := 0;
        p1 := i + 1;
      }
    }
    WordEndsCount(s, p1, |s|);
    if counter > 1 {
      n := n + 1;
    }
  }

  /** The inner loop of `wc_map`. */
  method LowerCase(s: Bytes) returns (word: Bytes)
    ensures word == Lower(s)
  {
    word := [];
    for i := 0 to |s|
      invariant word == Lower(s[..i])
    {
      assert s[..i + 1][..i] == s[..i];
      word := word + [ToLower(s[i])];
    }
    assert s[..|s|] == s;
  }

  /** The words before position `p` are `found`, and stand with the number one in `filled`. */
  ghost predicate Found(s: Bytes, p: nat, one: Bytes, found: seq<Bytes>, filled: Kvs) {
    && found + WordsFrom(s, p) == Words(s)
    && filled == Ones(one, found) && |filled| == |found| <= |Words(s)|
  }

  lemma FoundNext(s: Bytes, p1: nat, p2: nat, one: Bytes, found: seq<Bytes>, filled: Kvs)
    requires Found(s, p1, one, found, filled)
    requires p1 < |s| && AllLetters(s, p1, p2) && (p2 == |s| || !IsAlpha(s[p2]))
    ensures Found(s, p2 + 1, one, found + WordIf(s, p1, p2), filled + Ones(one, WordIf(s, p1, p2)))
    ensures |WordIf(s, p1, p2)| + |found| <= |Words(s)|
  {
    var word := WordIf(s, p1, p2);
    WordEnds(s, p1, p2);
    NextWord(found, word, WordsFrom(s, p2 + 1), Words(s));
    OnesAppend(one, found, word);
    OnesWithKey(one, word, []);
  }

  lemma NextWord(found: seq<Bytes>, word: seq<Bytes>, rest: seq<Bytes>, all: seq<Bytes>)
    requires found + (word + rest) == all
    ensures found + word + rest == all
  {
  }

  lemma FoundAll(s: Bytes, one: Bytes, found: seq<Bytes>, filled: Kvs)
    ensures Found(s, 0, one, [], [])
    ensures forall p :: |s| <= p && Found(s, p, one, found, filled) ==>
              filled == Ones(one, Words(s)) && |filled| == |Words(s)|
  {
    assert found + [] == found;
  }

  /** Lines 37-50 of wc.c: a run of letters has ended at `p2`. */
  method EndWord(s: Bytes, p1: nat, p2: nat, one: Bytes, kva: array<KeyValue>, counter: nat, ghost found: seq<Bytes>)
    returns (c: nat)
    requires kva.Length == |Words(s)| && counter <= kva.Length && Found(s, p1, one, found, kva[..counter])
    requires p1 < |s| && AllLetters(s, p1, p2) && (p2 == |s| || !IsAlpha(s[p2]))
    modifies kva
    ensures c <= kva.Length && Found(s, p2 + 1, one, found + WordIf(s, p1, p2), kva[..c])
  {
    FoundNext(s, p1, p2, one, found, kva[..counter]);
    c := counter;
    if p2 > p1 + 1 {
      var word := LowerCase(s[p1..p2]);
      kva[c] := KeyValue(word, one);
      c := c + 1;
      assert Ones(one, [word]) == [KeyValue(word, one)];
      assert kva[..c] == old(kva[..counter]) + [KeyValue(word, one)];
    } else {
      assert kva[..c] + [] == kva[..c];
    }
  }

  /** The scan of `wc_map`: two indices over the text. The array that `num_words` sized is filled exactly, and never
      overrun. */
  method ScanWords(s: Bytes, one: Bytes) returns (kvs: Kvs)
    ensures kvs == Ones(one, Words(s))
  {
    var n := NumWords(s);
    var kva := new KeyValue[n];
    var p1, p2, counter := 0, 0, 0;
    ghost var found: seq<Bytes> := [];
    FoundAll(s, one, [], []);
    while p1 < |s|
      invariant 0 <= p1 && (p1 < |s| ==> AllLetters(s, p1, p2))
      invariant 0 <= counter <= n && Found(s, p1, one, found, kva[..counter])
      decreases |s| - p1, |s| - p2
    {
      if p2 >= |s| || !IsAlpha(s[p2]) {
        counter := EndWord(s, p1, p2, one, kva, counter, found);
        found := found + WordIf(s, p1, p2);
        p1 := p2 + 1;
      }
      p2 := p2 + 1;
    }
    FoundAll(s, one, found, kva[..counter]);
    kvs := kva[..];
  }

  /** `wc_map`. */
  method WcMap(s: Bytes) returns (kvs: Kvs)
    ensures kvs == Ones(Number(Native, 1), Words(s))
  {
    kvs := ScanWords(s, Number(Native, 1));
  }

  /* ---- What a word is, byte by byte ---- */

  /** Not a letter: neither "A" to "Z" nor "a" to "z". */
  predicate Between(b: Byte) { b < 65 || 90 < b < 97 || 122 < b }

  /** Byte `b` of a text is a letter, and `w` is it in lower case. */
  predicate Folds(b: Byte, w: Byte) { 97 <= w <= 122 && (b == w || b + 32 == w) }

  /** At position `i`, and no longer on either side, the text has the letters of `w`, which are at least two. */
  ghost predicate WordAt(s: Bytes, i: nat, w: Bytes) {
    && 2 <= |w| && i + |w| <= |s|
    && (forall k :: 0 <= k < |w| ==> Folds(s[i + k], w[k]))
    && (i > 0 ==> Between(s[i - 1])) && (i + |w| < |s| ==> Between(s[i + |w|]))
  }

  /** The positions from `p` on where `w` stands. */
  ghost function Places(s: Bytes, p: nat, w: Bytes): set<nat> {
    set i: nat | p <= i < |s| && WordAt(s, i, w)
  }

  lemma AlphaIff(b: Byte)
    ensures IsAlpha(b) <==> !Between(b)
    ensures IsAlpha(b) ==> Folds(b, ToLower(b)) && (forall w: Byte :: Folds(b, w) ==> w == ToLower(b))
    ensures forall w: Byte :: Folds(b, w) ==> IsAlpha(b)
  {
  }

  lemma {:induction false} LowerAt(s: Bytes, k: nat)
    requires k < |s|
    ensures Lower(s)[k] == ToLower(s[k])
  {
    if k < |s| - 1 {
      LowerAt(s[..|s| - 1], k);
    }
  }

  /** Position `p` is the start of the text or comes behind something that is no letter. */
  ghost predicate Starts(s: Bytes, p: nat) { p == 0 || p > |s| || Between(s[p - 1]) }

  /** A run of letters that starts at `p` and ends at `p2` is exactly one word, its letters in lower case, if it has two
      letters or more. */
  lemma RunIsWord(s: Bytes, p: nat, p2: nat, w: Bytes)
    requires AllLetters(s, p, p2) && (p2 == |s| || !IsAlpha(s[p2])) && Starts(s, p)
    ensures WordAt(s, p, w) <==> p + 2 <= p2 && w == Lower(s[p..p2])
  {
    forall i | 0 <= i < |s| ensures IsAlpha(s[i]) <==> !Between(s[i]) { AlphaIff(s[i]); }
    var run := s[p..p2];
    forall k | 0 <= k < |run| ensures Folds(s[p + k], Lower(run)[k]) { LowerAt(run, k); AlphaIff(run[k]); }
    if WordAt(s, p, w) {
      WordEndsWithRun(s, p, p2, w);
      forall k | 0 <= k < |w| ensures w[k] == Lower(run)[k] { LowerAt(run, k); AlphaIff(run[k]); }
    }
  }

  lemma WordEndsWithRun(s: Bytes, p: nat, p2: nat, w: Bytes)
    requires AllLetters(s, p, p2) && (p2 == |s| || !IsAlpha(s[p2])) && WordAt(s, p, w)
    ensures p2 == p + |w|
  {
    if p + |w| < p2 {
      AlphaIff(s[p + |w|]);
    }
    if p2 < p + |w| {
      assert Folds(s[p + (p2 - p)], w[p2 - p]);
      AlphaIff(s[p2]);
    }
  }

  /** Within a run and at its end no word starts. */
  lemma NoWordInside(s: Bytes, p: nat, p2: nat, i: nat, w: Bytes)
    requires AllLetters(s, p, p2) && (p2 == |s| || !IsAlpha(s[p2])) && p < i <= p2
    ensures !WordAt(s, i, w)
  {
    AlphaIff(s[i - 1]);
  }

  lemma PlacesStep(s: Bytes, p: nat, p2: nat, w: Bytes)
    requires AllLetters(s, p, p2) && (p2 == |s| || !IsAlpha(s[p2])) && Starts(s, p)
    ensures Places(s, p, w) == (if p + 2 <= p2 && w == Lower(s[p..p2]) then {p} else {}) + Places(s, p2 + 1, w)
  {
    RunIsWord(s, p, p2, w);
    if p2 < |s| {
      AlphaIff(s[p2]);
    }
    forall i: nat | p < i <= p2 ensures !WordAt(s, i, w) { NoWordInside(s, p, p2, i, w); }
  }

  /** The run of letters at `p`, which may be empty, and what the scan makes of it. */
  lemma NextRun(s: Bytes, p: nat) returns (p2: nat)
    requires p <= |s|
    ensures AllLetters(s, p, p2) && (p2 == |s| || !IsAlpha(s[p2])) && Starts(s, p2 + 1)
    ensures WordsFrom(s, p) == WordIf(s, p, p2) + WordsFrom(s, p2 + 1)
  {
    p2 := p + Letters(s, p);
    RunAt(s, p);
    WordEnds(s, p, p2);
  }

  lemma Tally(words: seq<Bytes>, first: seq<Bytes>, rest: seq<Bytes>, all: set<nat>, p: nat, later: set<nat>, w: Bytes)
    requires words == first + rest && |first| <= 1 && all == (if first == [w] then {p} else {}) + later && p !in later
    ensures multiset(words)[w] - |all| == multiset(rest)[w] - |later|
  {
    CountFirst(first, rest, w);
  }

  lemma RunTally(s: Bytes, p: nat, p2: nat, rest: seq<Bytes>, w: Bytes)
    requires AllLetters(s, p, p2) && (p2 == |s| || !IsAlpha(s[p2])) && Starts(s, p)
    ensures multiset(WordIf(s, p, p2) + rest)[w] - |Places(s, p, w)| == multiset(rest)[w] - |Places(s, p2 + 1, w)|
  {
    PlacesStep(s, p, p2, w);
    var first := WordIf(s, p, p2);
    assert first == [w] <==> p + 2 <= p2 && w == Lower(s[p..p2]);
    Tally(first + rest, first, rest, Places(s, p, w), p, Places(s, p2 + 1, w), w);
  }

  lemma NoPlaces(s: Bytes, p: nat, w: Bytes)
    requires |s| <= p
    ensures multiset(WordsFrom(s, p))[w] == 0 && Places(s, p, w) == {}
  {
  }

  /** One run of letters: `p2` is where it ends. */
  lemma RunCounts(s: Bytes, p: nat, w: Bytes) returns (p2: nat)
    requires Starts(s, p) && p < |s|
    ensures p <= p2 <= |s| && Starts(s, p2 + 1)
    ensures multiset(WordsFrom(s, p))[w] - |Places(s, p, w)|
              == multiset(WordsFrom(s, p2 + 1))[w] - |Places(s, p2 + 1, w)|
  {
    p2 := NextRun(s, p);
    RunTally(s, p, p2, WordsFrom(s, p2 + 1), w);
  }

  /** A text has a word as often as there are places where it stands. */
  lemma {:induction false} WordsAreRuns(s: Bytes, p: nat, w: Bytes)
    requires Starts(s, p)
    ensures multiset(WordsFrom(s, p))[w] == |Places(s, p, w)|
    decreases |s| - p
  {
    if p < |s| {
      var p2 := RunCounts(s, p, w);
      WordsAreRuns(s, p2 + 1, w);
    } else {
      NoPlaces(s, p, w);
    }
  }

  lemma {:induction false} RunAt(s: Bytes, p: nat)
    requires p <= |s|
    ensures var p2 := p + Letters(s, p);
            AllLetters(s, p, p2) && (p2 == |s| || !IsAlpha(s[p2])) && Starts(s, p2 + 1)
    decreases |s| - p
  {
    if p < |s| && IsAlpha(s[p]) {
      RunAt(s, p + 1);
    } else if p < |s| {
      AlphaIff(s[p]);
    }
  }

  lemma CountFirst(a: seq<Bytes>, b: seq<Bytes>, w: Bytes)
    requires |a| <= 1
    ensures multiset(a + b)[w] == (if a == [w] then 1 else 0) + multiset(b)[w]
  {
    assert multiset(a + b) == multiset(a) + multiset(b);
    assert a == [] || a == [a[0]];
  }

  /** From `p` on, the words stand in the text at the positions `at`, in this order and without overlap. */
  ghost predicate InOrder(s: Bytes, p: nat, words: seq<Bytes>, at: seq<nat>) {
    && |at| == |words| && (forall k :: 0 <= k < |at| ==> p <= at[k] && WordAt(s, at[k], words[k]))
    && (forall k, m :: 0 <= k < m < |at| ==> at[k] + |words[k]| < at[m])
  }

  lemma OrderNext(s: Bytes, p: nat, p2: nat, w: Bytes, rest: seq<Bytes>, at: seq<nat>)
    requires InOrder(s, p2 + 1, rest, at) && p + |w| == p2 && WordAt(s, p, w)
    ensures InOrder(s, p, [w] + rest, [p] + at)
  {
  }

  lemma RunOrder(s: Bytes, p: nat, p2: nat, rest: seq<Bytes>, later: seq<nat>) returns (at: seq<nat>)
    requires AllLetters(s, p, p2) && (p2 == |s| || !IsAlpha(s[p2])) && Starts(s, p) && InOrder(s, p2 + 1, rest, later)
    ensures InOrder(s, p, WordIf(s, p, p2) + rest, at)
  {
    if p + 2 <= p2 {
      var w := Lower(s[p..p2]);
      RunIsWord(s, p, p2, w);
      OrderNext(s, p, p2, w, rest, later);
      at := [p] + later;
    } else {
      assert WordIf(s, p, p2) + rest == rest;
      at := later;
    }
  }

  /** The words are found in the order in which they stand in the text. */
  lemma {:induction false} WordsInOrder(s: Bytes, p: nat) returns (at: seq<nat>)
    requires Starts(s, p)
    ensures InOrder(s, p, WordsFrom(s, p), at)
    decreases |s| - p
  {
    at := [];
    if p < |s| {
      var p2 := NextRun(s, p);
      var later := WordsInOrder(s, p2 + 1);
      at := RunOrder(s, p, p2, WordsFrom(s, p2 + 1), later);
    }
  }

  /** How often `w` stands in the texts. */
  ghost function Occurrences(texts: seq<Bytes>, w: Bytes): nat {
    if texts == [] then 0 else Occurrences(texts[..|texts| - 1], w) + |Places(texts[|texts| - 1], 0, w)|
  }

  lemma {:induction false} CountIsOccurrences(texts: seq<Bytes>, w: Bytes)
    ensures multiset(ConcatKeys(WordLists(texts)))[w] == Occurrences(texts, w)
  {
    if texts != [] {
      var init, last := texts[..|texts| - 1], texts[|texts| - 1];
      CountIsOccurrences(init, w);
      WordsAreRuns(last, 0, w);
      assert WordLists(texts)[..|WordLists(texts)| - 1] == WordLists(init);
      assert multiset(ConcatKeys(WordLists(init)) + Words(last))
             == multiset(ConcatKeys(WordLists(init))) + multiset(Words(last));
    }
  }

  /* ---- The counts ---- */

  lemma {:induction false} LowerIsLetters(s: Bytes)
    requires AllLetters(s, 0, |s|)
    ensures NulFree(Lower(s))
  {
    if s != [] {
      LowerIsLetters(s[..|s| - 1]);
    }
  }

  lemma {:induction false} LettersAre(s: Bytes, p: nat)
    requires p <= |s|
    ensures AllLetters(s, p, p + Letters(s, p))
    decreases |s| - p
  {
    if p < |s| && IsAlpha(s[p]) {
      LettersAre(s, p + 1);
    }
  }

  /** Words have no NUL, and are no longer than the text. */
  lemma {:induction false} WordsAreClean(s: Bytes, p: nat, w: Bytes)
    requires w in WordsFrom(s, p)
    ensures NulFree(w) && |w| <= |s|
    decreases |s| - p
  {
    var n := Letters(s, p);
    if n <= 1 {
      WordsAreClean(s, p + 1, w);
    } else if w == Lower(s[p..p + n]) {
      LettersAre(s, p);
      LowerIsLetters(s[p..p + n]);
    } else {
      WordsAreClean(s, p + n, w);
    }
  }

  function WordLists(texts: seq<Bytes>): seq<seq<Bytes>> {
    if texts == [] then [] else WordLists(texts[..|texts| - 1]) + [Words(texts[|texts| - 1])]
  }

  lemma {:induction false} KeysAreWords(texts: seq<Bytes>, w: Bytes)
    requires w in ConcatKeys(WordLists(texts)) && (forall t :: t in texts ==> Short(t))
    ensures NulFree(w) && Short(w)
  {
    var init, last := texts[..|texts| - 1], texts[|texts| - 1];
    assert (WordLists(init) + [Words(last)])[..|WordLists(init)|] == WordLists(init);
    if w in Words(last) {
      WordsAreClean(last, 0, w);
      assert last in texts;
    } else {
      KeysAreWords(init, w);
    }
  }

  /** The pairs that the map side of word count makes: short keys without NUL. */
  lemma WordPairs(texts: seq<Bytes>)
    requires forall t :: t in texts ==> Short(t)
    ensures var all := Concat(MapOutputs(Native, WordLists(texts)));
            && (forall kv :: kv in all ==> NulFree(kv.key) && Short(kv.key) && KvFits(Native, kv))
            && Preorder(ByKey, all) && Separates(ByKey, all)
  {
    var ks := WordLists(texts);
    var all := Concat(MapOutputs(Native, ks));
    ConcatOutputs(Native, ks);
    forall kv | kv in all ensures NulFree(kv.key) && Short(kv.key) && KvFits(Native, kv) {
      OnesIn(Number(Native, 1), ConcatKeys(ks), kv);
      KeysAreWords(texts, kv.key);
    }
    forall x, y | x in all && y in all
      ensures Comparable(x.key, y.key) && (ByKey(x.key, y.key) == 0 ==> x.key == y.key) {
      ShortComparable(x.key, y.key);
      NulFreeSeparates(x.key, y.key);
    }
    ByKeyPreorder(all);
  }

  /** Word count over any texts that the `int` counters can scan, with any number of reduce tasks: task `j` writes a
      word exactly when the word occurs and belongs there, once, with the number of places where it stands in the texts,
      in whatever case. The `int` that is written is that number exactly if the number is below 2^31. */
  lemma WordCountIsTrue(texts: seq<Bytes>, part: Bytes -> int, j: int, s: Kvs, w: Bytes)
    requires forall t :: t in texts ==> Short(t)
    requires Sorted(s, ByKey)
    requires multiset(s) == multiset(LoadAll(Native, FilesFor(Native, MapOutputs(Native, WordLists(texts)), part, j)))
    ensures var count := Occurrences(texts, w);
            && WithKey(Reduced(Groups(s, ByKey), SumReduce(Native)), w)
               == (if part(w) == j && count > 0 then [KeyValue(w, Number(Native, count))] else [])
            && (Cut(Length(Native, Number(Native, count))) == count <==> count < 0x8000_0000)
  {
    var all := Concat(MapOutputs(Native, WordLists(texts)));
    WordPairs(texts);
    var mine := Part(all, part, j);
    forall x | x in mine ensures x in all { PartIn(all, part, j, x); }
    PreorderPart(ByKey, all, mine);
    CountsAreTrue(Native, WordLists(texts), part, j, s, ByKey, w);
    CountIsOccurrences(texts, w);
    CountFits(Occurrences(texts, w));
  }

  /** A count as an `int`: four bytes, read back with a sign. */
  lemma CountFits(count: nat)
    ensures Cut(Length(Native, Number(Native, count))) == count <==> count < 0x8000_0000
  {
    LowBytes(count);
  }

  lemma LowBytes(n: nat)
    ensures UnLe(Le(n, 4)) == n % 0x1_0000_0000
  {
    LeStep(n, 4);
    LeStep(n / 256, 3);
    LeStep(n / 256 / 256, 2);
    LeStep(n / 256 / 256 / 256, 1);
    assert UnLe(Le(n / 256 / 256 / 256, 1)) == n / 256 / 256 / 256 % 256;
    TwoLow(n / 256 / 256);
    ThreeLow(n / 256);
    FourLow(n);
  }

  lemma LeStep(n: nat, k: nat)
    requires k > 0
    ensures UnLe(Le(n, k)) == n % 256 + 256 * UnLe(Le(n / 256, k - 1))
  {
    assert Le(n, k)[1..] == Le(n / 256, k - 1);
  }

  lemma TwoLow(n: nat)
    ensures n % 256 + 256 * (n / 256 % 256) == n % 65536
  {
    var b, m, q := n % 256, n / 256 % 256, n / 256 / 256;
    assert n == q * 65536 + (256 * m + b);
    Remainder2(n, q, 256 * m + b);
  }

  lemma Remainder2(n: nat, q: nat, r: nat)
    requires n == q * 65536 + r && r < 65536
    ensures n % 65536 == r
  {
  }

  lemma ThreeLow(n: nat)
    ensures n % 256 + 256 * (n / 256 % 65536) == n % 0x100_0000
  {
    var b, m, q := n % 256, n / 256 % 65536, n / 256 / 65536;
    assert n == q * 0x100_0000 + (256 * m + b);
    Remainder3(n, q, 256 * m + b);
  }

  lemma Remainder3(n: nat, q: nat, r: nat)
    requires n == q * 0x100_0000 + r && r < 0x100_0000
    ensures n % 0x100_0000 == r
  {
  }

  lemma FourLow(n: nat)
    ensures n % 256 + 256 * (n / 256 % 0x100_0000) == n % 0x1_0000_0000
  {
    var b, m, q := n % 256, n / 256 % 0x100_0000, n / 256 / 0x100_0000;
    assert n == q * 0x1_0000_0000 + (256 * m + b);
    Remainder4(n, q, 256 * m + b);
  }

  lemma Remainder4(n: nat, q: nat, r: nat)
    requires n == q * 0x1_0000_0000 + r && r < 0x1_0000_0000
    ensures n % 0x1_0000_0000 == r
  {
  }
}
