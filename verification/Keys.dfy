/** Keys of the MapReduce workers: how they are compared (hw-map-reduce/lib/lib.c:26-39). */
module Keys {
  import opened Codec

  /** `strncmp` on two buffers of at least `n` bytes: stops at the first difference and after a common NUL. */
  function Strncmp(a: Bytes, b: Bytes, n: nat): int
    requires n <= |a| && n <= |b|
  {
    if n == 0 then 0
    else if a[0] != b[0] then a[0] - b[0]
    else if a[0] == 0 then 0
    else Strncmp(a[1..], b[1..], n - 1)
  }

  const INT: int := 0x1_0000_0000

  /** A number cut to a signed 32-bit `int`, as when `by_key` returns the difference of two lengths. */
  function Cut(x: int): int { if x % INT < INT / 2 then x % INT else x % INT - INT }

  /** `by_key`. */
  function ByKey(a: Bytes, b: Bytes): int {
    var ret := Strncmp(a, b, if |a| < |b| then |a| else |b|);
    if ret == 0 then Cut(|a| - |b|) else ret
  }

  /** The bytes before the first NUL. */
  function TillNul(a: Bytes): Bytes {
    if a == [] || a[0] == 0 then [] else [a[0]] + TillNul(a[1..])
  }

  predicate NulFree(a: Bytes) { 0 !in a }

  /** The length fits an `int`. */
  predicate Short(a: Bytes) { |a| < INT / 2 }

  /** Equal first bytes other than NUL do not matter. */
  lemma ByKeyTail(a: Bytes, b: Bytes)
    requires a != [] && b != [] && a[0] == b[0] != 0
    ensures ByKey(a, b) == ByKey(a[1..], b[1..])
  {
  }

  /** `strncmp` finds no difference: up to the end of the shorter key, the keys agree up to their first NUL. */
  predicate Agree(a: Bytes, b: Bytes) {
    var n := if |a| < |b| then |a| else |b|;
    TillNul(a[..n]) == TillNul(b[..n])
  }

  lemma TillNulTail(a: Bytes, n: nat)
    requires 0 < n <= |a| && a[0] != 0
    ensures TillNul(a[..n]) == [a[0]] + TillNul(a[1..][..n - 1])
  {
    assert a[..n][1..] == a[1..][..n - 1];
  }

  lemma {:induction false} StrncmpZero(a: Bytes, b: Bytes, n: nat)
    requires n <= |a| && n <= |b|
    ensures Strncmp(a, b, n) == 0 <==> TillNul(a[..n]) == TillNul(b[..n])
  {
    if n > 0 {
      if a[0] != 0 { TillNulTail(a, n); }
      if b[0] != 0 { TillNulTail(b, n); }
      if a[0] == b[0] != 0 {
        StrncmpZero(a[1..], b[1..], n - 1);
        assert TillNul(a[..n])[1..] == TillNul(a[1..][..n - 1]) && TillNul(b[..n])[1..] == TillNul(b[1..][..n - 1]);
      } else if a[0] != 0 && b[0] != 0 {
        assert TillNul(a[..n])[0] != TillNul(b[..n])[0];
      }
    }
  }

  lemma {:induction false} StrncmpFlips(a: Bytes, b: Bytes, n: nat)
    requires n <= |a| && n <= |b|
    ensures Strncmp(a, b, n) == -Strncmp(b, a, n)
  {
    if n > 0 && a[0] == b[0] != 0 {
      StrncmpFlips(a[1..], b[1..], n - 1);
    }
  }

  /** Two keys compare equal exactly when they agree as far as the shorter one goes, and their lengths are the same
      modulo 2^32. */
  lemma ByKeyZeroExact(a: Bytes, b: Bytes)
    ensures ByKey(a, b) == 0 <==> Agree(a, b) && (|a| - |b|) % INT == 0
  {
    StrncmpZero(a, b, if |a| < |b| then |a| else |b|);
  }

  /** Exchanging two keys flips the sign, unless they agree and their lengths are half of 2^32 apart. */
  lemma ByKeyFlips(a: Bytes, b: Bytes)
    ensures (ByKey(a, b) < 0 <==> 0 < ByKey(b, a)) <==> !(Agree(a, b) && (|a| - |b|) % INT == INT / 2)
  {
    var n := if |a| < |b| then |a| else |b|;
    StrncmpZero(a, b, n);
    StrncmpFlips(a, b, n);
    CutFlips(|a| - |b|);
  }

  lemma CutFlips(d: int)
    ensures (Cut(d) < 0 <==> 0 < Cut(-d)) <==> d % INT != INT / 2
  {
    NegatedMod(d);
  }

  lemma NegatedMod(d: int)
    ensures (-d) % INT == if d % INT == 0 then 0 else INT - d % INT
  {
    var q, r := d / INT, d % INT;
    assert d == q * INT + r;
    assert -d == (-q - 1) * INT + (INT - r);
  }

  /** Such keys are each below the other. */
  lemma HalfwayKeys(b: Bytes)
    requires |b| == 0x8000_0000
    ensures ByKey([], b) < 0 && ByKey(b, []) < 0
  {
  }

  /* ---- The order that is meant ---- */

  /** What `by_key` would return if its result were wide enough. */
  function Wide(a: Bytes, b: Bytes): int {
    var ret := Strncmp(a, b, if |a| < |b| then |a| else |b|);
    if ret == 0 then |a| - |b| else ret
  }

  function Sign(x: int): int { if x < 0 then -1 else if x == 0 then 0 else 1 }

  /** The cut difference of the lengths has the sign of the difference, if it matters. */
  predicate Comparable(a: Bytes, b: Bytes) { Agree(a, b) ==> Sign(Cut(|a| - |b|)) == Sign(|a| - |b|) }

  /** `by_key` orders two keys as it should exactly when they are comparable. */
  lemma ByKeyIsWideIff(a: Bytes, b: Bytes)
    ensures Sign(ByKey(a, b)) == Sign(Wide(a, b)) <==> Comparable(a, b)
  {
    StrncmpZero(a, b, if |a| < |b| then |a| else |b|);
  }

  /** Keys whose lengths fit an `int` are comparable. */
  lemma ShortComparable(a: Bytes, b: Bytes)
    requires Short(a) && Short(b)
    ensures Comparable(a, b)
  {
  }

  lemma WideTail(a: Bytes, b: Bytes)
    requires a != [] && b != [] && a[0] == b[0] != 0
    ensures Wide(a, b) == Wide(a[1..], b[1..])
  {
  }

  lemma WideFlips(a: Bytes, b: Bytes)
    ensures Wide(a, b) == -Wide(b, a)
  {
    StrncmpFlips(a, b, if |a| < |b| then |a| else |b|);
  }

  lemma {:induction false} WideTransitive(a: Bytes, b: Bytes, c: Bytes)
    requires Wide(a, b) <= 0 && Wide(b, c) <= 0
    ensures Wide(a, c) <= 0
  {
    if a != [] && b != [] && c != [] && a[0] == b[0] == c[0] != 0 {
      WideTail(a, b);
      WideTail(b, c);
      WideTail(a, c);
      WideTransitive(a[1..], b[1..], c[1..]);
    }
  }

  /** Comparable keys are ordered transitively. */
  lemma ByKeyTransitive(a: Bytes, b: Bytes, c: Bytes)
    requires Comparable(a, b) && Comparable(b, c) && Comparable(a, c) && ByKey(a, b) <= 0 && ByKey(b, c) <= 0
    ensures ByKey(a, c) <= 0
  {
    ByKeyIsWideIff(a, b);
    ByKeyIsWideIff(b, c);
    ByKeyIsWideIff(a, c);
    WideTransitive(a, b, c);
  }

  /** Other keys can go round in a circle. */
  lemma ByKeyCycle(b: Bytes, c: Bytes)
    requires b <= c && NulFree(c) && |b| == INT / 2 - 1 && |c| == INT - 2
    ensures ByKey([], b) < 0 && ByKey(b, c) < 0 && ByKey(c, []) < 0
  {
    PrefixAgrees(b, c);
    StrncmpZero(b, c, |b|);
  }

  lemma PrefixAgrees(a: Bytes, b: Bytes)
    requires a <= b
    ensures Agree(a, b) && Agree(b, a)
  {
    assert b[..|a|] == a[..|a|];
  }

  /** Comparable keys compare equal exactly when they have the same length and agree up to their first NUL. */
  lemma ByKeyZero(a: Bytes, b: Bytes)
    requires Comparable(a, b)
    ensures ByKey(a, b) == 0 <==> |a| == |b| && TillNul(a) == TillNul(b)
  {
    ByKeyZeroExact(a, b);
    if |a| == |b| {
      assert a[..|a|] == a && b[..|b|] == b;
    }
  }

  lemma {:induction false} TillNulWhole(a: Bytes)
    requires NulFree(a)
    ensures TillNul(a) == a
  {
    if a != [] {
      TillNulWhole(a[1..]);
    }
  }

  lemma NulFreeAgree(a: Bytes, b: Bytes)
    requires NulFree(a) && NulFree(b)
    ensures Agree(a, b) <==> a <= b || b <= a
  {
    var n := if |a| < |b| then |a| else |b|;
    assert forall x :: x in a[..n] ==> x in a;
    assert forall x :: x in b[..n] ==> x in b;
    TillNulWhole(a[..n]);
    TillNulWhole(b[..n]);
    assert a[..n] == b[..n] <==> a <= b || b <= a;
  }

  /** Keys without NUL compare equal exactly when one starts with the other and their lengths are the same modulo
      2^32; so they are told apart exactly if they are not a multiple of 2^32 bytes apart in this way. */
  lemma NulFreeSeparates(a: Bytes, b: Bytes)
    requires NulFree(a) && NulFree(b)
    ensures ByKey(a, b) == 0 <==> (a <= b || b <= a) && (|a| - |b|) % INT == 0
    ensures Comparable(a, b) ==> (ByKey(a, b) == 0 <==> a == b)
  {
    ByKeyZeroExact(a, b);
    NulFreeAgree(a, b);
    if Comparable(a, b) && ByKey(a, b) == 0 {
      assert |a| == |b|;
    }
  }

  /** Keys with NUL need not be. */
  lemma NulHidesTheRest()
    ensures [65, 0, 1] != [65, 0, 2] && ByKey([65, 0, 1], [65, 0, 2]) == 0
  {
    var a: Bytes, b: Bytes := [65, 0, 1], [65, 0, 2];
    assert a[0] == 65 && b[0] == 65 && a[2] != b[2];
    ByKeyTail(a, b);
    assert a[1..] == [0, 1] && b[1..] == [0, 2];
  }

  /** Nor are keys of which one is longer by 2^32 bytes. */
  lemma {:induction false} LongKeysCollide(a: Bytes, b: Bytes)
    requires a <= b && |b| == |a| + 0x1_0000_0000
    ensures a != b && ByKey(a, b) == 0
  {
    if a != [] && a[0] != 0 {
      ByKeyTail(a, b);
      LongKeysCollide(a[1..], b[1..]);
    }
  }

  /** The order of `Bytes` in Rust: lexicographic, and NUL is a byte like any other. */
  function Lex(a: Bytes, b: Bytes): int {
    if a == [] || b == [] then |a| - |b|
    else if a[0] != b[0] then a[0] - b[0]
    else Lex(a[1..], b[1..])
  }

  lemma {:induction false} LexSeparates(a: Bytes, b: Bytes)
    ensures Lex(a, b) == 0 <==> a == b
  {
    if a != [] && b != [] && a[0] == b[0] {
      LexSeparates(a[1..], b[1..]);
      assert a == [a[0]] + a[1..] && b == [b[0]] + b[1..];
    }
  }

  lemma {:induction false} LexFlips(a: Bytes, b: Bytes)
    ensures Lex(a, b) < 0 <==> 0 < Lex(b, a)
  {
    if a != [] && b != [] && a[0] == b[0] {
      LexFlips(a[1..], b[1..]);
    }
  }

  lemma {:induction false} LexTransitive(a: Bytes, b: Bytes, c: Bytes)
    requires Lex(a, b) <= 0 && Lex(b, c) <= 0
    ensures Lex(a, c) <= 0
  {
    if a != [] && b != [] && c != [] && a[0] == b[0] == c[0] {
      LexTransitive(a[1..], b[1..], c[1..]);
    }
  }

  lemma {:induction false} WideIsLex(a: Bytes, b: Bytes)
    requires NulFree(a) && NulFree(b)
    ensures Wide(a, b) == Lex(a, b)
  {
    if a != [] && b != [] && a[0] == b[0] {
      assert a[0] in a;
      WideTail(a, b);
      WideIsLex(a[1..], b[1..]);
    }
  }

  /** Keys without NUL bytes are ordered the same way by both, exactly if they are comparable. */
  lemma OrdersAgree(a: Bytes, b: Bytes)
    requires NulFree(a) && NulFree(b)
    ensures Sign(ByKey(a, b)) == Sign(Lex(a, b)) <==> Comparable(a, b)
  {
    WideIsLex(a, b);
    ByKeyIsWideIff(a, b);
  }
}
