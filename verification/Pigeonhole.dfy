/** Sequences of different numbers below a bound. */
module Pigeonhole {
  import opened Basics

  ghost predicate Below(s: seq<nat>, n: nat) {
    forall i :: 0 <= i < |s| ==> s[i] < n
  }

  lemma {:induction false} DistinctBound(s: seq<nat>, n: nat)
    requires Distinct(s) && Below(s, n)
    ensures |s| <= n
    decreases n
  {
    assert |s| > 0 ==> s[0] < n;
    if n > 0 && n - 1 in s {
      var i :| 0 <= i < |s| && s[i] == n - 1;
      var r := s[..i] + s[i + 1..];
      DistinctBound(r, n - 1);
    } else if n > 0 {
      DistinctBound(s, n - 1);
    }
  }

  /** When there are as many different numbers as there can be, all are there. */
  lemma AllBelow(s: seq<nat>, n: nat, t: nat)
    requires Distinct(s) && Below(s, n) && |s| == n && t < n
    ensures t in s
  {
    if t !in s {
      DistinctBound(s + [t], n);
    }
  }

  lemma DistinctPrefix(s: seq<nat>, t: nat)
    requires Distinct(s + [t])
    ensures Distinct(s) && t !in s
  {
    var r := s + [t];
    forall i | 0 <= i < |s| ensures s[i] != t { assert r[i] != r[|s|]; }
    forall i, k | 0 <= i < k < |s| ensures s[i] != s[k] { assert r[i] != r[k]; }
  }

  /** A sequence of fewer than `n` numbers misses one below `n`. */
  lemma {:induction false} Missing(s: seq<nat>, n: nat) returns (t: nat)
    requires |s| < n
    ensures t < n && t !in s
    decreases n
  {
    if n - 1 !in s {
      t := n - 1;
    } else {
      var i :| 0 <= i < |s| && s[i] == n - 1;
      t := Missing(s[..i] + s[i + 1..], n - 1);
      assert forall k :: 0 <= k < |s| && k != i ==> s[k] in s[..i] + s[i + 1..] by {
        forall k | 0 <= k < |s| && k != i ensures s[k] in s[..i] + s[i + 1..] {
          assert s[k] == (s[..i] + s[i + 1..])[if k < i then k else k - 1];
        }
      }
    }
  }

  /** A sequence that holds all numbers below `n` has at least `n` elements. */
  lemma {:induction false} Covers(s: seq<nat>, n: nat)
    requires forall t: nat :: t < n ==> t in s
    ensures |s| >= n
    decreases n
  {
    if n > 0 {
      var last: nat := n - 1;
      assert last in s;
      var i :| 0 <= i < |s| && s[i] == last;
      var r := s[..i] + s[i + 1..];
      forall t: nat | t < last ensures t in r {
        assert t in s;
        var k :| 0 <= k < |s| && s[k] == t;
        assert t == if k < i then r[k] else r[k - 1];
      }
      Covers(r, n - 1);
    }
  }

  /** A sequence of `n` numbers that holds all numbers below `n` holds each once. */
  lemma {:induction false} CoverIsDistinct(s: seq<nat>, n: nat)
    requires |s| == n && (forall t: nat :: t < n ==> t in s)
    ensures Distinct(s)
  {
    forall i, k | 0 <= i < k < |s| ensures s[i] != s[k] {
      if s[i] == s[k] {
        var r := s[..i] + s[i + 1..];
        forall t: nat | t < n ensures t in r {
          assert t in s;
          var j :| 0 <= j < |s| && s[j] == t;
          var j' := if j == i then k else j;
          assert s[j'] == t && r[if j' < i then j' else j' - 1] == t;
        }
        Covers(r, n);
      }
    }
  }

  function Elements(s: seq<nat>): set<nat> {
    if s == [] then {} else Elements(s[..|s| - 1]) + {s[|s| - 1]}
  }

  lemma {:induction false} ElementsIn(s: seq<nat>, t: nat)
    ensures t in Elements(s) <==> t in s
  {
    if s != [] {
      ElementsIn(s[..|s| - 1], t);
      assert s == s[..|s| - 1] + [s[|s| - 1]];
    }
  }

  /** A sequence has as many different elements as elements exactly if none occurs twice. */
  lemma {:induction false} ElementsCount(s: seq<nat>)
    ensures |Elements(s)| <= |s| && (|Elements(s)| == |s| <==> Distinct(s))
  {
    if s != [] {
      var init, t := s[..|s| - 1], s[|s| - 1];
      ElementsCount(init);
      ElementsIn(init, t);
      assert s == init + [t];
      if Distinct(s) {
        DistinctPrefix(init, t);
      } else if t !in init {
        forall i, k | 0 <= i < k < |s| && s[i] == s[k] ensures !Distinct(init) { assert init[i] == init[k]; }
      }
    }
  }
}
