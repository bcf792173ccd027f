/**
 * Counting the entries of a sequence of small keys: how often a key
 * occurs, how many entries lie below a key (the prefix sums of the
 * counts), and the rank of a position among the equal entries before it.
 * Both counting sorts use these: the bucket pass of `sortIt` in
 * compress.c over two-byte keys, and the counting pass of
 * `undoReversibleTransformation` in decompress.c over bytes.  A
 * counting sort places every position at a distinct slot; the pigeonhole
 * lemmas at the end turn that into a permutation.
 */
module Counting {
  import opened Common

  /** How often `c` occurs in `s`. */
  function Count(s: seq<nat>, c: nat): (n: nat)
    ensures n <= |s|
    decreases |s|
  {
    if |s| == 0 then 0 else Count(s[..|s| - 1], c) + (if s[|s| - 1] == c then 1 else 0)
  }

  /** The count is the multiplicity of `c` in the multiset of `s`. */
  lemma {:induction false} CountIsMultiplicity(s: seq<nat>, c: nat)
    ensures Count(s, c) == multiset(s)[c]
    decreases |s|
  {
    if |s| > 0 {
      var front := s[..|s| - 1];
      assert s == front + [s[|s| - 1]];
      CountIsMultiplicity(front, c);
    }
  }

  /** A prefix holds no more copies of `c` than the whole. */
  lemma {:induction false} CountPrefix(s: seq<nat>, k: nat, c: nat)
    requires k <= |s|
    ensures Count(s[..k], c) <= Count(s, c)
    decreases |s|
  {
    if k < |s| {
      var front := s[..|s| - 1];
      assert s[..k] == front[..k];
      CountPrefix(front, k, c);
    } else {
      assert s[..k] == s;
    }
  }

  /** One more byte adds one to its own count and nothing to the others. */
  lemma CountSnoc(s: seq<nat>, i: nat, c: nat)
    requires i < |s|
    ensures Count(s[..i + 1], c) == Count(s[..i], c) + (if s[i] == c then 1 else 0)
  {
    assert s[..i + 1][..i] == s[..i];
  }

  /** `cc[c]` after the prefix sums: the bytes of `s` below `c`, summed value by value. */
  function CountBelow(s: seq<nat>, c: nat): (n: nat)
  {
    if c == 0 then 0 else CountBelow(s, c - 1) + Count(s, c - 1)
  }

  /** The same number counted position by position: the entries of `s` strictly below `c`. */
  function Smaller(s: seq<nat>, c: nat): (n: nat)
    ensures n <= |s|
    decreases |s|
  {
    if |s| == 0 then 0 else Smaller(s[..|s| - 1], c) + (if s[|s| - 1] < c then 1 else 0)
  }

  lemma {:induction false} SmallerStep(s: seq<nat>, c: nat)
    ensures Smaller(s, c + 1) == Smaller(s, c) + Count(s, c)
    decreases |s|
  {
    if |s| > 0 {
      SmallerStep(s[..|s| - 1], c);
    }
  }

  lemma {:induction false} NoneSmaller(s: seq<nat>)
    ensures Smaller(s, 0) == 0
    decreases |s|
  {
    if |s| > 0 {
      NoneSmaller(s[..|s| - 1]);
    }
  }

  /** When every entry is below `c`, all of them are counted below `c`. */
  lemma {:induction false} SmallerAll(s: seq<nat>, c: nat)
    requires forall k :: 0 <= k < |s| ==> s[k] < c
    ensures Smaller(s, c) == |s|
    decreases |s|
  {
    if |s| > 0 {
      SmallerAll(s[..|s| - 1], c);
    }
  }

  /** The prefix sums count exactly the smaller bytes; in particular they never exceed the block. */
  lemma {:induction false} CountBelowIsSmaller(s: seq<nat>, c: nat)
    ensures CountBelow(s, c) == Smaller(s, c)
    decreases c
  {
    if c > 0 {
      CountBelowIsSmaller(s, c - 1);
      SmallerStep(s, c - 1);
    } else {
      NoneSmaller(s);
    }
  }

  lemma {:induction false} CountBelowMono(s: seq<nat>, c: nat, d: nat)
    requires c <= d
    ensures CountBelow(s, c) <= CountBelow(s, d)
    decreases d
  {
    if c < d {
      CountBelowMono(s, c, d - 1);
    }
  }

  /** `zptr[i]` after the counting pass: how many copies of `s[i]` come before position `i`. */
  function Occurrence(s: seq<nat>, i: nat): nat
    requires i < |s|
  {
    Count(s[..i], s[i])
  }

  /** Copies of a byte are ranked in order: a later position has seen more of them. */
  lemma OccurrenceOrder(s: seq<nat>, i: nat, j: nat)
    requires i < j < |s| && s[i] == s[j]
    ensures Occurrence(s, i) < Occurrence(s, j)
  {
    CountSnoc(s, i, s[i]);
    assert s[..i + 1] == s[..j][..i + 1];
    CountPrefix(s[..j], i + 1, s[i]);
  }

  // ---------------------------------------------------------------------
  // Pigeonhole

  /** No value occurs twice in `s`. */
  ghost predicate Distinct(s: seq<nat>)
  {
    forall j, k :: 0 <= j < k < |s| ==> s[j] != s[k]
  }

  /** Every entry of `s` is below `m`. */
  ghost predicate AllBelow(s: seq<nat>, m: nat)
  {
    forall k :: 0 <= k < |s| ==> s[k] < m
  }

  /** `s` with the values above `x` moved down by one: the gap at `x` closed. */
  function Squeeze(s: seq<nat>, x: nat): (r: seq<nat>)
    ensures |r| == |s|
    ensures forall k :: 0 <= k < |s| ==> r[k] == if s[k] > x then s[k] - 1 else s[k]
  {
    seq(|s|, k requires 0 <= k < |s| => if s[k] > x then s[k] - 1 else s[k])
  }

  /** Closing a gap that `s` does not use keeps its entries distinct and brings them below `m - 1`. */
  lemma SqueezeGap(s: seq<nat>, x: nat, m: nat)
    requires Distinct(s) && AllBelow(s, m) && x < m && x !in s
    ensures Distinct(Squeeze(s, x)) && AllBelow(Squeeze(s, x), m - 1)
  {
    var r := Squeeze(s, x);
    forall k | 0 <= k < |s|
      ensures r[k] < m - 1
    {
      assert s[k] != x;
    }
  }

  /** Distinct values below `m` are at most `m` many. */
  lemma {:induction false} NoRoom(s: seq<nat>, m: nat)
    requires Distinct(s) && AllBelow(s, m)
    ensures |s| <= m
    decreases |s|
  {
    if |s| > 0 {
      var x, t := s[|s| - 1], s[..|s| - 1];
      assert x !in t;
      SqueezeGap(t, x, m);
      NoRoom(Squeeze(t, x), m - 1);
    }
  }

  /** Of `n` distinct values below `n`, none is missing. */
  lemma Missing(s: seq<nat>, n: nat, v: nat)
    requires Distinct(s) && AllBelow(s, n) && v < n
    ensures v !in s ==> |s| < n
  {
    if v !in s {
      SqueezeGap(s, v, n);
      NoRoom(Squeeze(s, v), n - 1);
    }
  }

  /** A value occurs at most once in a sequence of distinct values. */
  lemma {:induction false} DistinctOnce(s: seq<nat>, v: nat)
    requires Distinct(s)
    ensures multiset(s)[v] <= 1
    decreases |s|
  {
    if |s| > 0 {
      var t := s[..|s| - 1];
      assert s == t + [s[|s| - 1]];
      DistinctOnce(t, v);
      if s[|s| - 1] == v {
        assert v !in t;
      }
    }
  }

  /** `0 .. n-1` holds each value below `n` once and nothing else. */
  lemma {:induction false} RangeOnce(n: nat, v: nat)
    ensures multiset(Range(n))[v] == if v < n then 1 else 0
    decreases n
  {
    if n > 0 {
      assert Range(n) == Range(n - 1) + [n - 1];
      RangeOnce(n - 1, v);
    }
  }

  /** `n` distinct values below `n` are `0 .. n-1` in some order. */
  lemma Pigeonhole(s: seq<nat>, n: nat)
    requires |s| == n && Distinct(s) && AllBelow(s, n)
    ensures multiset(s) == multiset(Range(n))
  {
    forall v: nat
      ensures multiset(s)[v] == multiset(Range(n))[v]
    {
      RangeOnce(n, v);
      DistinctOnce(s, v);
      if v < n {
        Missing(s, n, v);
      }
    }
  }
}
