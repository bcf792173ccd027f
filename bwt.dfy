/**
 * The inverse law of the block sort: the decompressor's walk over the
 * last-to-first map of the last column that compress.c sends, started at
 * `origPtr`, rebuilds the block.  The sort may leave equal rotations (a
 * periodic block has them) in either order; the walk then still lands on
 * rows whose rotation is the one it needs, and the bytes it writes depend
 * on nothing else.
 *
 * The proof counts.  For a row `i` whose last byte is `c`, the row the
 * walk steps to, `j = #{bytes below c} + #{earlier rows ending in c}`,
 * lies at or above the number of rotations smaller than the rotation
 * `S` that starts one byte before row `i`'s, and below the number of
 * rotations not greater than `S`.  In a sorted order that places row `j`
 * among the copies of `S`.
 */
module Bwt {
  import opened Common
  import opened Counting
  import opened Words
  import opened Sort
  import opened Unbwt
  import Mtf

  // ---------------------------------------------------------------------
  // Counting the entries that satisfy a predicate

  /** How many entries of `s` satisfy `P`. */
  ghost function CountIf<T>(s: seq<T>, P: T -> bool): (n: nat)
    ensures n <= |s|
    decreases |s|
  {
    if |s| == 0 then 0 else CountIf(s[..|s| - 1], P) + (if P(s[|s| - 1]) then 1 else 0)
  }

  lemma {:induction false} CountIfAppend<T>(a: seq<T>, c: seq<T>, P: T -> bool)
    ensures CountIf(a + c, P) == CountIf(a, P) + CountIf(c, P)
    decreases |c|
  {
    if |c| == 0 {
      assert a + c == a;
    } else {
      assert (a + c)[..|a + c| - 1] == a + c[..|c| - 1];
      CountIfAppend(a, c[..|c| - 1], P);
    }
  }

  lemma CountIfSplit<T>(s: seq<T>, m: nat, P: T -> bool)
    requires m <= |s|
    ensures CountIf(s, P) == CountIf(s[..m], P) + CountIf(s[m..], P)
  {
    assert s == s[..m] + s[m..];
    CountIfAppend(s[..m], s[m..], P);
  }

  /** `s` with entry `k` taken out. */
  function Without<T>(s: seq<T>, k: nat): (r: seq<T>)
    requires k < |s|
    ensures |r| == |s| - 1 && multiset(r) == multiset(s) - multiset{s[k]}
  {
    assert s == s[..k] + [s[k]] + s[k + 1..];
    s[..k] + s[k + 1..]
  }

  /** A sequence is its part before `k`, entry `k`, and its part after. */
  lemma SplitAt<T>(t: seq<T>, k: nat)
    requires k < |t|
    ensures t == (t[..k] + [t[k]]) + t[k + 1..]
  {
  }

  /** One more entry at the end adds its share. */
  lemma CountIfSnoc<T>(a: seq<T>, x: T, P: T -> bool)
    ensures CountIf(a + [x], P) == CountIf(a, P) + (if P(x) then 1 else 0)
  {
    assert (a + [x])[..|a|] == a;
  }

  /** Taking entry `k` out takes its share out of the count. */
  lemma CountIfOut<T>(t: seq<T>, k: nat, P: T -> bool)
    requires k < |t|
    ensures CountIf(t, P) == CountIf(t[..k] + t[k + 1..], P) + (if P(t[k]) then 1 else 0)
  {
    var front, x, back := t[..k], t[k], t[k + 1..];
    SplitAt(t, k);
    CountIfAppend(front + [x], back, P);
    CountIfSnoc(front, x, P);
    CountIfAppend(front, back, P);
  }

  /** The count depends only on the multiset of the entries. */
  lemma {:induction false} CountIfPerm<T>(s: seq<T>, t: seq<T>, P: T -> bool)
    requires multiset(s) == multiset(t)
    ensures CountIf(s, P) == CountIf(t, P)
    decreases |s|
  {
    if |s| == 0 {
      assert |t| == |multiset(t)| == 0;
    } else {
      var x, s' := s[|s| - 1], s[..|s| - 1];
      assert s == s' + [x];
      assert multiset(s) == multiset(s') + multiset{x};
      assert x in t by {
        assert x in multiset(t);
      }
      var k :| 0 <= k < |t| && t[k] == x;
      var t' := Without(t, k);
      assert multiset(t') == multiset(s');
      CountIfPerm(s', t', P);
      CountIfOut(t, k, P);
    }
  }

  lemma {:induction false} CountIfMono<T>(s: seq<T>, P: T -> bool, Q: T -> bool)
    requires forall k :: 0 <= k < |s| ==> P(s[k]) ==> Q(s[k])
    ensures CountIf(s, P) <= CountIf(s, Q)
    decreases |s|
  {
    if |s| > 0 {
      CountIfMono(s[..|s| - 1], P, Q);
    }
  }

  lemma {:induction false} CountIfNone<T>(s: seq<T>, P: T -> bool)
    requires forall k :: 0 <= k < |s| ==> !P(s[k])
    ensures CountIf(s, P) == 0
    decreases |s|
  {
    if |s| > 0 {
      CountIfNone(s[..|s| - 1], P);
    }
  }

  lemma {:induction false} CountIfAll<T>(s: seq<T>, P: T -> bool)
    requires forall k :: 0 <= k < |s| ==> P(s[k])
    ensures CountIf(s, P) == |s|
    decreases |s|
  {
    if |s| > 0 {
      CountIfAll(s[..|s| - 1], P);
    }
  }

  /** An entry that satisfies `P` satisfies `P1` or `P2`: `P` counts at most both. */
  lemma {:induction false} CountIfUnder<T>(s: seq<T>, P: T -> bool, P1: T -> bool, P2: T -> bool)
    requires forall k :: 0 <= k < |s| ==> P(s[k]) ==> P1(s[k]) || P2(s[k])
    ensures CountIf(s, P) <= CountIf(s, P1) + CountIf(s, P2)
    decreases |s|
  {
    if |s| > 0 {
      CountIfUnder(s[..|s| - 1], P, P1, P2);
    }
  }

  /** `P1` and `P2` exclude each other and each implies `P`: `P` counts at least both. */
  lemma {:induction false} CountIfOver<T>(s: seq<T>, P: T -> bool, P1: T -> bool, P2: T -> bool)
    requires forall k :: 0 <= k < |s| ==> (P1(s[k]) ==> P(s[k])) && (P2(s[k]) ==> P(s[k]))
    requires forall k :: 0 <= k < |s| ==> !(P1(s[k]) && P2(s[k]))
    ensures CountIf(s, P1) + CountIf(s, P2) <= CountIf(s, P)
    decreases |s|
  {
    if |s| > 0 {
      CountIfOver(s[..|s| - 1], P, P1, P2);
    }
  }

  /** Counting entries by a byte read beside them: those beside `c`. */
  lemma {:induction false} CountIfEqual<T>(s: seq<T>, col: seq<nat>, c: nat, P: T -> bool)
    requires |s| == |col|
    requires forall r :: 0 <= r < |s| ==> (P(s[r]) <==> col[r] == c)
    ensures CountIf(s, P) == Count(col, c)
    decreases |s|
  {
    if |s| > 0 {
      CountIfEqual(s[..|s| - 1], col[..|col| - 1], c, P);
    }
  }

  /** ... and those beside a byte below `c`. */
  lemma {:induction false} CountIfBelow<T>(s: seq<T>, col: seq<nat>, c: nat, P: T -> bool)
    requires |s| == |col|
    requires forall r :: 0 <= r < |s| ==> (P(s[r]) <==> col[r] < c)
    ensures CountIf(s, P) == Smaller(col, c)
    decreases |s|
  {
    if |s| > 0 {
      CountIfBelow(s[..|s| - 1], col[..|col| - 1], c, P);
    }
  }

  /** The image of `s` under `f`. */
  ghost function Map<T>(s: seq<nat>, f: nat -> T): (r: seq<T>)
    ensures |r| == |s| && forall k :: 0 <= k < |s| ==> r[k] == f(s[k])
  {
    seq(|s|, k requires 0 <= k < |s| => f(s[k]))
  }

  /** Taking entry `k` out takes its image out of the images. */
  lemma MapOut<T>(t: seq<nat>, k: nat, f: nat -> T)
    requires k < |t|
    ensures multiset(Map(t, f)) == multiset(Map(Without(t, k), f)) + multiset{f(t[k])}
  {
    var m := Map(t, f);
    assert m == m[..k] + [f(t[k])] + m[k + 1..];
    assert Map(Without(t, k), f) == m[..k] + m[k + 1..];
  }

  /** Images of rearranged entries are rearranged images. */
  lemma {:induction false} MapPerm<T>(s: seq<nat>, t: seq<nat>, f: nat -> T)
    requires multiset(s) == multiset(t)
    ensures multiset(Map(s, f)) == multiset(Map(t, f))
    decreases |s|
  {
    if |s| == 0 {
      assert |t| == |multiset(t)| == 0;
    } else {
      var x, s' := s[|s| - 1], s[..|s| - 1];
      assert s == s' + [x];
      assert multiset(s) == multiset(s') + multiset{x};
      assert x in t by {
        assert x in multiset(t);
      }
      var k :| 0 <= k < |t| && t[k] == x;
      assert multiset(Without(t, k)) == multiset(s');
      MapPerm(s', Without(t, k), f);
      assert Map(s, f) == Map(s', f) + [f(x)];
      MapOut(t, k, f);
    }
  }

  // ---------------------------------------------------------------------
  // Permutations

  /** Two positions holding the same value make it occur twice. */
  lemma TwiceCounted(z: seq<nat>, j: nat, k: nat)
    requires j < k < |z|
    ensures z[j] == z[k] ==> multiset(z)[z[j]] >= 2
  {
    assert z == z[..j] + [z[j]] + z[j + 1..k] + [z[k]] + z[k + 1..];
  }

  /** A permutation of `0 .. n-1` has `n` distinct entries below `n`. */
  lemma PermFacts(z: seq<nat>, n: nat)
    requires IsPermutation(z, n)
    ensures |z| == n && AllBelow(z, n) && Distinct(z)
  {
    assert |z| == |multiset(z)| == |multiset(Range(n))| == n;
    forall k | 0 <= k < |z|
      ensures z[k] < n
    {
      assert z[k] in multiset(Range(n));
      assert z[k] in Range(n);
    }
    forall j, k | 0 <= j < k < |z|
      ensures z[j] != z[k]
    {
      TwiceCounted(z, j, k);
      RangeOnce(n, z[j]);
    }
  }

  // ---------------------------------------------------------------------
  // The cyclic predecessor and the last column

  /** The position one before `q` in a circular block of `n` bytes. */
  function Pred(q: nat, n: nat): (p: nat)
    requires q < n
    ensures p < n && (p + 1 == q || (q == 0 && p + 1 == n))
  {
    if q == 0 then n - 1 else q - 1
  }

  /** The rotation one byte earlier is the last byte of the rotation, then the rest of it. */
  lemma RotPred(b: seq<Byte>, p: nat)
    requires p < |b|
    ensures Rot(b, Pred(p, |b|)) == [Rot(b, p)[|b| - 1]] + Rot(b, p)[..|b| - 1]
    ensures Rot(b, p)[|b| - 1] == b[Pred(p, |b|)]
  {
    var n := |b|;
    if p == 0 {
      assert Rot(b, 0) == b;
      assert Rot(b, n - 1) == [b[n - 1]] + b[..n - 1];
    } else {
      assert Rot(b, p - 1) == [b[p - 1]] + (b[p..] + b[..p - 1]);
      assert Rot(b, p)[..n - 1] == b[p..] + b[..p - 1];
    }
  }

  /**
   * The last column of the sorted rotations `z`: row `r` holds the byte
   * cyclically before the start of rotation `z[r]`.
   */
  function Column(b: seq<Byte>, z: seq<nat>): (col: seq<Byte>)
    requires |b| > 0 && Bounded(z, |b|)
    ensures |col| == |z|
    ensures forall r :: 0 <= r < |z| ==> col[r] == b[Pred(z[r], |b|)]
  {
    seq(|z|, r requires 0 <= r < |z| => b[Pred(z[r], |b|)])
  }

  /** Row `r` of the column is the last byte of the rotation in row `r`. */
  lemma ColumnIsLast(b: seq<Byte>, z: seq<nat>, r: nat)
    requires |b| > 0 && Bounded(z, |b|) && r < |z|
    ensures Column(b, z)[r] == Rot(b, z[r])[|b| - 1]
  {
    RotPred(b, z[r]);
  }

  /** The column compress.c sends, read from the `GETFIRST` bytes, is the last column. */
  lemma LastColumnIsColumn(words: seq<Word>, b: seq<Byte>, z: seq<nat>)
    requires 0 < |b| <= |words| && |z| == |b| && Bounded(z, |b|)
    requires forall k :: 0 <= k < |b| ==> words[k].first == b[k]
    ensures Mtf.LastColumn(words, z, |b|) == Column(b, z)
  {
    var n := |b|;
    forall r | 0 <= r < n
      ensures Mtf.LastColumn(words, z, n)[r] == Column(b, z)[r]
    {
      assert NormalizeLo(z[r] as int - 1, n) == Pred(z[r], n);
    }
  }

  // ---------------------------------------------------------------------
  // Lexicographic facts

  /** Smaller on a prefix is smaller on the whole. */
  lemma {:induction false} LexPrefix(x: seq<Byte>, y: seq<Byte>, m: nat)
    requires |x| == |y| && m <= |x| && LexLess(x[..m], y[..m])
    ensures LexLess(x, y)
    decreases m
  {
    if x[0] == y[0] {
      assert x[..m][1..] == x[1..][..m - 1] && y[..m][1..] == y[1..][..m - 1];
      LexPrefix(x[1..], y[1..], m - 1);
    }
  }

  /** Nothing is smaller than itself. */
  lemma LexIrreflexive(x: seq<Byte>)
    ensures !LexLess(x, x)
  {
    LexAsym(x, x);
  }

  // ---------------------------------------------------------------------
  // Locating a key in a sorted sequence of keys

  /** Keys of length `n` in non-decreasing order. */
  ghost predicate SortedKeys(K: seq<seq<Byte>>, n: nat)
  {
    (forall r :: 0 <= r < |K| ==> |K[r]| == n) &&
    (forall r, s :: 0 <= r < s < |K| ==> !LexLess(K[s], K[r]))
  }

  /** A row holding a key below `S` has every row up to it below `S`. */
  lemma BelowUpTo(K: seq<seq<Byte>>, j: nat, S: seq<Byte>, Lt: seq<Byte> -> bool)
    requires SortedKeys(K, |S|) && j < |K| && LexLess(K[j], S)
    requires forall r :: 0 <= r < |K| ==> (Lt(K[r]) <==> LexLess(K[r], S))
    ensures j < CountIf(K, Lt)
  {
    var front := K[..j + 1];
    forall r | 0 <= r < |front|
      ensures Lt(front[r])
    {
      if K[r] != K[j] {
        LexTotal(K[r], K[j]);
        LexTrans(K[r], K[j], S);
      }
    }
    CountIfAll(front, Lt);
    CountIfSplit(K, j + 1, Lt);
  }

  /** A row holding a key above `S` has no row from it on at or below `S`. */
  lemma AboveFrom(K: seq<seq<Byte>>, j: nat, S: seq<Byte>, Le: seq<Byte> -> bool)
    requires SortedKeys(K, |S|) && j < |K| && LexLess(S, K[j])
    requires forall r :: 0 <= r < |K| ==> (Le(K[r]) <==> !LexLess(S, K[r]))
    ensures CountIf(K, Le) <= j
  {
    var back := K[j..];
    forall r | 0 <= r < |back|
      ensures !Le(back[r])
    {
      if K[j + r] != K[j] {
        LexTotal(K[j + r], K[j]);
        LexTrans(S, K[j], K[j + r]);
      }
    }
    CountIfNone(back, Le);
    CountIfSplit(K, j, Le);
  }

  /**
   * In sorted keys, a row at or above the number of keys below `S` and
   * below the number of keys not above `S` holds `S`.
   */
  lemma SortedLocate(K: seq<seq<Byte>>, j: nat, S: seq<Byte>, Lt: seq<Byte> -> bool, Le: seq<Byte> -> bool)
    requires SortedKeys(K, |S|) && j < |K|
    requires forall r :: 0 <= r < |K| ==> (Lt(K[r]) <==> LexLess(K[r], S))
    requires forall r :: 0 <= r < |K| ==> (Le(K[r]) <==> !LexLess(S, K[r]))
    requires CountIf(K, Lt) <= j < CountIf(K, Le)
    ensures K[j] == S
  {
    if LexLess(K[j], S) {
      BelowUpTo(K, j, S, Lt);
      assert false;
    } else if LexLess(S, K[j]) {
      AboveFrom(K, j, S, Le);
      assert false;
    } else if K[j] != S {
      LexTotal(K[j], S);
      assert false;
    }
  }

  // ---------------------------------------------------------------------
  // One step of the walk, over keys

  /**
   * The setting of one step: sorted keys `K`; keys `PK` that rearrange
   * them, each the byte `col[r]` followed by all but the last byte of `K[r]`.
   */
  ghost predicate Shifted(K: seq<seq<Byte>>, PK: seq<seq<Byte>>, col: seq<Byte>, n: nat)
  {
    n > 0 && |K| == |PK| == |col| && SortedKeys(K, n) && multiset(PK) == multiset(K) &&
    forall r :: 0 <= r < |K| ==> |PK[r]| == n && PK[r][0] == col[r] && PK[r][1..] == K[r][..n - 1]
  }

  /** Rows from `i` on have prefixes not below row `i`'s. */
  lemma LaterNotBelow(K: seq<seq<Byte>>, n: nat, i: nat, r: nat)
    requires n > 0 && SortedKeys(K, n) && i <= r < |K|
    ensures !LexLess(K[r][..n - 1], K[i][..n - 1])
  {
    if LexLess(K[r][..n - 1], K[i][..n - 1]) {
      LexPrefix(K[r], K[i], n - 1);
      if r == i {
        LexIrreflexive(K[i]);
      }
      assert false;
    }
  }

  /** Rows up to `i` have prefixes not above row `i`'s. */
  lemma EarlierNotAbove(K: seq<seq<Byte>>, n: nat, i: nat, r: nat)
    requires n > 0 && SortedKeys(K, n) && r <= i < |K|
    ensures !LexLess(K[i][..n - 1], K[r][..n - 1])
  {
    if LexLess(K[i][..n - 1], K[r][..n - 1]) {
      LexPrefix(K[i], K[r], n - 1);
      if r == i {
        LexIrreflexive(K[i]);
      }
      assert false;
    }
  }

  /**
   * The lower tally: if every entry satisfying `Lt` sits beside a smaller
   * byte than `col[i]` or satisfies `Tail`, and `Tail` holds only before
   * row `i` and beside `col[i]`, then `Lt` counts at most the map's target.
   */
  lemma LowerTally<T>(PK: seq<T>, col: seq<Byte>, i: nat, Lt: T -> bool, Small: T -> bool, Same: T -> bool, Tail: T -> bool)
    requires |PK| == |col| && i < |col|
    requires forall r :: 0 <= r < |PK| ==> (Small(PK[r]) <==> col[r] < col[i]) && (Same(PK[r]) <==> col[r] == col[i])
    requires forall r :: 0 <= r < |PK| ==> (Lt(PK[r]) ==> Small(PK[r]) || Tail(PK[r]))
    requires forall r :: 0 <= r < |PK| ==> (Tail(PK[r]) ==> Same(PK[r]) && r < i)
    ensures CountIf(PK, Lt) <= LastToFirst(col, i)
  {
    var c := col[i];
    CountIfUnder(PK, Lt, Small, Tail);
    CountIfBelow(PK, col, c, Small);
    CountIfSplit(PK, i, Tail);
    CountIfNone(PK[i..], Tail);
    CountIfMono(PK[..i], Tail, Same);
    CountIfEqual(PK[..i], col[..i], c, Same);
    CountBelowIsSmaller(col, c);
  }

  /**
   * The upper tally: if entries beside a smaller byte and entries
   * satisfying `Tail` both satisfy `Le`, never together, and every row up
   * to `i` beside `col[i]` satisfies `Tail`, then `Le` counts more than
   * the map's target.
   */
  lemma UpperTally<T>(PK: seq<T>, col: seq<Byte>, i: nat, Le: T -> bool, Small: T -> bool, Same: T -> bool, Tail: T -> bool)
    requires |PK| == |col| && i < |col|
    requires forall r :: 0 <= r < |PK| ==> (Small(PK[r]) <==> col[r] < col[i]) && (Same(PK[r]) <==> col[r] == col[i])
    requires forall r :: 0 <= r < |PK| ==> (Small(PK[r]) ==> Le(PK[r])) && (Tail(PK[r]) ==> Le(PK[r]))
    requires forall r :: 0 <= r < |PK| ==> !(Small(PK[r]) && Tail(PK[r]))
    requires forall r :: 0 <= r <= i ==> (Same(PK[r]) ==> Tail(PK[r]))
    ensures LastToFirst(col, i) < CountIf(PK, Le)
  {
    var c := col[i];
    CountIfOver(PK, Le, Small, Tail);
    CountIfBelow(PK, col, c, Small);
    CountIfSplit(PK, i + 1, Tail);
    CountIfMono(PK[..i + 1], Same, Tail);
    CountIfEqual(PK[..i + 1], col[..i + 1], c, Same);
    CountSnoc(col, i, c);
    CountBelowIsSmaller(col, c);
  }

  /** The keys below `PK[i]` are at most as many as the step's target row. */
  lemma LowerCount(K: seq<seq<Byte>>, PK: seq<seq<Byte>>, col: seq<Byte>, n: nat, i: nat, Lt: seq<Byte> -> bool)
    requires Shifted(K, PK, col, n) && i < |K|
    requires forall r :: 0 <= r < |K| ==> (Lt(PK[r]) <==> LexLess(PK[r], PK[i]))
    ensures CountIf(K, Lt) <= LastToFirst(col, i)
  {
    var S, c := PK[i], col[i];
    var Small := (x: seq<Byte>) => |x| > 0 && x[0] < c;
    var Same := (x: seq<Byte>) => |x| > 0 && x[0] == c;
    var Tail := (x: seq<Byte>) => |x| == n && x[0] == c && LexLess(x[1..], S[1..]);
    forall r | 0 <= r < |K| && r >= i
      ensures !LexLess(PK[r][1..], S[1..])
    {
      LaterNotBelow(K, n, i, r);
    }
    LowerTally(PK, col, i, Lt, Small, Same, Tail);
    CountIfPerm(K, PK, Lt);
  }

  /** The keys not above `PK[i]` are more than the step's target row. */
  lemma UpperCount(K: seq<seq<Byte>>, PK: seq<seq<Byte>>, col: seq<Byte>, n: nat, i: nat, Le: seq<Byte> -> bool)
    requires Shifted(K, PK, col, n) && i < |K|
    requires forall r :: 0 <= r < |K| ==> (Le(PK[r]) <==> !LexLess(PK[i], PK[r]))
    ensures LastToFirst(col, i) < CountIf(K, Le)
  {
    var S, c := PK[i], col[i];
    var Small := (x: seq<Byte>) => |x| > 0 && x[0] < c;
    var Same := (x: seq<Byte>) => |x| > 0 && x[0] == c;
    var Tail := (x: seq<Byte>) => |x| == n && x[0] == c && !LexLess(S[1..], x[1..]);
    forall r | 0 <= r <= i
      ensures !LexLess(S[1..], PK[r][1..])
    {
      EarlierNotAbove(K, n, i, r);
    }
    UpperTally(PK, col, i, Le, Small, Same, Tail);
    CountIfPerm(K, PK, Le);
  }

  /**
   * The last-to-first map over sorted keys: the row it sends row `i` to
   * holds the key that starts with `col[i]` and goes on with row `i`'s.
   */
  lemma LastToFirstKey(K: seq<seq<Byte>>, PK: seq<seq<Byte>>, col: seq<Byte>, n: nat, i: nat)
    requires Shifted(K, PK, col, n) && i < |K|
    ensures K[LastToFirst(col, i)] == PK[i]
  {
    var S := PK[i];
    var Lt := (x: seq<Byte>) => |x| == n && LexLess(x, S);
    var Le := (x: seq<Byte>) => |x| == n && !LexLess(S, x);
    LowerCount(K, PK, col, n, i, Lt);
    UpperCount(K, PK, col, n, i, Le);
    SortedLocate(K, LastToFirst(col, i), S, Lt, Le);
  }

  // ---------------------------------------------------------------------
  // One step of the walk, over rotations

  /** The rotations, as a function of their start. */
  ghost function Rots(b: seq<Byte>): nat -> seq<Byte>
  {
    (q: nat) => if q < |b| then Rot(b, q) else []
  }

  /** The rows' predecessor starts, a permutation again. */
  ghost function Preds(z: seq<nat>, n: nat): (p: seq<nat>)
    requires AllBelow(z, n)
    ensures |p| == |z| && forall r :: 0 <= r < |z| ==> p[r] == Pred(z[r], n)
  {
    seq(|z|, r requires 0 <= r < |z| => Pred(z[r], n))
  }

  lemma PredsPerm(z: seq<nat>, n: nat)
    requires IsPermutation(z, n)
    ensures AllBelow(z, n) && multiset(Preds(z, n)) == multiset(z)
  {
    PermFacts(z, n);
    var p := Preds(z, n);
    assert Distinct(p) && AllBelow(p, n);
    Pigeonhole(p, n);
  }

  /** A sorted order of rotations gives sorted keys. */
  lemma SortedRots(b: seq<Byte>, z: seq<nat>)
    requires Sorted(b, z)
    ensures SortedKeys(Map(z, Rots(b)), |b|)
  {
    var K := Map(z, Rots(b));
    assert forall r :: 0 <= r < |z| ==> K[r] == Rot(b, z[r]);
    forall r, s | 0 <= r < s < |K|
      ensures !LexLess(K[s], K[r])
    {
      assert !RotGt(b, z[r], z[s]);
    }
  }

  /** Row `r`'s predecessor rotation starts with its column byte, then its own rotation's prefix. */
  lemma RowPred(b: seq<Byte>, z: seq<nat>, r: nat)
    requires |b| > 0 && Bounded(z, |b|) && r < |z|
    ensures Rot(b, Pred(z[r], |b|))[0] == Column(b, z)[r]
    ensures Rot(b, Pred(z[r], |b|))[1..] == Rot(b, z[r])[..|b| - 1]
  {
    RotPred(b, z[r]);
  }

  /** The rotations of a sorted permutation and their predecessors form the setting of a step. */
  lemma RotsShifted(b: seq<Byte>, z: seq<nat>)
    requires |b| > 0 && Sorted(b, z) && IsPermutation(z, |b|)
    ensures AllBelow(z, |b|) && |z| == |b|
    ensures Shifted(Map(z, Rots(b)), Map(Preds(z, |b|), Rots(b)), Column(b, z), |b|)
  {
    var n := |b|;
    PermFacts(z, n);
    PredsPerm(z, n);
    var K, PK := Map(z, Rots(b)), Map(Preds(z, n), Rots(b));
    SortedRots(b, z);
    MapPerm(Preds(z, n), z, Rots(b));
    forall r | 0 <= r < |K|
      ensures |PK[r]| == n && PK[r][0] == Column(b, z)[r] && PK[r][1..] == K[r][..n - 1]
    {
      RowPred(b, z, r);
    }
  }

  /**
   * One step of the walk over the last column of a sorted order lands on a
   * row whose rotation starts one byte before the current row's.
   */
  lemma LastToFirstRow(b: seq<Byte>, z: seq<nat>, i: nat)
    requires |b| > 0 && Sorted(b, z) && IsPermutation(z, |b|) && i < |z|
    ensures LastToFirst(Column(b, z), i) < |z|
    ensures Rot(b, z[LastToFirst(Column(b, z), i)]) == Rot(b, Pred(z[i], |b|))
  {
    RotsShifted(b, z);
    LastToFirstKey(Map(z, Rots(b)), Map(Preds(z, |b|), Rots(b)), Column(b, z), |b|, i);
  }

  // ---------------------------------------------------------------------
  // The whole walk

  /** Where the walk should be after `m` steps from the rotation at 0: at `n - m`, cyclically. */
  function Behind(m: nat, n: nat): (p: nat)
    requires m < n
    ensures p < n
  {
    if m == 0 then 0 else n - m
  }

  /** Equal rotations have equal rotations one byte earlier. */
  lemma SameRotPred(b: seq<Byte>, x: nat, y: nat)
    requires x < |b| && y < |b| && Rot(b, x) == Rot(b, y)
    ensures Rot(b, Pred(x, |b|)) == Rot(b, Pred(y, |b|))
  {
    RotPred(b, x);
    RotPred(b, y);
  }

  /** Equal rotations are preceded by equal bytes. */
  lemma SameRotLast(b: seq<Byte>, x: nat, y: nat)
    requires x < |b| && y < |b| && Rot(b, x) == Rot(b, y)
    ensures b[Pred(x, |b|)] == b[Pred(y, |b|)]
  {
    RotPred(b, x);
    RotPred(b, y);
  }

  /** The step of the walk from row `i` lands on a row whose rotation starts one byte earlier. */
  ghost predicate StepLands(b: seq<Byte>, z: seq<nat>, i: nat)
    requires |b| > 0 && |z| == |b| && Bounded(z, |b|) && i < |z|
  {
    Rot(b, z[LastToFirst(Column(b, z), i)]) == Rot(b, Pred(z[i], |b|))
  }

  /** Every step of the walk lands so. */
  ghost predicate Steps(b: seq<Byte>, z: seq<nat>)
  {
    |b| > 0 && |z| == |b| && Bounded(z, |b|) &&
    forall i :: 0 <= i < |z| ==> StepLands(b, z, i)
  }

  /** A sorted permutation has that property. */
  lemma SortedSteps(b: seq<Byte>, z: seq<nat>)
    requires |b| > 0 && Sorted(b, z) && IsPermutation(z, |b|)
    ensures Steps(b, z)
  {
    PermFacts(z, |b|);
    forall i | 0 <= i < |z|
      ensures StepLands(b, z, i)
    {
      LastToFirstRow(b, z, i);
    }
  }

  /** After `m` steps from the row of rotation 0 the walk is on a row holding the rotation from `Behind(m)`. */
  lemma {:induction false} WalkRows(b: seq<Byte>, z: seq<nat>, k: nat, m: nat)
    requires Steps(b, z) && k < |z| && z[k] == 0 && m < |b|
    ensures Rot(b, z[Iterate(Column(b, z), k, m)]) == Rot(b, Behind(m, |b|))
    decreases m
  {
    if m > 0 {
      var col := Column(b, z);
      WalkRows(b, z, k, m - 1);
      var i := Iterate(col, k, m - 1);
      assert StepLands(b, z, i);
      SameRotPred(b, z[i], Behind(m - 1, |b|));
      assert Pred(Behind(m - 1, |b|), |b|) == Behind(m, |b|);
    }
  }

  /** ... so the byte before that row is the byte before `Behind(m)`. */
  lemma WalkBytes(b: seq<Byte>, z: seq<nat>, k: nat, m: nat)
    requires Steps(b, z) && k < |z| && z[k] == 0 && m < |b|
    ensures b[Pred(z[Iterate(Column(b, z), k, m)], |b|)] == b[Pred(Behind(m, |b|), |b|)]
  {
    WalkRows(b, z, k, m);
    SameRotLast(b, z[Iterate(Column(b, z), k, m)], Behind(m, |b|));
  }

  /**
   * The walk writes at position `p` the byte before the row it has reached
   * by then: when that is the block's byte everywhere, the walk gives the block.
   */
  lemma UnwindBytes(b: seq<Byte>, z: seq<nat>, k: nat)
    requires |b| > 0 && Bounded(z, |b|) && k < |z| == |b|
    requires forall p :: 0 <= p < |b| ==> b[Pred(z[Iterate(Column(b, z), k, |b| - 1 - p)], |b|)] == b[p]
    ensures Unwind(Column(b, z), k) == b
  {
    forall p | 0 <= p < |b|
      ensures Unwind(Column(b, z), k)[p] == b[p]
    {
      UnwindAt(b, z, k, p);
    }
  }

  /** The walk writes at position `p` the byte before the row it has reached by then. */
  lemma UnwindAt(b: seq<Byte>, z: seq<nat>, k: nat, p: nat)
    requires |b| > 0 && Bounded(z, |b|) && k < |z| == |b| && p < |b|
    ensures Unwind(Column(b, z), k)[p] == b[Pred(z[Iterate(Column(b, z), k, |b| - 1 - p)], |b|)]
  {
  }

  /** The byte before the row the walk reaches after `|b| - 1 - p` steps, when every step lands right. */
  lemma WalkedByte(b: seq<Byte>, z: seq<nat>, k: nat, p: nat)
    requires Steps(b, z) && k < |z| && z[k] == 0 && p < |b|
    ensures b[Pred(z[Iterate(Column(b, z), k, |b| - 1 - p)], |b|)] == b[p]
  {
    WalkBytes(b, z, k, |b| - 1 - p);
    assert Pred(Behind(|b| - 1 - p, |b|), |b|) == p;
  }

  /** For a sorted permutation, every position of the block is the byte the walk writes there. */
  lemma WalkedBytes(b: seq<Byte>, z: seq<nat>, k: nat)
    requires |b| > 0 && Sorted(b, z) && IsPermutation(z, |b|) && k < |z| && z[k] == 0
    ensures |z| == |b| && Bounded(z, |b|)
    ensures forall p :: 0 <= p < |b| ==> b[Pred(z[Iterate(Column(b, z), k, |b| - 1 - p)], |b|)] == b[p]
  {
    SortedSteps(b, z);
    forall p | 0 <= p < |b|
      ensures b[Pred(z[Iterate(Column(b, z), k, |b| - 1 - p)], |b|)] == b[p]
    {
      WalkedByte(b, z, k, p);
    }
  }

  /**
   * The inverse law of the transform: for a non-empty block, a sorted
   * permutation of its rotations and the row holding rotation 0, the walk
   * back over the last column from that row gives the block again.
   */
  lemma UnwindSorted(b: seq<Byte>, z: seq<nat>, k: nat)
    requires |b| > 0 && Sorted(b, z) && IsPermutation(z, |b|) && k < |z| && z[k] == 0
    ensures Unwind(Column(b, z), k) == b
  {
    WalkedBytes(b, z, k);
    UnwindBytes(b, z, k);
  }

  /**
   * The round trip of the block sort, stated over what
   * `doReversibleTransformation` hands on: with `words` still holding the
   * block in its `GETFIRST` bytes, `zptr` sorted and a permutation, and
   * `origPtr` the row of rotation 0, walking back over the column
   * `moveToFrontCodeAndSend` reads, from `origPtr`, gives the block.
   */
  lemma TransformRoundTrip(words: seq<Word>, b: seq<Byte>, zptr: seq<nat>, origPtr: nat)
    requires 0 < |b| <= |words| && forall k :: 0 <= k < |b| ==> words[k].first == b[k]
    requires Sorted(b, zptr) && IsPermutation(zptr, |b|) && |zptr| == |b|
    requires origPtr < |b| && zptr[origPtr] == 0
    ensures Unwind(Mtf.LastColumn(words, zptr, |b|), origPtr) == b
  {
    LastColumnIsColumn(words, b, zptr);
    UnwindSorted(b, zptr, origPtr);
  }
}
