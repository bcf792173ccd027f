/**
 * The block sorter of compress.c, the forward Burrows-Wheeler transform:
 * `zptr[0 .. words_end)` becomes the start positions of the rotations of
 * the block in non-decreasing order.  Small blocks are Shell-sorted with
 * the byte-by-byte comparison `trivialGt`; the result is the same order
 * whichever sort runs.
 */
module Sort {
  import opened Common
  import opened Words

  // ---------------------------------------------------------------------
  // Rotations and their order

  /** The rotation of the block `b` that starts at `i`. */
  function Rot(b: seq<Byte>, i: nat): (r: seq<Byte>)
    requires i < |b|
    ensures |r| == |b|
    ensures forall k :: 0 <= k < |b| ==> r[k] == Circ(b, i, k)
  {
    RotIndex(b, i);
    b[i..] + b[..i]
  }

  lemma RotIndex(b: seq<Byte>, i: nat)
    requires i < |b|
    ensures forall k :: 0 <= k < |b| ==> (b[i..] + b[..i])[k] == Circ(b, i, k)
  {
    var n := |b|;
    forall k | 0 <= k < n
      ensures (b[i..] + b[..i])[k] == Circ(b, i, k)
    {
      if i + k < n {
        CircLow(b, i, k);
      } else {
        CircHigh(b, i, k);
      }
    }
  }

  /** Rotation `i` sorts after rotation `j`: what `trivialGt(i, j)` answers. */
  predicate RotGt(b: seq<Byte>, i: nat, j: nat)
    requires i < |b| && j < |b|
  {
    LexLess(Rot(b, j), Rot(b, i))
  }

  /** `LexLess` never holds both ways. */
  lemma {:induction false} LexAsym(a: seq<Byte>, c: seq<Byte>)
    requires |a| == |c|
    ensures !(LexLess(a, c) && LexLess(c, a))
    decreases |a|
  {
    if |a| > 0 && a[0] == c[0] {
      LexAsym(a[1..], c[1..]);
    }
  }

  /** Strings that differ are ordered one way or the other. */
  lemma {:induction false} LexTotal(a: seq<Byte>, c: seq<Byte>)
    requires |a| == |c| && a != c
    ensures LexLess(a, c) || LexLess(c, a)
    decreases |a|
  {
    if a[0] == c[0] {
      assert a == [a[0]] + a[1..] && c == [c[0]] + c[1..];
      LexTotal(a[1..], c[1..]);
    }
  }

  /** `LexLess` is transitive. */
  lemma {:induction false} LexTrans(a: seq<Byte>, c: seq<Byte>, d: seq<Byte>)
    requires |a| == |c| == |d| && LexLess(a, c) && LexLess(c, d)
    ensures LexLess(a, d)
    decreases |a|
  {
    if a[0] == c[0] && c[0] == d[0] {
      LexTrans(a[1..], c[1..], d[1..]);
    }
  }

  /** Not sorting after is transitive: the order the sorts establish is a preorder. */
  lemma RotLeqTrans(b: seq<Byte>, i: nat, j: nat, k: nat)
    requires i < |b| && j < |b| && k < |b|
    requires !RotGt(b, i, j) && !RotGt(b, j, k)
    ensures !RotGt(b, i, k)
  {
    var x, y, z := Rot(b, i), Rot(b, j), Rot(b, k);
    if LexLess(z, x) && x != y {
      LexTotal(x, y);
      LexTrans(z, x, y);
    }
  }

  /** Sorting after excludes sorting before. */
  lemma RotGtAsym(b: seq<Byte>, i: nat, j: nat)
    requires i < |b| && j < |b| && RotGt(b, i, j)
    ensures !RotGt(b, j, i)
  {
    LexAsym(Rot(b, i), Rot(b, j));
  }

  /** The entries `s[lo .. hi)` are rotation starts in non-decreasing rotation order. */
  ghost predicate SortedBetween(b: seq<Byte>, s: seq<nat>, lo: nat, hi: nat)
  {
    lo <= hi <= |s| &&
    (forall k :: lo <= k < hi ==> s[k] < |b|) &&
    (forall k, l :: lo <= k < l < hi ==> !RotGt(b, s[k], s[l]))
  }

  /** The whole of `z` is in rotation order: the sorted `zptr` of the transform. */
  ghost predicate Sorted(b: seq<Byte>, z: seq<nat>)
  {
    SortedBetween(b, z, 0, |z|)
  }

  /** Every entry of `s` is a position of a block of `n` bytes. */
  ghost predicate Bounded(s: seq<nat>, n: nat)
  {
    forall k :: 0 <= k < |s| ==> s[k] < n
  }

  /** `z` lists each of `0 .. n-1` exactly once. */
  ghost predicate IsPermutation(z: seq<nat>, n: nat)
  {
    multiset(z) == multiset(Range(n))
  }

  /** The `GETFIRST` bytes of `words` hold the block `b`. */
  ghost predicate Holds(words: array<Word>, b: seq<Byte>)
    reads words
  {
    |b| <= words.Length && forall k :: 0 <= k < |b| ==> words[k].first == b[k]
  }

  // ---------------------------------------------------------------------
  // trivialGt

  /**
   * `trivialGt(i1, i2)`: the two rotations compared byte by byte, at most
   * `words_end` bytes; equal rotations are not greater.
   */
  method TrivialGt(words: array<Word>, n: nat, i1: nat, i2: nat, ghost b: seq<Byte>) returns (gt: bool)
    requires Holds(words, b) && |b| == n && i1 < n && i2 < n
    ensures gt == RotGt(b, i1, i2)
  {
    ghost var r1, r2 := Rot(b, i1), Rot(b, i2);
    var p1, p2 := i1, i2;
    for k := 0 to n
      invariant p1 == Reduce(i1 + k, n) && p2 == Reduce(i2 + k, n)
      invariant RotGt(b, i1, i2) == LexLess(r2[k..], r1[k..])
    {
      var c1 := words[p1].first;
      var c2 := words[p2].first;
      RotSuffix(b, i1, k);
      RotSuffix(b, i2, k);
      if c1 != c2 {
        return c1 > c2;
      }
      NextByte(p1, i1 + k, n);
      NextByte(p2, i2 + k, n);
      p1 := NormalizeHi(p1 + 1, n);
      p2 := NormalizeHi(p2 + 1, n);
    }
    return false;
  }

  /** The suffix of a rotation from `k` on starts with the byte at `k`. */
  lemma RotSuffix(b: seq<Byte>, i: nat, k: nat)
    requires i < |b| && k < |b|
    ensures Rot(b, i)[k..][0] == b[Reduce(i + k, |b|)]
    ensures Rot(b, i)[k..][1..] == Rot(b, i)[k + 1..]
  {
  }

  /** `NORMALIZEHI(p + 1)` steps a circular position on by one. */
  lemma NextByte(p: nat, x: nat, n: nat)
    requires 0 < n && p == Reduce(x, n)
    ensures NormalizeHi(p + 1, n) == Reduce(x + 1, n)
  {
    ReduceAdd(x, 1, n);
    NormalizeHiReduce(p + 1, n);
  }

  // ---------------------------------------------------------------------
  // shellTrivial

  /**
   * The state of one insertion of an insertion sort of `s[lo ..]` (the
   * final, gap-one pass of `shellTrivial`, or a small work unit of
   * `qsortFull`): the value `v` taken from position `i` is being moved
   * down; `s[lo .. j)` is still in order, `s(j .. i]` holds the entries
   * shifted up, all greater than `v` and none less than an entry below
   * the hole `j`.
   */
  ghost predicate Inserting(b: seq<Byte>, s: seq<nat>, lo: nat, j: nat, i: nat, v: nat)
  {
    lo <= j <= i < |s| && v < |b| &&
    SortedBetween(b, s, lo, j) && SortedBetween(b, s, j + 1, i + 1) &&
    (forall l :: j < l <= i ==> RotGt(b, s[l], v)) &&
    (forall k, l :: lo <= k < j < l <= i ==> !RotGt(b, s[k], s[l]))
  }

  /** Shifting the entry below the hole up moves the hole down by one. */
  lemma InsertingStep(b: seq<Byte>, s: seq<nat>, lo: nat, j: nat, i: nat, v: nat)
    requires Inserting(b, s, lo, j, i, v) && lo < j && RotGt(b, s[j - 1], v)
    ensures Inserting(b, s[j := s[j - 1]], lo, j - 1, i, v)
  {
  }

  /** Once the entry below the hole is not greater than `v`, filling the hole leaves `s[lo .. i]` in order. */
  lemma InsertingFill(b: seq<Byte>, s: seq<nat>, lo: nat, j: nat, i: nat, v: nat)
    requires Inserting(b, s, lo, j, i, v) && (j == lo || !RotGt(b, s[j - 1], v))
    ensures SortedBetween(b, s[j := v], lo, i + 1)
  {
    var t := s[j := v];
    forall k, l | lo <= k < l <= i
      ensures !RotGt(b, t[k], t[l])
    {
      if l == j {
        if lo <= k < j - 1 {
          RotLeqTrans(b, s[k], s[j - 1], v);
        }
      } else if k == j {
        RotGtAsym(b, s[l], v);
      }
    }
  }

  /** Moving the hole from `j` down to `j - h` keeps the entries plus `v` the same multiset. */
  lemma HoleMove(s: seq<nat>, j: nat, h: nat, v: nat)
    requires h <= j < |s|
    ensures multiset(s[j := s[j - h]][j - h := v]) == multiset(s[j := v])
  {
    var t := s[j := v];
    if h > 0 {
      assert s[j := s[j - h]][j - h := v] == t[j := t[j - h]][j - h := t[j]];
    }
  }

  /**
   * The state of an insertion with gap `h` into the entries from `lo` on:
   * the value `v` taken from position `i` has left a hole at `j`; the
   * entries with `v` put back in the hole are the multiset `m`, and with
   * gap one the insertion keeps its order invariant.
   */
  ghost predicate Hole(b: seq<Byte>, s: seq<nat>, n: nat, h: nat, lo: nat, j: nat, i: nat, v: nat, m: multiset<nat>)
  {
    lo <= j <= i < |s| && v < n && Bounded(s, n) && multiset(s[j := v]) == m &&
    (h == 1 ==> Inserting(b, s, lo, j, i, v))
  }

  /** One shift of an insertion: the entry `h` below the hole moves up into it; nothing else changes. */
  method ShiftDown(zptr: array<nat>, n: nat, h: nat, lo: nat, j: nat, i: nat, v: nat,
                   ghost b: seq<Byte>, ghost m: multiset<nat>) returns (j': nat)
    requires |b| == n == zptr.Length && 1 <= h && lo + h <= j
    requires Hole(b, zptr[..], n, h, lo, j, i, v, m) && RotGt(b, zptr[j - h], v)
    modifies zptr
    ensures j' == j - h && Hole(b, zptr[..], n, h, lo, j', i, v, m)
    ensures forall p :: 0 <= p < n && p != j ==> zptr[p] == old(zptr[p])
  {
    ghost var s := zptr[..];
    zptr[j] := zptr[j - h];
    j' := j - h;
    HoleShift(b, s, zptr[..], n, h, lo, j, j', i, v, m);
  }

  /** The hole moves down by `h` to `j'` when the entry below it is greater than `v`. */
  lemma HoleShift(b: seq<Byte>, s: seq<nat>, t: seq<nat>, n: nat, h: nat, lo: nat, j: nat, j': nat, i: nat, v: nat, m: multiset<nat>)
    requires |b| == n && 1 <= h && lo + h <= j && j' == j - h
    requires Hole(b, s, n, h, lo, j, i, v, m) && RotGt(b, s[j - h], v)
    requires t == s[j := s[j - h]]
    ensures Hole(b, t, n, h, lo, j', i, v, m)
  {
    HoleMove(s, j, h, v);
    if h == 1 {
      InsertingStep(b, s, lo, j, i, v);
    }
  }

  /**
   * The body of the insertion loop of `shellTrivial`: one shift, the
   * `break` once the hole is within `h` of the start, and the comparison
   * that decides whether the loop goes round again.
   */
  method ShiftStep(words: array<Word>, n: nat, zptr: array<nat>, h: nat, j: nat, i: nat, v: nat,
                   ghost b: seq<Byte>, ghost m: multiset<nat>) returns (j': nat, more: bool)
    requires Holds(words, b) && |b| == n == zptr.Length && 1 <= h <= j
    requires Hole(b, zptr[..], n, h, 0, j, i, v, m) && RotGt(b, zptr[j - h], v)
    modifies zptr
    ensures j' < j && Hole(b, zptr[..], n, h, 0, j', i, v, m)
    ensures more ==> h <= j' && RotGt(b, zptr[j' - h], v)
    ensures !more ==> j' < h || !RotGt(b, zptr[j' - h], v)
  {
    j' := ShiftDown(zptr, n, h, 0, j, i, v, b, m);
    if j' < h {
      more := false;
    } else {
      more := TrivialGt(words, n, zptr[j' - h], v, b);
    }
  }

  /** The end of an insertion: `v` goes into the hole; nothing else changes. */
  method FillHole(zptr: array<nat>, n: nat, h: nat, lo: nat, j: nat, i: nat, v: nat,
                  ghost b: seq<Byte>, ghost m: multiset<nat>)
    requires |b| == n == zptr.Length && 1 <= h
    requires Hole(b, zptr[..], n, h, lo, j, i, v, m) && (j < lo + h || !RotGt(b, zptr[j - h], v))
    modifies zptr
    ensures Bounded(zptr[..], n) && multiset(zptr[..]) == m
    ensures h == 1 ==> SortedBetween(b, zptr[..], lo, i + 1)
    ensures forall p :: 0 <= p < n && p != j ==> zptr[p] == old(zptr[p])
  {
    ghost var s := zptr[..];
    if h == 1 {
      InsertingFill(b, s, lo, j, i, v);
    }
    zptr[j] := v;
    assert zptr[..] == s[j := v];
  }

  /**
   * One insertion of a Shell pass with gap `h`: `zptr[i]` moves down in
   * steps of `h` while the entry `h` below it sorts after it.  The entries
   * stay a permutation; in the gap-one pass `zptr[0 .. i]` ends in order.
   */
  method ShellInsert(words: array<Word>, n: nat, zptr: array<nat>, h: nat, i: nat, ghost b: seq<Byte>)
    requires Holds(words, b) && |b| == n == zptr.Length && 1 <= h <= i < n
    requires Bounded(zptr[..], n)
    requires h == 1 ==> SortedBetween(b, zptr[..], 0, i)
    modifies zptr
    ensures Bounded(zptr[..], n) && multiset(zptr[..]) == multiset(old(zptr[..]))
    ensures h == 1 ==> SortedBetween(b, zptr[..], 0, i + 1)
  {
    ghost var m := multiset(zptr[..]);
    var j: nat := i;
    var v: nat := zptr[i];
    assert zptr[..][j := v] == zptr[..];
    var more := TrivialGt(words, n, zptr[j - h], v, b);
    while more
      invariant Hole(b, zptr[..], n, h, 0, j, i, v, m)
      invariant more ==> h <= j && RotGt(b, zptr[j - h], v)
      invariant !more ==> j < h || !RotGt(b, zptr[j - h], v)
      decreases j
    {
      j, more := ShiftStep(words, n, zptr, h, j, i, v, b, m);
    }
    FillHole(zptr, n, h, 0, j, i, v, b, m);
  }

  /**
   * One pass of `shellTrivial` with gap `h`: every `zptr[i]`, `i >= h`, is
   * inserted into its chain of entries `h` apart.  The gap-one pass is a
   * plain insertion sort and leaves `zptr` in order.
   */
  method ShellPass(words: array<Word>, n: nat, zptr: array<nat>, h: nat, ghost b: seq<Byte>)
    requires Holds(words, b) && |b| == n == zptr.Length && 1 <= h
    requires Bounded(zptr[..], n)
    modifies zptr
    ensures Bounded(zptr[..], n) && multiset(zptr[..]) == multiset(old(zptr[..]))
    ensures h == 1 ==> Sorted(b, zptr[..])
  {
    var i := h;
    while i < n
      invariant h <= i && (i <= n || n <= h)
      invariant Bounded(zptr[..], n) && multiset(zptr[..]) == multiset(old(zptr[..]))
      invariant h == 1 && 1 <= n ==> SortedBetween(b, zptr[..], 0, i)
      decreases n - i
    {
      ShellInsert(words, n, zptr, h, i, b);
      i := i + 1;
    }
  }

  /** The gaps of `shellTrivial`: 1, 4, 13, 40, ... */
  function Knuth(t: nat): (h: nat)
    ensures 1 <= h && (t > 0 ==> 4 <= h)
  {
    if t == 0 then 1 else 3 * Knuth(t - 1) + 1
  }

  /** Dividing a gap by three gives the next smaller gap. */
  lemma KnuthThird(t: nat)
    ensures Knuth(t + 1) / 3 == Knuth(t)
  {
    ModUnique(Knuth(t + 1), 3, Knuth(t), 1);
  }

  /**
   * `shellTrivial`: `zptr` set to `0 .. words_end-1`, then Shell-sorted with
   * the gaps 1, 4, 13, ... below `words_end` (the largest one used is the
   * first whose triple reaches `words_end`).  The result is the rotation
   * starts in rotation order.
   */
  method ShellTrivial(words: array<Word>, n: nat, zptr: array<nat>, ghost b: seq<Byte>)
    requires Holds(words, b) && |b| == n == zptr.Length
    modifies zptr
    ensures Sorted(b, zptr[..]) && IsPermutation(zptr[..], n)
  {
    for i := 0 to n
      invariant forall k :: 0 <= k < i ==> zptr[k] == k
    {
      zptr[i] := i;
    }
    assert zptr[..] == Range(n);
    assert Bounded(zptr[..], n) && IsPermutation(zptr[..], n);
    ghost var t: nat := 0;
    var h: nat := 1;
    h := h * 3;
    var more := h < n;
    h := h + 1;
    while more
      invariant h == Knuth(t + 1) && (more ==> h <= n)
      decreases n - h
    {
      h := h * 3;
      more := h < n;
      h := h + 1;
      t := t + 1;
    }
    KnuthThird(t);
    h := h / 3;
    ShellPass(words, n, zptr, h, b);
    while h != 1
      invariant h == Knuth(t) && Bounded(zptr[..], n) && IsPermutation(zptr[..], n)
      invariant h == 1 ==> Sorted(b, zptr[..])
      decreases h
    {
      KnuthThird(t - 1);
      h := h / 3;
      t := t - 1;
      ShellPass(words, n, zptr, h, b);
    }
  }

  // ---------------------------------------------------------------------
  // stripe

  /** A position past the block brought back into it: the position modulo `n`. */
  function Reduce(x: nat, n: nat): (r: nat)
    requires n > 0
    ensures r < n
    decreases x
  {
    if x < n then x else Reduce(x - n, n)
  }

  /** Reducing, then advancing and reducing again, is advancing and reducing. */
  lemma {:induction false} ReduceAdd(x: nat, y: nat, n: nat)
    requires n > 0
    ensures Reduce(Reduce(x, n) + y, n) == Reduce(x + y, n)
    decreases x
  {
    if x >= n {
      ReduceAdd(x - n, y, n);
      assert Reduce(x + y, n) == Reduce(x - n + y, n);
    }
  }

  /** Whole blocks do not change the reduced position. */
  lemma {:induction false} ReduceMul(x: nat, m: nat, n: nat)
    requires n > 0
    ensures Reduce(x + m * n, n) == Reduce(x, n)
    decreases m
  {
    if m > 0 {
      ReduceMul(x, m - 1, n);
      assert x + m * n - n == x + (m - 1) * n;
    }
  }

  /** `NORMALIZEHI` reduces a position below two block lengths. */
  lemma NormalizeHiReduce(p: nat, n: nat)
    requires 0 < n && p < 2 * n
    ensures NormalizeHi(p, n) == Reduce(p, n)
  {
  }

  /** Byte `k` of the rotation from `i`, read on circularly past its end. */
  function Circ(b: seq<Byte>, i: nat, k: nat): Byte
    requires |b| > 0
  {
    b[Reduce(i + k, |b|)]
  }

  /** Within the block the circular position is the position itself... */
  lemma CircLow(b: seq<Byte>, i: nat, k: nat)
    requires i + k < |b|
    ensures Circ(b, i, k) == b[i + k]
  {
  }

  /** ... and one block further on it has wrapped once. */
  lemma CircHigh(b: seq<Byte>, i: nat, k: nat)
    requires |b| <= i + k < 2 * |b|
    ensures Circ(b, i, k) == b[i + k - |b|]
  {
    assert Reduce(i + k, |b|) == Reduce(i + k - |b|, |b|);
  }

  /** The rotation read circularly repeats with the block length. */
  lemma CircReduce(b: seq<Byte>, i: nat, k: nat)
    requires |b| > 0
    ensures Circ(b, i, Reduce(k, |b|)) == Circ(b, i, k)
  {
    ReduceAdd(k, i, |b|);
    assert Reduce(k, |b|) + i == i + Reduce(k, |b|) && k + i == i + k;
  }

  /** Starting `k` further on is reading `k` further on. */
  lemma CircMove(b: seq<Byte>, i: nat, k: nat, d: nat)
    requires |b| > 0
    ensures Circ(b, i + k, d) == Circ(b, i, k + d)
  {
    assert i + k + d == i + (k + d);
  }

  /** Starts that agree modulo the block length read the same bytes. */
  lemma CircSame(b: seq<Byte>, i: nat, j: nat, d: nat)
    requires |b| > 0 && Reduce(i, |b|) == Reduce(j, |b|)
    ensures Circ(b, i, d) == Circ(b, j, d)
  {
    ReduceAdd(i, d, |b|);
    ReduceAdd(j, d, |b|);
  }

  /** The word `stripe` leaves at position `k`: the four bytes of the block from `k` on, circularly. */
  function StripeWord(b: seq<Byte>, k: nat): Word
    requires |b| > 0
  {
    Word(Circ(b, k, 0), Circ(b, k, 1), Circ(b, k, 2), Circ(b, k, 3))
  }

  /**
   * Byte `d` of the word at `k` is supplied by position `k + d`, circularly;
   * it has been stored once `stripe` has gone past that position.
   */
  predicate Supplied(k: nat, d: nat, i: nat, n: nat)
  {
    k + d < i || (n <= k + d && k + d - n < i)
  }

  /**
   * Word `k` of the block once `stripe` has handled the positions below
   * `i`: its first byte, and each later byte already supplied; the bytes
   * not yet supplied are as in `w`.
   */
  ghost function PartWord(b: seq<Byte>, k: nat, i: nat, w: Word): Word
    requires k < |b|
  {
    var n := |b|;
    Word(b[k],
         if Supplied(k, 1, i, n) then Circ(b, k, 1) else w.second,
         if Supplied(k, 2, i, n) then Circ(b, k, 2) else w.third,
         if Supplied(k, 3, i, n) then Circ(b, k, 3) else w.fourth)
  }

  /** The words of the block once `stripe` has handled the positions below `i`. */
  ghost predicate StripedTo(words: array<Word>, b: seq<Byte>, i: nat, w0: seq<Word>)
    reads words
  {
    0 < |b| <= words.Length == |w0| &&
    (forall k :: 0 <= k < |b| ==> words[k] == PartWord(b, k, i, w0[k])) &&
    (forall k :: |b| <= k < words.Length ==> words[k] == w0[k])
  }

  /** Position `i` supplies nothing to a word that is none of the three before it. */
  lemma PartWordOther(b: seq<Byte>, k: nat, i: nat, w: Word)
    requires 4 <= |b| && k < |b| && i < |b|
    requires k != NormalizeLo(i - 1, |b|) && k != NormalizeLo(i - 2, |b|) && k != NormalizeLo(i - 3, |b|)
    ensures PartWord(b, k, i + 1, w) == PartWord(b, k, i, w)
  {
  }

  /** Position `i` supplies the second byte of the word before it ... */
  lemma PartWordSecond(b: seq<Byte>, i: nat, w: Word)
    requires 4 <= |b| && i < |b|
    ensures 0 <= NormalizeLo(i - 1, |b|) < |b|
    ensures PartWord(b, NormalizeLo(i - 1, |b|), i + 1, w)
         == PartWord(b, NormalizeLo(i - 1, |b|), i, w).(second := b[i])
  {
    if i >= 1 { CircLow(b, i - 1, 1); } else { CircHigh(b, |b| - 1, 1); }
  }

  /** ... the third byte of the word two before it ... */
  lemma PartWordThird(b: seq<Byte>, i: nat, w: Word)
    requires 4 <= |b| && i < |b|
    ensures 0 <= NormalizeLo(i - 2, |b|) < |b|
    ensures PartWord(b, NormalizeLo(i - 2, |b|), i + 1, w)
         == PartWord(b, NormalizeLo(i - 2, |b|), i, w).(third := b[i])
  {
    if i >= 2 { CircLow(b, i - 2, 2); } else { CircHigh(b, |b| + i - 2, 2); }
  }

  /** ... and the fourth byte of the word three before it. */
  lemma PartWordFourth(b: seq<Byte>, i: nat, w: Word)
    requires 4 <= |b| && i < |b|
    ensures 0 <= NormalizeLo(i - 3, |b|) < |b|
    ensures PartWord(b, NormalizeLo(i - 3, |b|), i + 1, w)
         == PartWord(b, NormalizeLo(i - 3, |b|), i, w).(fourth := b[i])
  {
    if i >= 3 { CircLow(b, i - 3, 3); } else { CircHigh(b, |b| + i - 3, 3); }
  }

  /**
   * The byte at `i` goes to the three words before it, circularly: each
   * statement group of `stripe`, the three before its loop (with
   * `NORMALIZELO` for the positions below zero) and its loop body.
   */
  method StripeStep(words: array<Word>, n: nat, i: nat, ghost b: seq<Byte>, ghost w0: seq<Word>)
    requires |b| == n && 4 <= n && i < n && StripedTo(words, b, i, w0)
    modifies words
    ensures StripedTo(words, b, i + 1, w0)
  {
    var c := words[i].first;
    PartWordSecond(b, i, w0[NormalizeLo(i - 1, n)]);
    PartWordThird(b, i, w0[NormalizeLo(i - 2, n)]);
    PartWordFourth(b, i, w0[NormalizeLo(i - 3, n)]);
    SetSecond(words, NormalizeLo(i - 1, n), c);
    SetThird(words, NormalizeLo(i - 2, n), c);
    SetFourth(words, NormalizeLo(i - 3, n), c);
    forall k | 0 <= k < n
      ensures words[k] == PartWord(b, k, i + 1, w0[k])
    {
      if k != NormalizeLo(i - 1, n) && k != NormalizeLo(i - 2, n) && k != NormalizeLo(i - 3, n) {
        PartWordOther(b, k, i, w0[k]);
      }
    }
  }

  /** Once `stripe` has run through the block, every word holds its four bytes. */
  lemma StripedAll(words: array<Word>, b: seq<Byte>, w0: seq<Word>)
    requires 4 <= |b| && StripedTo(words, b, |b|, w0)
    ensures forall k :: 0 <= k < |b| ==> words[k] == StripeWord(b, k)
  {
    forall k | 0 <= k < |b|
      ensures words[k] == StripeWord(b, k)
    {
      CircLow(b, k, 0);
      assert words[k] == PartWord(b, k, |b|, w0[k]);
    }
  }

  /**
   * `stripe`: each word gets the three bytes that follow its own first
   * byte, circularly, in its second to fourth bytes, so that `GETALL(k)`
   * is the first four bytes of rotation `k`.  Words past the block are
   * not touched.
   */
  method Stripe(words: array<Word>, n: nat, ghost b: seq<Byte>)
    requires Holds(words, b) && |b| == n && 4 <= n
    modifies words
    ensures forall k :: 0 <= k < n ==> words[k] == StripeWord(b, k)
    ensures forall k :: n <= k < words.Length ==> words[k] == old(words[k])
  {
    ghost var w0 := words[..];
    assert StripedTo(words, b, 0, w0) by {
      forall k | 0 <= k < n
        ensures words[k] == PartWord(b, k, 0, w0[k])
      {
        assert words[k].first == b[k];
      }
    }
    StripeStep(words, n, 0, b, w0);
    StripeStep(words, n, 1, b, w0);
    StripeStep(words, n, 2, b, w0);
    for i := 3 to n
      invariant StripedTo(words, b, i, w0)
    {
      StripeStep(words, n, i, b, w0);
    }
    StripedAll(words, b, w0);
  }

  // ---------------------------------------------------------------------
  // fullGt

  /**
   * The block after `stripe` and the copy of its first words past its
   * end: `GETALL(p)` is the four bytes from circular position `p`, for
   * every `p` below `words_end + 16`.
   */
  ghost predicate Extended(words: array<Word>, b: seq<Byte>)
    reads words
  {
    0 < |b| && |b| + 16 <= words.Length &&
    forall p :: 0 <= p < |b| + 16 ==> words[p] == StripeWord(b, p)
  }

  /** The rotations from `i1` and `i2` agree on their first `len` bytes, read circularly. */
  ghost predicate Agree(b: seq<Byte>, i1: nat, i2: nat, len: nat)
    requires |b| > 0
  {
    forall k :: 0 <= k < len ==> Circ(b, i1, k) == Circ(b, i2, k)
  }

  /** Two strings that agree up to `k` and differ at `k` are ordered by the bytes at `k`. */
  lemma {:induction false} LexFirstDiff(a: seq<Byte>, c: seq<Byte>, k: nat)
    requires |a| == |c| && k < |a| && a[k] != c[k]
    requires forall m :: 0 <= m < k ==> a[m] == c[m]
    ensures LexLess(a, c) <==> a[k] < c[k]
    decreases k
  {
    if k > 0 {
      LexFirstDiff(a[1..], c[1..], k - 1);
    }
  }

  /**
   * The first difference of the two rotations, read circularly, falls
   * within one block length and decides their order.
   */
  lemma FirstDifference(b: seq<Byte>, i1: nat, i2: nat, len: nat)
    requires i1 < |b| && i2 < |b| && Agree(b, i1, i2, len)
    requires Circ(b, i1, len) != Circ(b, i2, len)
    ensures len < |b|
    ensures RotGt(b, i1, i2) <==> Circ(b, i1, len) > Circ(b, i2, len)
  {
    var n := |b|;
    if len >= n {
      CircReduce(b, i1, len);
      CircReduce(b, i2, len);
      assert false;
    }
    LexFirstDiff(Rot(b, i2), Rot(b, i1), len);
  }

  /** Rotations that agree on a whole block length are equal, so neither sorts after the other. */
  lemma AgreeWhole(b: seq<Byte>, i1: nat, i2: nat, len: nat)
    requires i1 < |b| && i2 < |b| && Agree(b, i1, i2, len) && |b| <= len
    ensures !RotGt(b, i1, i2)
  {
    var r1, r2 := Rot(b, i1), Rot(b, i2);
    forall k | 0 <= k < |b|
      ensures r1[k] == r2[k]
    {
      assert Circ(b, i1, k) == Circ(b, i2, k);
    }
    assert r1 == r2;
    LexAsym(r1, r2);
  }

  /**
   * Comparing the words at `i1 + len` and `i2 + len` as unsigned values:
   * equal words extend the agreement by four bytes; different ones decide
   * the order of the rotations.
   */
  lemma WordStep(b: seq<Byte>, i1: nat, i2: nat, len: nat)
    requires i1 < |b| && i2 < |b| && Agree(b, i1, i2, len)
    ensures var w1, w2 := StripeWord(b, i1 + len), StripeWord(b, i2 + len);
      (w1 == w2 ==> Agree(b, i1, i2, len + 4)) &&
      (w1 != w2 ==> (GetAll(w1) > GetAll(w2) <==> RotGt(b, i1, i2)))
  {
    var w1, w2 := StripeWord(b, i1 + len), StripeWord(b, i2 + len);
    var x1, x2 := WordBytesOf(w1), WordBytesOf(w2);
    forall d | 0 <= d < 4
      ensures x1[d] == Circ(b, i1, len + d) && x2[d] == Circ(b, i2, len + d)
    {
      CircMove(b, i1, len, d);
      CircMove(b, i2, len, d);
    }
    if w1 == w2 {
      AgreeMore(b, i1, i2, len, 4, x1, x2);
    } else {
      GetAllOrder(w2, w1);
      assert x1 != x2;
      var d :| 0 <= d < 4 && x1[d] != x2[d] && forall m :: 0 <= m < d ==> x1[m] == x2[m];
      AgreeMore(b, i1, i2, len, d, x1, x2);
      FirstDifference(b, i1, i2, len + d);
      LexFirstDiff(x2, x1, d);
    }
  }

  /** Two rotations that agree on `len` bytes and on the `d` bytes after them agree on `len + d`. */
  lemma AgreeMore(b: seq<Byte>, i1: nat, i2: nat, len: nat, d: nat, x1: seq<Byte>, x2: seq<Byte>)
    requires 0 < |b| && Agree(b, i1, i2, len) && d <= |x1| && d <= |x2|
    requires forall e :: 0 <= e < d ==> x1[e] == Circ(b, i1, len + e) && x2[e] == Circ(b, i2, len + e)
    requires forall e :: 0 <= e < d ==> x1[e] == x2[e]
    ensures Agree(b, i1, i2, len + d)
  {
    forall k | 0 <= k < len + d
      ensures Circ(b, i1, k) == Circ(b, i2, k)
    {
      if k >= len {
        assert x1[k - len] == x2[k - len];
      }
    }
  }

  /** Positions equal modulo the block length hold the same striped word. */
  lemma SameWord(b: seq<Byte>, q: nat, x: nat)
    requires |b| > 0 && Reduce(q, |b|) == Reduce(x, |b|)
    ensures StripeWord(b, q) == StripeWord(b, x)
  {
    CircSame(b, q, x, 0); CircSame(b, q, x, 1); CircSame(b, q, x, 2); CircSame(b, q, x, 3);
  }

  /** The word `u` bytes after `p`, which stands `len` bytes into rotation `i`, is the one `len + u` bytes into it. */
  lemma WordAt(b: seq<Byte>, p: nat, u: nat, i: nat, len: nat)
    requires |b| > 0 && p == Reduce(i + len, |b|)
    ensures StripeWord(b, p + u) == StripeWord(b, i + (len + u))
  {
    ReduceAdd(i + len, u, |b|);
    assert i + len + u == i + (len + u);
    SameWord(b, p + u, i + (len + u));
  }

  /** A start that comes back to itself has gone round at least one whole block. */
  lemma WrapPeriod(i: nat, x: nat, n: nat)
    requires i < n && 0 < x && Reduce(i + x, n) == i
    ensures n <= x
  {
  }

  /**
   * One unrolled comparison of `fullGt`: `GETALL(p1 + u)` against
   * `GETALL(p2 + u)`, where `p1` and `p2` stand `len` bytes into the two
   * rotations.  Equal words extend the agreement by four bytes; different
   * ones decide the comparison.
   */
  method CompareWords(words: array<Word>, n: nat, p1: nat, p2: nat, u: nat, ghost b: seq<Byte>, ghost i1: nat, ghost i2: nat, ghost len: nat)
      returns (differ: bool, gt: bool)
    requires Extended(words, b) && |b| == n && p1 < n && p2 < n && u <= 12 && i1 < n && i2 < n
    requires p1 == Reduce(i1 + len, n) && p2 == Reduce(i2 + len, n) && Agree(b, i1, i2, len + u)
    ensures !differ ==> Agree(b, i1, i2, len + u + 4)
    ensures differ ==> gt == RotGt(b, i1, i2)
  {
    var w1 := GetAll(words[p1 + u]);
    var w2 := GetAll(words[p2 + u]);
    ghost var x := len + u;
    WordAt(b, p1, u, i1, len);
    WordAt(b, p2, u, i2, len);
    ghost var s1, s2 := StripeWord(b, i1 + x), StripeWord(b, i2 + x);
    assert words[p1 + u] == s1 && words[p2 + u] == s2;
    WordStep(b, i1, i2, x);
    assert s1 == s2 ==> Agree(b, i1, i2, x + 4);
    assert s1 != s2 ==> (GetAll(s1) > GetAll(s2) <==> RotGt(b, i1, i2));
    GetAllOrder(s1, s2);
    if w1 != w2 {
      return true, w1 > w2;
    }
    return false, false;
  }

  /**
   * One round of `fullGt`: the four unrolled word comparisons from `p1`
   * and `p2`, which stand `len` bytes into the two rotations.
   */
  method FullRound(words: array<Word>, n: nat, p1: nat, p2: nat, ghost b: seq<Byte>, ghost i1: nat, ghost i2: nat, ghost len: nat)
      returns (differ: bool, gt: bool)
    requires Extended(words, b) && |b| == n && p1 < n && p2 < n && i1 < n && i2 < n
    requires p1 == Reduce(i1 + len, n) && p2 == Reduce(i2 + len, n) && Agree(b, i1, i2, len)
    ensures !differ ==> Agree(b, i1, i2, len + 16)
    ensures differ ==> gt == RotGt(b, i1, i2)
  {
    differ, gt := CompareWords(words, n, p1, p2, 0, b, i1, i2, len);
    if differ {
      return;
    }
    differ, gt := CompareWords(words, n, p1, p2, 4, b, i1, i2, len);
    if differ {
      return;
    }
    differ, gt := CompareWords(words, n, p1, p2, 8, b, i1, i2, len);
    if differ {
      return;
    }
    differ, gt := CompareWords(words, n, p1, p2, 12, b, i1, i2, len);
  }

  /** The positions after a round: sixteen bytes on, brought back with `NORMALIZEHI`. */
  lemma NextRound(p: nat, i: nat, t: nat, n: nat)
    requires 16 <= n && p == Reduce(i + 16 * t, n)
    ensures NormalizeHi(p + 16, n) == Reduce(i + 16 * (t + 1), n)
  {
    ReduceAdd(i + 16 * t, 16, n);
    NormalizeHiReduce(p + 16, n);
    assert i + 16 * t + 16 == i + 16 * (t + 1);
  }

  /**
   * `fullGt(i1, i2)`: the rotations compared four bytes at a time through
   * the striped words, sixteen bytes per round, the positions brought back
   * with `NORMALIZEHI` after each round, until a difference or until `i1`
   * is back where it started.  Equal rotations are not greater.
   */
  method FullGt(words: array<Word>, n: nat, i1: nat, i2: nat, ghost b: seq<Byte>) returns (gt: bool)
    requires Extended(words, b) && |b| == n && 16 <= n && i1 < n && i2 < n
    ensures gt == RotGt(b, i1, i2)
  {
    if i1 == i2 {
      LexAsym(Rot(b, i1), Rot(b, i2));
      return false;
    }
    var p1, p2 := i1, i2;
    ghost var t: nat := 0;
    while true
      invariant p1 < n && p2 < n && t < n
      invariant p1 == Reduce(i1 + 16 * t, n) && p2 == Reduce(i2 + 16 * t, n)
      invariant Agree(b, i1, i2, 16 * t)
      decreases n - t
    {
      var differ, g := FullRound(words, n, p1, p2, b, i1, i2, 16 * t);
      if differ {
        return g;
      }
      NextRound(p1, i1, t, n);
      NextRound(p2, i2, t, n);
      p1 := NormalizeHi(p1 + 16, n);
      p2 := NormalizeHi(p2 + 16, n);
      t := t + 1;
      if p1 == i1 {
        WrapPeriod(i1, 16 * t, n);
        AgreeWhole(b, i1, i2, 16 * t);
        return false;
      }
      if t == n {
        ReduceMul(i1, 16, n);
      }
    }
  }
}
