/**
 * `qsortFull` of compress.c: the quicksort of one bucket of `zptr` for
 * blocks of more than 1024 bytes, comparing rotations with `fullGt`.  A
 * work unit `[wuL, wuR]` of more than `ISORT_BELOW` entries past its
 * first is split around a median-of-three pivot by a sentinel partition;
 * a smaller one is insertion-sorted.  Only the entries of the unit move.
 */
module Qsort {
  import opened Common
  import opened Words
  import opened Sort

  /** `ISORT_BELOW`: a work unit reaching at most this far past its first entry is insertion-sorted. */
  const IsortBelow: nat := 10

  // ---------------------------------------------------------------------
  // Slices of a permuted array

  /** `s` and `t` agree outside `[lo, hi)`. */
  ghost predicate Unmoved(s: seq<nat>, t: seq<nat>, lo: nat, hi: nat)
  {
    |s| == |t| && forall p :: 0 <= p < |s| && (p < lo || hi <= p) ==> s[p] == t[p]
  }

  /**
   * `s` is `t` with entries moved about inside `[lo, hi)` only: the same
   * positions of a block of `n` bytes, and the same outside the slice.
   */
  ghost predicate Rearranged(s: seq<nat>, t: seq<nat>, n: nat, lo: nat, hi: nat)
  {
    Bounded(s, n) && multiset(s) == multiset(t) && Unmoved(s, t, lo, hi)
  }

  /** The entries of an array are those of its three parts. */
  lemma ThreeParts(s: seq<nat>, lo: nat, hi: nat)
    requires lo <= hi <= |s|
    ensures multiset(s) == multiset(s[..lo]) + multiset(s[lo..hi]) + multiset(s[hi..])
  {
    assert s == s[..lo] + s[lo..hi] + s[hi..];
  }

  /** Two arrays with the same entries that agree outside `[lo, hi)` have the same entries inside it. */
  lemma SliceMultiset(s: seq<nat>, t: seq<nat>, lo: nat, hi: nat)
    requires lo <= hi <= |s| == |t| && multiset(s) == multiset(t)
    requires forall p :: 0 <= p < |s| && (p < lo || hi <= p) ==> s[p] == t[p]
    ensures multiset(s[lo..hi]) == multiset(t[lo..hi])
  {
    ThreeParts(s, lo, hi);
    ThreeParts(t, lo, hi);
    var head, tail := multiset(s[..lo]), multiset(s[hi..]);
    assert s[..lo] == t[..lo];
    assert s[hi..] == t[hi..];
    var x, y := multiset(s[lo..hi]), multiset(t[lo..hi]);
    assert head + x + tail == head + y + tail;
    forall e
      ensures x[e] == y[e]
    {
      assert (head + x + tail)[e] == (head + y + tail)[e];
    }
  }

  /** Order inside `[lo, hi)` only depends on the entries there. */
  lemma SortedFrame(b: seq<Byte>, s: seq<nat>, t: seq<nat>, lo: nat, hi: nat)
    requires SortedBetween(b, s, lo, hi) && hi <= |t|
    requires forall p :: lo <= p < hi ==> s[p] == t[p]
    ensures SortedBetween(b, t, lo, hi)
  {
  }

  /** A rotation never sorts after itself. */
  lemma RotGtIrreflexive(b: seq<Byte>, i: nat)
    requires i < |b|
    ensures !RotGt(b, i, i)
  {
    LexAsym(Rot(b, i), Rot(b, i));
  }

  // ---------------------------------------------------------------------
  // Small work units: insertion sort

  /**
   * The state of the shifting loop of one insertion: the hole is at `j`,
   * `more` says whether the entry below it sorts after `v`, and only
   * entries of `[wuL, i]` have moved since `z0`.
   */
  ghost predicate Shifting(b: seq<Byte>, s: seq<nat>, z0: seq<nat>, n: nat, wuL: nat, j: nat, i: nat, v: nat,
                           m: multiset<nat>, more: bool)
  {
    Hole(b, s, n, 1, wuL, j, i, v, m) && Unmoved(s, z0, wuL, i + 1) &&
    (more ==> wuL < j && RotGt(b, s[j - 1], v)) &&
    (!more ==> j <= wuL || !RotGt(b, s[j - 1], v))
  }

  /**
   * One step of the insertion loop of a small work unit: a shift, the
   * `break` once the hole reaches `wuL`, and the comparison `fullGt` that
   * decides whether the loop goes round again.
   */
  method IsortStep(words: array<Word>, n: nat, zptr: array<nat>, wuL: nat, j: nat, i: nat, v: nat,
                   ghost b: seq<Byte>, ghost m: multiset<nat>, ghost z0: seq<nat>) returns (j': nat, more: bool)
    requires Extended(words, b) && |b| == n && 16 <= n && zptr.Length == n
    requires Shifting(b, zptr[..], z0, n, wuL, j, i, v, m, true)
    modifies zptr
    ensures j' < j && Shifting(b, zptr[..], z0, n, wuL, j', i, v, m, more)
  {
    j' := ShiftDown(zptr, n, 1, wuL, j, i, v, b, m);
    if j' <= wuL {
      more := false;
    } else {
      more := FullGt(words, n, zptr[j' - 1], v, b);
    }
  }

  /**
   * The shifting loop of one insertion: the entries above the hole that
   * sort after `v` move up one place each, until the hole reaches `wuL`
   * or an entry that does not sort after `v`.
   */
  method IsortShift(words: array<Word>, n: nat, zptr: array<nat>, wuL: nat, i: nat, v: nat,
                    ghost b: seq<Byte>, ghost m: multiset<nat>) returns (j: nat)
    requires Extended(words, b) && |b| == n && 16 <= n && zptr.Length == n && wuL < i
    requires Hole(b, zptr[..], n, 1, wuL, i, i, v, m)
    modifies zptr
    ensures Shifting(b, zptr[..], old(zptr[..]), n, wuL, j, i, v, m, false)
  {
    j := i;
    var more := FullGt(words, n, zptr[j - 1], v, b);
    while more
      invariant Shifting(b, zptr[..], old(zptr[..]), n, wuL, j, i, v, m, more)
      decreases j
    {
      j, more := IsortStep(words, n, zptr, wuL, j, i, v, b, m, old(zptr[..]));
    }
  }

  /** One insertion of a small work unit: `zptr[i]` moves down past the entries that sort after it. */
  method IsortInsert(words: array<Word>, n: nat, zptr: array<nat>, wuL: nat, i: nat, ghost b: seq<Byte>)
    requires Extended(words, b) && |b| == n && 16 <= n && zptr.Length == n && wuL < i < n
    requires Bounded(zptr[..], n) && SortedBetween(b, zptr[..], wuL, i)
    modifies zptr
    ensures Rearranged(zptr[..], old(zptr[..]), n, wuL, i + 1)
    ensures SortedBetween(b, zptr[..], wuL, i + 1)
  {
    ghost var m := multiset(zptr[..]);
    var v: nat := zptr[i];
    assert zptr[..][i := v] == zptr[..];
    var j := IsortShift(words, n, zptr, wuL, i, v, b, m);
    FillHole(zptr, n, 1, wuL, j, i, v, b, m);
  }

  /** The insertion sort of a small work unit `[wuL, wuR]`. */
  method IsortUnit(words: array<Word>, n: nat, zptr: array<nat>, wuL: nat, wuR: nat, ghost b: seq<Byte>)
    requires Extended(words, b) && |b| == n && 16 <= n && zptr.Length == n && wuL <= wuR < n
    requires Bounded(zptr[..], n)
    modifies zptr
    ensures Rearranged(zptr[..], old(zptr[..]), n, wuL, wuR + 1)
    ensures SortedBetween(b, zptr[..], wuL, wuR + 1)
  {
    for i := wuL + 1 to wuR + 1
      invariant Rearranged(zptr[..], old(zptr[..]), n, wuL, wuR + 1)
      invariant SortedBetween(b, zptr[..], wuL, i)
    {
      IsortInsert(words, n, zptr, wuL, i, b);
    }
  }

  // ---------------------------------------------------------------------
  // Large work units: median of three and the sentinel partition


  /** `if (fullGt(zptr[x], zptr[y])) SWAP(x, y);`: the two entries end in rotation order. */
  method CondSwap(words: array<Word>, n: nat, zptr: array<nat>, x: nat, y: nat, ghost b: seq<Byte>)
      returns (swapped: bool)
    requires Extended(words, b) && |b| == n && 16 <= n && zptr.Length == n && x < y < n
    requires Bounded(zptr[..], n)
    modifies zptr
    ensures swapped == RotGt(b, old(zptr[x]), old(zptr[y]))
    ensures swapped ==> zptr[x] == old(zptr[y]) && zptr[y] == old(zptr[x])
    ensures !swapped ==> zptr[x] == old(zptr[x]) && zptr[y] == old(zptr[y])
    ensures forall p :: 0 <= p < n && p != x && p != y ==> zptr[p] == old(zptr[p])
    ensures multiset(zptr[..]) == multiset(old(zptr[..])) && Bounded(zptr[..], n)
    ensures !RotGt(b, zptr[x], zptr[y])
  {
    swapped := FullGt(words, n, zptr[x], zptr[y], b);
    if swapped {
      RotGtAsym(b, zptr[x], zptr[y]);
      Swap(zptr, x, y);
    }
  }

  /**
   * The three conditional swaps that order the entries at `wuL`, `wuC`
   * and `wuR`, so that the middle one is their median.
   */
  method Median3(words: array<Word>, n: nat, zptr: array<nat>, wuL: nat, wuC: nat, wuR: nat, ghost b: seq<Byte>)
    requires Extended(words, b) && |b| == n && 16 <= n && zptr.Length == n && wuL < wuC < wuR < n
    requires Bounded(zptr[..], n)
    modifies zptr
    ensures Rearranged(zptr[..], old(zptr[..]), n, wuL, wuR + 1)
    ensures !RotGt(b, zptr[wuL], zptr[wuC]) && !RotGt(b, zptr[wuC], zptr[wuR])
  {
    var swapped := CondSwap(words, n, zptr, wuL, wuC, b);
    ghost var l1, c1 := zptr[wuL], zptr[wuC];
    swapped := CondSwap(words, n, zptr, wuL, wuR, b);
    if swapped {
      RotLeqTrans(b, zptr[wuL], l1, c1);
    }
    ghost var l2, c2, r2 := zptr[wuL], zptr[wuC], zptr[wuR];
    assert !RotGt(b, l2, c2) && !RotGt(b, l2, r2);
    swapped := CondSwap(words, n, zptr, wuC, wuR, b);
    assert zptr[wuL] == l2;
  }

  /**
   * `do i++; while (fullGt(pivot, zptr[i]))`: the scan up from `i` stops
   * at the first entry that does not sort before the pivot, at `j` at the
   * latest; the entries it passes sort no later than the pivot.
   */
  method ScanUp(words: array<Word>, n: nat, zptr: array<nat>, i: nat, j: nat, pivot: nat, ghost b: seq<Byte>)
      returns (i': nat)
    requires Extended(words, b) && |b| == n && 16 <= n && zptr.Length == n && i < j < n && pivot < n
    requires Bounded(zptr[..], n) && !RotGt(b, pivot, zptr[j])
    ensures i < i' <= j && !RotGt(b, pivot, zptr[i'])
    ensures forall p :: i < p < i' ==> !RotGt(b, zptr[p], pivot)
  {
    i' := i + 1;
    var gt := FullGt(words, n, pivot, zptr[i'], b);
    while gt
      invariant i < i' <= j && gt == RotGt(b, pivot, zptr[i'])
      invariant forall p :: i < p < i' ==> !RotGt(b, zptr[p], pivot)
      decreases j - i'
    {
      RotGtAsym(b, pivot, zptr[i']);
      i' := i' + 1;
      gt := FullGt(words, n, pivot, zptr[i'], b);
    }
  }

  /**
   * `do j--; while (fullGt(zptr[j], pivot))`: the scan down from `j`
   * stops at the first entry that does not sort after the pivot, at
   * `i - 1` at the latest; the entries it passes sort no earlier than the
   * pivot.
   */
  method ScanDown(words: array<Word>, n: nat, zptr: array<nat>, i: nat, j: nat, pivot: nat, ghost b: seq<Byte>)
      returns (j': nat)
    requires Extended(words, b) && |b| == n && 16 <= n && zptr.Length == n && 0 < i <= j < n && pivot < n
    requires Bounded(zptr[..], n) && !RotGt(b, zptr[i - 1], pivot)
    ensures i - 1 <= j' < j && !RotGt(b, zptr[j'], pivot)
    ensures forall q :: j' < q < j ==> !RotGt(b, pivot, zptr[q])
  {
    j' := j - 1;
    var gt := FullGt(words, n, zptr[j'], pivot, b);
    while gt
      invariant i - 1 <= j' < j && gt == RotGt(b, zptr[j'], pivot)
      invariant forall q :: j' < q < j ==> !RotGt(b, pivot, zptr[q])
      decreases j'
    {
      RotGtAsym(b, zptr[j'], pivot);
      j' := j' - 1;
      gt := FullGt(words, n, zptr[j'], pivot, b);
    }
  }

  /** No entry of `s[lo .. hi)` sorts after the rotation at `x`. */
  ghost predicate NoneAfter(b: seq<Byte>, s: seq<nat>, lo: nat, hi: nat, x: nat)
  {
    x < |b| && hi <= |s| && forall p :: lo <= p < hi ==> s[p] < |b| && !RotGt(b, s[p], x)
  }

  /** No entry of `s[lo .. hi)` sorts before the rotation at `x`. */
  ghost predicate NoneBefore(b: seq<Byte>, s: seq<nat>, lo: nat, hi: nat, x: nat)
  {
    x < |b| && hi <= |s| && forall p :: lo <= p < hi ==> s[p] < |b| && !RotGt(b, x, s[p])
  }

  /**
   * The state of the partition loop: the pivot waits at `wuR - 1`; the
   * entries up to `i` sort no later than it, the entries from `j` on no
   * earlier; only the entries of the unit have moved since `z0`.
   */
  ghost predicate Partitioning(b: seq<Byte>, s: seq<nat>, z0: seq<nat>, n: nat, wuL: nat, wuR: nat,
                               i: nat, j: nat, pivot: nat)
  {
    |b| == n == |s| && wuL <= i < j <= wuR - 1 && wuR < n && pivot < n &&
    s[wuR - 1] == pivot && Rearranged(s, z0, n, wuL, wuR + 1) &&
    NoneAfter(b, s, wuL, i + 1, pivot) && NoneBefore(b, s, j, wuR + 1, pivot)
  }

  /** The partition loop has ended with the scans met at `i`. */
  ghost predicate PartitionDone(b: seq<Byte>, s: seq<nat>, z0: seq<nat>, n: nat, wuL: nat, wuR: nat,
                                i: nat, pivot: nat)
  {
    |b| == n == |s| && wuL < i <= wuR - 1 && wuR < n && pivot < n &&
    s[wuR - 1] == pivot && Rearranged(s, z0, n, wuL, wuR + 1) &&
    NoneAfter(b, s, wuL, i, pivot) && NoneBefore(b, s, i, wuR + 1, pivot)
  }

  /** The invariant of the partition loop, before and after the scans meet. */
  ghost predicate PartitionLoop(b: seq<Byte>, s: seq<nat>, z0: seq<nat>, n: nat, wuL: nat, wuR: nat,
                                i: nat, j: nat, pivot: nat, done: bool)
  {
    if done then PartitionDone(b, s, z0, n, wuL, wuR, i, pivot)
    else Partitioning(b, s, z0, n, wuL, wuR, i, j, pivot)
  }

  /** The median of three, moved next to the end of the unit, becomes the pivot. */
  method PartitionStart(words: array<Word>, n: nat, zptr: array<nat>, wuL: nat, wuR: nat, ghost b: seq<Byte>)
      returns (pivot: nat)
    requires Extended(words, b) && |b| == n && 16 <= n && zptr.Length == n
    requires wuL < wuR < n && wuR - wuL > IsortBelow && Bounded(zptr[..], n)
    modifies zptr
    ensures Partitioning(b, zptr[..], old(zptr[..]), n, wuL, wuR, wuL, wuR - 1, pivot)
  {
    var wuC := (wuL + wuR) / 2;
    Median3(words, n, zptr, wuL, wuC, wuR, b);
    ghost var s := zptr[..];
    Swap(zptr, wuC, wuR - 1);
    pivot := zptr[wuR - 1];
    PivotChosen(b, s, zptr[..], old(zptr[..]), n, wuL, wuC, wuR);
  }

  /** After the median of three, moving the median to `wuR - 1` starts the partition loop. */
  lemma PivotChosen(b: seq<Byte>, s: seq<nat>, t: seq<nat>, z0: seq<nat>, n: nat, wuL: nat, wuC: nat, wuR: nat)
    requires |b| == n == |s| && wuL < wuC < wuR - 1 && wuR < n
    requires Rearranged(s, z0, n, wuL, wuR + 1)
    requires !RotGt(b, s[wuL], s[wuC]) && !RotGt(b, s[wuC], s[wuR])
    requires t == s[wuC := s[wuR - 1]][wuR - 1 := s[wuC]] && multiset(t) == multiset(s)
    ensures Partitioning(b, t, z0, n, wuL, wuR, wuL, wuR - 1, t[wuR - 1])
  {
    RotGtIrreflexive(b, s[wuC]);
    assert t[wuL] == s[wuL] && t[wuR - 1] == s[wuC] && t[wuR] == s[wuR];
    assert Unmoved(t, s, wuL, wuR + 1);
  }

  /**
   * One round of the partition loop: both scans, then the swap of the
   * two entries they stopped at, unless they have met.
   */
  method PartitionRound(words: array<Word>, n: nat, zptr: array<nat>, wuL: nat, wuR: nat,
                        i: nat, j: nat, pivot: nat, ghost b: seq<Byte>, ghost z0: seq<nat>)
      returns (i': nat, j': nat, done: bool)
    requires Extended(words, b) && 16 <= n && zptr.Length == n
    requires Partitioning(b, zptr[..], z0, n, wuL, wuR, i, j, pivot)
    modifies zptr
    ensures PartitionLoop(b, zptr[..], z0, n, wuL, wuR, i', j', pivot, done)
    ensures !done ==> j' - i' < j - i
  {
    i' := ScanUp(words, n, zptr, i, j, pivot, b);
    j' := ScanDown(words, n, zptr, i', j, pivot, b);
    ghost var s := zptr[..];
    if i' >= j' {
      ScansMet(b, s, z0, n, wuL, wuR, i, j, i', j', pivot);
      return i', j', true;
    }
    Swap(zptr, i', j');
    done := false;
    SwapKeeps(b, s, zptr[..], z0, n, wuL, wuR, i, j, i', j', pivot);
  }

  /** Scans that have met end the partition loop. */
  lemma ScansMet(b: seq<Byte>, s: seq<nat>, z0: seq<nat>, n: nat, wuL: nat, wuR: nat,
                 i: nat, j: nat, i': nat, j': nat, pivot: nat)
    requires Partitioning(b, s, z0, n, wuL, wuR, i, j, pivot)
    requires i < i' <= j && j' < j && j' <= i'
    requires !RotGt(b, pivot, s[i'])
    requires forall p :: i < p < i' ==> !RotGt(b, s[p], pivot)
    requires forall q :: j' < q < j ==> !RotGt(b, pivot, s[q])
    ensures PartitionDone(b, s, z0, n, wuL, wuR, i', pivot)
  {
  }

  /** Swapping the two entries the scans stopped at extends both sides of the partition. */
  lemma SwapKeeps(b: seq<Byte>, s: seq<nat>, t: seq<nat>, z0: seq<nat>, n: nat, wuL: nat, wuR: nat,
                  i: nat, j: nat, i': nat, j': nat, pivot: nat)
    requires Partitioning(b, s, z0, n, wuL, wuR, i, j, pivot)
    requires i < i' < j' < j && t == s[i' := s[j']][j' := s[i']] && multiset(t) == multiset(s)
    requires !RotGt(b, pivot, s[i']) && !RotGt(b, s[j'], pivot)
    requires forall p :: i < p < i' ==> !RotGt(b, s[p], pivot)
    requires forall q :: j' < q < j ==> !RotGt(b, pivot, s[q])
    ensures Partitioning(b, t, z0, n, wuL, wuR, i', j', pivot)
  {
  }

  /**
   * The partition of a large work unit, from the median of three to the
   * final `SWAP(i, wuR - 1)`: the pivot ends at `i`, the entries before it
   * sort no later than it, the entries after it no earlier, and only the
   * unit's entries have moved.
   */
  method Partition(words: array<Word>, n: nat, zptr: array<nat>, wuL: nat, wuR: nat, ghost b: seq<Byte>)
      returns (i: nat)
    requires Extended(words, b) && |b| == n && 16 <= n && zptr.Length == n
    requires wuL < wuR < n && wuR - wuL > IsortBelow && Bounded(zptr[..], n)
    modifies zptr
    ensures Rearranged(zptr[..], old(zptr[..]), n, wuL, wuR + 1)
    ensures PivotSplit(b, zptr[..], wuL, i, wuR)
  {
    var pivot := PartitionStart(words, n, zptr, wuL, wuR, b);
    i := wuL;
    var j: nat := wuR - 1;
    var done := false;
    while !done
      invariant PartitionLoop(b, zptr[..], old(zptr[..]), n, wuL, wuR, i, j, pivot, done)
      decreases !done, j - i
    {
      i, j, done := PartitionRound(words, n, zptr, wuL, wuR, i, j, pivot, b, old(zptr[..]));
    }
    ghost var s := zptr[..];
    Swap(zptr, i, wuR - 1);
    PivotPlaced(b, s, zptr[..], old(zptr[..]), n, wuL, wuR, i, pivot);
  }

  /** The final swap puts the pivot between the two sides. */
  lemma PivotPlaced(b: seq<Byte>, s: seq<nat>, t: seq<nat>, z0: seq<nat>, n: nat, wuL: nat, wuR: nat,
                    i: nat, pivot: nat)
    requires PartitionDone(b, s, z0, n, wuL, wuR, i, pivot)
    requires t == s[i := s[wuR - 1]][wuR - 1 := s[i]] && multiset(t) == multiset(s)
    ensures Rearranged(t, z0, n, wuL, wuR + 1) && PivotSplit(b, t, wuL, i, wuR)
  {
    assert t[i] == pivot;
  }

  // ---------------------------------------------------------------------
  // qsortFull

  /** The entry at `i` splits `s[lo .. hi]`: no entry before it sorts after it, none after it before it. */
  ghost predicate PivotSplit(b: seq<Byte>, s: seq<nat>, lo: nat, i: nat, hi: nat)
  {
    lo < i < hi < |s| && s[i] < |b| && NoneAfter(b, s, lo, i, s[i]) && NoneBefore(b, s, i + 1, hi + 1, s[i])
  }

  /** Whether a slice sorts no later than `x` only depends on its entries. */
  lemma NoneAfterSame(b: seq<Byte>, s: seq<nat>, t: seq<nat>, lo: nat, hi: nat, x: nat)
    requires NoneAfter(b, s, lo, hi, x) && lo <= hi <= |t| && multiset(t[lo..hi]) == multiset(s[lo..hi])
    ensures NoneAfter(b, t, lo, hi, x)
  {
    forall p | lo <= p < hi
      ensures t[p] < |b| && !RotGt(b, t[p], x)
    {
      assert t[lo..hi][p - lo] == t[p];
      assert t[p] in multiset(s[lo..hi]);
      var p' :| 0 <= p' < hi - lo && s[lo..hi][p'] == t[p];
      assert s[lo + p'] == t[p];
    }
  }

  /** Whether a slice sorts no earlier than `x` only depends on its entries. */
  lemma NoneBeforeSame(b: seq<Byte>, s: seq<nat>, t: seq<nat>, lo: nat, hi: nat, x: nat)
    requires NoneBefore(b, s, lo, hi, x) && lo <= hi <= |t| && multiset(t[lo..hi]) == multiset(s[lo..hi])
    ensures NoneBefore(b, t, lo, hi, x)
  {
    forall p | lo <= p < hi
      ensures t[p] < |b| && !RotGt(b, x, t[p])
    {
      assert t[lo..hi][p - lo] == t[p];
      assert t[p] in multiset(s[lo..hi]);
      var p' :| 0 <= p' < hi - lo && s[lo..hi][p'] == t[p];
      assert s[lo + p'] == t[p];
    }
  }

  /** Sorting each side of a split unit in place keeps the pivot's split. */
  lemma SplitKept(b: seq<Byte>, z1: seq<nat>, z2: seq<nat>, lo: nat, i: nat, hi: nat)
    requires PivotSplit(b, z1, lo, i, hi) && |z2| == |z1| && z2[i] == z1[i]
    requires multiset(z2[lo..i]) == multiset(z1[lo..i])
    requires multiset(z2[i + 1..hi + 1]) == multiset(z1[i + 1..hi + 1])
    ensures PivotSplit(b, z2, lo, i, hi)
  {
    NoneAfterSame(b, z1, z2, lo, i, z1[i]);
    NoneBeforeSame(b, z1, z2, i + 1, hi + 1, z1[i]);
  }

  /**
   * A split unit whose two sides are sorted is sorted: every entry left
   * of the pivot sorts no later than it, every entry right of it no
   * earlier.
   */
  lemma Combine(b: seq<Byte>, s: seq<nat>, lo: nat, i: nat, hi: nat)
    requires PivotSplit(b, s, lo, i, hi)
    requires SortedBetween(b, s, lo, i) && SortedBetween(b, s, i + 1, hi + 1)
    ensures SortedBetween(b, s, lo, hi + 1)
  {
    forall p, q | lo <= p < q <= hi
      ensures !RotGt(b, s[p], s[q])
    {
      if p < i < q {
        RotLeqTrans(b, s[p], s[i], s[q]);
      }
    }
  }

  /**
   * Two sorts in place, one after the other, on disjoint slices `[a1, e1)`
   * and `[a2, e2)`: each slice ends with the entries it started with.
   */
  lemma TwoSides(z1: seq<nat>, zm: seq<nat>, z2: seq<nat>, n: nat, a1: nat, e1: nat, a2: nat, e2: nat)
    requires a1 <= e1 <= |z1| && a2 <= e2 <= |z1| && (e1 <= a2 || e2 <= a1)
    requires Rearranged(zm, z1, n, a1, e1) && Rearranged(z2, zm, n, a2, e2)
    ensures multiset(z2[a1..e1]) == multiset(z1[a1..e1])
    ensures multiset(z2[a2..e2]) == multiset(z1[a2..e2])
  {
    SliceMultiset(zm, z1, a1, e1);
    SliceMultiset(z2, zm, a2, e2);
    assert z2[a1..e1] == zm[a1..e1];
    assert zm[a2..e2] == z1[a2..e2];
  }

  /** Rearranging inside `[lo, hi)`, then inside a part of it, is rearranging inside `[lo, hi)`. */
  lemma RearrangedTrans(s: seq<nat>, t: seq<nat>, u: seq<nat>, n: nat, lo: nat, hi: nat, lo': nat, hi': nat)
    requires Rearranged(t, u, n, lo, hi) && Rearranged(s, t, n, lo', hi') && lo <= lo' && hi' <= hi
    ensures Rearranged(s, u, n, lo, hi)
  {
  }

  /**
   * After the partition of `[lo, hi]` around `i` and the sorts of its two
   * sides, in either order, the unit is sorted and only its entries have
   * moved.
   */
  lemma Settle(b: seq<Byte>, n: nat, z0: seq<nat>, z1: seq<nat>, zm: seq<nat>, z2: seq<nat>,
               lo: nat, i: nat, hi: nat, a1: nat, e1: nat, a2: nat, e2: nat)
    requires (a1 == i + 1 && e1 == hi + 1 && a2 == lo && e2 == i) ||
             (a1 == lo && e1 == i && a2 == i + 1 && e2 == hi + 1)
    requires Rearranged(z1, z0, n, lo, hi + 1) && PivotSplit(b, z1, lo, i, hi)
    requires Rearranged(zm, z1, n, a1, e1) && SortedBetween(b, zm, a1, e1)
    requires Rearranged(z2, zm, n, a2, e2) && SortedBetween(b, z2, a2, e2)
    ensures Rearranged(z2, z0, n, lo, hi + 1) && SortedBetween(b, z2, lo, hi + 1)
  {
    TwoSides(z1, zm, z2, n, a1, e1, a2, e2);
    SortedFrame(b, zm, z2, a1, e1);
    RearrangedTrans(zm, z1, z0, n, lo, hi + 1, a1, e1);
    RearrangedTrans(z2, zm, z0, n, lo, hi + 1, a2, e2);
    assert z2[i] == z1[i];
    SplitKept(b, z1, z2, lo, i, hi);
    Combine(b, z2, lo, i, hi);
  }

  /**
   * `qsortFull(wuL, wuR)`: the entries of `zptr[wuL .. wuR]` end in
   * rotation order, still the same entries, and nothing outside the unit
   * changes.  The source keeps the work units still to do on an explicit
   * stack, pushing one side of each partition and carrying on with the
   * other; the recursion here sorts the same sides in the same order.
   */
  method QsortFull(words: array<Word>, n: nat, zptr: array<nat>, wuL: nat, wuR: nat, ghost b: seq<Byte>)
    requires Extended(words, b) && |b| == n && 16 <= n && zptr.Length == n && wuL <= wuR < n
    requires Bounded(zptr[..], n)
    modifies zptr
    ensures Rearranged(zptr[..], old(zptr[..]), n, wuL, wuR + 1)
    ensures SortedBetween(b, zptr[..], wuL, wuR + 1)
    decreases wuR - wuL
  {
    if wuR - wuL > IsortBelow {
      ghost var z0 := zptr[..];
      var i := Partition(words, n, zptr, wuL, wuR, b);
      ghost var z1 := zptr[..];
      if 2 * i > wuL + wuR {
        QsortFull(words, n, zptr, i + 1, wuR, b);
        ghost var zm := zptr[..];
        QsortFull(words, n, zptr, wuL, i - 1, b);
        Settle(b, n, z0, z1, zm, zptr[..], wuL, i, wuR, i + 1, wuR + 1, wuL, i);
      } else {
        QsortFull(words, n, zptr, wuL, i - 1, b);
        ghost var zm := zptr[..];
        QsortFull(words, n, zptr, i + 1, wuR, b);
        Settle(b, n, z0, z1, zm, zptr[..], wuL, i, wuR, wuL, i, i + 1, wuR + 1);
      }
    } else {
      IsortUnit(words, n, zptr, wuL, wuR, b);
    }
  }
}
