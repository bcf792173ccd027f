/**
 * `sortIt` and `doReversibleTransformation` of compress.c: the block
 * sorter for blocks of more than 1024 bytes.  After `stripe`, a counting
 * sort on the first two bytes of every rotation (`GETFIRST16`) splits
 * `zptr` into 65536 buckets, one per two-byte key, in key order; the
 * first sixteen words are copied past the block so that `fullGt` can read
 * on; then the buckets are quicksorted, the small ones first, in five
 * grades of bucket size.  The transform then looks up where the rotation
 * from position 0 ended: `origPtr`.
 */
module BlockSort {
  import opened Common
  import opened Words
  import opened Sort
  import opened Qsort
  import opened Counting
  import Mtf
  import Unbwt
  import Bwt

  /** `MEMBS_OF(ftab)`: one counter per two-byte key, and one past the last. */
  const FtabSize: nat := 0x1_0001

  /** The number of two-byte keys. */
  const KeyCount: nat := 0x1_0000

  /** `4 * NUM_FULLGT_UNROLLINGS`: the words copied past the block for `fullGt`. */
  const CopiedWords: nat := 16

  /** The largest block: nine times 100000 bytes. */
  const MaxBlock: nat := 900000

  /** Blocks up to this size are Shell-sorted with `shellTrivial`. */
  const TrivialUpTo: nat := 1024

  // ---------------------------------------------------------------------
  // Keys and buckets

  /** The bucket key of rotation `k`: `GETFIRST16` of its striped word, its first two bytes. */
  function Key(b: seq<Byte>, k: nat): (r: nat)
    requires 0 < |b|
    ensures r == 0x100 * Circ(b, k, 0) + Circ(b, k, 1) && r < KeyCount
  {
    GetFirst16(StripeWord(b, k))
  }

  /** The keys of all rotations of the block. */
  function Keys(b: seq<Byte>): (keys: seq<nat>)
    requires 0 < |b|
    ensures |keys| == |b| && forall k :: 0 <= k < |b| ==> keys[k] == Key(b, k)
  {
    seq(|b|, k requires 0 <= k < |b| => Key(b, k))
  }

  /** Position `p` of `zptr` lies in the bucket of key `c`. */
  ghost predicate InBucket(keys: seq<nat>, p: nat, c: nat)
  {
    CountBelow(keys, c) <= p < CountBelow(keys, c + 1)
  }

  /** All keys are counted below `KeyCount`: the buckets fill `zptr` exactly. */
  lemma BucketsFill(keys: seq<nat>)
    requires forall k :: 0 <= k < |keys| ==> keys[k] < KeyCount
    ensures CountBelow(keys, KeyCount) == |keys|
  {
    CountBelowIsSmaller(keys, KeyCount);
    SmallerAll(keys, KeyCount);
  }

  /** The bucket of a lower key ends before the bucket of a higher key starts. */
  lemma BucketsApart(keys: seq<nat>, c: nat, d: nat)
    requires c < d
    ensures CountBelow(keys, c + 1) <= CountBelow(keys, d)
  {
    CountBelowMono(keys, c + 1, d);
  }

  /**
   * The slot the placement loop gives position `j`: the buckets are
   * filled from their top down, in order of position.
   */
  ghost function Slot(keys: seq<nat>, j: nat): int
    requires j < |keys|
  {
    CountBelow(keys, keys[j] + 1) - 1 - Occurrence(keys, j)
  }

  /** Every position is placed inside the bucket of its key. */
  lemma SlotInBucket(keys: seq<nat>, j: nat)
    requires j < |keys|
    ensures 0 <= Slot(keys, j) && InBucket(keys, Slot(keys, j), keys[j])
  {
    var c := keys[j];
    CountSnoc(keys, j, c);
    CountPrefix(keys, j + 1, c);
    assert CountBelow(keys, c + 1) == CountBelow(keys, c) + Count(keys, c);
  }

  /** No two positions are placed in the same slot. */
  lemma SlotInjective(keys: seq<nat>, i: nat, j: nat)
    requires i < |keys| && j < |keys| && i != j
    ensures Slot(keys, i) != Slot(keys, j)
  {
    SlotInBucket(keys, i);
    SlotInBucket(keys, j);
    if keys[i] == keys[j] {
      if i < j {
        OccurrenceOrder(keys, i, j);
      } else {
        OccurrenceOrder(keys, j, i);
      }
    } else if keys[i] < keys[j] {
      BucketsApart(keys, keys[i], keys[j]);
    } else {
      BucketsApart(keys, keys[j], keys[i]);
    }
  }

  /**
   * `zptr` split into buckets: a permutation of the positions of the
   * block in which every bucket holds the positions of its key.
   */
  ghost predicate Bucketed(keys: seq<nat>, z: seq<nat>, n: nat)
  {
    |z| == n == |keys| && Bounded(z, n) && IsPermutation(z, n) &&
    (forall k :: 0 <= k < n ==> keys[k] < KeyCount) &&
    forall c: nat, p: nat :: c < KeyCount && p < n && InBucket(keys, p, c) ==> keys[z[p]] == c
  }

  /**
   * Once every position `j` is at its slot, `zptr` is split into buckets:
   * the slots are distinct and below `n`, so by pigeonhole they are all
   * the positions of `zptr`.
   */
  lemma Placed(keys: seq<nat>, z: seq<nat>, n: nat)
    requires |z| == n == |keys| && forall k :: 0 <= k < n ==> keys[k] < KeyCount
    requires forall j :: 0 <= j < n ==> 0 <= Slot(keys, j) < n && z[Slot(keys, j)] == j
    ensures Bucketed(keys, z, n)
  {
    var slots := seq(n, j requires 0 <= j < n => Slot(keys, j) as nat);
    forall j, k | 0 <= j < k < n
      ensures slots[j] != slots[k]
    {
      SlotInjective(keys, j, k);
    }
    Pigeonhole(slots, n);
    forall p | 0 <= p < n
      ensures z[p] < n && Slot(keys, z[p]) == p
    {
      assert Range(n)[p] == p;
      assert p in multiset(slots);
      var j :| 0 <= j < n && slots[j] == p;
    }
    forall j, k | 0 <= j < k < n
      ensures z[j] != z[k]
    {
    }
    Pigeonhole(z, n);
    forall c: nat, p: nat | c < KeyCount && p < n && InBucket(keys, p, c)
      ensures keys[z[p]] == c
    {
      BucketsFill(keys);
      CountBelowMono(keys, c + 1, KeyCount);
      var j := z[p];
      SlotInBucket(keys, j);
      if keys[j] < c {
        BucketsApart(keys, keys[j], c);
      } else if c < keys[j] {
        BucketsApart(keys, c, keys[j]);
      }
    }
  }

  // ---------------------------------------------------------------------
  // The counting sort of sortIt

  /** `ftab[GETFIRST16(i)]++` for every position: `ftab` counts the keys. */
  method CountKeys(words: array<Word>, n: nat, ftab: array<nat>, ghost b: seq<Byte>)
    requires |b| == n && 0 < n <= words.Length && ftab.Length == FtabSize
    requires forall k :: 0 <= k < n ==> words[k] == StripeWord(b, k)
    modifies ftab
    ensures forall c :: 0 <= c < FtabSize ==> ftab[c] == Count(Keys(b), c)
  {
    ghost var keys := Keys(b);
    forall c | 0 <= c < FtabSize {
      ftab[c] := 0;
    }
    for i := 0 to n
      invariant forall c :: 0 <= c < FtabSize ==> ftab[c] == Count(keys[..i], c)
    {
      var key := GetFirst16(words[i]);
      CountEach(keys, i);
      ftab[key] := ftab[key] + 1;
    }
    assert keys[..n] == keys;
  }

  /** Counting one more position adds one to the count of its key and nothing else. */
  lemma CountEach(keys: seq<nat>, i: nat)
    requires i < |keys|
    ensures forall c :: Count(keys[..i + 1], c) == Count(keys[..i], c) + if keys[i] == c then 1 else 0
  {
    forall c {
      CountSnoc(keys, i, c);
    }
  }

  /** `ftab[i] += ftab[i - 1]`: each counter becomes the number of keys up to its own. */
  method SumKeys(ftab: array<nat>, ghost keys: seq<nat>)
    requires ftab.Length == FtabSize && forall c :: 0 <= c < FtabSize ==> ftab[c] == Count(keys, c)
    modifies ftab
    ensures forall c :: 0 <= c < FtabSize ==> ftab[c] == CountBelow(keys, c + 1)
  {
    for i := 1 to FtabSize
      invariant forall c :: 0 <= c < i ==> ftab[c] == CountBelow(keys, c + 1)
      invariant forall c :: i <= c < FtabSize ==> ftab[c] == Count(keys, c)
    {
      ftab[i] := ftab[i] + ftab[i - 1];
    }
  }

  /** The state of the placement loop after `i` positions: each one at its slot, the counters lowered for them. */
  ghost predicate Placing(keys: seq<nat>, z: seq<nat>, f: seq<nat>, i: nat, n: nat)
  {
    |f| == FtabSize && |z| == n == |keys| && i <= n &&
    (forall c :: 0 <= c < FtabSize ==> f[c] == CountBelow(keys, c + 1) - Count(keys[..i], c)) &&
    (forall j :: 0 <= j < i ==> 0 <= Slot(keys, j) < n && z[Slot(keys, j)] == j)
  }

  /** `f = --ftab[GETFIRST16(i)]; zptr[f] = i;` for one position. */
  method PlaceStep(words: array<Word>, n: nat, zptr: array<nat>, ftab: array<nat>, i: nat, ghost b: seq<Byte>)
    requires |b| == n && i < n <= words.Length && words[i] == StripeWord(b, i)
    requires Placing(Keys(b), zptr[..], ftab[..], i, n) && zptr != ftab
    modifies zptr, ftab
    ensures Placing(Keys(b), zptr[..], ftab[..], i + 1, n)
  {
    ghost var keys, z, f := Keys(b), zptr[..], ftab[..];
    var key := GetFirst16(words[i]);
    assert key == keys[i];
    PlacingStep(keys, z, f, i, n);
    ftab[key] := ftab[key] - 1;
    zptr[ftab[key]] := i;
    assert ftab[..] == f[key := f[key] - 1];
    assert zptr[..] == z[Slot(keys, i) := i];
  }

  /** Placing position `i` at its slot, lowering its counter, keeps the placement state. */
  lemma PlacingStep(keys: seq<nat>, z: seq<nat>, f: seq<nat>, i: nat, n: nat)
    requires Placing(keys, z, f, i, n) && i < n && forall k :: 0 <= k < n ==> keys[k] < KeyCount
    ensures 0 < f[keys[i]] && f[keys[i]] - 1 == Slot(keys, i) < n
    ensures Placing(keys, z[Slot(keys, i) := i], f[keys[i] := f[keys[i]] - 1], i + 1, n)
  {
    PlaceOne(keys, i, n);
    CountEach(keys, i);
  }

  /**
   * The placement loop of `sortIt`: every position goes to its slot, and
   * each counter ends at the start of its bucket.
   */
  method PlaceKeys(words: array<Word>, n: nat, zptr: array<nat>, ftab: array<nat>, ghost b: seq<Byte>)
    requires |b| == n && 0 < n <= words.Length && zptr.Length == n && ftab.Length == FtabSize
    requires forall k :: 0 <= k < n ==> words[k] == StripeWord(b, k)
    requires forall c :: 0 <= c < FtabSize ==> ftab[c] == CountBelow(Keys(b), c + 1)
    requires zptr != ftab
    modifies zptr, ftab
    ensures forall c :: 0 <= c < FtabSize ==> ftab[c] == CountBelow(Keys(b), c)
    ensures Bucketed(Keys(b), zptr[..], n)
  {
    ghost var keys := Keys(b);
    assert Placing(keys, zptr[..], ftab[..], 0, n);
    for i := 0 to n
      invariant Placing(keys, zptr[..], ftab[..], i, n)
    {
      PlaceStep(words, n, zptr, ftab, i, b);
    }
    PlacedAll(keys, zptr[..], ftab[..], n);
  }

  /** After the last position the counters stand at the starts of the buckets. */
  lemma PlacedAll(keys: seq<nat>, z: seq<nat>, f: seq<nat>, n: nat)
    requires Placing(keys, z, f, n, n) && forall k :: 0 <= k < n ==> keys[k] < KeyCount
    ensures forall c :: 0 <= c < FtabSize ==> f[c] == CountBelow(keys, c)
    ensures Bucketed(keys, z, n)
  {
    assert keys[..n] == keys;
    Placed(keys, z, n);
  }

  /** The slot of position `i` is free and lies in the block. */
  lemma PlaceOne(keys: seq<nat>, i: nat, n: nat)
    requires i < |keys| == n && forall k :: 0 <= k < n ==> keys[k] < KeyCount
    ensures 0 <= Slot(keys, i) < n && Slot(keys, i) == CountBelow(keys, keys[i] + 1) - Count(keys[..i], keys[i]) - 1
    ensures forall j :: 0 <= j < i ==> Slot(keys, j) != Slot(keys, i)
  {
    SlotInBucket(keys, i);
    BucketsFill(keys);
    CountBelowMono(keys, keys[i] + 1, KeyCount);
    forall j | 0 <= j < i
      ensures Slot(keys, j) != Slot(keys, i)
    {
      SlotInjective(keys, j, i);
    }
  }

  // ---------------------------------------------------------------------
  // The copy past the block

  /** The striped word at `p` repeats one block further on. */
  lemma StripePeriodic(b: seq<Byte>, p: nat)
    requires 0 < |b|
    ensures StripeWord(b, p + |b|) == StripeWord(b, p)
  {
    assert Reduce(p + |b|, |b|) == Reduce(p, |b|);
    CircSame(b, p + |b|, p, 0);
    CircSame(b, p + |b|, p, 1);
    CircSame(b, p + |b|, p, 2);
    CircSame(b, p + |b|, p, 3);
  }

  /**
   * `memcpy(&words[words_end], words, ...)`: the first sixteen striped
   * words copied past the block, so that every word `fullGt` reads holds
   * the four bytes from its position on, circularly.
   */
  method CopyHead(words: array<Word>, n: nat, ghost b: seq<Byte>)
    requires |b| == n && CopiedWords <= n && n + CopiedWords <= words.Length
    requires forall k :: 0 <= k < n ==> words[k] == StripeWord(b, k)
    modifies words
    ensures Extended(words, b)
    ensures forall k :: 0 <= k < n ==> words[k] == old(words[k])
  {
    forall k | 0 <= k < CopiedWords {
      words[n + k] := words[k];
    }
    forall p | n <= p < n + CopiedWords
      ensures words[p] == StripeWord(b, p)
    {
      StripePeriodic(b, p - n);
    }
  }

  // ---------------------------------------------------------------------
  // The grades

  /** One entry of `bounds[]`: the bucket sizes a grade sorts. */
  datatype Grade = Grade(lo: nat, hi: nat)

  /** `bounds[]` without its terminating `{ 0, 0 }`: each grade starts one past the end of the one before. */
  const Grades: seq<Grade> := [Grade(2, 15), Grade(16, 255), Grade(256, 4095), Grade(4096, 65535), Grade(65536, 900000)]

  /** The bucket sizes that need no sort, or that the grades before `g` have sorted. */
  function Reach(g: nat): (r: nat)
    requires g <= |Grades|
    ensures g < |Grades| ==> Grades[g].lo == r + 1 && r < Grades[g].hi
    ensures g == |Grades| ==> r == MaxBlock
  {
    if g == 0 then 1 else Grades[g - 1].hi
  }

  /** The bucket of key `c` is in rotation order. */
  ghost predicate BucketSorted(b: seq<Byte>, keys: seq<nat>, z: seq<nat>, c: nat)
  {
    SortedBetween(b, z, CountBelow(keys, c), CountBelow(keys, c + 1))
  }

  /** The bucket of key `c` needs no sort, or has had its sort by the time bucket `cc` of grade `g` is reached. */
  ghost predicate Handled(keys: seq<nat>, g: nat, cc: nat, c: nat)
    requires g <= |Grades|
  {
    c < KeyCount &&
    (Count(keys, c) <= Reach(g) || (c < cc && g < |Grades| && Count(keys, c) <= Grades[g].hi))
  }

  /**
   * The state of the grade loops before bucket `cc` of grade `g`: `zptr`
   * is split into buckets; those no larger than `Reach(g)` are sorted, and
   * so are those of grade `g` before `cc`.
   */
  ghost predicate Graded(b: seq<Byte>, keys: seq<nat>, z: seq<nat>, n: nat, g: nat, cc: nat)
  {
    g <= |Grades| && Bucketed(keys, z, n) &&
    forall c :: Handled(keys, g, cc, c) ==> BucketSorted(b, keys, z, c)
  }

  /** A bucket outside the grade being sorted is passed over. */
  lemma GradeSkip(b: seq<Byte>, keys: seq<nat>, z: seq<nat>, n: nat, g: nat, cc: nat)
    requires Graded(b, keys, z, n, g, cc) && g < |Grades| && cc < KeyCount
    requires !(Grades[g].lo <= Count(keys, cc) <= Grades[g].hi)
    ensures Graded(b, keys, z, n, g, cc + 1)
  {
  }

  /** The entries of a bucket with the same entries as before still have the bucket's key. */
  lemma SameKeys(keys: seq<nat>, z: seq<nat>, z': seq<nat>, lo: nat, hi: nat, c: nat)
    requires lo <= hi <= |z| == |z'| && multiset(z'[lo..hi]) == multiset(z[lo..hi])
    requires forall p :: lo <= p < hi ==> z[p] < |keys| && keys[z[p]] == c
    ensures forall p :: lo <= p < hi ==> z'[p] < |keys| && keys[z'[p]] == c
  {
    forall p | lo <= p < hi
      ensures z'[p] < |keys| && keys[z'[p]] == c
    {
      assert z'[lo..hi][p - lo] == z'[p];
      assert z'[p] in multiset(z[lo..hi]);
      var p' :| 0 <= p' < hi - lo && z[lo..hi][p'] == z'[p];
      assert z[lo + p'] == z'[p];
    }
  }

  /** Sorting one bucket in place keeps `zptr` split into buckets. */
  lemma StillBucketed(keys: seq<nat>, z: seq<nat>, z': seq<nat>, n: nat, cc: nat)
    requires Bucketed(keys, z, n) && cc < KeyCount
    requires Rearranged(z', z, n, CountBelow(keys, cc), CountBelow(keys, cc + 1))
    ensures Bucketed(keys, z', n)
  {
    var lo, hi := CountBelow(keys, cc), CountBelow(keys, cc + 1);
    BucketsFill(keys);
    CountBelowMono(keys, cc + 1, KeyCount);
    SliceMultiset(z', z, lo, hi);
    forall p | lo <= p < hi
      ensures z[p] < |keys| && keys[z[p]] == cc
    {
      assert InBucket(keys, p, cc);
    }
    SameKeys(keys, z, z', lo, hi, cc);
    forall c: nat, p: nat | c < KeyCount && p < n && InBucket(keys, p, c)
      ensures keys[z'[p]] == c
    {
      if c < cc {
        BucketsApart(keys, c, cc);
      } else if cc < c {
        BucketsApart(keys, cc, c);
      }
    }
  }

  /** Sorting one bucket in place leaves every other bucket as it was. */
  lemma OthersKept(b: seq<Byte>, keys: seq<nat>, z: seq<nat>, z': seq<nat>, n: nat, cc: nat, c: nat)
    requires |keys| == n && cc < KeyCount && c < KeyCount && c != cc && BucketSorted(b, keys, z, c)
    requires Rearranged(z', z, n, CountBelow(keys, cc), CountBelow(keys, cc + 1))
    ensures BucketSorted(b, keys, z', c)
  {
    if c < cc {
      BucketsApart(keys, c, cc);
    } else {
      BucketsApart(keys, cc, c);
    }
    SortedFrame(b, z, z', CountBelow(keys, c), CountBelow(keys, c + 1));
  }

  /** A bucket of grade `g` that has just been sorted joins the sorted ones. */
  lemma GradeStep(b: seq<Byte>, keys: seq<nat>, z: seq<nat>, z': seq<nat>, n: nat, g: nat, cc: nat)
    requires Graded(b, keys, z, n, g, cc) && g < |Grades| && cc < KeyCount
    requires Rearranged(z', z, n, CountBelow(keys, cc), CountBelow(keys, cc + 1))
    requires BucketSorted(b, keys, z', cc)
    ensures Graded(b, keys, z', n, g, cc + 1)
  {
    StillBucketed(keys, z, z', n, cc);
    forall c: nat | Handled(keys, g, cc + 1, c) && c != cc
      ensures BucketSorted(b, keys, z', c)
    {
      OthersKept(b, keys, z, z', n, cc, c);
    }
  }

  /**
   * One grade: every bucket whose size is in the grade is quicksorted,
   * from the lowest key up; the other buckets are passed over.
   */
  method SortGrade(words: array<Word>, n: nat, zptr: array<nat>, ftab: array<nat>, g: nat, ghost b: seq<Byte>)
    requires Extended(words, b) && |b| == n && CopiedWords <= n && zptr.Length == n && g < |Grades|
    requires ftab.Length == FtabSize && forall c :: 0 <= c < FtabSize ==> ftab[c] == CountBelow(Keys(b), c)
    requires Graded(b, Keys(b), zptr[..], n, g, 0) && zptr != ftab
    modifies zptr
    ensures Graded(b, Keys(b), zptr[..], n, g, KeyCount)
  {
    ghost var keys := Keys(b);
    for c := 0 to KeyCount
      invariant Graded(b, keys, zptr[..], n, g, c)
    {
      GradeBucket(words, n, zptr, ftab, g, c, b);
    }
  }

  /** One bucket of a grade: `qsortFull(*lower, *upper - 1)` when its size is in the grade. */
  method GradeBucket(words: array<Word>, n: nat, zptr: array<nat>, ftab: array<nat>, g: nat, c: nat,
                     ghost b: seq<Byte>)
    requires Extended(words, b) && |b| == n && CopiedWords <= n && zptr.Length == n && g < |Grades|
    requires ftab.Length == FtabSize && forall c :: 0 <= c < FtabSize ==> ftab[c] == CountBelow(Keys(b), c)
    requires c < KeyCount && Graded(b, Keys(b), zptr[..], n, g, c) && zptr != ftab
    modifies zptr
    ensures Graded(b, Keys(b), zptr[..], n, g, c + 1)
  {
    ghost var keys := Keys(b);
    var lower, upper := ftab[c], ftab[c + 1];
    assert upper - lower == Count(keys, c);
    var freqHere := upper - lower;
    if !(Grades[g].lo <= freqHere <= Grades[g].hi) {
      GradeSkip(b, keys, zptr[..], n, g, c);
      return;
    }
    BucketsFill(keys);
    CountBelowMono(keys, c + 1, KeyCount);
    ghost var z := zptr[..];
    QsortFull(words, n, zptr, lower, upper - 1, b);
    GradeStep(b, keys, z, zptr[..], n, g, c);
  }

  /** Before the first grade only the buckets of at most one entry count as sorted, and they are. */
  lemma GradedStart(b: seq<Byte>, keys: seq<nat>, z: seq<nat>, n: nat)
    requires Bucketed(keys, z, n) && |b| == n
    ensures Graded(b, keys, z, n, 0, 0)
  {
    forall c: nat | Handled(keys, 0, 0, c)
      ensures BucketSorted(b, keys, z, c)
    {
      BucketsFill(keys);
      CountBelowMono(keys, c + 1, KeyCount);
      assert CountBelow(keys, c + 1) == CountBelow(keys, c) + Count(keys, c);
    }
  }

  /** After all buckets of grade `g`, the buckets up to its largest size are sorted. */
  lemma GradeNext(b: seq<Byte>, keys: seq<nat>, z: seq<nat>, n: nat, g: nat)
    requires g < |Grades| && Graded(b, keys, z, n, g, KeyCount)
    ensures Graded(b, keys, z, n, g + 1, 0)
  {
    forall c: nat | Handled(keys, g + 1, 0, c)
      ensures BucketSorted(b, keys, z, c)
    {
      assert Handled(keys, g, KeyCount, c);
    }
  }

  /**
   * The grade loop stops after the last grade, or at the first grade
   * whose smallest size exceeds the block: either way every bucket is
   * sorted.
   */
  lemma GradesDone(b: seq<Byte>, keys: seq<nat>, z: seq<nat>, n: nat, g: nat)
    requires Graded(b, keys, z, n, g, 0) && n <= MaxBlock
    requires g == |Grades| || n < Grades[g].lo
    ensures forall c :: 0 <= c < KeyCount ==> BucketSorted(b, keys, z, c)
  {
    forall c | 0 <= c < KeyCount
      ensures BucketSorted(b, keys, z, c)
    {
      assert Handled(keys, g, 0, c);
    }
  }

  /** A rotation with a smaller key sorts before one with a larger key. */
  lemma KeyOrder(b: seq<Byte>, i: nat, j: nat)
    requires 2 <= |b| && i < |b| && j < |b| && Key(b, i) < Key(b, j)
    ensures RotGt(b, j, i) && !RotGt(b, i, j)
  {
    var ri, rj := Rot(b, i), Rot(b, j);
    if Circ(b, i, 0) == Circ(b, j, 0) {
      LexFirstDiff(ri, rj, 1);
    } else {
      LexFirstDiff(ri, rj, 0);
    }
    LexAsym(ri, rj);
  }

  /** The bucket that position `p` lies in, searched from key `c` up. */
  ghost function BucketOf(keys: seq<nat>, p: nat, c: nat): (r: nat)
    requires c < KeyCount && CountBelow(keys, c) <= p < CountBelow(keys, KeyCount)
    ensures c <= r < KeyCount && InBucket(keys, p, r)
    decreases KeyCount - c
  {
    if p < CountBelow(keys, c + 1) then c else BucketOf(keys, p, c + 1)
  }

  /**
   * A bucketed `zptr` whose every bucket is sorted is sorted: entries of
   * different buckets are ordered by their keys.
   */
  lemma AllSorted(b: seq<Byte>, z: seq<nat>, n: nat)
    requires 2 <= n == |b| && Bucketed(Keys(b), z, n)
    requires forall c :: 0 <= c < KeyCount ==> BucketSorted(b, Keys(b), z, c)
    ensures Sorted(b, z)
  {
    var keys := Keys(b);
    BucketsFill(keys);
    forall p, q | 0 <= p < q < n
      ensures !RotGt(b, z[p], z[q])
    {
      var cp, cq := BucketOf(keys, p, 0), BucketOf(keys, q, 0);
      if cp == cq {
        assert BucketSorted(b, keys, z, cp);
      } else {
        if cq < cp {
          BucketsApart(keys, cq, cp);
        }
        assert keys[z[p]] == cp && keys[z[q]] == cq;
        KeyOrder(b, z[p], z[q]);
      }
    }
  }

  // ---------------------------------------------------------------------
  // sortIt and doReversibleTransformation

  /**
   * `sortIt`: stripe the block, split `zptr` into buckets by the counting
   * sort, copy the head of the block past its end, and sort the buckets
   * grade by grade.  `zptr` ends as the rotation starts in rotation order.
   */
  method SortIt(words: array<Word>, n: nat, zptr: array<nat>, ghost b: seq<Byte>)
    requires Holds(words, b) && |b| == n && TrivialUpTo < n <= MaxBlock
    requires n + CopiedWords <= words.Length && zptr.Length == n
    modifies words, zptr
    ensures Sorted(b, zptr[..]) && IsPermutation(zptr[..], n)
    ensures Holds(words, b)
  {
    Stripe(words, n, b);
    var ftab := new nat[FtabSize];
    CountKeys(words, n, ftab, b);
    SumKeys(ftab, Keys(b));
    PlaceKeys(words, n, zptr, ftab, b);
    CopyHead(words, n, b);
    GradedStart(b, Keys(b), zptr[..], n);
    SortGrades(words, n, zptr, ftab, b);
    forall k | 0 <= k < n
      ensures words[k].first == b[k]
    {
      CircLow(b, k, 0);
    }
  }

  /**
   * The grade loop of `sortIt`, up to the first grade whose smallest
   * size exceeds the block: the buckets are sorted and so is `zptr`.
   */
  method SortGrades(words: array<Word>, n: nat, zptr: array<nat>, ftab: array<nat>, ghost b: seq<Byte>)
    requires Extended(words, b) && |b| == n && CopiedWords <= n <= MaxBlock && zptr.Length == n
    requires ftab.Length == FtabSize && forall c :: 0 <= c < FtabSize ==> ftab[c] == CountBelow(Keys(b), c)
    requires Graded(b, Keys(b), zptr[..], n, 0, 0) && zptr != ftab
    modifies zptr
    ensures Sorted(b, zptr[..]) && IsPermutation(zptr[..], n)
  {
    var g := 0;
    while g < |Grades| && Grades[g].lo <= n
      invariant g <= |Grades| && Graded(b, Keys(b), zptr[..], n, g, 0)
      decreases |Grades| - g
    {
      SortGrade(words, n, zptr, ftab, g, b);
      GradeNext(b, Keys(b), zptr[..], n, g);
      g := g + 1;
    }
    GradesDone(b, Keys(b), zptr[..], n, g);
    AllSorted(b, zptr[..], n);
  }

  /**
   * `doReversibleTransformation`: sort the rotations, with `sortIt` above
   * 1024 bytes and `shellTrivial` otherwise, then find `origPtr`, the
   * place in `zptr` of the rotation that starts the block.  An empty
   * block has none: the source panics, here the answer is `None`.
   */
  method DoReversibleTransformation(words: array<Word>, n: nat, zptr: array<nat>, ghost b: seq<Byte>)
      returns (origPtr: Option<nat>)
    requires Holds(words, b) && |b| == n <= MaxBlock
    requires n + CopiedWords <= words.Length && zptr.Length == n
    modifies words, zptr
    ensures Sorted(b, zptr[..]) && IsPermutation(zptr[..], n)
    ensures origPtr.None? <==> n == 0
    ensures origPtr.Some? ==> origPtr.value < n && zptr[origPtr.value] == 0 &&
                              forall k :: 0 <= k < origPtr.value ==> zptr[k] != 0
    ensures Holds(words, b) && Bounded(zptr[..], n)
    ensures origPtr.Some? ==> Unbwt.Unwind(Mtf.LastColumn(words[..], zptr[..], n), origPtr.value) == b
  {
    if n > TrivialUpTo {
      SortIt(words, n, zptr, b);
    } else {
      ShellTrivial(words, n, zptr, b);
    }
    Bwt.PermFacts(zptr[..], n);
    for i := 0 to n
      invariant forall k :: 0 <= k < i ==> zptr[k] != 0
    {
      if zptr[i] == 0 {
        Bwt.TransformRoundTrip(words[..], b, zptr[..], i);
        return Some(i);
      }
    }
    ZeroPlaced(zptr[..], n);
    return None;
  }

  /** A permutation of a non-empty block holds the rotation from 0 somewhere. */
  lemma ZeroPlaced(z: seq<nat>, n: nat)
    requires IsPermutation(z, n)
    ensures 0 < n ==> exists k :: 0 <= k < |z| && z[k] == 0
  {
    if 0 < n {
      assert Range(n)[0] == 0;
      assert 0 in multiset(z);
    }
  }
}
