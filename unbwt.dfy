/**
 * The inverse block-sorting transform of decompress.c,
 * `undoReversibleTransformation`.  A counting pass gives every position
 * of the decoded last column `ll` its rank among the equal bytes before
 * it (`zptr`) and every byte value its count (`cc`); prefix sums turn the
 * counts into the number of strictly smaller bytes; the walk then starts
 * at `origPtr` and fills `block` from the end, stepping by the
 * last-to-first map `zptr[i] + cc[ll[i]]`.
 */
module Unbwt {
  import opened Common
  import opened Counting
  import MtfDecode

  // ---------------------------------------------------------------------
  // The last-to-first map

  /** The step of the walk, `zptr[i] + cc[ll[i]]`: it stays inside the block. */
  function LastToFirst(s: seq<Byte>, i: nat): (j: nat)
    requires i < |s|
    ensures j < |s|
  {
    CountSnoc(s, i, s[i]);
    CountPrefix(s, i + 1, s[i]);
    CountBelowIsSmaller(s, s[i] as nat + 1);
    Occurrence(s, i) + CountBelow(s, s[i])
  }

  /** The last-to-first map is one-to-one: distinct positions step to distinct positions. */
  lemma LastToFirstInjective(s: seq<Byte>, i: nat, j: nat)
    requires i < |s| && j < |s| && i != j
    ensures LastToFirst(s, i) != LastToFirst(s, j)
  {
    if s[i] == s[j] {
      if i < j {
        OccurrenceOrder(s, i, j);
      } else {
        OccurrenceOrder(s, j, i);
      }
    } else if s[i] < s[j] {
      Below(s, i, j);
    } else {
      Below(s, j, i);
    }
  }

  /** A position with a smaller byte maps below every position with a larger one. */
  lemma Below(s: seq<Byte>, i: nat, j: nat)
    requires i < |s| && j < |s| && s[i] < s[j]
    ensures LastToFirst(s, i) < LastToFirst(s, j)
  {
    CountSnoc(s, i, s[i]);
    CountPrefix(s, i + 1, s[i]);
    CountBelowMono(s, s[i] as nat + 1, s[j]);
  }

  /** The position the walk has reached after `m` steps from `i`. */
  function Iterate(s: seq<Byte>, i: nat, m: nat): (j: nat)
    requires i < |s|
    ensures j < |s|
  {
    if m == 0 then i else LastToFirst(s, Iterate(s, i, m - 1))
  }

  /**
   * The block the walk writes: the byte at step `m` lands at position
   * `|s| - 1 - m`, so the block is filled from its end.
   */
  function Unwind(s: seq<Byte>, origPtr: nat): (b: seq<Byte>)
    requires origPtr < |s| || |s| == 0
    ensures |b| == |s|
    ensures |s| > 0 ==> b[|s| - 1] == s[origPtr]
  {
    seq(|s|, k requires 0 <= k < |s| => s[Iterate(s, origPtr, |s| - 1 - k)])
  }

  // ---------------------------------------------------------------------
  // undoReversibleTransformation

  /**
   * `undoReversibleTransformation`, with a range check on `origPtr` that
   * the source does not make: a pointer outside a non-empty block is
   * rejected as corrupt input before anything is written.
   */
  method UndoReversibleTransformation(ll: array<Byte>, zptr: array<nat>, block: array<Byte>,
                                      blockEnd: nat, origPtr: nat) returns (r: Result<()>)
    requires blockEnd <= ll.Length && blockEnd <= zptr.Length && blockEnd <= block.Length
    requires block != ll
    modifies zptr, block
    ensures r.Fail? <==> 0 < blockEnd <= origPtr
    ensures r.Fail? ==> r.failure == FileCorrupt && unchanged(zptr) && unchanged(block)
    ensures r.Ok? ==> forall i :: 0 <= i < blockEnd ==> zptr[i] == Occurrence(ll[..blockEnd], i)
    ensures r.Ok? ==> block[..blockEnd] == Unwind(ll[..blockEnd], origPtr)
    ensures block[blockEnd..] == old(block[blockEnd..])
  {
    if 0 < blockEnd <= origPtr {
      return Fail(FileCorrupt);
    }
    var cc := RankOccurrences(ll, zptr, blockEnd);
    PrefixSums(cc, ll[..blockEnd]);
    WalkBack(ll, zptr, cc, block, blockEnd, origPtr);
    r := Ok(());
  }

  /**
   * `memset(cc, 0, …)` and the counting loop `zptr[i] = cc[ll[i]]++`:
   * each position gets its rank among equal bytes, each byte its count.
   */
  method RankOccurrences(ll: array<Byte>, zptr: array<nat>, blockEnd: nat) returns (cc: array<nat>)
    requires blockEnd <= ll.Length && blockEnd <= zptr.Length
    modifies zptr
    ensures fresh(cc) && cc.Length == 256
    ensures forall c :: 0 <= c < 256 ==> cc[c] == Count(ll[..blockEnd], c)
    ensures forall i :: 0 <= i < blockEnd ==> zptr[i] == Occurrence(ll[..blockEnd], i)
    ensures zptr[blockEnd..] == old(zptr[blockEnd..])
  {
    cc := new nat[256](_ => 0);
    ghost var s := ll[..blockEnd];
    for i := 0 to blockEnd
      invariant forall c :: 0 <= c < 256 ==> cc[c] == Count(s[..i], c)
      invariant forall k :: 0 <= k < i ==> zptr[k] == Occurrence(s, k)
      invariant zptr[blockEnd..] == old(zptr[blockEnd..])
    {
      var b := ll[i];
      assert s[..i] == ll[..i] && b == s[i];
      zptr[i] := cc[b];
      cc[b] := cc[b] + 1;
      forall c | 0 <= c < 256
        ensures cc[c] == Count(s[..i + 1], c)
      {
        CountSnoc(s, i, c);
      }
    }
    assert s[..blockEnd] == s;
  }

  /** What `cc[c]` holds once the prefix-sum loop has passed `i` bytes. */
  ghost function Stage(s: seq<Byte>, c: nat, i: nat): nat
  {
    if c < i then CountBelow(s, c) else Count(s, c)
  }

  /** The loop `orig_sum = sum; sum += cc[i]; cc[i] = orig_sum`: counts become counts of smaller bytes. */
  method PrefixSums(cc: array<nat>, ghost s: seq<Byte>)
    requires cc.Length == 256 && forall c :: 0 <= c < 256 ==> cc[c] == Count(s, c)
    modifies cc
    ensures forall c :: 0 <= c < 256 ==> cc[c] == CountBelow(s, c)
  {
    var sum := 0;
    for i := 0 to 256
      invariant sum == CountBelow(s, i)
      invariant forall c {:trigger cc[c]} :: 0 <= c < 256 ==> cc[c] == Stage(s, c, i)
    {
      var origSum := sum;
      assert CountBelow(s, i + 1) == CountBelow(s, i) + Count(s, i);
      sum := sum + cc[i];
      cc[i] := origSum;
    }
  }

  /**
   * The block once the walk has written the cells from `j` up to the end
   * of the unwound block `u`; the other cells still hold `was`.
   */
  ghost function Walked(u: seq<Byte>, j: nat, was: seq<Byte>): (b: seq<Byte>)
    requires |u| <= |was|
    ensures |b| == |was|
  {
    seq(|was|, k requires 0 <= k < |was| => if j <= k < |u| then u[k] else was[k])
  }

  /** Writing one more cell, from the end. */
  lemma WalkedStep(u: seq<Byte>, j: nat, was: seq<Byte>)
    requires |u| <= |was| && 0 < j <= |u|
    ensures Walked(u, j - 1, was) == Walked(u, j, was)[j - 1 := u[j - 1]]
  {
  }

  /** A finished walk holds `u`, followed by the untouched cells. */
  lemma WalkedDone(u: seq<Byte>, was: seq<Byte>)
    requires |u| <= |was|
    ensures Walked(u, 0, was)[..|u|] == u && Walked(u, 0, was)[|u|..] == was[|u|..]
  {
  }

  /**
   * The state of the walk after `|s| - j` steps from `origPtr`: it is at
   * position `i`, and the block `b` holds the unwound block from `j` on.
   */
  ghost predicate Walking(s: seq<Byte>, origPtr: nat, j: nat, i: nat, b: seq<Byte>, was: seq<Byte>)
  {
    origPtr < |s| <= |was| && j <= |s| && i == Iterate(s, origPtr, |s| - j) &&
    b == Walked(Unwind(s, origPtr), j, was)
  }

  /** One step of the walk: write `s[i]` below the filled cells and move to `zptr[i] + cc[s[i]]`. */
  lemma WalkingStep(s: seq<Byte>, origPtr: nat, zs: seq<nat>, cs: seq<nat>, j: nat, i: nat, b: seq<Byte>, was: seq<Byte>)
    requires WalkTables(s, zs, cs) && Walking(s, origPtr, j, i, b, was) && j > 0
    ensures i < |s| && j - 1 < |b|
    ensures Walking(s, origPtr, j - 1, zs[i] + cs[s[i]], b[j - 1 := s[i]], was)
  {
    var n := |s| - j;
    IterateStep(s, origPtr, n, zs, cs);
    assert |s| - (j - 1) == n + 1 && |s| - 1 - (j - 1) == n;
    var u := Unwind(s, origPtr);
    assert u[j - 1] == s[i];
    WalkedStep(u, j, was);
  }

  /**
   * The walk `i = origPtr; for (j = block_end; j-- > 0; ) { block[j] = ll[i];
   * i = zptr[i] + cc[ll[i]]; }`.
   */
  method WalkBack(ll: array<Byte>, zptr: array<nat>, cc: array<nat>, block: array<Byte>,
                  blockEnd: nat, origPtr: nat)
    requires blockEnd <= ll.Length && blockEnd <= zptr.Length && blockEnd <= block.Length
    requires cc.Length == 256 && block != ll
    requires origPtr < blockEnd || blockEnd == 0
    requires forall i :: 0 <= i < blockEnd ==> zptr[i] == Occurrence(ll[..blockEnd], i)
    requires forall c :: 0 <= c < 256 ==> cc[c] == CountBelow(ll[..blockEnd], c)
    modifies block
    ensures block[..blockEnd] == Unwind(ll[..blockEnd], origPtr)
    ensures block[blockEnd..] == old(block[blockEnd..])
  {
    ghost var s := ll[..blockEnd];
    if blockEnd == 0 {
      return;
    }
    var i: nat := origPtr;
    var j := blockEnd;
    ghost var was := block[..];
    ghost var zs, cs := zptr[..], cc[..];
    assert WalkTables(s, zs, cs);
    while j > 0
      invariant j <= blockEnd && i < blockEnd
      invariant Walking(s, origPtr, j, i, block[..], was)
    {
      var llI := ll[i];
      WalkingStep(s, origPtr, zs, cs, j, i, block[..], was);
      assert llI == s[i] && zptr[i] == zs[i] && cc[llI] == cs[llI];
      j := j - 1;
      block[j] := llI;
      i := zptr[i] + cc[llI];
    }
    WalkedDone(Unwind(s, origPtr), was);
    assert ll[..blockEnd] == s;
    assert block[..blockEnd] == block[..][..blockEnd];
    assert block[blockEnd..] == block[..][blockEnd..];
  }

  /** `zs` and `cs` hold the tables `zptr` and `cc` of the block `s`. */
  ghost predicate WalkTables(s: seq<Byte>, zs: seq<nat>, cs: seq<nat>)
  {
    |s| <= |zs| && |cs| == 256 &&
    (forall i :: 0 <= i < |s| ==> zs[i] == Occurrence(s, i)) &&
    (forall c :: 0 <= c < 256 ==> cs[c] == CountBelow(s, c))
  }

  /** One more step of the walk is the table lookup `zptr[i] + cc[ll[i]]`. */
  lemma IterateStep(s: seq<Byte>, origPtr: nat, m: nat, zs: seq<nat>, cs: seq<nat>)
    requires origPtr < |s| && WalkTables(s, zs, cs)
    ensures var i := Iterate(s, origPtr, m); Iterate(s, origPtr, m + 1) == zs[i] + cs[s[i]]
  {
  }


  // ---------------------------------------------------------------------
  // The pointer the source does not check

  /**
   * As written, the walk reads `ll[origPtr]` first whenever the block is
   * not empty, whatever `origPtr` the header gave: the index read, if any.
   */
  function FirstReadAsWritten(blockEnd: nat, origPtr: nat): (index: Option<nat>)
    ensures index.Some? <==> blockEnd > 0
  {
    if blockEnd == 0 then None else Some(origPtr)
  }

  /**
   * The header word 0 decodes to `origPtr = 2^32 - 1`, which no block
   * holds; the unchecked walk reads there, and the checked one rejects it.
   */
  lemma ZeroHeaderOutsideBlock(blockEnd: nat)
    requires 0 < blockEnd < TwoTo32
    ensures !MtfDecode.FinishOf(0) && MtfDecode.OrigPtrOf(0) == TwoTo32 - 1
    ensures FirstReadAsWritten(blockEnd, MtfDecode.OrigPtrOf(0)) == Some(TwoTo32 - 1)
    ensures TwoTo32 - 1 >= blockEnd
  {
    MtfDecode.HeaderWordDecode(0);
    assert MtfDecode.OrigPtrOf(0) == TwoTo32 - 1 by {
      ModUnique(-1, TwoTo32, -1, TwoTo32 - 1);
    }
  }
}
