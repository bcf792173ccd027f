/**
 * The spot perturbation of both sides (`spotBlock` in compress.c and in
 * decompress.c): starting at position 8000 with `delta = 1`, the byte at
 * each visited position is changed by one, modulo 256, and the next
 * position is 8000 + 17·(delta − 5) further on, `delta` running through
 * the table `newdeltas`.  The compressor adds one before sorting and the
 * decompressor subtracts one at the same positions after the inverse
 * transform.
 */
module Spot {
  import opened Common
  import opened Words

  /** `SPOT_BASIS_STEP`. */
  const SpotBasisStep: nat := 8000

  /** The values `delta` takes: indices into `newdeltas`. */
  type Delta = d: int | 0 <= d < 10

  /** `newdeltas[]`. */
  const NewDeltas: seq<Delta> := [0, 4, 6, 1, 5, 9, 7, 3, 8, 2]

  /** The advance of `pos` once `delta` has become `d`. */
  function Advance(d: Delta): (step: nat)
    ensures 7915 <= step <= 8068
  {
    SpotBasisStep + 17 * (d as int - 5)
  }

  /** The positions the loop visits from `pos` on, while `pos < bound`. */
  function SpotFrom(pos: nat, delta: Delta, bound: nat): (ps: seq<nat>)
    decreases if pos < bound then bound - pos else 0
  {
    if pos < bound then
      var d := NewDeltas[delta];
      [pos] + SpotFrom(pos + Advance(d), d, bound)
    else []
  }

  /** The visited positions lie in `[pos, bound)` and increase strictly; the loop stops within one step of the bound. */
  lemma {:induction false} SpotFromShape(pos: nat, delta: Delta, bound: nat)
    ensures var ps := SpotFrom(pos, delta, bound);
      (forall k :: 0 <= k < |ps| ==> pos <= ps[k] < bound) &&
      (forall k, l :: 0 <= k < l < |ps| ==> ps[k] < ps[l]) &&
      (pos < bound <==> |ps| > 0) &&
      (|ps| > 0 ==> ps[|ps| - 1] + 8068 >= bound)
    decreases if pos < bound then bound - pos else 0
  {
    if pos < bound {
      var d := NewDeltas[delta];
      var next := pos + Advance(d);
      SpotFromShape(next, d, bound);
      var rest := SpotFrom(next, d, bound);
      var ps := SpotFrom(pos, delta, bound);
      assert ps == [pos] + rest;
      forall k, l | 0 <= k < l < |ps|
        ensures ps[k] < ps[l]
      {
        if k > 0 {
          assert ps[k] == rest[k - 1] && ps[l] == rest[l - 1];
        } else {
          assert ps[l] == rest[l - 1] >= next;
        }
      }
    }
  }

  /** One visit: the list from `pos` is `pos` followed by the list from the next position. */
  lemma SpotFromStep(done: seq<nat>, pos: nat, delta: Delta, next: nat, delta': Delta, bound: nat)
    requires pos < bound && delta' == NewDeltas[delta] && next == pos + Advance(delta')
    ensures done + SpotFrom(pos, delta, bound) == (done + [pos]) + SpotFrom(next, delta', bound)
  {
    AppendAssoc(done, [pos], SpotFrom(next, delta', bound));
  }

  /**
   * The state of a spot loop: the positions visited so far, followed by
   * those still ahead from `pos`, are `ps`, and every visited one lies
   * below `pos`.
   */
  ghost predicate Visiting(ps: seq<nat>, done: seq<nat>, pos: nat, delta: Delta, bound: nat)
  {
    ps == done + SpotFrom(pos, delta, bound) && forall p :: p in done ==> p < pos
  }

  /** One turn of a spot loop visits `pos`, which was not visited before. */
  lemma VisitStep(ps: seq<nat>, done: seq<nat>, pos: nat, delta: Delta, bound: nat, next: nat, delta': Delta)
    requires Visiting(ps, done, pos, delta, bound) && pos < bound
    requires delta' == NewDeltas[delta] && next == pos + Advance(delta')
    ensures pos !in done && Visiting(ps, done + [pos], next, delta', bound)
  {
    SpotFromStep(done, pos, delta, next, delta', bound);
  }

  /** A spot loop that has reached its bound has visited every position. */
  lemma VisitDone(ps: seq<nat>, done: seq<nat>, pos: nat, delta: Delta, bound: nat)
    requires Visiting(ps, done, pos, delta, bound) && bound <= pos
    ensures done == ps
  {
  }

  /**
   * The positions a block of `blockEnd` bytes is perturbed at: those
   * below `blockEnd - 1`, and none at all in an empty block.
   */
  function SpotPositions(blockEnd: nat): (ps: seq<nat>)
    ensures forall k :: 0 <= k < |ps| ==> SpotBasisStep <= ps[k] < blockEnd - 1
    ensures forall k, l :: 0 <= k < l < |ps| ==> ps[k] < ps[l]
    ensures |ps| > 0 <==> blockEnd > SpotBasisStep + 1
  {
    if blockEnd == 0 then [] else
      SpotFromShape(SpotBasisStep, 1, blockEnd - 1);
      SpotFrom(SpotBasisStep, 1, blockEnd - 1)
  }

  /** The bytes of `b` at the positions `ps` changed by `d`, modulo 256. */
  function Bump(b: seq<Byte>, ps: seq<nat>, d: int): (r: seq<Byte>)
    ensures |r| == |b|
  {
    seq(|b|, i requires 0 <= i < |b| => if i in ps then (b[i] + d) % 256 else b[i])
  }

  /** `SETFIRST(pos, GETFIRST(pos) + 1)` on one word: the first byte goes up by one, modulo 256. */
  function BumpWord(x: Word): (y: Word)
    ensures y.(first := x.first) == x && y.first == (x.first + 1) % 256
  {
    x.(first := (x.first as int + 1) % 256)
  }

  /** The words of `w` with the `GETFIRST` byte at the positions `ps` incremented, modulo 256. */
  function BumpFirst(w: seq<Word>, ps: seq<nat>): (r: seq<Word>)
    ensures |r| == |w|
  {
    seq(|w|, i requires 0 <= i < |w| => if i in ps then BumpWord(w[i]) else w[i])
  }

  /** Seen as a byte string, the compressor's perturbation adds one at each position. */
  lemma BumpFirstBytes(w: seq<Word>, ps: seq<nat>)
    ensures Firsts(BumpFirst(w, ps)) == Bump(Firsts(w), ps, 1)
    ensures forall i :: 0 <= i < |w| ==> BumpFirst(w, ps)[i].(first := w[i].first) == w[i]
  {
  }

  /** Subtracting one at the positions where one was added restores every byte. */
  lemma BumpInverse(b: seq<Byte>, ps: seq<nat>)
    ensures Bump(Bump(b, ps, 1), ps, -1) == b
  {
    var r := Bump(Bump(b, ps, 1), ps, -1);
    forall i | 0 <= i < |b|
      ensures r[i] == b[i]
    {
      if i in ps {
        assert Bump(b, ps, 1)[i] == (b[i] as int + 1) % 256;
        if b[i] == 255 {
          assert r[i] == (0 - 1) % 256;
        }
      }
    }
  }

  /** The decompressor undoes the compressor: both visit the same positions for the same block length. */
  lemma SpotRoundTrip(b: seq<Byte>)
    ensures var ps := SpotPositions(|b|); Bump(Bump(b, ps, 1), ps, -1) == b
  {
    BumpInverse(b, SpotPositions(|b|));
  }

  /** Bumping one more position, not bumped before, by `d` modulo 256. */
  lemma BumpStep(b: seq<Byte>, done: seq<nat>, pos: nat, d: int)
    requires pos < |b| && pos !in done
    ensures Bump(b, done, d)[pos] == b[pos]
    ensures Bump(b, done + [pos], d) == Bump(b, done, d)[pos := ((b[pos] + d) % 256) as Byte]
  {
  }

  /** Bumping one more word, not bumped before. */
  lemma BumpFirstSnoc(w: seq<Word>, done: seq<nat>, pos: nat)
    requires pos < |w| && pos !in done
    ensures BumpFirst(w, done)[pos] == w[pos]
    ensures BumpFirst(w, done + [pos]) == BumpFirst(w, done)[pos := BumpWord(w[pos])]
  {
  }

  /**
   * The compressor's `spotBlock`: `SETFIRST(pos, GETFIRST(pos) + 1)` at
   * each position below `words_end - 1`.  The loader always leaves at
   * least one byte in the block, so `words_end - 1` does not wrap here.
   */
  method SpotBlockEncode(words: array<Word>, wordsEnd: nat)
    requires 1 <= wordsEnd <= words.Length
    modifies words
    ensures words[..] == BumpFirst(old(words[..]), SpotPositions(wordsEnd))
  {
    ghost var w := words[..];
    ghost var ps := SpotPositions(wordsEnd);
    ghost var done: seq<nat> := [];
    var delta: Delta := 1;
    var pos: nat := SpotBasisStep;
    while pos < wordsEnd - 1
      invariant Visiting(ps, done, pos, delta, wordsEnd - 1)
      invariant words[..] == BumpFirst(w, done)
      decreases wordsEnd - pos
    {
      var delta' := NewDeltas[delta];
      var next: nat := pos + SpotBasisStep + 17 * (delta' as int - 5);
      VisitStep(ps, done, pos, delta, wordsEnd - 1, next, delta');
      BumpFirstSnoc(w, done, pos);
      var c := words[pos].first;
      assert words[pos].(first := (c as int + 1) % 256) == BumpWord(w[pos]);
      SetFirst(words, pos, (c as int + 1) % 256);
      done := done + [pos];
      delta := delta';
      pos := next;
    }
    VisitDone(ps, done, pos, delta, wordsEnd - 1);
  }

  /**
   * The decompressor's `spotBlock`: `block[pos]--` at each position below
   * `block_end - 1`.  An empty block visits no position here; see
   * `SpotBoundAsWritten` for what the source does with it.
   */
  method SpotBlockDecode(block: array<Byte>, blockEnd: nat)
    requires blockEnd <= block.Length
    modifies block
    ensures block[..] == Bump(old(block[..]), SpotPositions(blockEnd), -1)
  {
    ghost var b := block[..];
    ghost var ps := SpotPositions(blockEnd);
    if blockEnd == 0 {
      assert b == Bump(b, ps, -1);
      return;
    }
    ghost var done: seq<nat> := [];
    var delta: Delta := 1;
    var pos: nat := SpotBasisStep;
    while pos < blockEnd - 1
      invariant Visiting(ps, done, pos, delta, blockEnd - 1)
      invariant block[..] == Bump(b, done, -1)
      decreases blockEnd - pos
    {
      var delta' := NewDeltas[delta];
      var next: nat := pos + SpotBasisStep + 17 * (delta' as int - 5);
      VisitStep(ps, done, pos, delta, blockEnd - 1, next, delta');
      BumpStep(b, done, pos, -1);
      block[pos] := (block[pos] as int + 255) % 256;
      done := done + [pos];
      delta := delta';
      pos := next;
    }
    VisitDone(ps, done, pos, delta, blockEnd - 1);
  }

  // ---------------------------------------------------------------------
  // The loop bound as written

  /** `block_end - 1` in `unsigned` arithmetic. */
  function SpotBoundAsWritten(blockEnd: nat): (bound: nat)
    requires blockEnd < TwoTo32
    ensures blockEnd > 0 ==> bound == blockEnd - 1
  {
    Wrap32(blockEnd - 1)
  }

  /**
   * For an empty block the bound wraps to `2^32 - 1`: the loop visits
   * positions up to within one step of it, far past any block (blocks
   * hold fewer than `2^32 - 8069` bytes), and decrements bytes there.
   */
  lemma EmptyBlockSpotsAsWritten()
    ensures SpotBoundAsWritten(0) == TwoTo32 - 1
    ensures var ps := SpotFrom(SpotBasisStep, 1, SpotBoundAsWritten(0));
      |ps| > 0 && ps[0] == SpotBasisStep && ps[|ps| - 1] >= TwoTo32 - 8069
  {
    assert SpotBoundAsWritten(0) == TwoTo32 - 1 by {
      ModUnique(-1, TwoTo32, -1, TwoTo32 - 1);
    }
    SpotFromShape(SpotBasisStep, 1, TwoTo32 - 1);
  }
}
