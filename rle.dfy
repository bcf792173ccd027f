/**
 * The run-length stage around the block sorter.  On the compressing side
 * `getRLEpair` splits the input into runs of at most 255 equal bytes,
 * keeping one byte of lookahead between calls, and `loadAndRLEsource`
 * writes each run into the block: up to three bytes literally, four or
 * more as four literals and a count of the rest.  The last block ends in
 * the sentinel byte 42.  On the decompressing side `unRLEandDump` writes
 * every byte it reads and, after four equal bytes, repeats the byte as
 * often as the next byte says.
 */
module Rle {
  import opened Common
  import opened Words
  import opened BitStream

  /** A run: `len` copies of `ch`. */
  datatype Run = Run(ch: Byte, len: nat)

  /** The bytes the runs stand for. */
  function Expand(runs: seq<Run>): (s: seq<Byte>)
    decreases |runs|
  {
    if runs == [] then [] else Expand(runs[..|runs| - 1]) + Repeat(runs[|runs| - 1].ch, runs[|runs| - 1].len)
  }

  /** The block bytes of one run (the `switch` of `loadAndRLEsource`). */
  function RunCode(r: Run): (code: seq<Byte>)
    requires 1 <= r.len <= 255
    ensures |code| == if r.len >= 4 then 5 else r.len
  {
    if r.len >= 4 then [r.ch, r.ch, r.ch, r.ch, r.len - 4] else Repeat(r.ch, r.len)
  }

  /** Every run is between 1 and 255 bytes long, as `getRLEpair` makes them. */
  ghost predicate RunLengths(runs: seq<Run>)
  {
    forall i :: 0 <= i < |runs| ==> 1 <= runs[i].len <= 255
  }

  /** Lengths in `1..255`, and a run shorter than 255 is never followed by the same byte. */
  ghost predicate Chained(runs: seq<Run>, rest: seq<Byte>)
  {
    RunLengths(runs) &&
    (forall i, j :: 0 <= i < j < |runs| && j == i + 1 && runs[i].len < 255 ==> runs[j].ch != runs[i].ch) &&
    (|runs| > 0 && |rest| > 0 && runs[|runs| - 1].len < 255 ==> rest[0] != runs[|runs| - 1].ch)
  }

  /** The block bytes of a sequence of runs. */
  function RleCode(runs: seq<Run>): (code: seq<Byte>)
    requires RunLengths(runs)
    decreases |runs|
  {
    if runs == [] then [] else RleCode(runs[..|runs| - 1]) + RunCode(runs[|runs| - 1])
  }

  lemma ChainedSnoc(runs: seq<Run>, r: Run, rest: seq<Byte>)
    requires Chained(runs, Repeat(r.ch, r.len) + rest) && 1 <= r.len <= 255
    requires r.len < 255 && |rest| > 0 ==> rest[0] != r.ch
    ensures Chained(runs + [r], rest)
  {
    var rs := runs + [r];
    forall i, j | 0 <= i < j < |rs| && j == i + 1 && rs[i].len < 255
      ensures rs[j].ch != rs[i].ch
    {
      if i == |runs| - 1 {
        assert (Repeat(r.ch, r.len) + rest)[0] == r.ch;
      }
    }
  }

  // ---------------------------------------------------------------------
  // getRLEpair

  /**
   * The static state of `getRLEpair` over the input stream: the lookahead
   * byte `ch` (−1 when there is none) and `inited`, which tells a fresh
   * start from the end of the input.
   */
  class RlePairs {
    const src: ByteReader
    var ch: int
    var inited: bool

    ghost predicate Valid()
      reads this, src
    {
      src.Valid() && -1 <= ch < 256 && (ch >= 0 ==> inited) && (ch < 0 && inited ==> src.pos == |src.data|)
    }

    /** The input bytes not yet handed out in a run: the lookahead, then the unread stream. */
    ghost function Rest(): seq<Byte>
      reads this, src
      requires Valid()
    {
      if ch >= 0 then [ch as Byte] + src.data[src.pos..] else src.data[src.pos..]
    }

    /** `static int ch = -1; static int inited = 0;` over a freshly opened input. */
    constructor (src: ByteReader)
      requires src.Valid()
      ensures Valid() && this.src == src && Rest() == src.data[src.pos..]
    {
      this.src := src;
      ch, inited := -1, false;
    }

    /**
     * `getRLEpair`: the next run, as long as possible up to 255, or length
     * 0 once the input is used up (and the state is fresh again).
     */
    method GetRlePair() returns (c: Byte, n: nat)
      requires Valid()
      modifies this, src
      ensures Valid()
      ensures old(Rest()) == [] ==> n == 0 && Rest() == [] && ch < 0 && !inited
      ensures old(Rest()) != [] ==> 1 <= n <= 255 && old(Rest()) == Repeat(c, n) + Rest()
      ensures old(Rest()) != [] && n < 255 && Rest() != [] ==> Rest()[0] != c
    {
      if ch < 0 {
        if inited {
          inited := false;
          return 0, 0;
        }
        inited := true;
        ReadAhead();
        if ch < 0 {
          inited := false;
          return 0, 0;
        }
      }
      ghost var rest0 := Rest();
      c := ch as Byte;
      n := 1;
      ReadAhead();
      while ch == c && n < 255
        invariant Valid() && inited && 1 <= n <= 255
        invariant rest0 == Repeat(c, n) + Rest()
        decreases |src.data| - src.pos + (if ch >= 0 then 1 else 0)
      {
        ghost var before := Rest();
        assert before == [c] + src.data[src.pos..];
        n := n + 1;
        ReadAhead();
        RepeatSnoc(c, n - 1);
        AppendAssoc(Repeat(c, n - 1), [c], Rest());
      }
    }

    /** `ch = bs_get_byte()`: the next input byte becomes the lookahead; what is left over does not change. */
    method ReadAhead()
      requires src.Valid() && inited
      modifies this, src
      ensures Valid() && inited
      ensures Rest() == old(src.data[src.pos..])
      ensures old(src.pos) < |src.data| ==> src.pos == old(src.pos) + 1 && ch >= 0
      ensures old(src.pos) == |src.data| ==> src.pos == old(src.pos) && ch < 0
    {
      ghost var tail := src.data[src.pos..];
      var b := src.GetByte();
      ch := if b.None? then -1 else b.value;
      if b.Some? {
        assert tail == [b.value] + src.data[src.pos..];
      }
    }
  }

  // ---------------------------------------------------------------------
  // loadAndRLEsource

  /** The block bytes of the runs, followed on the last block by the sentinel 42. */
  function LoadedBlock(runs: seq<Run>, finish: bool): (code: seq<Byte>)
    requires RunLengths(runs)
    ensures |code| == |RleCode(runs)| + (if finish then 1 else 0)
    ensures finish ==> code[|code| - 1] == 42
  {
    RleCode(runs) + (if finish then [42] else [])
  }

  /** The `GETFIRST` bytes of `words` start with `code`; the words after it are those of `w0`. */
  ghost predicate Loaded(words: array<Word>, code: seq<Byte>, w0: seq<Word>)
    reads words
  {
    |code| <= words.Length == |w0| &&
    (forall i :: 0 <= i < |code| ==> words[i].first == code[i]) &&
    (forall i :: |code| <= i < words.Length ==> words[i] == w0[i])
  }

  /**
   * `loadAndRLEsource(blocksize)`: runs are coded into the `GETFIRST`
   * bytes of `words` while at most `blocksize - 20` bytes are used.  At
   * the end of the input the byte 42 follows and the result is 1 (the
   * last block); otherwise the block is full.
   */
  method LoadAndRleSource(rle: RlePairs, words: array<Word>, blocksize: nat)
    returns (finish: bool, wordsEnd: nat, ghost runs: seq<Run>)
    requires rle.Valid() && 20 <= blocksize && blocksize - 15 <= words.Length
    modifies rle, rle.src, words
    ensures rle.Valid() && Chained(runs, rle.Rest())
    ensures old(rle.Rest()) == Expand(runs) + rle.Rest()
    ensures Loaded(words, LoadedBlock(runs, finish), old(words[..])) && wordsEnd == |LoadedBlock(runs, finish)|
    ensures finish ==> rle.Rest() == [] && wordsEnd <= blocksize - 19
    ensures !finish ==> blocksize - 19 <= wordsEnd <= blocksize - 15
  {
    ghost var w0 := words[..];
    ghost var input := rle.Rest();
    assert w0 == old(words[..]) && input == old(rle.Rest());
    wordsEnd, runs := 0, [];
    while wordsEnd <= blocksize - 20
      invariant rle.Valid() && Chained(runs, rle.Rest()) && input == Expand(runs) + rle.Rest()
      invariant Loaded(words, RleCode(runs), w0) && wordsEnd == |RleCode(runs)| <= blocksize - 15
      decreases blocksize - wordsEnd
    {
      var done;
      done, wordsEnd, runs := LoadStep(rle, words, wordsEnd, runs, input, w0);
      if done {
        return true, wordsEnd, runs;
      }
    }
    assert LoadedBlock(runs, false) == RleCode(runs);
    finish := false;
  }

  /**
   * One pass of the loop of `loadAndRLEsource`: the next run is coded
   * after the runs so far or, at the end of the input, the sentinel.
   */
  method LoadStep(rle: RlePairs, words: array<Word>, wordsEnd: nat, ghost runs: seq<Run>, ghost input: seq<Byte>, ghost w0: seq<Word>)
    returns (done: bool, end: nat, ghost runs': seq<Run>)
    requires rle.Valid() && Chained(runs, rle.Rest()) && input == Expand(runs) + rle.Rest()
    requires Loaded(words, RleCode(runs), w0) && wordsEnd == |RleCode(runs)| && wordsEnd + 5 <= words.Length
    modifies rle, rle.src, words
    ensures rle.Valid() && Chained(runs', rle.Rest()) && input == Expand(runs') + rle.Rest()
    ensures done ==> Loaded(words, LoadedBlock(runs', true), w0) && end == |LoadedBlock(runs', true)|
    ensures done ==> rle.Rest() == [] && end == wordsEnd + 1
    ensures !done ==> Loaded(words, RleCode(runs'), w0) && end == |RleCode(runs')|
    ensures !done ==> wordsEnd < end <= wordsEnd + 5
  {
    ghost var before := rle.Rest();
    var c, n := rle.GetRlePair();
    ghost var after := rle.Rest();
    if n == 0 {
      assert before == [] && after == [];
      assert LoadedBlock(runs, true) == RleCode(runs) + [42];
      end := PutSentinel(words, wordsEnd, RleCode(runs), w0);
      return true, end, runs;
    }
    assert before == Repeat(c, n) + after;
    ghost var r := Run(c, n);
    ChainedSnoc(runs, r, after);
    RunSnoc(runs, r);
    AppendAssoc(Expand(runs), Repeat(c, n), after);
    end := PutRun(words, wordsEnd, c, n, RleCode(runs), w0);
    runs' := runs + [r];
    done := false;
  }

  /** Appending a run appends its expansion and its code. */
  lemma RunSnoc(runs: seq<Run>, r: Run)
    requires RunLengths(runs)
    requires 1 <= r.len <= 255
    ensures Expand(runs + [r]) == Expand(runs) + Repeat(r.ch, r.len)
    ensures RleCode(runs + [r]) == RleCode(runs) + RunCode(r)
  {
    assert (runs + [r])[..|runs|] == runs;
  }

  /** `case 0: SETFIRST(words_end++, 42)`. */
  method PutSentinel(words: array<Word>, at: nat, ghost code: seq<Byte>, ghost w0: seq<Word>) returns (end: nat)
    requires Loaded(words, code, w0) && at == |code| < words.Length
    modifies words
    ensures Loaded(words, code + [42], w0) && end == at + 1
  {
    SetFirst(words, at, 42);
    end := at + 1;
  }

  /** The `switch` of `loadAndRLEsource` for one run of length `n` in `1..255`. */
  method PutRun(words: array<Word>, at: nat, c: Byte, n: nat, ghost code: seq<Byte>, ghost w0: seq<Word>) returns (end: nat)
    requires 1 <= n <= 255 && Loaded(words, code, w0) && at == |code| && at + 5 <= words.Length
    modifies words
    ensures Loaded(words, code + RunCode(Run(c, n)), w0) && end == at + |RunCode(Run(c, n))|
  {
    end := at;
    if n >= 4 {
      SetFirst(words, end, c);
      SetFirst(words, end + 1, c);
      SetFirst(words, end + 2, c);
      SetFirst(words, end + 3, c);
      SetFirst(words, end + 4, n - 4);
      end := end + 5;
    } else {
      if n == 3 {
        SetFirst(words, end, c);
        end := end + 1;
      }
      if n >= 2 {
        SetFirst(words, end, c);
        end := end + 1;
      }
      SetFirst(words, end, c);
      end := end + 1;
    }
  }

  // ---------------------------------------------------------------------
  // unRLEandDump

  /** The bytes `p` written before what `r` goes on to write, or the failure `r` ends in. */
  function Then(p: seq<Byte>, r: Result<seq<Byte>>): (q: Result<seq<Byte>>)
    ensures q.Ok? <==> r.Ok?
    ensures q.Fail? ==> q == r
  {
    if r.Ok? then Ok(p + r.value) else r
  }

  /**
   * What the loop of `unRLEandDump` makes of the bytes `b` from the state
   * `chPrev` (−1 at the start) and `count` (equal bytes seen in a row):
   * each byte is written; a fourth equal byte is followed by a count of
   * further copies, which must lie inside the block.
   */
  function UnRleFrom(b: seq<Byte>, chPrev: int, count: nat): (r: Result<seq<Byte>>)
    ensures r.Fail? ==> r.failure == FileCorrupt
    decreases |b|
  {
    if |b| == 0 then Ok([])
    else
      var ch := b[0];
      if ch != chPrev then Then([ch], UnRleFrom(b[1..], ch, 1))
      else if count + 1 < 4 then Then([ch], UnRleFrom(b[1..], ch, count + 1))
      else if |b| == 1 then Fail(FileCorrupt)
      else Then([ch] + Repeat(ch, b[1]), UnRleFrom(b[2..], ch, 0))
  }

  /**
   * `unRLEandDump(finish)` as a whole: the last block drops its final byte,
   * which must be the sentinel 42.  An empty last block has no sentinel and
   * is rejected (see `UnRleEndAsWritten`).
   */
  function UnRleBlock(b: seq<Byte>, finish: bool): (r: Result<seq<Byte>>)
    ensures r.Fail? ==> r.failure == FileCorrupt
  {
    if !finish then UnRleFrom(b, -1, 0)
    else if |b| == 0 then Fail(FileCorrupt)
    else
      var out := UnRleFrom(b[..|b| - 1], -1, 0);
      if out.Ok? && b[|b| - 1] != 42 then Fail(FileCorrupt) else out
  }

  /** `for (count = block[i]; count > 0; count--) bs_put_byte(ch);` */
  method PutCopies(out: ByteWriter, ch: Byte, k: nat)
    requires out.Valid()
    modifies out
    ensures out.Valid() && out.out == old(out.out) + Repeat(ch, k)
  {
    var count: nat := k;
    while count > 0
      invariant out.Valid() && count <= k && out.out == old(out.out) + Repeat(ch, k - count)
    {
      ghost var o := out.out;
      out.PutByte(ch);
      RepeatSnoc(ch, k - count);
      AppendAssoc(old(out.out), Repeat(ch, k - count), [ch]);
      count := count - 1;
    }
  }

  /**
   * `unRLEandDump(finish)`: the decoded bytes go to the output stream (and
   * its CRC) as they are found.  On success exactly `UnRleBlock` is
   * written; on corrupt input what was written before the fault stays.
   */
  method UnRleAndDump(block: array<Byte>, blockEnd: nat, finish: bool, out: ByteWriter) returns (r: Result<()>)
    requires blockEnd <= block.Length && out.Valid()
    modifies out
    ensures out.Valid()
    ensures r.Ok? <==> UnRleBlock(block[..blockEnd], finish).Ok?
    ensures r.Ok? ==> out.out == old(out.out) + UnRleBlock(block[..blockEnd], finish).value
    ensures r.Fail? ==> r.failure == FileCorrupt && old(out.out) <= out.out
  {
    ghost var b := block[..blockEnd];
    if finish && blockEnd == 0 {
      return Fail(FileCorrupt);
    }
    var end := if finish then blockEnd - 1 else blockEnd;
    ghost var o0 := out.out;
    ghost var bb := block[..end];
    ghost var whole := UnRleFrom(bb, -1, 0);
    assert bb == if finish then b[..|b| - 1] else b;
    ghost var spec := UnRleBlock(b, finish);
    assert spec == if finish && whole.Ok? && b[end] != 42 then Fail(FileCorrupt) else whole;
    assert bb[0..] == bb;
    ThenNil(whole);
    ghost var written: seq<Byte> := [];
    var count := 0;
    var chPrev: int := -1;
    var i := 0;
    while i < end
      invariant i <= end && out.Valid() && out.out == o0 + written
      invariant whole == Then(written, UnRleFrom(bb[i..], chPrev, count))
      decreases end - i
    {
      var ok;
      ok, i, chPrev, count, written := DumpStep(block, end, out, i, chPrev, count, bb, o0, written);
      if !ok {
        assert block[..blockEnd] == b;
        return Fail(FileCorrupt);
      }
    }
    assert bb[end..] == [] && block[..blockEnd] == b;
    if finish && block[end] != 42 {
      return Fail(FileCorrupt);
    }
    r := Ok(());
  }

  /**
   * One pass of the loop of `unRLEandDump` from byte `i`: the byte is
   * written and, when it is the fourth equal one, as many further copies
   * as the next byte says; `ok` is false when that byte is missing.
   */
  method DumpStep(block: array<Byte>, end: nat, out: ByteWriter, i: nat, chPrev: int, count: nat,
                  ghost bb: seq<Byte>, ghost o0: seq<Byte>, ghost written: seq<Byte>)
    returns (ok: bool, i': nat, chPrev': int, count': nat, ghost written': seq<Byte>)
    requires end <= block.Length && bb == block[..end] && i < end
    requires out.Valid() && out.out == o0 + written
    modifies out
    ensures out.Valid() && out.out == o0 + written'
    ensures ok ==> i < i' <= end
    ensures ok ==> Then(written, UnRleFrom(bb[i..], chPrev, count)) == Then(written', UnRleFrom(bb[i'..], chPrev', count'))
    ensures !ok ==> Then(written, UnRleFrom(bb[i..], chPrev, count)) == Fail(FileCorrupt)
  {
    var ch := block[i];
    out.PutByte(ch);
    if ch != chPrev {
      DumpByte(bb, i, written, chPrev, count);
      return true, i + 1, ch, 1, written + [ch];
    }
    if count + 1 < 4 {
      DumpByte(bb, i, written, chPrev, count);
      return true, i + 1, ch, count + 1, written + [ch];
    }
    if i + 1 >= end {
      DumpTruncated(bb, written, ch, count);
      return false, i + 1, ch, count + 1, written + [ch];
    }
    var k := block[i + 1];
    PutCopies(out, ch, k);
    DumpCopies(bb, i + 1, written, count);
    return true, i + 2, ch, 0, written + ([ch] + Repeat(ch, k));
  }

  /** A byte that is not the fourth of a kind is written as it is. */
  lemma DumpByte(bb: seq<Byte>, i: nat, written: seq<Byte>, chPrev: int, count: nat)
    requires i < |bb| && (bb[i] != chPrev || count + 1 < 4)
    ensures Then(written, UnRleFrom(bb[i..], chPrev, count)) ==
      Then(written + [bb[i]], UnRleFrom(bb[i + 1..], bb[i], if bb[i] != chPrev then 1 else count + 1))
  {
    assert bb[i..][0] == bb[i] && bb[i..][1..] == bb[i + 1..];
    UnRleStep(bb[i..], chPrev, count);
    ThenThen(written, [bb[i]], UnRleFrom(bb[i + 1..], bb[i], if bb[i] != chPrev then 1 else count + 1));
  }

  /** The fourth equal byte is the last of the block: there is no count, and the block is corrupt. */
  lemma DumpTruncated(bb: seq<Byte>, written: seq<Byte>, ch: Byte, count: nat)
    requires |bb| > 0 && bb[|bb| - 1] == ch && count + 1 >= 4
    ensures Then(written, UnRleFrom(bb[|bb| - 1..], ch, count)) == Fail(FileCorrupt)
  {
  }

  /** The fourth equal byte at `i - 1`: the byte at `i` counts further copies. */
  lemma DumpCopies(bb: seq<Byte>, i: nat, written: seq<Byte>, count: nat)
    requires 1 <= i < |bb| && count + 1 >= 4
    ensures Then(written, UnRleFrom(bb[i - 1..], bb[i - 1], count)) ==
      Then(written + ([bb[i - 1]] + Repeat(bb[i - 1], bb[i])), UnRleFrom(bb[i + 1..], bb[i - 1], 0))
  {
    var s := bb[i - 1..];
    assert s[0] == bb[i - 1] && s[1] == bb[i] && s[2..] == bb[i + 1..];
    ThenThen(written, [bb[i - 1]] + Repeat(bb[i - 1], bb[i]), UnRleFrom(bb[i + 1..], bb[i - 1], 0));
  }

  /** Nothing written before. */
  lemma ThenNil(r: Result<seq<Byte>>)
    ensures Then([], r) == r
  {
    if r.Ok? {
      assert [] + r.value == r.value;
    }
  }

  /** Writing `p` and then `q` is writing `p + q`. */
  lemma ThenThen(p: seq<Byte>, q: seq<Byte>, r: Result<seq<Byte>>)
    ensures Then(p, Then(q, r)) == Then(p + q, r)
  {
    if r.Ok? {
      AppendAssoc(p, q, r.value);
    }
  }

  // ---------------------------------------------------------------------
  // The round trip

  /** One byte that does not complete four equal ones is written as it is. */
  lemma UnRleStep(b: seq<Byte>, chPrev: int, count: nat)
    requires |b| > 0 && (b[0] != chPrev || count + 1 < 4)
    ensures UnRleFrom(b, chPrev, count) == Then([b[0]], UnRleFrom(b[1..], b[0], if b[0] != chPrev then 1 else count + 1))
  {
  }

  /** Decoding one coded run from a state that does not continue it gives the run back, and the state after it. */
  lemma UnRleRun(r: Run, tail: seq<Byte>, chPrev: int, count: nat)
    requires 1 <= r.len <= 255 && count < 4 && (chPrev != r.ch || count == 0)
    ensures UnRleFrom(RunCode(r) + tail, chPrev, count) ==
      Then(Repeat(r.ch, r.len), UnRleFrom(tail, r.ch, if r.len < 4 then r.len else 0))
  {
    var c := r.ch;
    var b := RunCode(r) + tail;
    assert b[0] == c && b[1..] == RunCode(r)[1..] + tail;
    UnRleStep(b, chPrev, count);
    assert UnRleFrom(b, chPrev, count) == Then([c], UnRleFrom(b[1..], c, 1));
    if r.len == 1 {
      assert b[1..] == tail && Repeat(c, 1) == [c];
      return;
    }
    assert b[1] == c && b[1..][1..] == b[2..];
    UnRleStep(b[1..], c, 1);
    assert UnRleFrom(b[1..], c, 1) == Then([c], UnRleFrom(b[2..], c, 2));
    ThenThen([c], [c], UnRleFrom(b[2..], c, 2));
    assert UnRleFrom(b, chPrev, count) == Then([c] + [c], UnRleFrom(b[2..], c, 2));
    if r.len == 2 {
      assert b[2..] == tail;
      assert Repeat(c, 2) == [c] + [c];
      assert UnRleFrom(b, chPrev, count) == Then(Repeat(c, 2), UnRleFrom(tail, c, 2));
      return;
    }
    assert b[2] == c && b[2..][1..] == b[3..];
    UnRleStep(b[2..], c, 2);
    ThenThen([c] + [c], [c], UnRleFrom(b[3..], c, 3));
    if r.len == 3 {
      assert b[3..] == tail && Repeat(c, 3) == [c] + [c] + [c];
      return;
    }
    assert b[3..][0] == c && b[3..][1] == r.len - 4 && b[3..][2..] == tail;
    assert UnRleFrom(b[3..], c, 3) == Then([c] + Repeat(c, r.len - 4), UnRleFrom(tail, c, 0));
    ThenThen([c] + [c] + [c], [c] + Repeat(c, r.len - 4), UnRleFrom(tail, c, 0));
    assert Repeat(c, r.len) == [c] + [c] + [c] + ([c] + Repeat(c, r.len - 4)) by {
      RepeatSplit(c, 4, r.len - 4);
      assert Repeat(c, 4) == [c] + [c] + [c] + [c];
    }
  }

  lemma RepeatSnoc(c: Byte, n: nat)
    ensures Repeat(c, n + 1) == Repeat(c, n) + [c]
  {
    RepeatSplit(c, n, 1);
  }

  lemma {:induction false} RepeatSplit(c: Byte, m: nat, n: nat)
    ensures Repeat(c, m + n) == Repeat(c, m) + Repeat(c, n)
    decreases m
  {
    if m > 0 {
      RepeatSplit(c, m - 1, n);
    }
  }

  /**
   * The coded runs decode to their expansion, from any state the first
   * run does not continue.
   */
  lemma {:induction false} UnRleCode(runs: seq<Run>, chPrev: int, count: nat)
    requires Chained(runs, []) && count < 4
    requires |runs| > 0 ==> chPrev != runs[0].ch || count == 0
    ensures UnRleFrom(RleCode(runs), chPrev, count) == Ok(Expand(runs))
    decreases |runs|
  {
    if runs == [] {
      return;
    }
    var r := runs[0];
    var rest := runs[1..];
    assert Chained(rest, []);
    RleCodeCons(runs);
    ExpandCons(runs);
    UnRleRun(r, RleCode(rest), chPrev, count);
    UnRleCode(rest, r.ch, if r.len < 4 then r.len else 0);
  }

  lemma {:induction false} RleCodeCons(runs: seq<Run>)
    requires |runs| > 0 && RunLengths(runs)
    ensures RleCode(runs) == RunCode(runs[0]) + RleCode(runs[1..])
    decreases |runs|
  {
    if |runs| > 1 {
      var front := runs[..|runs| - 1];
      RleCodeCons(front);
      assert front[1..] == runs[1..][..|runs| - 2];
      assert front[0] == runs[0];
    } else {
      assert runs[..0] == [] && runs[1..] == [];
    }
  }

  lemma {:induction false} ExpandCons(runs: seq<Run>)
    requires |runs| > 0
    ensures Expand(runs) == Repeat(runs[0].ch, runs[0].len) + Expand(runs[1..])
    decreases |runs|
  {
    if |runs| > 1 {
      var front := runs[..|runs| - 1];
      ExpandCons(front);
      assert front[1..] == runs[1..][..|runs| - 2];
      assert front[0] == runs[0];
    } else {
      assert runs[..0] == [] && runs[1..] == [];
    }
  }

  /**
   * What `unRLEandDump` makes of the block `loadAndRLEsource` built is the
   * input that block consumed: the coded runs, followed on the last block
   * by the sentinel.
   */
  lemma RleRoundTrip(runs: seq<Run>, rest: seq<Byte>, finish: bool)
    requires Chained(runs, rest)
    ensures UnRleBlock(RleCode(runs) + (if finish then [42] else []), finish) == Ok(Expand(runs))
  {
    assert Chained(runs, []);
    UnRleCode(runs, -1, 0);
    if finish {
      var b := RleCode(runs) + [42];
      assert b[..|b| - 1] == RleCode(runs);
    } else {
      assert RleCode(runs) + [] == RleCode(runs);
    }
  }

  // ---------------------------------------------------------------------
  // The last block as written

  /** The bound of the loop of `unRLEandDump`: `block_end`, decremented in `unsigned` on the last block. */
  function UnRleEndAsWritten(blockEnd: nat, finish: bool): (end: nat)
    requires blockEnd < TwoTo32
    ensures blockEnd > 0 || !finish ==> end == if finish then blockEnd - 1 else blockEnd
  {
    if finish then Wrap32(blockEnd - 1) else blockEnd
  }

  /**
   * An empty last block (the end-of-block symbol straight after the header)
   * makes the loop run to `2^32 - 1`, reading far past any block.
   */
  lemma EmptyLastBlockAsWritten()
    ensures UnRleEndAsWritten(0, true) == TwoTo32 - 1
    ensures UnRleBlock([], true) == Fail(FileCorrupt)
  {
    ModUnique(-1, TwoTo32, -1, TwoTo32 - 1);
  }
}
