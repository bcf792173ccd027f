/**
 * Structured move-to-front coding with zero-run folding, the stage
 * between the block sorter and the arithmetic coder
 * (`moveToFrontCodeAndSend`, `sendMTFVal`, `sendZeroes` in compress.c;
 * `getAndMoveToFrontDecode`, `getMTFVal` in decompress.c).
 *
 * Each byte of the last column is replaced by its rank in a list `yy`
 * of all 256 byte values, and then moved to the front of that list.
 * Rank 1 is sent as `VAL_ONE` in the basis model; a rank `j >= 2` as the
 * class symbol of `j` in the basis model followed by `j`'s offset in the
 * class model.  A run of rank 0 is held back and sent as its length in
 * bijective base 2, most significant digit first, with the digits
 * `VAL_RUNA` and `VAL_RUNB`, of digit weights 2 and 1.
 *
 * The coded symbols are described as tokens: a model index (0 for the
 * basis model, 1..7 for the class models, 8 for the bogus model) and a
 * symbol.
 */
module Mtf {
  import opened Common
  import opened Models
  import opened Arith
  import opened Words

  /** One symbol handed to the coder, with the index of its model. */
  datatype Token = Token(model: nat, symbol: nat)

  /** The index of the bogus model among the tokens. */
  const BogusModel: nat := ModelLast

  const EobToken: Token := Token(ModelBasis, ValEob)

  /** The model object of a model index. */
  function ModelOf(ms: ModelSet, k: nat): Model
  {
    if k < |ms.models| then ms.models[k] else ms.bogus
  }

  /** The coder history entries of a token sequence. */
  function Sent(ms: ModelSet, toks: seq<Token>): (r: seq<(Model, nat)>)
    ensures |r| == |toks|
    ensures forall i :: 0 <= i < |toks| ==> r[i] == (ModelOf(ms, toks[i].model), toks[i].symbol)
  {
    seq(|toks|, i requires 0 <= i < |toks| => (ModelOf(ms, toks[i].model), toks[i].symbol))
  }

  lemma SentAppend(ms: ModelSet, a: seq<Token>, b: seq<Token>)
    ensures Sent(ms, a + b) == Sent(ms, a) + Sent(ms, b)
  {
  }

  /** Distinct models make distinct histories: the history determines the tokens. */
  lemma SentInjective(ms: ModelSet, a: seq<Token>, b: seq<Token>)
    requires |ms.models| == ModelLast
    requires forall i, j :: 0 <= i < j < ModelLast ==> ms.models[i] != ms.models[j]
    requires forall k :: 0 <= k < ModelLast ==> ms.models[k] != ms.bogus
    requires forall i :: 0 <= i < |a| ==> a[i].model <= BogusModel
    requires forall i :: 0 <= i < |b| ==> b[i].model <= BogusModel
    requires Sent(ms, a) == Sent(ms, b)
    ensures a == b
  {
    forall i | 0 <= i < |a|
      ensures a[i] == b[i]
    {
      assert Sent(ms, a)[i] == Sent(ms, b)[i];
    }
  }

  /** Tokens of the basis model. */
  function Basis(symbols: seq<nat>): (r: seq<Token>)
    ensures |r| == |symbols| && forall i :: 0 <= i < |r| ==> r[i] == Token(ModelBasis, symbols[i])
  {
    seq(|symbols|, i requires 0 <= i < |symbols| => Token(ModelBasis, symbols[i]))
  }

  /** A run-length digit as the decoder sees it. */
  predicate IsRunToken(t: Token)
  {
    t.model == ModelBasis && (t.symbol == ValRunA || t.symbol == ValRunB)
  }

  // ---------------------------------------------------------------------
  // Zero runs in bijective base 2

  /**
   * The digits `sendZeroes(k)` sends, most significant first.  The source
   * collects them least significant first: decrement, take the low bit
   * (`VAL_RUNA` when set), halve, until nothing is left.
   */
  function ZeroRun(k: nat): (r: seq<nat>)
    requires k >= 1
    ensures |r| >= 1 && forall i :: 0 <= i < |r| ==> r[i] == ValRunA || r[i] == ValRunB
    decreases k
  {
    var z := k - 1;
    var digit := if z % 2 == 1 then ValRunA else ValRunB;
    (if z / 2 == 0 then [] else ZeroRun(z / 2)) + [digit]
  }

  /** The decoder's fold over run digits: `n <<= 1; n++; if RUNA, n++`. */
  function RunLength(digits: seq<nat>): nat
  {
    if digits == [] then 0
    else 2 * RunLength(digits[..|digits| - 1]) + (if digits[|digits| - 1] == ValRunA then 2 else 1)
  }

  /** The decoder's fold recovers the run length the encoder sent. */
  lemma {:induction false} RunLengthZeroRun(k: nat)
    requires k >= 1
    ensures RunLength(ZeroRun(k)) == k
    decreases k
  {
    var z := k - 1;
    var digits := ZeroRun(k);
    assert digits[..|digits| - 1] == (if z / 2 == 0 then [] else ZeroRun(z / 2));
    if z / 2 != 0 {
      RunLengthZeroRun(z / 2);
    }
  }

  /** Every non-empty digit string is the encoding of exactly its fold: the coding is bijective. */
  lemma {:induction false} ZeroRunRunLength(digits: seq<nat>)
    requires digits != [] && forall i :: 0 <= i < |digits| ==> digits[i] == ValRunA || digits[i] == ValRunB
    ensures RunLength(digits) >= 1 && ZeroRun(RunLength(digits)) == digits
    decreases |digits|
  {
    var front := digits[..|digits| - 1];
    var last := digits[|digits| - 1];
    assert digits == front + [last];
    var m := RunLength(front);
    var e := if last == ValRunA then 2 else 1;
    var n := 2 * m + e;
    assert RunLength(digits) == n;
    assert (n - 1) / 2 == m && (n - 1) % 2 == e - 1 by {
      ModUnique(n - 1, 2, m, e - 1);
    }
    var digit := if (n - 1) % 2 == 1 then ValRunA else ValRunB;
    assert digit == last;
    var rest := if m == 0 then [] else ZeroRun(m);
    assert ZeroRun(n) == rest + [digit];
    if front != [] {
      ZeroRunRunLength(front);
      assert rest == front;
    } else {
      assert m == 0;
    }
  }

  /** `bitsToSend` has room for `BITS_OF(unsigned)` digits: a run below `2^n` needs at most `n`. */
  lemma {:induction false} ZeroRunShort(k: nat, n: nat)
    requires 1 <= k < Pow2(n)
    ensures |ZeroRun(k)| <= n
    decreases k
  {
    var z := k - 1;
    if z / 2 != 0 {
      assert n >= 1;
      assert z / 2 < Pow2(n - 1);
      ZeroRunShort(z / 2, n - 1);
    }
  }

  /** The tokens of a pending run of `p` zeroes (none when `p == 0`). */
  function Flush(p: nat): (r: seq<Token>)
    ensures (r == []) == (p == 0)
    ensures forall i :: 0 <= i < |r| ==> IsRunToken(r[i])
  {
    if p == 0 then [] else Basis(ZeroRun(p))
  }

  lemma FlushInjective(p: nat, q: nat)
    requires Flush(p) == Flush(q)
    ensures p == q
  {
    if p != 0 && q != 0 {
      assert ZeroRun(p) == ZeroRun(q) by {
        forall i | 0 <= i < |ZeroRun(p)|
          ensures ZeroRun(p)[i] == ZeroRun(q)[i]
        {
          assert Flush(p)[i] == Flush(q)[i];
        }
      }
      RunLengthZeroRun(p);
      RunLengthZeroRun(q);
    }
  }

  // ---------------------------------------------------------------------
  // The move-to-front list

  /** `yy` holds every byte value exactly once. */
  ghost predicate IsPerm(yy: seq<Byte>)
  {
    |yy| == 256 && (forall b :: 0 <= b < 256 ==> b in yy) &&
    (forall i, j :: 0 <= i < j < |yy| ==> yy[i] != yy[j])
  }

  /** The list as both coders set it up: `yy[i] = i`. */
  function Identity(): (yy: seq<Byte>)
    ensures |yy| == 256 && forall i :: 0 <= i < 256 ==> yy[i] == i
  {
    seq(256, i requires 0 <= i < 256 => i)
  }

  lemma IdentityIsPerm()
    ensures IsPerm(Identity())
  {
    var yy := Identity();
    forall b | 0 <= b < 256
      ensures b in yy
    {
      assert yy[b] == b;
    }
  }

  /** The position of `b` in `yy`: the first match, as `memchr` finds it. */
  function IndexOf(yy: seq<Byte>, b: Byte): (j: nat)
    requires b in yy
    ensures j < |yy| && yy[j] == b && b !in yy[..j]
  {
    if yy[0] == b then 0 else 1 + IndexOf(yy[1..], b)
  }

  /** `memmove(&yy[1], &yy[0], j); yy[0] = b` with `b = yy[j]`. */
  function MoveToFront(yy: seq<Byte>, j: nat): (r: seq<Byte>)
    requires j < |yy|
    ensures |r| == |yy| && r[0] == yy[j]
  {
    [yy[j]] + yy[..j] + yy[j + 1..]
  }

  /** Moving one entry to the front keeps `yy` a permutation; rank 0 leaves it alone. */
  lemma MoveToFrontPerm(yy: seq<Byte>, j: nat)
    requires IsPerm(yy) && j < 256
    ensures IsPerm(MoveToFront(yy, j))
    ensures j == 0 ==> MoveToFront(yy, j) == yy
  {
    var r := MoveToFront(yy, j);
    assert forall k :: 1 <= k <= j ==> r[k] == yy[k - 1];
    assert forall k :: j < k < 256 ==> r[k] == yy[k];
    forall b | 0 <= b < 256
      ensures b in r
    {
      var i := IndexOf(yy, b);
      if i < j {
        assert r[i + 1] == b;
      } else if i > j {
        assert r[i] == b;
      }
    }
  }

  // ---------------------------------------------------------------------
  // The encoder's state after a prefix `s` of the last column

  /** `yy` after coding `s`. */
  ghost function Yy(s: seq<Byte>): (yy: seq<Byte>)
    ensures IsPerm(yy)
    decreases |s|
  {
    if s == [] then
      IdentityIsPerm();
      Identity()
    else
      var prev := Yy(s[..|s| - 1]);
      var j := IndexOf(prev, s[|s| - 1]);
      MoveToFrontPerm(prev, j);
      MoveToFront(prev, j)
  }

  /** The rank the last byte of `s` is coded with. */
  ghost function LastRank(s: seq<Byte>): (j: nat)
    requires s != []
    ensures j < 256
  {
    IndexOf(Yy(s[..|s| - 1]), s[|s| - 1])
  }

  /** `zeroesPending` after coding `s`: the trailing run of rank 0. */
  ghost function Pending(s: seq<Byte>): nat
    decreases |s|
  {
    if s == [] then 0
    else if LastRank(s) == 0 then Pending(s[..|s| - 1]) + 1
    else 0
  }

  /** The tokens of a rank `j >= 1`: `VAL_ONE`, or `sendMTFVal(j)`. */
  function RankTokens(j: nat): (r: seq<Token>)
    requires 1 <= j <= 255
    ensures 1 <= |r| <= 2 && !IsRunToken(r[|r| - 1])
  {
    if j == 1 then [Token(ModelBasis, ValOne)]
    else
      var e := MtfValsEncode(j);
      MtfTablesRoundTrip(j);
      [Token(ModelBasis, e.v), Token(e.m, e.n)]
  }

  /** The tokens sent while coding `s`, the pending run of rank 0 not yet flushed. */
  ghost function Emitted(s: seq<Byte>): (r: seq<Token>)
    ensures r == [] || !IsRunToken(r[|r| - 1])
    decreases |s|
  {
    if s == [] then []
    else
      var prev := s[..|s| - 1];
      if LastRank(s) == 0 then Emitted(prev)
      else Emitted(prev) + Flush(Pending(prev)) + RankTokens(LastRank(s))
  }

  /** All the tokens of a last column `s`, without the end-of-block symbol. */
  ghost function MtfTokens(s: seq<Byte>): seq<Token>
  {
    Emitted(s) + Flush(Pending(s))
  }

  // ---------------------------------------------------------------------
  // The coding is one-to-one

  /** A token string splits in one way only into a part not ending in a run digit and a run. */
  lemma SplitUnique(e1: seq<Token>, f1: seq<Token>, e2: seq<Token>, f2: seq<Token>)
    requires e1 == [] || !IsRunToken(e1[|e1| - 1])
    requires e2 == [] || !IsRunToken(e2[|e2| - 1])
    requires forall i :: 0 <= i < |f1| ==> IsRunToken(f1[i])
    requires forall i :: 0 <= i < |f2| ==> IsRunToken(f2[i])
    requires e1 + f1 == e2 + f2
    ensures e1 == e2 && f1 == f2
  {
    if |f1| != |f2| {
      assert false;
    }
    assert e1 == (e1 + f1)[..|e1|];
    assert e2 == (e2 + f2)[..|e2|];
    assert f1 == (e1 + f1)[|e1|..];
    assert f2 == (e2 + f2)[|e2|..];
  }

  /** The tokens of a rank determine the rank. */
  lemma RankTokensInjective(i: nat, j: nat)
    requires 1 <= i <= 255 && 1 <= j <= 255 && RankTokens(i) == RankTokens(j)
    ensures i == j
  {
    if i >= 2 && j >= 2 {
      MtfTablesRoundTrip(i);
      MtfTablesRoundTrip(j);
    } else if i >= 2 {
      MtfTablesRoundTrip(i);
    } else if j >= 2 {
      MtfTablesRoundTrip(j);
    }
  }

  /** The rank tokens at the end of a token string can be told apart, so they can be stripped. */
  lemma StripRankTokens(a: seq<Token>, i: nat, b: seq<Token>, j: nat)
    requires 1 <= i <= 255 && 1 <= j <= 255
    requires a + RankTokens(i) == b + RankTokens(j)
    ensures i == j && a == b
  {
    var ta, tb := RankTokens(i), RankTokens(j);
    var n := |a + ta|;
    assert (a + ta)[n - 1] == ta[|ta| - 1];
    assert (b + tb)[n - 1] == tb[|tb| - 1];
    if i >= 2 {
      MtfTablesRoundTrip(i);
    }
    if j >= 2 {
      MtfTablesRoundTrip(j);
    }
    assert |ta| == |tb|;
    assert ta == (a + ta)[|a|..] && tb == (b + tb)[|b|..];
    RankTokensInjective(i, j);
    assert a == (a + ta)[..|a|] && b == (b + tb)[..|b|];
  }

  /** One step of the encoder on a byte of rank 0: it joins the pending run. */
  lemma UnfoldRankZero(s: seq<Byte>)
    requires s != [] && LastRank(s) == 0
    ensures var prev := s[..|s| - 1];
      Emitted(s) == Emitted(prev) && Pending(s) == Pending(prev) + 1 && s == prev + [Yy(prev)[0]]
  {
    assert s == s[..|s| - 1] + [s[|s| - 1]];
  }

  /** One step of the encoder on a byte of rank `j >= 1`: flush the run, then send `j`. */
  lemma UnfoldRank(s: seq<Byte>)
    requires s != [] && LastRank(s) != 0
    ensures var prev := s[..|s| - 1];
      Emitted(s) == Emitted(prev) + Flush(Pending(prev)) + RankTokens(LastRank(s)) &&
      Pending(s) == 0 && s == prev + [Yy(prev)[LastRank(s)]]
  {
    assert s == s[..|s| - 1] + [s[|s| - 1]];
  }

  /** A column is determined by what it has emitted and its pending run. */
  lemma {:induction false} EmittedInjective(a: seq<Byte>, b: seq<Byte>)
    requires Emitted(a) == Emitted(b) && Pending(a) == Pending(b)
    ensures a == b
    decreases |a| + |b|
  {
    if Pending(a) > 0 {
      assert a != [] && LastRank(a) == 0 && b != [] && LastRank(b) == 0;
      UnfoldRankZero(a);
      UnfoldRankZero(b);
      EmittedInjective(a[..|a| - 1], b[..|b| - 1]);
    } else if a == [] || b == [] {
      // both are empty: a non-empty column with nothing pending has emitted its last rank
    } else {
      var pa, pb := a[..|a| - 1], b[..|b| - 1];
      assert LastRank(a) != 0 && LastRank(b) != 0;
      UnfoldRank(a);
      UnfoldRank(b);
      PeelRank(pa, LastRank(a), pb, LastRank(b));
      EmittedInjective(pa, pb);
    }
  }

  /** Equal emissions that both end in a rank: the ranks agree, and so does everything before them. */
  lemma PeelRank(pa: seq<Byte>, ja: nat, pb: seq<Byte>, jb: nat)
    requires 1 <= ja <= 255 && 1 <= jb <= 255
    requires Emitted(pa) + Flush(Pending(pa)) + RankTokens(ja) == Emitted(pb) + Flush(Pending(pb)) + RankTokens(jb)
    ensures ja == jb && Emitted(pa) == Emitted(pb) && Pending(pa) == Pending(pb)
  {
    var ea, fa, eb, fb := Emitted(pa), Flush(Pending(pa)), Emitted(pb), Flush(Pending(pb));
    StripRankTokens(ea + fa, ja, eb + fb, jb);
    SplitUnique(ea, fa, eb, fb);
    FlushInjective(Pending(pa), Pending(pb));
  }

  /** Two columns with the same tokens are the same column: the decoder can invert the coding. */
  lemma MtfTokensInjective(a: seq<Byte>, b: seq<Byte>)
    requires MtfTokens(a) == MtfTokens(b)
    ensures a == b
  {
    SplitUnique(Emitted(a), Flush(Pending(a)), Emitted(b), Flush(Pending(b)));
    FlushInjective(Pending(a), Pending(b));
    EmittedInjective(a, b);
  }

  // ---------------------------------------------------------------------
  // The encoder

  /** The count of a pending run never exceeds the column coded so far. */
  lemma {:induction false} PendingBound(s: seq<Byte>)
    ensures Pending(s) <= |s|
    decreases |s|
  {
    if s != [] {
      PendingBound(s[..|s| - 1]);
    }
  }

  /** `putSymbol` on model `k` of the set (the bogus model for index 8); every model stays ready. */
  method Put(enc: Encoder, ms: ModelSet, k: nat, symbol: nat)
    requires enc.Valid() && ms.Ready() && EncoderBounds(enc.bigL, enc.bigR)
    requires k <= BogusModel && symbol < ModelOf(ms, k).numSymbols
    modifies enc, enc.out, enc.out.window, ms.Repr()
    ensures enc.Valid() && ms.Ready() && EncoderBounds(enc.bigL, enc.bigR)
    ensures enc.sent == old(enc.sent) + Sent(ms, [Token(k, symbol)])
  {
    if k < ModelLast {
      PutAdaptive(enc, ms, k, symbol);
    } else {
      PutBogus(enc, ms, symbol);
    }
  }

  /** `putSymbol` on one of the eight adaptive models; the others and the bogus model stay as they were. */
  method PutAdaptive(enc: Encoder, ms: ModelSet, k: nat, symbol: nat)
    requires enc.Valid() && ms.Ready() && EncoderBounds(enc.bigL, enc.bigR)
    requires k < ModelLast && symbol < ms.models[k].numSymbols
    modifies enc, enc.out, enc.out.window, ms.models[k], ms.models[k].freq
    ensures enc.Valid() && ms.Ready() && EncoderBounds(enc.bigL, enc.bigR)
    ensures enc.sent == old(enc.sent) + [(ms.models[k], symbol)]
  {
    enc.PutSymbol(ms.models[k], symbol);
  }

  /** `putSymbol` on the bogus model; the adaptive models stay as they were. */
  method PutBogus(enc: Encoder, ms: ModelSet, symbol: nat)
    requires enc.Valid() && ms.Ready() && EncoderBounds(enc.bigL, enc.bigR)
    requires symbol < ms.bogus.numSymbols
    modifies enc, enc.out, enc.out.window, ms.bogus, ms.bogus.freq
    ensures enc.Valid() && ms.Ready() && EncoderBounds(enc.bigL, enc.bigR)
    ensures enc.sent == old(enc.sent) + [(ms.bogus, symbol)]
  {
    enc.PutSymbol(ms.bogus, symbol);
  }

  /**
   * `sendZeroes(zeroesPending)`: the digits of the run are collected least
   * significant first into `bitsToSend` (room for `BITS_OF(unsigned)`, 32),
   * then sent from the last collected to the first.
   */
  method SendZeroes(enc: Encoder, ms: ModelSet, zeroesPending: nat)
    requires enc.Valid() && ms.Ready() && EncoderBounds(enc.bigL, enc.bigR)
    requires 1 <= zeroesPending < TwoTo32
    modifies enc, enc.out, enc.out.window, ms.Repr()
    ensures enc.Valid() && ms.Ready() && EncoderBounds(enc.bigL, enc.bigR)
    ensures enc.sent == old(enc.sent) + Sent(ms, Flush(zeroesPending))
  {
    var bitsToSend, bp := CollectRunDigits(zeroesPending);
    SendRunDigits(enc, ms, bitsToSend, bp, ZeroRun(zeroesPending));
  }

  /** The first loop of `sendZeroes`: the digits, least significant first, and their count `bp`. */
  method CollectRunDigits(zeroesPending: nat) returns (bitsToSend: array<nat>, bp: nat)
    requires 1 <= zeroesPending < TwoTo32
    ensures fresh(bitsToSend) && bitsToSend.Length == 32 && bp <= 32
    ensures Reverse(bitsToSend[..bp]) == ZeroRun(zeroesPending)
  {
    bitsToSend := new nat[32];
    bp := 0;
    var z := zeroesPending;
    ghost var collected: seq<nat> := [];
    Pow2Word();
    ZeroRunShort(zeroesPending, 32);
    while z > 0
      invariant bp <= 32 && |collected| == bp && bitsToSend[..bp] == collected
      invariant ZeroRun(zeroesPending) == PendingDigits(z) + Reverse(collected) && |ZeroRun(zeroesPending)| <= 32
      decreases z
    {
      var d: nat := if (z - 1) % 2 == 1 then ValRunA else ValRunB;
      CollectStep(zeroesPending, z, Reverse(collected));
      ReverseSnoc<nat>(collected, d);
      bitsToSend[bp] := d;
      assert bitsToSend[..bp + 1] == collected + [d];
      collected := collected + [d];
      bp := bp + 1;
      z := (z - 1) / 2;
    }
    assert ZeroRun(zeroesPending) == Reverse(collected);
  }

  /** A sequence back to front. */
  function Reverse<T>(s: seq<T>): (r: seq<T>)
    ensures |r| == |s| && forall i :: 0 <= i < |s| ==> r[i] == s[|s| - 1 - i]
  {
    seq(|s|, i requires 0 <= i < |s| => s[|s| - 1 - i])
  }

  /** The last element appended comes first once reversed. */
  lemma ReverseSnoc<T>(s: seq<T>, x: T)
    ensures Reverse(s + [x]) == [x] + Reverse(s)
  {
    assert Reverse(s + [x])[0] == x;
  }

  /** The digits of a run still to be collected: none once it is exhausted. */
  ghost function PendingDigits(z: nat): seq<nat>
  {
    if z == 0 then [] else ZeroRun(z)
  }

  /** One pass of the collecting loop takes the last digit of what is left. */
  lemma CollectStep(k: nat, z: nat, digits: seq<nat>)
    requires k >= 1 && z >= 1 && ZeroRun(k) == PendingDigits(z) + digits
    ensures |digits| < |ZeroRun(k)|
    ensures ZeroRun(k) == PendingDigits((z - 1) / 2) + ([if (z - 1) % 2 == 1 then ValRunA else ValRunB] + digits)
  {
    var d := if (z - 1) % 2 == 1 then ValRunA else ValRunB;
    assert ZeroRun(z) == PendingDigits((z - 1) / 2) + [d];
    AppendAssoc(PendingDigits((z - 1) / 2), [d], digits);
  }

  /** The second loop of `sendZeroes`: `bitsToSend[bp - 1]` down to `bitsToSend[0]` in the basis model. */
  method SendRunDigits(enc: Encoder, ms: ModelSet, bitsToSend: array<nat>, bp: nat, ghost digits: seq<nat>)
    requires enc.Valid() && ms.Ready() && EncoderBounds(enc.bigL, enc.bigR)
    requires bitsToSend !in ms.Repr() && bp <= bitsToSend.Length && Reverse(bitsToSend[..bp]) == digits
    requires forall i :: 0 <= i < bp ==> digits[i] == ValRunA || digits[i] == ValRunB
    modifies enc, enc.out, enc.out.window, ms.Repr()
    ensures enc.Valid() && ms.Ready() && EncoderBounds(enc.bigL, enc.bigR)
    ensures enc.sent == old(enc.sent) + Sent(ms, Basis(digits))
  {
    ghost var s0 := enc.sent;
    var k: nat := bp;
    while k > 0
      invariant k <= bp
      invariant enc.Valid() && ms.Ready() && EncoderBounds(enc.bigL, enc.bigR)
      invariant enc.sent == s0 + Sent(ms, Basis(digits[..bp - k]))
    {
      var digit := bitsToSend[k - 1];
      ghost var n: nat := bp - k;
      assert digit == digits[n];
      assert ms.models[ModelBasis].Params() == ModelTable(ModelBasis);
      ghost var before := enc.sent;
      Put(enc, ms, ModelBasis, digit);
      SentBasisSnoc(ms, s0, digits, n, before, enc.sent, n + 1);
      k := k - 1;
    }
    assert digits[..bp] == digits;
  }

  /** Sending one more digit extends the coder history by its basis-model entry. */
  lemma SentBasisSnoc(ms: ModelSet, base: seq<(Model, nat)>, digits: seq<nat>, n: nat,
                      before: seq<(Model, nat)>, after: seq<(Model, nat)>, m: nat)
    requires n < |digits| && m == n + 1
    requires before == base + Sent(ms, Basis(digits[..n]))
    requires after == before + Sent(ms, [Token(ModelBasis, digits[n])])
    ensures after == base + Sent(ms, Basis(digits[..m]))
  {
    assert Basis(digits[..n + 1]) == Basis(digits[..n]) + [Token(ModelBasis, digits[n])];
    SentExtend(ms, base, Basis(digits[..n]), [Token(ModelBasis, digits[n])]);
  }

  /** `sendMTFVal(n)`: the class symbol in the basis model, then the offset in the class model. */
  method SendMtfVal(enc: Encoder, ms: ModelSet, n: nat)
    requires enc.Valid() && ms.Ready() && EncoderBounds(enc.bigL, enc.bigR)
    requires 2 <= n <= 255
    modifies enc, enc.out, enc.out.window, ms.Repr()
    ensures enc.Valid() && ms.Ready() && EncoderBounds(enc.bigL, enc.bigR)
    ensures enc.sent == old(enc.sent) + Sent(ms, RankTokens(n))
  {
    var e := MtfValsEncode(n);
    MtfTablesRoundTrip(n);
    assert RankTokens(n) == [Token(ModelBasis, e.v)] + [Token(e.m, e.n)];
    assert e.m < ModelLast && ms.models[e.m].Params() == ModelTable(e.m);
    assert ms.models[ModelBasis].Params() == ModelTable(ModelBasis);
    ghost var s0 := enc.sent;
    Put(enc, ms, ModelBasis, e.v);
    Put(enc, ms, e.m, e.n);
    SentExtend(ms, s0, [Token(ModelBasis, e.v)], [Token(e.m, e.n)]);
  }

  /** The `memchr` from `yy[2]`: a byte that is neither of the first two entries has rank 2 or more. */
  method FindRank(yy: array<Byte>, c: Byte) returns (j: nat)
    requires IsPerm(yy[..]) && yy[0] != c && yy[1] != c
    ensures 2 <= j < 256 && j == IndexOf(yy[..], c)
  {
    assert c in yy[..];
    j := 2;
    while yy[j] != c
      invariant 2 <= j < 256 && c !in yy[..j] && c in yy[j..]
      decreases 256 - j
    {
      assert yy[..j + 1] == yy[..j] + [yy[j]];
      assert yy[j..] == [yy[j]] + yy[j + 1..];
      j := j + 1;
    }
  }

  /** `memmove(&yy[1], &yy[0], j)`: the first `j` entries move up by one. */
  method ShiftUp(yy: array<Byte>, j: nat)
    requires 1 <= j < yy.Length
    modifies yy
    ensures yy[0] == old(yy[0]) && yy[1..] == old(yy[..j]) + old(yy[j + 1..])
  {
    var k := j;
    while k > 0
      invariant 0 <= k <= j
      invariant forall i :: 0 <= i <= k ==> yy[i] == old(yy[i])
      invariant forall i :: k < i <= j ==> yy[i] == old(yy[i - 1])
      invariant forall i :: j < i < yy.Length ==> yy[i] == old(yy[i])
    {
      yy[k] := yy[k - 1];
      k := k - 1;
    }
    assert yy[1..] == old(yy[..j]) + old(yy[j + 1..]) by {
      forall i | 1 <= i < yy.Length
        ensures yy[i] == (old(yy[..j]) + old(yy[j + 1..]))[i - 1]
      {
        if i > j {
          assert (old(yy[..j]) + old(yy[j + 1..]))[i - 1] == old(yy[j + 1..])[i - 1 - j];
        }
      }
    }
  }

  /**
   * The body of the coding loop of `moveToFrontCodeAndSend` for one byte
   * `c` after the column prefix `s`: rank 0 joins the pending run;
   * otherwise the run is flushed, then rank 1 is `VAL_ONE` (swapping the
   * first two entries), a higher rank goes through `sendMTFVal`.
   */
  method CodeByte(enc: Encoder, ms: ModelSet, yy: array<Byte>, zeroesPending: nat, c: Byte,
                  ghost s: seq<Byte>, ghost base: seq<(Model, nat)>) returns (pending: nat)
    requires enc.Valid() && ms.Ready() && EncoderBounds(enc.bigL, enc.bigR)
    requires yy !in ms.Repr()
    requires yy[..] == Yy(s) && zeroesPending == Pending(s) && |s| < TwoTo32
    requires enc.sent == base + Sent(ms, Emitted(s))
    modifies enc, enc.out, enc.out.window, ms.Repr(), yy
    ensures enc.Valid() && ms.Ready() && EncoderBounds(enc.bigL, enc.bigR)
    ensures yy[..] == Yy(s + [c]) && pending == Pending(s + [c])
    ensures enc.sent == base + Sent(ms, Emitted(s + [c]))
  {
    if c == yy[0] {
      StepRankZero(s, c);
      return zeroesPending + 1;
    }
    ghost var j := IndexOf(Yy(s), c);
    ghost var e, f := Emitted(s), Flush(zeroesPending);
    StepRank(s, c);
    PendingBound(s);
    FlushRun(enc, ms, zeroesPending);
    SentExtend(ms, base, e, f);
    CodeRank(enc, ms, yy, c);
    SentExtend(ms, base, e + f, RankTokens(j));
    pending := 0;
  }

  /** `sendZeroes` when a run is pending, nothing otherwise. */
  method FlushRun(enc: Encoder, ms: ModelSet, zeroesPending: nat)
    requires enc.Valid() && ms.Ready() && EncoderBounds(enc.bigL, enc.bigR)
    requires zeroesPending < TwoTo32
    modifies enc, enc.out, enc.out.window, ms.Repr()
    ensures enc.Valid() && ms.Ready() && EncoderBounds(enc.bigL, enc.bigR)
    ensures enc.sent == old(enc.sent) + Sent(ms, Flush(zeroesPending))
  {
    if zeroesPending > 0 {
      SendZeroes(enc, ms, zeroesPending);
    } else {
      assert Sent(ms, Flush(zeroesPending)) == [];
    }
  }

  /**
   * A byte `c` not at the front of `yy`: rank 1 swaps the first two
   * entries and sends `VAL_ONE`; a higher rank is found by `memchr`,
   * moved to the front by `memmove`, and sent by `sendMTFVal`.
   */
  method CodeRank(enc: Encoder, ms: ModelSet, yy: array<Byte>, c: Byte)
    requires enc.Valid() && ms.Ready() && EncoderBounds(enc.bigL, enc.bigR)
    requires yy !in ms.Repr() && IsPerm(yy[..]) && yy[0] != c
    modifies enc, enc.out, enc.out.window, ms.Repr(), yy
    ensures enc.Valid() && ms.Ready() && EncoderBounds(enc.bigL, enc.bigR)
    ensures 1 <= IndexOf(old(yy[..]), c) && yy[..] == MoveToFront(old(yy[..]), IndexOf(old(yy[..]), c))
    ensures enc.sent == old(enc.sent) + Sent(ms, RankTokens(IndexOf(old(yy[..]), c)))
  {
    IndexOfFirst(yy[..], c);
    if c == yy[1] {
      CodeRankOne(enc, ms, yy, c);
    } else {
      CodeRankAbove(enc, ms, yy, c);
    }
  }

  /** Rank 1: swap the first two entries and send `VAL_ONE`. */
  method CodeRankOne(enc: Encoder, ms: ModelSet, yy: array<Byte>, c: Byte)
    requires enc.Valid() && ms.Ready() && EncoderBounds(enc.bigL, enc.bigR)
    requires yy !in ms.Repr() && IsPerm(yy[..]) && yy[0] != c && yy[1] == c
    modifies enc, enc.out, enc.out.window, ms.Repr(), yy
    ensures enc.Valid() && ms.Ready() && EncoderBounds(enc.bigL, enc.bigR)
    ensures IndexOf(old(yy[..]), c) == 1 && yy[..] == MoveToFront(old(yy[..]), 1)
    ensures enc.sent == old(enc.sent) + Sent(ms, RankTokens(1))
  {
    IndexOfSecond(yy[..], c);
    SwapFront(yy, c);
    Put(enc, ms, ModelBasis, ValOne);
  }

  /** Rank 2 or more: `memchr` from `yy[2]`, `memmove`, then `sendMTFVal`. */
  method CodeRankAbove(enc: Encoder, ms: ModelSet, yy: array<Byte>, c: Byte)
    requires enc.Valid() && ms.Ready() && EncoderBounds(enc.bigL, enc.bigR)
    requires yy !in ms.Repr() && IsPerm(yy[..]) && yy[0] != c && yy[1] != c
    modifies enc, enc.out, enc.out.window, ms.Repr(), yy
    ensures enc.Valid() && ms.Ready() && EncoderBounds(enc.bigL, enc.bigR)
    ensures var j := IndexOf(old(yy[..]), c);
      2 <= j && yy[..] == MoveToFront(old(yy[..]), j) && enc.sent == old(enc.sent) + Sent(ms, RankTokens(j))
  {
    var j := FindRank(yy, c);
    MoveUpFrom(yy, j, c);
    SendMtfVal(enc, ms, j);
  }

  /** `yy[1] = yy[0]; yy[0] = ll_i` for the byte `ll_i` in `yy[1]`. */
  method SwapFront(yy: array<Byte>, c: Byte)
    requires 2 <= yy.Length && yy[1] == c
    modifies yy
    ensures yy[..] == MoveToFront(old(yy[..]), 1)
  {
    yy[1] := yy[0];
    yy[0] := c;
  }

  /** `memmove(&yy[1], &yy[0], j); yy[0] = ll_i` for the byte `ll_i` in `yy[j]`. */
  method MoveUpFrom(yy: array<Byte>, j: nat, c: Byte)
    requires 1 <= j < yy.Length && yy[j] == c
    modifies yy
    ensures yy[..] == MoveToFront(old(yy[..]), j)
  {
    ghost var y0 := yy[..];
    ShiftUp(yy, j);
    yy[0] := c;
    assert yy[..] == [c] + y0[..j] + y0[j + 1..];
  }

  /** Extending a coder history by the entries of `a`, then of `b`, is extending it by those of `a + b`. */
  lemma SentExtend(ms: ModelSet, base: seq<(Model, nat)>, a: seq<Token>, b: seq<Token>)
    ensures base + Sent(ms, a) + Sent(ms, b) == base + Sent(ms, a + b)
  {
    SentAppend(ms, a, b);
    assert base + Sent(ms, a) + Sent(ms, b) == base + (Sent(ms, a) + Sent(ms, b));
  }

  /** The encoder state after one more byte of rank 0. */
  lemma StepRankZero(s: seq<Byte>, c: Byte)
    requires c == Yy(s)[0]
    ensures Yy(s + [c]) == Yy(s) && Pending(s + [c]) == Pending(s) + 1 && Emitted(s + [c]) == Emitted(s)
  {
    var t := s + [c];
    assert t[..|t| - 1] == s;
    IndexOfFirst(Yy(s), c);
    MoveToFrontPerm(Yy(s), 0);
  }

  /** The encoder state after one more byte of rank `j >= 1`. */
  lemma StepRank(s: seq<Byte>, c: Byte)
    requires c != Yy(s)[0]
    ensures var j := IndexOf(Yy(s), c);
      1 <= j && Yy(s + [c]) == MoveToFront(Yy(s), j) && Pending(s + [c]) == 0 &&
      Emitted(s + [c]) == Emitted(s) + Flush(Pending(s)) + RankTokens(j)
  {
    var t := s + [c];
    assert t[..|t| - 1] == s;
    IndexOfFirst(Yy(s), c);
  }

  /** A byte at the front of the list has rank 0. */
  lemma IndexOfFirst(yy: seq<Byte>, c: Byte)
    requires IsPerm(yy)
    ensures yy[0] == c <==> IndexOf(yy, c) == 0
  {
  }

  /** A byte second in the list has rank 1. */
  lemma IndexOfSecond(yy: seq<Byte>, c: Byte)
    requires IsPerm(yy) && yy[0] != c && yy[1] == c
    ensures IndexOf(yy, c) == 1
  {
  }

  /**
   * `ll[i]` as `moveToFrontCodeAndSend` reads it, `GETFIRST(NORMALIZELO(zptr[i] - 1))`:
   * the first byte of the word just before the start of the `i`-th sorted rotation.
   */
  function LastColumn(words: seq<Word>, zptr: seq<nat>, wordsEnd: nat): (col: seq<Byte>)
    requires wordsEnd <= |words| && wordsEnd <= |zptr|
    requires forall i :: 0 <= i < wordsEnd ==> zptr[i] < wordsEnd
    ensures |col| == wordsEnd
  {
    seq(wordsEnd, i requires 0 <= i < wordsEnd => words[NormalizeLo(zptr[i] as int - 1, wordsEnd)].first)
  }

  /** The column entry is the byte cyclically before the rotation: `zptr[i] - 1` modulo the block. */
  lemma LastColumnCyclic(words: seq<Word>, zptr: seq<nat>, wordsEnd: nat, i: nat)
    requires wordsEnd <= |words| && wordsEnd <= |zptr|
    requires forall i :: 0 <= i < wordsEnd ==> zptr[i] < wordsEnd
    requires i < wordsEnd
    ensures LastColumn(words, zptr, wordsEnd)[i] == words[(zptr[i] + wordsEnd - 1) % wordsEnd].first
  {
    NormalizeLoCircular(zptr[i] as int - 1, wordsEnd);
    ModUnique(zptr[i] + wordsEnd - 1, wordsEnd, (zptr[i] as int - 1) / wordsEnd + 1, (zptr[i] as int - 1) % wordsEnd);
  }

  /**
   * The header word of a block: `origPtr + 1`, negated (as an unsigned
   * 32-bit value) on the last block.
   */
  function HeaderWord(finish: bool, origPtr: nat): (w: nat)
    ensures w < TwoTo32
  {
    if finish then Wrap32(-(origPtr + 1)) else Wrap32(origPtr + 1)
  }

  /**
   * `moveToFrontCodeAndSend(finish, origPtr)`: the header word in the
   * bogus model, `initModels`, the last column coded rank by rank, any
   * pending run, and `VAL_EOB`.
   */
  method MoveToFrontCodeAndSend(enc: Encoder, ms: ModelSet, words: array<Word>, zptr: array<nat>,
                                wordsEnd: nat, finish: bool, origPtr: nat)
    requires enc.Valid() && ms.Ready() && EncoderBounds(enc.bigL, enc.bigR)
    requires wordsEnd <= words.Length && wordsEnd <= zptr.Length && wordsEnd < TwoTo32
    requires forall i :: 0 <= i < wordsEnd ==> zptr[i] < wordsEnd
    requires zptr !in ms.Repr()
    modifies enc, enc.out, enc.out.window, ms.Repr()
    ensures enc.Valid() && ms.Ready() && EncoderBounds(enc.bigL, enc.bigR)
    ensures enc.sent == old(enc.sent) + Tokens(ms.bogus, WordBytes(HeaderWord(finish, origPtr))) +
      Sent(ms, MtfTokens(LastColumn(old(words[..]), old(zptr[..]), wordsEnd)) + [EobToken])
  {
    ghost var col := LastColumn(words[..], zptr[..], wordsEnd);
    assert words !in ms.Repr();
    var header := HeaderWord(finish, origPtr);
    SendHeader(enc, ms, header);
    ghost var base := enc.sent;
    var yy := InitialList();
    var zeroesPending := CodeColumn(enc, ms, yy, words, zptr, wordsEnd, col);
    PendingBound(col);
    FinishColumn(enc, ms, zeroesPending, col, base);
  }

  /** The start of `moveToFrontCodeAndSend`: the header word in the bogus model, then `initModels`. */
  method SendHeader(enc: Encoder, ms: ModelSet, header: nat)
    requires enc.Valid() && ms.Ready() && EncoderBounds(enc.bigL, enc.bigR) && header < TwoTo32
    modifies enc, enc.out, enc.out.window, ms.Repr()
    ensures enc.Valid() && ms.Ready() && EncoderBounds(enc.bigL, enc.bigR)
    ensures enc.sent == old(enc.sent) + Tokens(ms.bogus, WordBytes(header))
  {
    PutHeaderWord(enc, ms, header);
    assert enc !in ms.Repr() && enc.out !in ms.Repr();
    ms.InitModels();
  }

  /** `putUInt32` in the bogus model; the adaptive models stay as they were. */
  method PutHeaderWord(enc: Encoder, ms: ModelSet, header: nat)
    requires enc.Valid() && ms.Ready() && EncoderBounds(enc.bigL, enc.bigR) && header < TwoTo32
    modifies enc, enc.out, enc.out.window, ms.bogus, ms.bogus.freq
    ensures enc.Valid() && ms.Ready() && EncoderBounds(enc.bigL, enc.bigR)
    ensures enc.sent == old(enc.sent) + Tokens(ms.bogus, WordBytes(header))
  {
    enc.PutUInt32(ms.bogus, header);
  }

  /** The end of `moveToFrontCodeAndSend`: the pending run, if any, then `VAL_EOB`. */
  method FinishColumn(enc: Encoder, ms: ModelSet, zeroesPending: nat, ghost col: seq<Byte>,
                      ghost base: seq<(Model, nat)>)
    requires enc.Valid() && ms.Ready() && EncoderBounds(enc.bigL, enc.bigR)
    requires zeroesPending == Pending(col) < TwoTo32 && enc.sent == base + Sent(ms, Emitted(col))
    modifies enc, enc.out, enc.out.window, ms.Repr()
    ensures enc.Valid() && ms.Ready() && EncoderBounds(enc.bigL, enc.bigR)
    ensures enc.sent == base + Sent(ms, MtfTokens(col) + [EobToken])
  {
    FlushRun(enc, ms, zeroesPending);
    SentExtend(ms, base, Emitted(col), Flush(Pending(col)));
    Put(enc, ms, ModelBasis, ValEob);
    SentExtend(ms, base, MtfTokens(col), [EobToken]);
  }

  /**
   * The coding loop of `moveToFrontCodeAndSend`: `yy` starts as the
   * identity, and each byte of the last column goes through `CodeByte`.
   * The run still pending at the end is returned.
   */
  method CodeColumn(enc: Encoder, ms: ModelSet, yy: array<Byte>, words: array<Word>, zptr: array<nat>, wordsEnd: nat,
                    ghost col: seq<Byte>)
    returns (zeroesPending: nat)
    requires enc.Valid() && ms.Ready() && EncoderBounds(enc.bigL, enc.bigR)
    requires yy !in ms.Repr() && yy[..] == Identity()
    requires wordsEnd <= words.Length && wordsEnd <= zptr.Length && wordsEnd < TwoTo32
    requires forall i :: 0 <= i < wordsEnd ==> zptr[i] < wordsEnd
    requires zptr !in ms.Repr() && col == LastColumn(words[..], zptr[..], wordsEnd)
    modifies enc, enc.out, enc.out.window, ms.Repr(), yy
    ensures enc.Valid() && ms.Ready() && EncoderBounds(enc.bigL, enc.bigR)
    ensures zeroesPending == Pending(col) && enc.sent == old(enc.sent) + Sent(ms, Emitted(col))
  {
    ghost var base := enc.sent;
    assert words !in ms.Repr();
    zeroesPending := 0;
    for i := 0 to wordsEnd
      invariant enc.Valid() && ms.Ready() && EncoderBounds(enc.bigL, enc.bigR)
      invariant yy[..] == Yy(col[..i]) && zeroesPending == Pending(col[..i])
      invariant enc.sent == base + Sent(ms, Emitted(col[..i]))
    {
      zeroesPending := CodeColumnByte(enc, ms, yy, zeroesPending, words, zptr, wordsEnd, i, col, base);
    }
    assert col[..wordsEnd] == col;
  }

  /** One pass of the coding loop: `ll_i` for position `i` of the column, then `CodeByte`. */
  method CodeColumnByte(enc: Encoder, ms: ModelSet, yy: array<Byte>, zeroesPending: nat,
                        words: array<Word>, zptr: array<nat>, wordsEnd: nat, i: nat,
                        ghost col: seq<Byte>, ghost base: seq<(Model, nat)>) returns (pending: nat)
    requires enc.Valid() && ms.Ready() && EncoderBounds(enc.bigL, enc.bigR)
    requires yy !in ms.Repr() && i < wordsEnd < TwoTo32
    requires wordsEnd <= words.Length && wordsEnd <= zptr.Length
    requires forall i :: 0 <= i < wordsEnd ==> zptr[i] < wordsEnd
    requires col == LastColumn(words[..], zptr[..], wordsEnd)
    requires yy[..] == Yy(col[..i]) && zeroesPending == Pending(col[..i])
    requires enc.sent == base + Sent(ms, Emitted(col[..i]))
    modifies enc, enc.out, enc.out.window, ms.Repr(), yy
    ensures enc.Valid() && ms.Ready() && EncoderBounds(enc.bigL, enc.bigR)
    ensures yy[..] == Yy(col[..i + 1]) && pending == Pending(col[..i + 1])
    ensures enc.sent == base + Sent(ms, Emitted(col[..i + 1]))
  {
    var llI := ColumnByte(words, zptr, wordsEnd, i);
    PrefixSnoc(col, i);
    pending := CodeByte(enc, ms, yy, zeroesPending, llI, col[..i], base);
  }

  /** `for (i = 0; i < 256; i++) yy[i] = i;` */
  method InitialList() returns (yy: array<Byte>)
    ensures fresh(yy) && yy[..] == Identity()
  {
    yy := new Byte[256](i requires 0 <= i < 256 => i);
    assert yy[..] == Identity();
  }

  /** `ll_i = GETFIRST(NORMALIZELO(zptr[i] - 1))`. */
  method ColumnByte(words: array<Word>, zptr: array<nat>, wordsEnd: nat, i: nat) returns (llI: Byte)
    requires wordsEnd <= words.Length && wordsEnd <= zptr.Length
    requires forall i :: 0 <= i < wordsEnd ==> zptr[i] < wordsEnd
    requires i < wordsEnd
    ensures llI == LastColumn(words[..], zptr[..], wordsEnd)[i]
  {
    llI := words[NormalizeLo(zptr[i] as int - 1, wordsEnd)].first;
  }
}
