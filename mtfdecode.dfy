/**
 * The decoding side of the move-to-front stage: `getMTFVal` and
 * `getAndMoveToFrontDecode` in decompress.c.  The decoder reads the
 * header word in the bogus model, then basis-model symbols: run digits
 * are folded into a count of copies of the front of `yy`, a rank is
 * looked up in `yy` and moved to the front, and `VAL_EOB` ends the block.
 *
 * The contracts say what was read in terms of the encoder's tokens: the
 * decoded column is the one whose coding is exactly the history of the
 * arithmetic decoder, so (the coding being one-to-one) it is the column
 * the encoder coded.
 */
module MtfDecode {
  import opened Common
  import opened Models
  import opened Arith
  import opened Mtf

  // ---------------------------------------------------------------------
  // The header word

  /** The header word stored into the `int32_t tmpOrigPtr`. */
  function Signed32(w: nat): (x: int)
    requires w < TwoTo32
    ensures -0x8000_0000 <= x < 0x8000_0000 && Wrap32(x) == w
  {
    if w < 0x8000_0000 then w else w - TwoTo32
  }

  /** `origPtr = (tmpOrigPtr < 0 ? -tmpOrigPtr : tmpOrigPtr) - 1`, kept in an `unsigned`. */
  function OrigPtrOf(w: nat): (p: nat)
    requires w < TwoTo32
    ensures p < TwoTo32
  {
    var t := Signed32(w);
    Wrap32((if t < 0 then -t else t) - 1)
  }

  /** The value `getAndMoveToFrontDecode` returns: the block is the last one. */
  function FinishOf(w: nat): (finish: bool)
    requires w < TwoTo32
    ensures finish <==> w >= 0x8000_0000
  {
    Signed32(w) < 0
  }

  /** A block pointer below `2^31 - 1` and the last-block flag survive the header word. */
  lemma HeaderRoundTrip(finish: bool, origPtr: nat)
    requires origPtr + 1 < 0x8000_0000
    ensures OrigPtrOf(HeaderWord(finish, origPtr)) == origPtr
    ensures FinishOf(HeaderWord(finish, origPtr)) == finish
  {
    if finish {
      assert HeaderWord(finish, origPtr) == TwoTo32 - (origPtr + 1) by {
        ModUnique(-(origPtr + 1), TwoTo32, -1, TwoTo32 - (origPtr + 1));
      }
    }
  }

  /** Every header word, whatever it holds, is the one the encoder writes for what the decoder makes of it. */
  lemma HeaderWordDecode(w: nat)
    requires w < TwoTo32
    ensures HeaderWord(FinishOf(w), OrigPtrOf(w)) == w
  {
    var t := Signed32(w);
    if w == 0 {
      assert OrigPtrOf(w) == TwoTo32 - 1 by {
        ModUnique(-1, TwoTo32, -1, TwoTo32 - 1);
      }
    } else if t > 0 {
      assert OrigPtrOf(w) == w - 1;
    } else {
      assert OrigPtrOf(w) == TwoTo32 - w - 1;
      ModUnique(-(TwoTo32 - w), TwoTo32, -1, w);
    }
  }

  // ---------------------------------------------------------------------
  // The run-length check as written

  /** The fold of the run digits in an `unsigned n`: `n <<= 1; n++; if RUNA, n++`, modulo `2^32`. */
  function RunLength32(digits: seq<nat>): (n: nat)
    ensures n < TwoTo32
  {
    if digits == [] then 0
    else Wrap32(2 * RunLength32(digits[..|digits| - 1]) + (if digits[|digits| - 1] == ValRunA then 2 else 1))
  }

  /** `!(block_end + n > limit)` with the sum taken in `unsigned` arithmetic. */
  predicate RunFitsAsWritten(blockEnd: nat, n: nat, limit: nat)
  {
    Wrap32(blockEnd + n) <= limit
  }

  /** The 32-bit fold is the exact fold, reduced. */
  lemma {:induction false} RunLength32Wraps(digits: seq<nat>)
    ensures RunLength32(digits) == RunLength(digits) % TwoTo32
    decreases |digits|
  {
    if digits != [] {
      var front := digits[..|digits| - 1];
      var e := if digits[|digits| - 1] == ValRunA then 2 else 1;
      RunLength32Wraps(front);
      var x := RunLength(front);
      assert 2 * (x % TwoTo32) + e == 2 * x + e - TwoTo32 * (2 * (x / TwoTo32));
      ModShift(2 * x + e, 2 * (x / TwoTo32));
    }
  }

  lemma ModShift(x: int, k: int)
    ensures (x - TwoTo32 * k) % TwoTo32 == x % TwoTo32
  {
    ModUnique(x - TwoTo32 * k, TwoTo32, x / TwoTo32 - k, x % TwoTo32);
  }

  /** `k` digits `VAL_RUNB` fold to `2^k - 1`. */
  lemma {:induction false} RunLengthAllB(k: nat)
    ensures RunLength(Repeat(ValRunB, k)) == Pow2(k) - 1
    decreases k
  {
    if k > 0 {
      var d := Repeat(ValRunB, k);
      assert d[..k - 1] == Repeat(ValRunB, k - 1);
      RunLengthAllB(k - 1);
    }
  }

  /**
   * After one literal, a run of 32 digits `VAL_RUNB` claims `2^32 - 1`
   * copies; `block_end + n` wraps to 0 and passes the check, while the
   * run overflows any block the decoder can hold.
   */
  lemma RunCheckWraps(limit: nat)
    requires limit < TwoTo32 - 1
    ensures var n := RunLength32(Repeat(ValRunB, 32));
      RunFitsAsWritten(1, n, limit) && 1 + n > limit
  {
    RunLength32Wraps(Repeat(ValRunB, 32));
    RunLengthAllB(32);
    Pow2Word();
    assert RunLength(Repeat(ValRunB, 32)) == TwoTo32 - 1;
  }

  // ---------------------------------------------------------------------
  // The decoder's view of the coding

  /** Every token the move-to-front coder sends goes to one of the eight adaptive models. */
  ghost predicate Adaptive(toks: seq<Token>)
  {
    forall i :: 0 <= i < |toks| ==> toks[i].model < ModelLast
  }

  lemma {:induction false} EmittedAdaptive(s: seq<Byte>)
    ensures Adaptive(Emitted(s))
    decreases |s|
  {
    if s != [] {
      var prev := s[..|s| - 1];
      EmittedAdaptive(prev);
      if LastRank(s) != 0 {
        var j := LastRank(s);
        if j >= 2 {
          MtfTablesRoundTrip(j);
        }
        assert Adaptive(RankTokens(j));
        assert Emitted(s) == Emitted(prev) + Flush(Pending(prev)) + RankTokens(j);
      }
    }
  }

  lemma MtfTokensAdaptive(s: seq<Byte>)
    ensures Adaptive(MtfTokens(s) + [EobToken])
  {
    EmittedAdaptive(s);
  }

  /**
   * The round trip of the move-to-front stage: a decoder history of a
   * header word and a column determines them, so a block decoded from
   * the encoder's history has the encoder's block pointer, last-block flag
   * and last column (the pointer below `2^31 - 1`, as the header can carry).
   */
  lemma MtfRoundTrip(ms: ModelSet, finish: bool, origPtr: nat, col: seq<Byte>,
                     finish': bool, origPtr': nat, col': seq<Byte>)
    requires ms.Separate() && origPtr + 1 < 0x8000_0000 && origPtr' < TwoTo32
    requires FinishOf(HeaderWord(finish', origPtr')) == finish' && OrigPtrOf(HeaderWord(finish', origPtr')) == origPtr'
    requires Tokens(ms.bogus, WordBytes(HeaderWord(finish, origPtr))) + Sent(ms, MtfTokens(col) + [EobToken]) ==
             Tokens(ms.bogus, WordBytes(HeaderWord(finish', origPtr'))) + Sent(ms, MtfTokens(col') + [EobToken])
    ensures finish == finish' && origPtr == origPtr' && col == col'
  {
    var h, h' := HeaderWord(finish, origPtr), HeaderWord(finish', origPtr');
    var a, b := Tokens(ms.bogus, WordBytes(h)), Tokens(ms.bogus, WordBytes(h'));
    var x, y := Sent(ms, MtfTokens(col) + [EobToken]), Sent(ms, MtfTokens(col') + [EobToken]);
    assert a == (a + x)[..4] && b == (b + y)[..4];
    assert x == (a + x)[4..] && y == (b + y)[4..];
    assert WordBytes(h) == WordBytes(h') by {
      forall i | 0 <= i < 4
        ensures WordBytes(h)[i] == WordBytes(h')[i]
      {
        assert a[i] == b[i];
      }
    }
    WordOfWordBytes(h);
    WordOfWordBytes(h');
    HeaderRoundTrip(finish, origPtr);
    MtfTokensAdaptive(col);
    MtfTokensAdaptive(col');
    SentInjective(ms, MtfTokens(col) + [EobToken], MtfTokens(col') + [EobToken]);
    assert MtfTokens(col) == (MtfTokens(col) + [EobToken])[..|MtfTokens(col)|];
    assert MtfTokens(col') == (MtfTokens(col') + [EobToken])[..|MtfTokens(col')|];
    MtfTokensInjective(col, col');
  }

  /** A byte taken from position `v` of the list has rank `v`. */
  lemma IndexOfAt(yy: seq<Byte>, v: nat)
    requires IsPerm(yy) && v < 256
    ensures IndexOf(yy, yy[v]) == v
  {
  }

  /** `n` more copies of the front of the list: the list stays, nothing is emitted, the run grows by `n`. */
  lemma {:induction false} AppendZeros(s: seq<Byte>, n: nat)
    ensures var t := s + Repeat(Yy(s)[0], n);
      Yy(t) == Yy(s) && Emitted(t) == Emitted(s) && Pending(t) == Pending(s) + n
    decreases n
  {
    var z := Yy(s)[0];
    if n == 0 {
      assert s + Repeat(z, 0) == s;
    } else {
      var s1 := s + [z];
      StepRankZero(s, z);
      AppendZeros(s1, n - 1);
      AppendAssoc(s, [z], Repeat(z, n - 1));
    }
  }

  // ---------------------------------------------------------------------
  // The decoder

  /** `getSymbol` on model `k` of the set (the bogus model for index 8). */
  method Get(dec: Decoder, ms: ModelSet, k: nat) returns (r: Result<nat>)
    requires dec.Valid() && ms.Ready() && Quarter < dec.bigR <= Half && k <= BogusModel
    modifies dec, dec.src, dec.src.window, ms.Repr()
    ensures dec.Valid() && ms.Ready()
    ensures r.Ok? ==> r.value < ModelOf(ms, k).numSymbols && Quarter < dec.bigR <= Half &&
                      dec.received == old(dec.received) + Sent(ms, [Token(k, r.value)])
    ensures r.Fail? ==> r.failure == UnexpectedEof
  {
    if k < ModelLast {
      r := GetAdaptive(dec, ms, k);
    } else {
      r := GetBogus(dec, ms);
    }
  }

  /** `getSymbol` on one of the eight adaptive models. */
  method GetAdaptive(dec: Decoder, ms: ModelSet, k: nat) returns (r: Result<nat>)
    requires dec.Valid() && ms.Ready() && Quarter < dec.bigR <= Half && k < ModelLast
    modifies dec, dec.src, dec.src.window, ms.models[k], ms.models[k].freq
    ensures dec.Valid() && ms.Ready()
    ensures r.Ok? ==> r.value < ms.models[k].numSymbols && Quarter < dec.bigR <= Half &&
                      dec.received == old(dec.received) + [(ms.models[k], r.value)]
    ensures r.Fail? ==> r.failure == UnexpectedEof
  {
    r := dec.GetSymbol(ms.models[k]);
  }

  /** `getSymbol` on the bogus model. */
  method GetBogus(dec: Decoder, ms: ModelSet) returns (r: Result<nat>)
    requires dec.Valid() && ms.Ready() && Quarter < dec.bigR <= Half
    modifies dec, dec.src, dec.src.window, ms.bogus, ms.bogus.freq
    ensures dec.Valid() && ms.Ready()
    ensures r.Ok? ==> r.value < ms.bogus.numSymbols && Quarter < dec.bigR <= Half &&
                      dec.received == old(dec.received) + [(ms.bogus, r.value)]
    ensures r.Fail? ==> r.failure == UnexpectedEof
  {
    r := dec.GetSymbol(ms.bogus);
  }

  /**
   * `getMTFVal(symbol)` for a basis symbol that is neither a run digit
   * nor `VAL_EOB`: 1 for `VAL_ONE`, otherwise the offset read in the class
   * model or-ed with the class's lowest rank.  Together with the basis
   * symbol already read, what was read is the coding of the rank.
   */
  method GetMtfVal(dec: Decoder, ms: ModelSet, symbol: nat, ghost r0: seq<(Model, nat)>) returns (r: Result<nat>)
    requires dec.Valid() && ms.Ready() && Quarter < dec.bigR <= Half
    requires ValOne <= symbol <= Val128_255
    requires dec.received == r0 + Sent(ms, [Token(ModelBasis, symbol)])
    modifies dec, dec.src, dec.src.window, ms.Repr()
    ensures dec.Valid() && ms.Ready()
    ensures r.Ok? ==> 1 <= r.value <= 255 && Quarter < dec.bigR <= Half &&
                      dec.received == r0 + Sent(ms, RankTokens(r.value))
    ensures r.Fail? ==> r.failure == UnexpectedEof
  {
    if symbol == ValOne {
      return Ok(1);
    }
    var e := MtfValsDecode(symbol);
    assert e.m < ModelLast && ms.models[e.m].Params() == ModelTable(e.m);
    var off :- Get(dec, ms, e.m);
    MtfTablesRoundTripBack(symbol, off);
    var v := BitOr(off, e.n);
    assert RankTokens(v) == [Token(ModelBasis, symbol), Token(e.m, off)];
    SentExtend(ms, r0, [Token(ModelBasis, symbol)], [Token(e.m, off)]);
    r := Ok(v);
  }

  /**
   * The digit loop of `getAndMoveToFrontDecode`, from the first digit
   * `first` (already read): the run length, and the symbol after the run.
   * What was read is the run's coding and that symbol.  A run that
   * cannot fit the `room` left in the block is refused as corrupt.
   */
  method GetRun(dec: Decoder, ms: ModelSet, first: nat, room: nat, ghost r0: seq<(Model, nat)>)
    returns (r: Result<(nat, nat)>)
    requires dec.Valid() && ms.Ready() && Quarter < dec.bigR <= Half
    requires first == ValRunA || first == ValRunB
    requires dec.received == r0 + Sent(ms, [Token(ModelBasis, first)])
    modifies dec, dec.src, dec.src.window, ms.Repr()
    ensures dec.Valid() && ms.Ready()
    ensures r.Ok? ==> var (n, next) := r.value;
      1 <= n <= room && next < ModelTable(ModelBasis).numSymbols && next != ValRunA && next != ValRunB &&
      Quarter < dec.bigR <= Half && dec.received == r0 + Sent(ms, Flush(n) + [Token(ModelBasis, next)])
    ensures r.Fail? ==>
      r.failure == UnexpectedEof ||
      (r.failure == FileCorrupt && exists n: nat :: n > room && dec.received == r0 + Sent(ms, Flush(n)))
  {
    var n: nat := 0;
    var sym: nat := first;
    ghost var digits: seq<nat> := [];
    while sym == ValRunA || sym == ValRunB
      invariant dec.Valid() && ms.Ready() && Quarter < dec.bigR <= Half
      invariant RunDigitsRead(digits, n) && n <= room && sym < ModelTable(ModelBasis).numSymbols
      invariant digits == [] ==> sym == first
      invariant dec.received == r0 + Sent(ms, Basis(digits + [sym]))
      decreases room - n
    {
      var n' := 2 * n + (if sym == ValRunA then 2 else 1);
      RunDigitStep(digits, n, sym, n');
      n := n';
      digits := digits + [sym];
      assert RunDigitsRead(digits, n);
      if n > room {
        assert Flush(n) == Basis(digits);
        return Fail(FileCorrupt);
      }
      sym :- Get(dec, ms, ModelBasis);
      BasisSnoc(digits, sym);
      SentExtend(ms, r0, Basis(digits), [Token(ModelBasis, sym)]);
    }
    BasisSnoc(digits, sym);
    assert Flush(n) == Basis(digits);
    r := Ok((n, sym));
  }

  /** `digits` are run digits whose fold is `n`, and for a non-empty run they are its coding. */
  ghost predicate RunDigitsRead(digits: seq<nat>, n: nat)
  {
    (forall i :: 0 <= i < |digits| ==> digits[i] == ValRunA || digits[i] == ValRunB) &&
    n == RunLength(digits) && (digits != [] ==> n >= 1 && Flush(n) == Basis(digits))
  }

  /** One more run digit doubles the fold and adds the digit's weight. */
  lemma RunDigitStep(digits: seq<nat>, n: nat, sym: nat, m: nat)
    requires RunDigitsRead(digits, n) && (sym == ValRunA || sym == ValRunB)
    requires m == 2 * n + (if sym == ValRunA then 2 else 1)
    ensures RunDigitsRead(digits + [sym], m)
  {
    var d := digits + [sym];
    assert d[..|d| - 1] == digits && d[|d| - 1] == sym;
    assert RunLength(d) == m;
    assert forall i :: 0 <= i < |d| ==> d[i] == ValRunA || d[i] == ValRunB;
    ZeroRunRunLength(d);
    assert Flush(m) == Basis(ZeroRun(m)) == Basis(d);
  }

  /** One more basis symbol at the end. */
  lemma BasisSnoc(symbols: seq<nat>, x: nat)
    ensures Basis(symbols + [x]) == Basis(symbols) + [Token(ModelBasis, x)]
  {
  }

  /** `memset(&ll[block_end], yy[0], n)`. */
  method Fill(ll: array<Byte>, from: nat, n: nat, c: Byte)
    requires from + n <= ll.Length
    modifies ll
    ensures ll[..from + n] == old(ll[..from]) + Repeat(c, n)
  {
    for k := 0 to n
      invariant forall i :: 0 <= i < from ==> ll[i] == old(ll[i])
      invariant forall i :: from <= i < from + k ==> ll[i] == c
    {
      ll[from + k] := c;
    }
    assert ll[..from + n] == old(ll[..from]) + Repeat(c, n);
  }

  /** Regrouping a history: the entries of `e`, then those of `a + b`, are those of `e + a`, then `b`. */
  lemma SentRegroup(ms: ModelSet, base: seq<(Model, nat)>, e: seq<Token>, a: seq<Token>, b: seq<Token>)
    ensures base + Sent(ms, e) + Sent(ms, a + b) == base + Sent(ms, e + a) + Sent(ms, b)
  {
    SentAppend(ms, a, b);
    SentAppend(ms, e, a);
    assert base + Sent(ms, e) + (Sent(ms, a) + Sent(ms, b)) == base + (Sent(ms, e) + Sent(ms, a)) + Sent(ms, b);
  }

  /**
   * The history `hist` continues `base` with the coding of a column longer
   * than `limit` (so far as it has been read): the block cannot fit.
   */
  ghost predicate TooLong(ms: ModelSet, base: seq<(Model, nat)>, hist: seq<(Model, nat)>, limit: nat)
  {
    exists s: seq<Byte> :: |s| > limit && hist == base + Sent(ms, MtfTokens(s))
  }

  lemma TooLongIntro(ms: ModelSet, base: seq<(Model, nat)>, hist: seq<(Model, nat)>, limit: nat, s: seq<Byte>)
    requires |s| > limit && hist == base + Sent(ms, MtfTokens(s))
    ensures TooLong(ms, base, hist, limit)
  {
  }

  /** The column after a run of `n`: the list unchanged, and the tokens extended by the run's digits. */
  lemma RunTokens(prev: seq<Byte>, n: nat)
    requires Pending(prev) == 0
    ensures var t := prev + Repeat(Yy(prev)[0], n);
      Yy(t) == Yy(prev) && MtfTokens(t) == Emitted(prev) + Flush(n)
  {
    var t := prev + Repeat(Yy(prev)[0], n);
    AppendZeros(prev, n);
    assert Emitted(t) == Emitted(prev);
    assert Pending(t) == n;
    assert MtfTokens(t) == Emitted(t) + Flush(Pending(t));
  }

  /** The decoder's history after a run of `n` that follows `prev`, then the symbol `next`. */
  lemma RunDecoded(ms: ModelSet, base: seq<(Model, nat)>, prev: seq<Byte>, n: nat, next: nat,
                   hist: seq<(Model, nat)>, t: seq<Byte>)
    requires Pending(prev) == 0 && t == prev + Repeat(Yy(prev)[0], n)
    requires hist == base + Sent(ms, Emitted(prev)) + Sent(ms, Flush(n) + [Token(ModelBasis, next)])
    ensures Yy(t) == Yy(prev) && hist == base + Sent(ms, MtfTokens(t)) + Sent(ms, [Token(ModelBasis, next)])
  {
    RunTokens(prev, n);
    SentRegroup(ms, base, Emitted(prev), Flush(n), [Token(ModelBasis, next)]);
  }

  /**
   * A run in `getAndMoveToFrontDecode`, its first digit read after the
   * column `prev` (nothing pending): the digits and the check against the
   * `room` left.  The column grown by the run has the coding of what was
   * read, and the symbol after the run is returned with the length.
   */
  method ReadRun(dec: Decoder, ms: ModelSet, first: nat, room: nat, ghost base: seq<(Model, nat)>, ghost prev: seq<Byte>)
    returns (r: Result<(nat, nat)>)
    requires dec.Valid() && ms.Ready() && Quarter < dec.bigR <= Half
    requires first == ValRunA || first == ValRunB
    requires Pending(prev) == 0
    requires dec.received == base + Sent(ms, Emitted(prev)) + Sent(ms, [Token(ModelBasis, first)])
    modifies dec, dec.src, dec.src.window, ms.Repr()
    ensures dec.Valid() && ms.Ready()
    ensures r.Ok? ==>
      1 <= r.value.0 <= room && Quarter < dec.bigR <= Half &&
      r.value.1 < ModelTable(ModelBasis).numSymbols && r.value.1 != ValRunA && r.value.1 != ValRunB
    ensures r.Ok? ==>
      var t := prev + Repeat(Yy(prev)[0], r.value.0);
      Yy(t) == Yy(prev) && dec.received == base + Sent(ms, MtfTokens(t)) + Sent(ms, [Token(ModelBasis, r.value.1)])
    ensures r.Fail? ==>
      r.failure == UnexpectedEof ||
      (r.failure == FileCorrupt && TooLong(ms, base, dec.received, |prev| + room))
  {
    ghost var r0 := base + Sent(ms, Emitted(prev));
    r := GetRun(dec, ms, first, room, r0);
    if r.Fail? {
      if r.failure == FileCorrupt {
        ghost var n :| n > room && dec.received == r0 + Sent(ms, Flush(n));
        RunTokens(prev, n);
        SentExtend(ms, base, Emitted(prev), Flush(n));
        TooLongIntro(ms, base, dec.received, |prev| + room, prev + Repeat(Yy(prev)[0], n));
      }
      return;
    }
    RunDecoded(ms, base, prev, r.value.0, r.value.1, dec.received, prev + Repeat(Yy(prev)[0], r.value.0));
  }

  /** The decoder's history after the rank `v` that follows the column `s`. */
  lemma RankDecoded(ms: ModelSet, base: seq<(Model, nat)>, s: seq<Byte>, v: nat, hist: seq<(Model, nat)>)
    requires 1 <= v <= 255
    requires hist == base + Sent(ms, MtfTokens(s)) + Sent(ms, RankTokens(v))
    ensures var t := s + [Yy(s)[v]];
      Yy(t) == MoveToFront(Yy(s), v) && Pending(t) == 0 && MtfTokens(t) == Emitted(t) &&
      hist == base + Sent(ms, Emitted(t))
  {
    var c := Yy(s)[v];
    IndexOfAt(Yy(s), v);
    StepRank(s, c);
    SentExtend(ms, base, MtfTokens(s), RankTokens(v));
  }

  /**
   * `getMTFVal` on a basis symbol read after the column `s`: the rank `v`,
   * and the column grown by the byte at rank `v` has the coding of what
   * was read.
   */
  method ReadRank(dec: Decoder, ms: ModelSet, symbol: nat, ghost base: seq<(Model, nat)>, ghost s: seq<Byte>)
    returns (r: Result<nat>)
    requires dec.Valid() && ms.Ready() && Quarter < dec.bigR <= Half
    requires ValOne <= symbol <= Val128_255
    requires dec.received == base + Sent(ms, MtfTokens(s)) + Sent(ms, [Token(ModelBasis, symbol)])
    modifies dec, dec.src, dec.src.window, ms.Repr()
    ensures dec.Valid() && ms.Ready()
    ensures r.Ok? ==>
      1 <= r.value <= 255 && Quarter < dec.bigR <= Half &&
      var t := s + [Yy(s)[r.value]];
      Yy(t) == MoveToFront(Yy(s), r.value) && Pending(t) == 0 && MtfTokens(t) == Emitted(t) &&
      dec.received == base + Sent(ms, Emitted(t))
    ensures r.Fail? ==> r.failure == UnexpectedEof
  {
    r := GetMtfVal(dec, ms, symbol, base + Sent(ms, MtfTokens(s)));
    if r.Ok? {
      RankDecoded(ms, base, s, r.value, dec.received);
    }
  }

  /** `ll[block_end] = yy[nextSym]`, then the move of that byte to the front of `yy`. */
  method PlaceRank(ms: ModelSet, ll: array<Byte>, yy: array<Byte>, blockEnd: nat, v: nat,
                   ghost s: seq<Byte>, ghost y: seq<Byte>)
    requires ms.Ready() && ll !in ms.Repr() && yy !in ms.Repr()
    requires ll != yy && blockEnd < ll.Length && 1 <= v < yy.Length
    requires ll[..blockEnd] == s && yy[..] == y
    modifies ll, yy
    ensures ms.Ready()
    ensures ll[..blockEnd + 1] == s + [y[v]] && yy[..] == MoveToFront(y, v)
  {
    var b := yy[v];
    ll[blockEnd] := b;
    assert ll[..blockEnd + 1] == s + [b];
    MoveUpFrom(yy, v, b);
  }

  /** The byte at rank `v` appended: the list is the old one with that byte moved to the front. */
  lemma RankYy(s: seq<Byte>, v: nat)
    requires 1 <= v <= 255
    ensures Yy(s + [Yy(s)[v]]) == MoveToFront(Yy(s), v)
  {
    IndexOfAt(Yy(s), v);
    StepRank(s, Yy(s)[v]);
  }

  /**
   * The column after one pass of the decoding loop from `s` with the list
   * `y`: `n` copies of the front of the list, then, unless `v` is 0
   * (`VAL_EOB`), the byte at rank `v`.
   */
  function StepColumn(s: seq<Byte>, n: nat, y: seq<Byte>, v: nat): (t: seq<Byte>)
    requires 0 < |y| && v < |y|
    ensures |t| == |s| + n + (if v == 0 then 0 else 1) && t[..|s|] == s
  {
    var u := s + Repeat(y[0], n);
    if v == 0 then u else u + [y[v]]
  }

  /**
   * The start of one pass of the decoding loop after the column `s`
   * (nothing pending): a basis symbol and, when it is a run digit, the
   * run `n` it starts; the symbol after the run is returned with `n`.
   */
  method ReadHead(dec: Decoder, ms: ModelSet, limit: nat, blockEnd: nat, ghost base: seq<(Model, nat)>, ghost s: seq<Byte>)
    returns (r: Result<(nat, nat)>)
    requires dec.Valid() && ms.Ready() && Quarter < dec.bigR <= Half
    requires |s| == blockEnd <= limit && Pending(s) == 0 && dec.received == base + Sent(ms, Emitted(s))
    modifies dec, dec.src, dec.src.window, ms.Repr()
    ensures dec.Valid() && ms.Ready()
    ensures r.Ok? ==>
      blockEnd + r.value.0 <= limit && Quarter < dec.bigR <= Half &&
      r.value.1 < ModelTable(ModelBasis).numSymbols && r.value.1 != ValRunA && r.value.1 != ValRunB
    ensures r.Ok? ==>
      dec.received == base + Sent(ms, MtfTokens(s + Repeat(Yy(s)[0], r.value.0))) + Sent(ms, [Token(ModelBasis, r.value.1)])
    ensures r.Fail? ==>
      r.failure == UnexpectedEof ||
      (r.failure == FileCorrupt && TooLong(ms, base, dec.received, limit))
  {
    var symbol :- Get(dec, ms, ModelBasis);
    if symbol == ValRunA || symbol == ValRunB {
      r := ReadRun(dec, ms, symbol, limit - blockEnd, base, s);
    } else {
      assert s + Repeat(Yy(s)[0], 0) == s;
      assert MtfTokens(s) == Emitted(s);
      r := Ok((0, symbol));
    }
  }

  /**
   * What one pass of the decoding loop reads after the column `s` (nothing
   * pending): a basis symbol, the run `n` it may start, then `VAL_EOB`
   * (`v = 0`) or a rank `v`, with the checks against `limit`.  The column
   * grown by the run, and then by the byte at rank `v`, has the coding of
   * what was read.
   */
  method ReadStep(dec: Decoder, ms: ModelSet, limit: nat, blockEnd: nat, ghost base: seq<(Model, nat)>, ghost s: seq<Byte>)
    returns (r: Result<(nat, nat)>, ghost t: seq<Byte>)
    requires dec.Valid() && ms.Ready() && Quarter < dec.bigR <= Half
    requires |s| == blockEnd <= limit && Pending(s) == 0 && dec.received == base + Sent(ms, Emitted(s))
    modifies dec, dec.src, dec.src.window, ms.Repr()
    ensures dec.Valid() && ms.Ready()
    ensures r.Ok? ==>
      r.value.1 <= 255 && t == StepColumn(s, r.value.0, Yy(s), r.value.1) && |t| <= limit && Quarter < dec.bigR <= Half
    ensures r.Ok? && r.value.1 == 0 ==>
      dec.received == base + Sent(ms, MtfTokens(t) + [EobToken])
    ensures r.Ok? && r.value.1 != 0 ==>
      Yy(t) == MoveToFront(Yy(s), r.value.1) && Pending(t) == 0 && dec.received == base + Sent(ms, Emitted(t))
    ensures r.Fail? ==>
      r.failure == UnexpectedEof ||
      (r.failure == FileCorrupt && TooLong(ms, base, dec.received, limit))
  {
    t := s;
    var head :- ReadHead(dec, ms, limit, blockEnd, base, s);
    var n, symbol := head.0, head.1;
    ghost var u := s + Repeat(Yy(s)[0], n);
    AppendZeros(s, n);
    if symbol == ValEob {
      SentExtend(ms, base, MtfTokens(u), [EobToken]);
      return Ok((n, 0)), u;
    }
    var v :- ReadRank(dec, ms, symbol, base, u);
    if blockEnd + n >= limit {
      TooLongIntro(ms, base, dec.received, limit, u + [Yy(u)[v]]);
      return Fail(FileCorrupt), u;
    }
    r, t := Ok((n, v)), u + [Yy(u)[v]];
  }

  /** `memset(&ll[block_end], yy[0], n)` after the column `s`, with the list `y` in `yy`. */
  method FillRun(ms: ModelSet, ll: array<Byte>, yy: array<Byte>, blockEnd: nat, n: nat,
                 ghost s: seq<Byte>, ghost y: seq<Byte>)
    requires ms.Ready() && ll !in ms.Repr() && ll != yy
    requires blockEnd + n <= ll.Length && 0 < yy.Length && ll[..blockEnd] == s && yy[..] == y
    modifies ll
    ensures ms.Ready() && ll[..blockEnd + n] == s + Repeat(y[0], n)
  {
    Fill(ll, blockEnd, n, yy[0]);
  }

  /**
   * The writes of one pass of the decoding loop after the column `s` in
   * `ll[..blockEnd]`, the list `y` in `yy`: the `memset` of `n` copies of
   * the front of the list, then, for a rank `v` other than 0,
   * `ll[block_end] = yy[nextSym]` and the move to the front.  The models
   * are not touched.
   */
  method WriteStep(ms: ModelSet, ll: array<Byte>, yy: array<Byte>, blockEnd: nat, n: nat, v: nat,
                   ghost s: seq<Byte>, ghost y: seq<Byte>)
    requires ms.Ready() && ll !in ms.Repr() && yy !in ms.Repr() && ll != yy
    requires blockEnd + n + (if v == 0 then 0 else 1) <= ll.Length && v < yy.Length
    requires ll[..blockEnd] == s && yy[..] == y
    modifies ll, yy
    ensures ms.Ready()
    ensures var t := StepColumn(s, n, y, v); ll[..|t|] == t
    ensures yy[..] == if v == 0 then y else MoveToFront(y, v)
  {
    FillRun(ms, ll, yy, blockEnd, n, s, y);
    if v != 0 {
      PlaceRank(ms, ll, yy, blockEnd + n, v, s + Repeat(y[0], n), y);
    }
  }

  /**
   * The decoding loop of `getAndMoveToFrontDecode`: `yy` starts as the
   * identity; the loop ends at `VAL_EOB` with the column length.  What
   * was read is the column's coding and `VAL_EOB`; a stream that
   * describes a column longer than `limit` is refused as corrupt.
   */
  method DecodeColumn(dec: Decoder, ms: ModelSet, ll: array<Byte>, yy: array<Byte>, limit: nat)
    returns (r: Result<nat>, ghost col: seq<Byte>)
    requires dec.Valid() && ms.Ready() && Quarter < dec.bigR <= Half
    requires limit <= ll.Length && ll != yy && ll !in ms.Repr() && yy !in ms.Repr() && yy[..] == Identity()
    modifies dec, dec.src, dec.src.window, ms.Repr(), ll, yy
    ensures dec.Valid() && ms.Ready()
    ensures r.Ok? ==>
      r.value == |col| <= limit && ll[..r.value] == col && Quarter < dec.bigR <= Half &&
      dec.received == old(dec.received) + Sent(ms, MtfTokens(col) + [EobToken])
    ensures r.Fail? ==>
      r.failure == UnexpectedEof ||
      (r.failure == FileCorrupt && TooLong(ms, old(dec.received), dec.received, limit))
  {
    ghost var base := dec.received;
    var blockEnd := 0;
    ghost var s: seq<Byte> := [];
    while true
      invariant dec.Valid() && ms.Ready() && Quarter < dec.bigR <= Half && blockEnd <= limit
      invariant |s| == blockEnd && ll[..blockEnd] == s && yy[..] == Yy(s) && Pending(s) == 0
      invariant dec.received == base + Sent(ms, Emitted(s))
      decreases limit - blockEnd
    {
      var step;
      ghost var t;
      step, t := ReadStep(dec, ms, limit, blockEnd, base, s);
      if step.Fail? {
        return Fail(step.failure), s;
      }
      var n, v := step.value.0, step.value.1;
      WriteStep(ms, ll, yy, blockEnd, n, v, s, Yy(s));
      s := t;
      if v == 0 {
        return Ok(blockEnd + n), t;
      }
      blockEnd := blockEnd + n + 1;
    }
  }

  /** What `getAndMoveToFrontDecode` leaves behind: `origPtr`, its result, and `block_end`. */
  datatype DecodedBlock = DecodedBlock(origPtr: nat, finish: bool, blockEnd: nat)

  /** `hist` continues `base` with some header word and then a column longer than `limit`. */
  ghost predicate HeaderThenTooLong(ms: ModelSet, base: seq<(Model, nat)>, hist: seq<(Model, nat)>, limit: nat)
  {
    exists h: nat :: h < TwoTo32 && TooLong(ms, base + Tokens(ms.bogus, WordBytes(h)), hist, limit)
  }

  lemma HeaderThenTooLongIntro(ms: ModelSet, base: seq<(Model, nat)>, hist: seq<(Model, nat)>, limit: nat, h: nat)
    requires h < TwoTo32 && TooLong(ms, base + Tokens(ms.bogus, WordBytes(h)), hist, limit)
    ensures HeaderThenTooLong(ms, base, hist, limit)
  {
  }

  /**
   * `getAndMoveToFrontDecode(limit)`: the header word in the bogus model,
   * `initModels`, then the column into `ll`.  What was read is the header
   * word the encoder writes for the block pointer and flag returned, and
   * the coding of `ll[..block_end]` with `VAL_EOB`.
   */
  method GetAndMoveToFrontDecode(dec: Decoder, ms: ModelSet, ll: array<Byte>, limit: nat)
    returns (r: Result<DecodedBlock>)
    requires dec.Valid() && ms.Ready() && Quarter < dec.bigR <= Half && limit <= ll.Length && ll !in ms.Repr()
    modifies dec, dec.src, dec.src.window, ms.Repr(), ll
    ensures dec.Valid() && ms.Ready()
    ensures r.Ok? ==>
      r.value.blockEnd <= limit && r.value.origPtr < TwoTo32 && Quarter < dec.bigR <= Half
    ensures r.Ok? ==>
      var h := HeaderWord(r.value.finish, r.value.origPtr);
      FinishOf(h) == r.value.finish && OrigPtrOf(h) == r.value.origPtr &&
      dec.received == old(dec.received) + Tokens(ms.bogus, WordBytes(h)) +
                      Sent(ms, MtfTokens(ll[..r.value.blockEnd]) + [EobToken])
    ensures r.Fail? ==>
      r.failure == UnexpectedEof ||
      (r.failure == FileCorrupt && HeaderThenTooLong(ms, old(dec.received), dec.received, limit))
  {
    var h :- GetHeader(dec, ms);
    var origPtr := OrigPtrOf(h);
    var finish := FinishOf(h);
    HeaderWordDecode(h);
    var column := DecodeList(dec, ms, ll, limit);
    if column.Fail? {
      if column.failure == FileCorrupt {
        HeaderThenTooLongIntro(ms, old(dec.received), dec.received, limit, h);
      }
      return Fail(column.failure);
    }
    r := Ok(DecodedBlock(origPtr, finish, column.value));
  }


  /** The list `yy` set to the identity, then the decoding loop. */
  method DecodeList(dec: Decoder, ms: ModelSet, ll: array<Byte>, limit: nat) returns (r: Result<nat>)
    requires dec.Valid() && ms.Ready() && Quarter < dec.bigR <= Half && limit <= ll.Length && ll !in ms.Repr()
    modifies dec, dec.src, dec.src.window, ms.Repr(), ll
    ensures dec.Valid() && ms.Ready()
    ensures r.Ok? ==>
      r.value <= limit && Quarter < dec.bigR <= Half &&
      dec.received == old(dec.received) + Sent(ms, MtfTokens(ll[..r.value]) + [EobToken])
    ensures r.Fail? ==>
      r.failure == UnexpectedEof ||
      (r.failure == FileCorrupt && TooLong(ms, old(dec.received), dec.received, limit))
  {
    var yy := InitialList();
    ghost var col;
    r, col := DecodeColumn(dec, ms, ll, yy, limit);
  }

  /** The start of `getAndMoveToFrontDecode`: `getUInt32` in the bogus model, then `initModels`. */
  method GetHeader(dec: Decoder, ms: ModelSet) returns (r: Result<nat>)
    requires dec.Valid() && ms.Ready() && Quarter < dec.bigR <= Half
    modifies dec, dec.src, dec.src.window, ms.Repr()
    ensures dec.Valid() && ms.Ready()
    ensures r.Ok? ==>
      r.value < TwoTo32 && Quarter < dec.bigR <= Half &&
      dec.received == old(dec.received) + Tokens(ms.bogus, WordBytes(r.value))
    ensures r.Fail? ==> r.failure == UnexpectedEof
  {
    r := GetBogusWord(dec, ms);
    if r.Ok? {
      ms.InitModels();
    }
  }

  /** `getUInt32`: four symbols in the bogus model, the set of models kept ready. */
  method GetBogusWord(dec: Decoder, ms: ModelSet) returns (r: Result<nat>)
    requires dec.Valid() && ms.Ready() && Quarter < dec.bigR <= Half
    modifies dec, dec.src, dec.src.window, ms.bogus, ms.bogus.freq
    ensures dec.Valid() && ms.Ready()
    ensures r.Ok? ==>
      r.value < TwoTo32 && Quarter < dec.bigR <= Half &&
      dec.received == old(dec.received) + Tokens(ms.bogus, WordBytes(r.value))
    ensures r.Fail? ==> r.failure == UnexpectedEof
  {
    r := dec.GetUInt32(ms.bogus);
  }
}
