/**
 * The earlier single-file version, old/bzip.c, where it differs from the
 * current sources: frequency models whose symbols start at 1 (`freq[0]`
 * and `freq[numSymbols + 1]` kept at zero), the other bit-plus-follow
 * convention of its renormaliser, its move-to-front value and zero-run
 * codes, its byte and word coding through a bogus model that never
 * rescales, its index normalisers, its signed spot loop and its run
 * reader with a pushed-back lookahead byte.  Each piece is tied to the
 * corresponding piece of the current version.
 */
module OldBzip {
  import opened Common
  import opened Models
  import opened Arith
  import opened Mtf
  import opened Spot
  import opened Crc
  import MtfDecode

  // ---------------------------------------------------------------------
  // Generic frequency-table stuff, 1-based

  /** `MAX_SYMBOLS`; the array has two more cells, the unused ends. */
  const OldMaxSymbols: nat := 256

  /**
   * `struct Model` of old/bzip.c: the counts of symbols `1..numSymbols`
   * live at `freq[1..numSymbols]`; `freq[0]` and `freq[numSymbols + 1]`
   * are kept at zero.
   */
  class OldModel {
    var numSymbols: nat
    var incValue: nat
    var noExceed: nat
    var totFreq: nat
    var numScalings: nat
    const freq: array<nat>

    function Params(): ModelParams
      reads this
    {
      ModelParams(numSymbols, incValue, noExceed)
    }

    /** The live counts, symbol 1 first. */
    ghost function Counts(): seq<nat>
      reads this, freq
      requires numSymbols + 2 <= freq.Length
    {
      freq[1..numSymbols + 1]
    }

    /** Shape of the record, zero ends, and `totFreq` is the sum of the live counts. */
    ghost predicate Valid()
      reads this, freq
    {
      freq.Length == OldMaxSymbols + 2 && 1 <= numSymbols <= OldMaxSymbols &&
      freq[0] == 0 && freq[numSymbols + 1] == 0 && totFreq == Sum(Counts())
    }

    /** A statically allocated model: everything zero. */
    constructor ()
      ensures freq.Length == OldMaxSymbols + 2 && fresh(freq)
      ensures numSymbols == 0 && totFreq == 0
    {
      numSymbols, incValue, noExceed, totFreq, numScalings := 0, 0, 0, 0, 0;
      freq := new nat[OldMaxSymbols + 2](_ => 0);
    }

    /** The fill loop of `initModel`: `freq[1..n]` all become `v`. */
    method Fill(v: nat, n: nat)
      requires freq.Length == OldMaxSymbols + 2 && n <= OldMaxSymbols
      modifies freq
      ensures freq[1..n + 1] == Repeat(v, n)
      ensures freq[0] == old(freq[0]) && forall i :: n + 1 <= i < freq.Length ==> freq[i] == old(freq[i])
    {
      for i := 1 to n + 1
        invariant freq[1..i] == Repeat(v, i - 1)
        invariant freq[0] == old(freq[0]) && forall j :: i <= j < freq.Length ==> freq[j] == old(freq[j])
      {
        freq[i] := v;
        assert freq[1..i + 1] == freq[1..i] + [v];
      }
    }

    /**
     * `initModel`: every live count becomes `incValue`, or 1 when
     * `incValue` is 0 (a model that is never incremented); the two ends
     * become zero and the total is their sum.
     */
    method Init(initNumSymbols: nat, initIncValue: nat, initNoExceed: nat)
      requires freq.Length == OldMaxSymbols + 2 && 1 <= initNumSymbols <= OldMaxSymbols
      modifies this, freq
      ensures Valid() && Params() == ModelParams(initNumSymbols, initIncValue, initNoExceed) && numScalings == 0
      ensures Counts() == Repeat<nat>(if initIncValue == 0 then 1 else initIncValue, initNumSymbols)
      ensures forall i :: initNumSymbols + 1 < i < freq.Length ==> freq[i] == old(freq[i])
    {
      var v: nat := if initIncValue == 0 then 1 else initIncValue;
      if initIncValue == 0 {
        totFreq := initNumSymbols;
        Fill(1, initNumSymbols);
      } else {
        totFreq := initNumSymbols * initIncValue;
        Fill(initIncValue, initNumSymbols);
      }
      numSymbols, incValue, noExceed, numScalings := initNumSymbols, initIncValue, initNoExceed, 0;
      freq[0] := 0;
      freq[initNumSymbols + 1] := 0;
      assert Counts() == Repeat(v, initNumSymbols);
      SumRepeat(v, initNumSymbols);
    }

    /** The scaling loop of `updateModel`: halve every live count, rounding up, and add them up again. */
    method Rescale()
      requires freq.Length == OldMaxSymbols + 2 && 1 <= numSymbols <= OldMaxSymbols
      requires freq[0] == 0 && freq[numSymbols + 1] == 0
      modifies this`totFreq, freq
      ensures freq[0] == 0 && freq[numSymbols + 1] == 0
      ensures Counts() == Halved(old(Counts())) && totFreq == Sum(Counts())
    {
      ghost var before := Counts();
      ghost var halved := Halved(before);
      var n := numSymbols;
      var total: nat := 0;
      for i := 1 to n + 1
        invariant forall j :: 1 <= j < i ==> freq[j] == halved[j - 1]
        invariant forall j :: i <= j <= n + 1 ==> freq[j] == old(freq[j])
        invariant freq[0] == 0
        invariant total == Sum(halved[..i - 1])
      {
        assert freq[i] == before[i - 1];
        freq[i] := (freq[i] + 1) / 2;
        total := total + freq[i];
        SumPrefix(halved, i - 1);
      }
      LiveView(freq[..], halved);
      assert halved[..n] == halved;
      totFreq := total;
    }

    /** An array whose cells `1..n` hold `f`, seen from cell 1. */
    static lemma LiveView(a: seq<nat>, f: seq<nat>)
      requires |f| + 2 <= |a| && forall j :: 1 <= j <= |f| ==> a[j] == f[j - 1]
      ensures a[1..|f| + 1] == f
    {
    }

    /**
     * `updateModel`: add `incValue` to the symbol's count and the total;
     * when the total passes `noExceed`, count one more scaling and
     * rescale.  Exactly what the current `updateModel` does to the same
     * counts, one symbol lower.
     */
    method Update(symbol: nat)
      requires Valid() && 1 <= symbol <= numSymbols
      modifies this`totFreq, this`numScalings, freq
      ensures Valid() && Params() == old(Params())
      ensures Counts() == UpdatedFreqs(Params(), old(Counts()), symbol - 1)
      ensures numScalings == old(numScalings) + (if old(totFreq) + incValue > noExceed then 1 else 0)
    {
      ghost var before := freq[1..numSymbols + 1];
      totFreq := totFreq + incValue;
      freq[symbol] := freq[symbol] + incValue;
      assert Counts() == before[symbol - 1 := before[symbol - 1] + incValue];
      SumBump(before, symbol - 1, incValue);
      if totFreq > noExceed {
        numScalings := numScalings + 1;
        Rescale();
      }
    }

    /** The `smallL` loop of `arithCodeSymbol`: the counts of symbols `1..symbol-1`, added up. */
    method CumFreq(symbol: nat) returns (smallL: nat)
      requires Valid() && 1 <= symbol <= numSymbols
      ensures smallL == Cum(Counts(), symbol - 1) && smallL + freq[symbol] <= totFreq
    {
      smallL := 0;
      for i := 1 to symbol
        invariant smallL == Cum(Counts(), i - 1)
      {
        SumPrefix(Counts(), i - 1);
        smallL := smallL + freq[i];
      }
      CountWithinSum(Counts(), symbol - 1);
    }

    /**
     * The search loop of `arithDecodeSymbol`: starting from symbol 0 and
     * sum 0, step to the next symbol and add its count while the sum is
     * at most `target`.  The symbol found is one above what the current
     * search finds in the same counts.
     */
    method FindSymbol(target: nat) returns (symbol: nat, smallH: nat)
      requires Valid() && target < totFreq
      ensures 1 <= symbol <= numSymbols && symbol - 1 == SymbolFor(Counts(), target)
      ensures smallH == Cum(Counts(), symbol - 1) + freq[symbol]
    {
      symbol, smallH := 0, 0;
      assert Counts()[..numSymbols] == Counts();
      while smallH <= target
        invariant symbol <= numSymbols && smallH == Cum(Counts(), symbol)
        invariant symbol > 0 ==> Cum(Counts(), symbol - 1) <= target
        decreases numSymbols - symbol
      {
        SumPrefix(Counts(), symbol);
        symbol := symbol + 1;
        smallH := smallH + freq[symbol];
      }
      SumPrefix(Counts(), symbol - 1);
      SymbolForUnique(Counts(), target, symbol - 1);
    }
  }

  /** `initModel(&bogusModel, "bogus", 256, 0, 256)`. */
  const OldBogusParams: ModelParams := ModelParams(256, 0, 256)

  /**
   * The old bogus model starts with every count 1 and never rescales
   * (its total 256 never passes `noExceed`), so it stays uniform, as the
   * current one does by rescaling on every update.
   */
  lemma OldBogusStaysUniform(s: nat)
    requires s < 256
    ensures UpdatedFreqs(OldBogusParams, Repeat<nat>(1, 256), s) == Repeat<nat>(1, 256)
    ensures UpdatedFreqs(OldBogusParams, Repeat<nat>(1, 256), s) == UpdatedFreqs(BogusParams, Repeat<nat>(1, 256), s)
  {
    var f := Repeat<nat>(1, 256);
    assert f[s := f[s] + 0] == f;
    SumRepeat(1, 256);
    BogusStaysUniform(s);
  }

  // ---------------------------------------------------------------------
  // The arithmetic coder's bit convention

  /** Old `arithCodeBitPlusFollow(bit)`: `bit`, then `1 - bit` once per outstanding bit. */
  function OldFollowBits(bit: Bit, n: nat): (r: seq<Bit>)
    ensures r == FollowBits(1 - bit, n)
  {
    [bit] + Repeat(1 - bit, n)
  }

  /**
   * One turn of the old `arithCodeRenormalize_Encode`: a 0 (with its
   * follow bits) for the lower half, a 1 for the upper half, one more
   * outstanding bit for the middle; then both ends double.
   */
  function OldRenormStep(s: EncState): (r: (EncState, seq<Bit>))
    requires 1 <= s.range <= Quarter && s.low + s.range <= Top
  {
    if s.low + s.range <= Half then
      (EncState(2 * s.low, 2 * s.range, 0), OldFollowBits(0, s.outstanding))
    else if Half <= s.low then
      (EncState(2 * (s.low - Half), 2 * s.range, 0), OldFollowBits(1, s.outstanding))
    else
      (EncState(2 * (s.low - Quarter), 2 * s.range, s.outstanding + 1), [])
  }

  /** The old renormaliser: steps while `R <= 2^24`. */
  function OldRenorm(s: EncState): (r: (EncState, seq<Bit>))
    requires 1 <= s.range <= Half && s.low + s.range <= Top
    decreases Half - s.range
  {
    if s.range > Quarter then (s, [])
    else
      var (s1, b1) := OldRenormStep(s);
      var (s2, b2) := OldRenorm(s1);
      (s2, b1 + b2)
  }

  /**
   * The old renormaliser, calling `arithCodeBitPlusFollow(0)` where the
   * current one calls `arithCodeBitPlusFollow(1)`, writes the same bits
   * and leaves the same state: the two argument conventions cancel.
   */
  lemma {:induction false} OldRenormAgrees(s: EncState)
    requires 1 <= s.range <= Half && s.low + s.range <= Top
    ensures OldRenorm(s) == Renorm(s)
    decreases Half - s.range
  {
    if s.range <= Quarter {
      assert OldRenormStep(s) == RenormStep(s);
      OldRenormAgrees(RenormStep(s).0);
    }
  }

  /**
   * Old `arithCodeDoneEncoding`: `arithCodeBitPlusFollow` of each of the
   * 26 bits of `L`, most significant first; the outstanding bits follow
   * the first.  The same bits as the current version's `!(L & i)` calls.
   */
  function OldDoneBits(low: nat, outstanding: nat): (r: seq<Bit>)
    ensures var bits := BitStream.BitsOf(low, SmallB);
      r == FollowBits(1 - bits[0], outstanding) + bits[1..]
  {
    var bits := BitStream.BitsOf(low, SmallB);
    OldFollowBits(bits[0], outstanding) + bits[1..]
  }

  // ---------------------------------------------------------------------
  // Bytes and words through the bogus model

  /** Old `putUInt32`: each byte, most significant first, as symbol `1 + byte`. */
  function OldWordSymbols(w: nat): (r: seq<nat>)
    requires w < TwoTo32
    ensures |r| == 4 && forall k :: 0 <= k < 4 ==> 1 <= r[k] <= 256
  {
    var b := WordBytes(w);
    [b[0] + 1, b[1] + 1, b[2] + 1, b[3] + 1]
  }

  /** Old `getUInt32`: `getUChar` is the symbol less one; the four are or-ed in, in statement order. */
  function OldWordOf(syms: seq<nat>): (w: nat)
    requires |syms| == 4 && forall k :: 0 <= k < 4 ==> 1 <= syms[k] <= 256
    ensures w < TwoTo32
  {
    WordOf([syms[0] - 1, syms[1] - 1, syms[2] - 1, syms[3] - 1])
  }

  /**
   * Old `getUInt32` inverts old `putUInt32`.  Its four reads are separate
   * statements, so unlike the current one-expression version their order
   * is fixed.
   */
  lemma OldWordRoundTrip(w: nat)
    requires w < TwoTo32
    ensures OldWordOf(OldWordSymbols(w)) == w
  {
    var b := OldWordSymbols(w);
    assert [b[0] - 1, b[1] - 1, b[2] - 1, b[3] - 1] == WordBytes(w);
    WordOfWordBytes(w);
  }

  /** Old `putInt32`: the bits of the signed value as an unsigned word. */
  function OldInt32Symbols(i: int): (r: seq<nat>)
    requires -0x8000_0000 <= i < 0x8000_0000
    ensures |r| == 4 && forall k :: 0 <= k < 4 ==> 1 <= r[k] <= 256
  {
    OldWordSymbols(Wrap32(i))
  }

  /** Old `getInt32`: the word read back as a signed value. */
  function OldGetInt32(syms: seq<nat>): (i: int)
    requires |syms| == 4 && forall k :: 0 <= k < 4 ==> 1 <= syms[k] <= 256
    ensures -0x8000_0000 <= i < 0x8000_0000
  {
    MtfDecode.Signed32(OldWordOf(syms))
  }

  /** Old `getInt32` inverts old `putInt32` on every 32-bit signed value. */
  lemma OldInt32RoundTrip(i: int)
    requires -0x8000_0000 <= i < 0x8000_0000
    ensures OldGetInt32(OldInt32Symbols(i)) == i
  {
    OldWordRoundTrip(Wrap32(i));
    var x := MtfDecode.Signed32(Wrap32(i));
    if i < 0 {
      ModUnique(i, TwoTo32, -1, i + TwoTo32);
    } else {
      ModUnique(i, TwoTo32, 0, i);
    }
  }

  // ---------------------------------------------------------------------
  // Move-to-front values

  // The basis symbols of old/bzip.c (`VAL_RUNA` .. `VAL_EOB`), one above the current ones.
  const OldValRunA: nat := 1
  const OldValRunB: nat := 2
  const OldValOne: nat := 3
  const OldVal2_3: nat := 4
  const OldValEob: nat := 11

  // The run digits and the end of block as values of `sendMTFVal`/`getMTFVal`.
  const OldRunA: int := 257
  const OldRunB: int := 258
  const OldEob: int := 259

  /** The values old `sendMTFVal` accepts: a rank 1..255, a run digit or the end of block. */
  predicate OldMtfValue(n: int)
  {
    1 <= n <= 255 || n == OldRunA || n == OldRunB || n == OldEob
  }

  /** The class `c` (1..7) of a rank in 2..255: the range `[2^c, 2^(c+1))` it lies in. */
  function OldClassOf(n: int): (c: nat)
    requires 2 <= n <= 255
    ensures 1 <= c <= 7 && Pow2(c) <= n < 2 * Pow2(c)
  {
    Pow2Small();
    if n <= 3 then 1 else if n <= 7 then 2 else if n <= 15 then 3 else if n <= 31 then 4
    else if n <= 63 then 5 else if n <= 127 then 6 else 7
  }

  /**
   * Old `sendMTFVal`: the tokens it codes (model, symbol), or `None` for
   * the panic on any other value.  A rank of class `c` is the basis
   * symbol `VAL_2_3 + c - 1` and then `n - 2^c + 1` in the model of that
   * class.
   */
  function OldSendMtfVal(n: int): (r: Option<seq<Token>>)
    ensures r.Some? <==> OldMtfValue(n)
  {
    if n == OldRunA then Some([Token(ModelBasis, OldValRunA)])
    else if n == OldRunB then Some([Token(ModelBasis, OldValRunB)])
    else if n == OldEob then Some([Token(ModelBasis, OldValEob)])
    else if n == 1 then Some([Token(ModelBasis, OldValOne)])
    else if 2 <= n <= 255 then
      var c := OldClassOf(n);
      Some([Token(ModelBasis, OldVal2_3 + c - 1), Token(c, n - Pow2(c) + 1)])
    else None
  }

  /**
   * Old `getMTFVal`: the value of a basis symbol, and for a class symbol
   * `v` the value `sub + 2^c - 1` of the symbol `sub` read from the model
   * of class `c = v - 3` (the `default` case is class 7).
   */
  function OldGetMtfVal(basis: nat, sub: nat): (n: int)
  {
    if basis == OldValEob then OldEob
    else if basis == OldValRunA then OldRunA
    else if basis == OldValRunB then OldRunB
    else if basis == OldValOne then 1
    else if OldVal2_3 <= basis <= OldVal2_3 + 5 then sub + Pow2(basis - 3) - 1
    else sub + 128 - 1
  }

  /** The class model a class symbol sends the decoder to. */
  function OldSubModel(basis: nat): (m: nat)
    requires OldVal2_3 <= basis < OldValEob
  {
    basis - 3
  }

  /**
   * Old `getMTFVal` inverts old `sendMTFVal`: the decoder reads the
   * second symbol from the model it was coded in, the symbol lies in
   * `1..numSymbols` of that model, and the value comes back.
   */
  lemma OldMtfValRoundTrip(n: int)
    requires OldMtfValue(n)
    ensures var t := OldSendMtfVal(n).value;
      1 <= t[0].symbol <= OldValEob && t[0].model == ModelBasis &&
      (|t| == 1 ==> OldGetMtfVal(t[0].symbol, 0) == n) &&
      (|t| == 2 ==> OldVal2_3 <= t[0].symbol < OldValEob && t[1].model == OldSubModel(t[0].symbol) &&
                    1 <= t[1].symbol <= ModelTable(t[1].model).numSymbols &&
                    OldGetMtfVal(t[0].symbol, t[1].symbol) == n)
  {
    if 2 <= n <= 255 {
      var c := OldClassOf(n);
      Pow2Small();
      ModelTableSound(c);
    }
  }

  /** A token sequence with every symbol one higher: the old numbering of the same tokens. */
  function OneBased(toks: seq<Token>): (r: seq<Token>)
    ensures |r| == |toks| && forall k :: 0 <= k < |r| ==> r[k] == Token(toks[k].model, toks[k].symbol + 1)
  {
    seq(|toks|, k requires 0 <= k < |toks| => Token(toks[k].model, toks[k].symbol + 1))
  }

  /**
   * For every rank the old and the current coder send the same models
   * and the same symbols, numbered from 1 instead of 0: the class
   * offset `n - 2^c + 1` is the current `n & (2^c - 1)` plus one.
   */
  lemma OldMtfValAgrees(n: nat)
    requires 1 <= n <= 255
    ensures OldSendMtfVal(n) == Some(OneBased(RankTokens(n)))
  {
    if n >= 2 {
      var c := RankClass(n);
      OldSendClass(n);
      CurrentSendClass(n);
      assert OneBased([Token(ModelBasis, c + 2), Token(c, n - Pow2(c))]) ==
             [Token(ModelBasis, c + 3), Token(c, n - Pow2(c) + 1)];
    } else {
      assert OneBased(RankTokens(n)) == [Token(ModelBasis, OldValOne)];
    }
  }

  /** Old `sendMTFVal` on a rank of class `c`: basis symbol `c + 3`, then the offset plus one. */
  lemma OldSendClass(n: nat)
    requires 2 <= n <= 255
    ensures var c := RankClass(n);
      OldSendMtfVal(n) == Some([Token(ModelBasis, c + 3), Token(c, n - Pow2(c) + 1)])
  {
    assert OldClassOf(n) == RankClass(n);
  }

  /** The current tables on a rank of class `c`: basis symbol `c + 2`, then the offset. */
  lemma CurrentSendClass(n: nat)
    requires 2 <= n <= 255
    ensures var c := RankClass(n);
      RankTokens(n) == [Token(ModelBasis, c + 2), Token(c, n - Pow2(c))]
  {
    MtfTablesRoundTrip(n);
    EncodeOffset(n);
    ClassOffset(n);
  }

  /** Masking a rank of class `c` with `2^c - 1` removes the class's top bit. */
  lemma ClassOffset(n: nat)
    requires 2 <= n <= 255
    ensures BitAnd(n, Pow2(RankClass(n)) - 1) == n - Pow2(RankClass(n))
  {
    var c := RankClass(n);
    var lo := Pow2(c);
    BitAndLowMask(n, c);
    ModUnique(n, lo, 1, n - lo);
  }

  /** The offset column of the current encode table masks the rank with its class's low bits. */
  lemma EncodeOffset(n: nat)
    requires 2 <= n <= 255
    ensures MtfValsEncode(n).n == BitAnd(n, Pow2(RankClass(n)) - 1)
  {
    Pow2Small();
  }

  // ---------------------------------------------------------------------
  // Zero runs

  /** The digits held in the low `nb` bits of `bits`, bit 0 first, as current basis symbols (1 is RUNA). */
  function BitDigits(bits: nat, nb: nat): (r: seq<nat>)
    ensures |r| == nb
  {
    if nb == 0 then [] else [if bits % 2 == 1 then ValRunA else ValRunB] + BitDigits(bits / 2, nb - 1)
  }

  /** The bits that hold `digits`, the first in bit 0 (RUNA is a 1). */
  function BitsValue(digits: seq<nat>): nat
  {
    if digits == [] then 0 else (if digits[0] == ValRunA then 1 else 0) + 2 * BitsValue(digits[1..])
  }

  /** Reading the bits back gives the run digits they were made from. */
  lemma {:induction false} BitsValueDigits(digits: seq<nat>)
    requires forall i :: 0 <= i < |digits| ==> digits[i] == ValRunA || digits[i] == ValRunB
    ensures BitDigits(BitsValue(digits), |digits|) == digits
  {
    if digits != [] {
      var b := if digits[0] == ValRunA then 1 else 0;
      var rest := BitsValue(digits[1..]);
      var v := BitsValue(digits);
      assert v == b + 2 * rest;
      ModUnique(v, 2, rest, b);
      BitsValueDigits(digits[1..]);
      assert BitDigits(v, |digits|) == [digits[0]] + BitDigits(rest, |digits| - 1);
      assert digits == [digits[0]] + digits[1..];
    }
  }

  /**
   * What the collecting loop keeps: the digits still to come and those
   * collected spell the run length `k`; `bits` holds the collected ones
   * in `nb` bits; and those bits weigh less than `weight`, which times
   * one more than the count left stays within `k + 1`.
   */
  ghost predicate Collecting(k: nat, z: nat, bits: nat, nb: nat, digits: seq<nat>, weight: nat)
    requires k >= 1
  {
    ZeroRun(k) == PendingDigits(z) + digits && bits == BitsValue(digits) && nb == |digits| &&
    bits < weight && weight * (z + 1) <= k + 1
  }

  /** The digit one pass of the collecting loop takes from what is left. */
  function NextDigit(z: nat): (d: nat)
    requires z >= 1
  {
    if (z - 1) % 2 == 1 then ValRunA else ValRunB
  }

  /**
   * One pass of the collecting loop keeps `Collecting`, and the shift
   * it makes stays below 2^32 for a run length below 2^31.
   */
  lemma CollectNext(k: nat, z: nat, bits: nat, nb: nat, digits: seq<nat>, weight: nat)
    requires 1 <= k < 0x8000_0000 && z >= 1 && Collecting(k, z, bits, nb, digits, weight)
    ensures 2 * bits < TwoTo32 && Wrap32(2 * bits) == 2 * bits
    ensures Collecting(k, (z - 1) / 2, 2 * bits + (z - 1) % 2, nb + 1, [NextDigit(z)] + digits, 2 * weight)
  {
    CollectStep(k, z, digits);
    BitsNext(bits, digits, z);
    WeightNext(k, z, bits, weight);
  }

  /** The collected bits shift up and take the new digit in bit 0. */
  lemma BitsNext(bits: nat, digits: seq<nat>, z: nat)
    requires z >= 1 && bits == BitsValue(digits)
    ensures 2 * bits + (z - 1) % 2 == BitsValue([NextDigit(z)] + digits)
  {
    assert ([NextDigit(z)] + digits)[1..] == digits;
  }

  /** The weight bound survives one pass, and the shift stays below 2^32. */
  lemma WeightNext(k: nat, z: nat, bits: nat, weight: nat)
    requires k < 0x8000_0000 && z >= 1 && bits < weight && weight * (z + 1) <= k + 1
    ensures 2 * bits < TwoTo32 && Wrap32(2 * bits) == 2 * bits
    ensures 2 * bits + (z - 1) % 2 < 2 * weight && 2 * weight * ((z - 1) / 2 + 1) <= k + 1
  {
    var h := (z - 1) / 2 + 1;
    assert 2 * h <= z + 1;
    MulMono(weight, 2 * h, z + 1);
    MulMono(weight, 2, z + 1);
    ModUnique(2 * bits, TwoTo32, 0, 2 * bits);
  }

  /** The run digits as old `sendMTFVal` codes them: RUNA is basis symbol 1, RUNB basis symbol 2. */
  function OldRunTokens(digits: seq<nat>): (r: seq<Token>)
  {
    OneBased(Basis(digits))
  }

  /** The run digits of one-based tokens, one at a time from the front. */
  lemma OldRunTokensCons(d: nat, rest: seq<nat>)
    ensures OldRunTokens([d] + rest) == [Token(ModelBasis, d + 1)] + OldRunTokens(rest)
  {
  }

  /**
   * The first loop of old `sendZeroes`: the bijective base-2 digits of
   * the count, least significant first, go into the bits of
   * `bitsToSend`, each one shifting the earlier ones up, so the most
   * significant digit ends up in bit 0.  `bitsToSend` stays below 2^31,
   * so the unsigned shift never loses a bit.
   */
  method CollectBits(zeroesPending: nat) returns (bitsToSend: U32, numBits: nat)
    requires 1 <= zeroesPending < 0x8000_0000
    ensures ZeroRun(zeroesPending) == BitDigits(bitsToSend, numBits)
  {
    bitsToSend, numBits := 0, 0;
    var z := zeroesPending;
    ghost var weight: nat := 1;
    ghost var digits: seq<nat> := [];
    while z != 0
      invariant Collecting(zeroesPending, z, bitsToSend, numBits, digits, weight)
      decreases z
    {
      ghost var next, rest := 2 * bitsToSend + (z - 1) % 2, (z - 1) / 2;
      CollectNext(zeroesPending, z, bitsToSend, numBits, digits, weight);
      digits, weight := [NextDigit(z)] + digits, 2 * weight;
      numBits := numBits + 1;
      bitsToSend := Wrap32(2 * bitsToSend);
      z := z - 1;
      if z % 2 == 1 {
        bitsToSend := bitsToSend + 1;
      }
      z := z / 2;
      assert bitsToSend == next && z == rest;
    }
    assert digits == ZeroRun(zeroesPending);
    BitsValueDigits(digits);
  }

  /** The second loop of old `sendZeroes`: the digits from bit 0 up, as basis symbols RUNA or RUNB. */
  method SendBits(bitsToSend: nat, numBits: nat) returns (sent: seq<Token>)
    ensures sent == OldRunTokens(BitDigits(bitsToSend, numBits))
  {
    var bits, nb := bitsToSend, numBits;
    sent := [];
    while nb > 0
      invariant sent + OldRunTokens(BitDigits(bits, nb)) == OldRunTokens(BitDigits(bitsToSend, numBits))
      decreases nb
    {
      var d := if bits % 2 == 1 then ValRunA else ValRunB;
      assert BitDigits(bits, nb) == [d] + BitDigits(bits / 2, nb - 1);
      OldRunTokensCons(d, BitDigits(bits / 2, nb - 1));
      AppendAssoc(sent, [Token(ModelBasis, d + 1)], OldRunTokens(BitDigits(bits / 2, nb - 1)));
      if bits % 2 == 1 {
        sent := sent + [Token(ModelBasis, OldValRunA)];
      } else {
        sent := sent + [Token(ModelBasis, OldValRunB)];
      }
      bits := bits / 2;
      nb := nb - 1;
    }
  }

  /**
   * Old `sendZeroes`: nothing for no zeros; otherwise the digits of the
   * count, most significant first, as one-based basis symbols: the same
   * digits as the current `sendZeroes`.
   */
  method OldSendZeroes(zeroesPending: nat) returns (sent: seq<Token>)
    requires zeroesPending < 0x8000_0000
    ensures zeroesPending == 0 ==> sent == []
    ensures zeroesPending >= 1 ==> sent == OldRunTokens(ZeroRun(zeroesPending))
  {
    if zeroesPending == 0 {
      return [];
    }
    var bitsToSend, numBits := CollectBits(zeroesPending);
    sent := SendBits(bitsToSend, numBits);
  }

  /**
   * The old decoder's fold over run digits, first digit most
   * significant: `n <<= 1; if RUNA, n |= 1; n++` — the or sets the
   * cleared low bit.
   */
  function OldRunLength(digits: seq<nat>): nat
  {
    if digits == [] then 0
    else 2 * OldRunLength(digits[..|digits| - 1]) + (if digits[|digits| - 1] == OldValRunA then 1 else 0) + 1
  }

  /** On one-based run digits the old fold is the current one. */
  lemma {:induction false} OldRunLengthAgrees(digits: seq<nat>)
    requires forall k :: 0 <= k < |digits| ==> digits[k] == ValRunA || digits[k] == ValRunB
    ensures OldRunLength(seq(|digits|, k requires 0 <= k < |digits| => digits[k] + 1)) == RunLength(digits)
    decreases |digits|
  {
    if digits != [] {
      var shifted := seq(|digits|, k requires 0 <= k < |digits| => digits[k] + 1);
      var init := digits[..|digits| - 1];
      assert shifted[..|shifted| - 1] == seq(|init|, k requires 0 <= k < |init| => init[k] + 1);
      OldRunLengthAgrees(init);
    }
  }

  /** The old decoder recovers the count from the old `sendZeroes` digits. */
  lemma OldZeroRunRoundTrip(k: nat)
    requires k >= 1
    ensures var t := OldRunTokens(ZeroRun(k));
      OldRunLength(seq(|t|, i requires 0 <= i < |t| => t[i].symbol)) == k
  {
    var ds := ZeroRun(k);
    var t := OldRunTokens(ds);
    assert seq(|t|, i requires 0 <= i < |t| => t[i].symbol) == seq(|ds|, i requires 0 <= i < |ds| => ds[i] + 1);
    OldRunLengthAgrees(ds);
    RunLengthZeroRun(k);
  }

  // ---------------------------------------------------------------------
  // Index normalisers

  /** Old `NORMALIZE(p)`: add `lastPP` to a negative index, subtract it from one past the block. */
  function OldNormalize(p: int, lastPP: nat): (r: int)
    ensures 0 <= p ==> r == Words.NormalizeHi(p, lastPP)
    ensures p < 0 ==> r == Words.NormalizeLo(p, lastPP)
  {
    if p < 0 then p + lastPP else if p < lastPP then p else p - lastPP
  }

  /** `NORMALIZE` gives the circular index for indices less than one block outside it. */
  lemma OldNormalizeCircular(p: int, lastPP: nat)
    requires -(lastPP as int) <= p < 2 * lastPP
    ensures OldNormalize(p, lastPP) == p % lastPP
  {
    if p < 0 {
      Words.NormalizeLoCircular(p, lastPP);
    } else {
      Words.NormalizeHiCircular(p, lastPP);
    }
  }

  /**
   * `STRONG_NORMALIZE(p)`: add `lastPP` until the index is not negative,
   * then take the remainder; the circular index of any `p`.
   */
  method StrongNormalize(p: int, lastPP: nat) returns (r: int)
    requires lastPP >= 1
    ensures 0 <= r < lastPP && r == p % lastPP
  {
    var q := p;
    ghost var k: nat := 0;
    while q < 0
      invariant q == p + k * lastPP
      decreases -q
    {
      q := q + lastPP;
      k := k + 1;
    }
    ModUnique(p, lastPP, q / lastPP - k, q % lastPP);
    r := q % lastPP;
  }

  // ---------------------------------------------------------------------
  // spotBlock

  /** The positions old `spotBlock` visits for a block whose last index is `last`: none when `last < 0`. */
  function OldSpotPositions(last: int): (ps: seq<nat>)
  {
    if last < 0 then [] else SpotFrom(SpotBasisStep, 1, last)
  }

  /**
   * With a signed `last`, the old loop visits the same positions as the
   * current one for every block length, and none for an empty block,
   * where the current decompressor's unsigned bound wraps.
   */
  lemma OldSpotAgrees(n: nat)
    ensures OldSpotPositions(n - 1) == SpotPositions(n)
  {
  }

  /**
   * Old `spotBlock`: at each position below `last`, add one to the byte
   * when compressing (256 becomes 0) or subtract one when decompressing
   * (−1 becomes 255).  The compressor works on the `GETFIRST` byte of
   * each word, which is the block byte.
   */
  method OldSpotBlock(block: array<Byte>, last: int, weAreCompressing: bool)
    requires -1 <= last < block.Length
    modifies block
    ensures block[..] == Bump(old(block[..]), OldSpotPositions(last), if weAreCompressing then 1 else -1)
  {
    ghost var b := block[..];
    ghost var ps := OldSpotPositions(last);
    ghost var d: int := if weAreCompressing then 1 else -1;
    if last < 0 {
      assert b == Bump(b, ps, d);
      return;
    }
    ghost var done: seq<nat> := [];
    var delta: Delta := 1;
    var pos: nat := SpotBasisStep;
    while pos < last
      invariant Visiting(ps, done, pos, delta, last)
      invariant block[..] == Bump(b, done, d)
      decreases last - pos
    {
      var delta' := NewDeltas[delta];
      var next: nat := pos + SpotBasisStep + 17 * (delta' as int - 5);
      VisitStep(ps, done, pos, delta, last, next, delta');
      BumpStep(b, done, pos, d);
      var n: int := if weAreCompressing then block[pos] as int + 1 else block[pos] as int - 1;
      if n == 256 {
        n := 0;
      } else if n == -1 {
        n := 255;
      }
      ByteWrap(block[pos], d, n);
      block[pos] := n;
      done := done + [pos];
      delta := delta';
      pos := next;
    }
    VisitDone(ps, done, pos, delta, last);
  }

  /** The explicit wrap of the spot loop is the remainder modulo 256. */
  lemma ByteWrap(x: Byte, d: int, n: int)
    requires d == 1 || d == -1
    requires n == (if x + d == 256 then 0 else if x + d == -1 then 255 else x + d)
    ensures 0 <= n < 256 && n == (x + d) % 256
  {
    if x + d == 256 {
      ModUnique(x + d, 256, 1, 0);
    } else if x + d == -1 {
      ModUnique(x + d, 256, -1, 255);
    } else {
      ModUnique(x + d, 256, 0, x + d);
    }
  }

  /** Decompressing undoes compressing, for the same `last`. */
  lemma OldSpotRoundTrip(b: seq<Byte>, last: int)
    ensures var ps := OldSpotPositions(last); Bump(Bump(b, ps, 1), ps, -1) == b
  {
    BumpInverse(b, OldSpotPositions(last));
  }

  // ---------------------------------------------------------------------
  // getRLEpair

  /**
   * The input side of old `getRLEpair`: the file's bytes, the position
   * of the next unread byte (a pushed-back byte is simply not yet read
   * again), and `globalCrc`, which must have seen every byte handed out
   * in a run exactly once.
   */
  class OldRleSource {
    const data: seq<Byte>
    const table: CrcTable
    var pos: nat
    var globalCrc: bv32

    ghost predicate Valid()
      reads this
    {
      pos <= |data| && globalCrc == CrcOf(table, CrcInit, data[..pos])
    }

    constructor (data: seq<Byte>, table: CrcTable)
      ensures Valid() && this.data == data && this.table == table && pos == 0
    {
      this.data, this.table := data, table;
      pos, globalCrc := 0, CrcInit;
    }

    /** `bs_get_byte`: the next byte, or −1 at the end of the file. */
    method GetByte() returns (c: int)
      requires pos <= |data|
      modifies this`pos
      ensures old(pos) < |data| ==> c == data[old(pos)] && pos == old(pos) + 1
      ensures old(pos) == |data| ==> c == -1 && pos == old(pos)
    {
      if pos == |data| {
        return -1;
      }
      c := data[pos];
      pos := pos + 1;
    }

    /**
     * The run loop of `getRLEpair`, entered just after reading `ch`: read
     * on while the byte repeats, up to 255 in all, then push back the
     * byte that ended the run unless the file ended.
     */
    method ScanRun(ch: Byte) returns (n: nat)
      requires 1 <= pos <= |data| && data[pos - 1] == ch
      modifies this`pos
      ensures 1 <= n <= 255 && pos == old(pos) - 1 + n <= |data|
      ensures data[old(pos) - 1..pos] == Repeat(ch, n)
      ensures n < 255 && pos < |data| ==> data[pos] != ch
    {
      ghost var start := pos - 1;
      n := 0;
      var chLatest := GetByte();
      n := n + 1;
      while ch == chLatest && n < 255
        invariant 1 <= n <= 255 && start + n <= |data| && pos <= |data|
        invariant data[start..start + n] == Repeat(ch, n)
        invariant chLatest != -1 ==> pos == start + n + 1 && chLatest == data[start + n]
        invariant chLatest == -1 ==> pos == |data| == start + n
        decreases 255 - n
      {
        assert data[start..start + n + 1] == data[start..start + n] + [ch];
        chLatest := GetByte();
        n := n + 1;
      }
      if chLatest != -1 {
        pos := pos - 1;
      }
    }

    /** The CRC loop of `getRLEpair`: `globalCrc` takes the byte once per byte of the run. */
    method FeedCrc(ch: Byte, runLength: nat)
      requires runLength >= 1
      modifies this`globalCrc
      ensures globalCrc == CrcOf(table, old(globalCrc), Repeat(ch, runLength))
    {
      ghost var crc0 := globalCrc;
      var k := runLength;
      while k > 0
        invariant k <= runLength
        invariant globalCrc == CrcOf(table, crc0, Repeat(ch, runLength - k))
        decreases k
      {
        CrcOfSnoc(table, crc0, Repeat(ch, runLength - k), ch);
        RepeatSnoc(ch, runLength - k);
        globalCrc := UpdateCrc(table, globalCrc, ch);
        k := k - 1;
      }
    }

    /** One more copy at the end. */
    static lemma RepeatSnoc(x: Byte, n: nat)
      ensures Repeat(x, n + 1) == Repeat(x, n) + [x]
    {
    }

    /**
     * Old `getRLEpair`: −1 and length 0 at the end of the input;
     * otherwise the next byte and the length of its run, at most 255,
     * with the byte after the run left unread; `globalCrc` has seen every
     * byte of the run.
     */
    method GetRlePair() returns (ch: int, runLength: nat)
      requires Valid()
      modifies this
      ensures Valid()
      ensures old(pos) == |data| ==> ch == -1 && runLength == 0 && pos == old(pos)
      ensures old(pos) < |data| ==>
        (0 <= ch < 256 && 1 <= runLength <= 255 && pos == old(pos) + runLength &&
         data[old(pos)..pos] == Repeat(ch as Byte, runLength) &&
         (runLength < 255 && pos < |data| ==> data[pos] != ch))
    {
      runLength := 0;
      ch := GetByte();
      if ch == -1 {
        return;
      }
      ghost var start := pos - 1;
      runLength := ScanRun(ch as Byte);
      FeedCrc(ch as Byte, runLength);
      CrcOfAppend(table, CrcInit, data[..start], Repeat(ch as Byte, runLength));
      assert data[..pos] == data[..start] + data[start..pos];
    }
  }
}
