/**
 * The DCC95 arithmetic coder of compress.c and decompress.c (Moffat, Neal
 * and Witten, "Arithmetic Coding Revisited", June 1996 revision) with
 * `smallB = 26` bits of precision.  The encoder keeps the low end `L` and
 * the width `R` of the current interval and a count of outstanding
 * (follow) bits; the decoder keeps `R` and the offset `D` of the code
 * value from the low end.  Both narrow the interval by the cumulative
 * counts of the coded symbol and then double it until it is wider than a
 * quarter of the range.
 */
module Arith {
  import opened Common
  import opened Models
  import opened BitStream

  /** `smallB`. */
  const SmallB: nat := 26
  /** `TWO_TO_THE(smallB)`. */
  const Top: nat := 0x400_0000
  /** `TWO_TO_THE(smallB - 1)`: the initial width. */
  const Half: nat := 0x200_0000
  /** `TWO_TO_THE(smallB - 2)`: renormalisation goes on while `R` is at most this. */
  const Quarter: nat := 0x100_0000

  /** The assertions on entry to `putSymbol`. */
  predicate EncoderBounds(low: nat, range: nat)
  {
    Quarter < range <= Half && low < Top - Quarter && low + range <= Top
  }

  /** The low end after narrowing to a symbol whose interval starts at `lo`: `L + (R / T) * lo`. */
  function NarrowLow(low: nat, range: nat, lo: nat, total: nat): nat
    requires total >= 1
  {
    low + (range / total) * lo
  }

  /**
   * The width after narrowing to the symbol with interval `[lo, lo + f)`
   * out of `total`: `(R / T) * f`, except that the last symbol also takes
   * the rounding slack `R - (R / T) * T`.
   */
  function NarrowRange(range: nat, lo: nat, f: nat, total: nat): (r: nat)
    requires 1 <= f && lo + f <= total
    ensures r <= range
  {
    var step := range / total;
    StepBound(range, total, f);
    StepBound(range, total, lo);
    if lo + f < total then step * f else range - step * lo
  }

  /** `(R / T) * k <= R` for every `k <= T`. */
  lemma StepBound(range: nat, total: nat, k: nat)
    requires 1 <= total && k <= total
    ensures (range / total) * k <= range
  {
    var step := range / total;
    assert step * k <= step * total;
    assert step * total + range % total == range;
  }

  /** The state the renormaliser works on: `bigL`, `bigR`, `bitsOutstanding`. */
  datatype EncState = EncState(low: nat, range: nat, outstanding: nat)

  /** What `arithCodeBitPlusFollow(bit)` puts: `!bit`, then `bit` once per outstanding bit. */
  function FollowBits(bit: Bit, n: nat): seq<Bit>
  {
    [1 - bit] + Repeat(bit, n)
  }

  /**
   * One turn of the `arithCodeRenormalize_Encode` loop: the interval lies
   * in the lower half (emit a 0 with its follow bits), in the upper half
   * (emit a 1 with its follow bits), or straddles the middle (one more
   * outstanding bit); then both ends double.
   */
  function RenormStep(s: EncState): (r: (EncState, seq<Bit>))
    requires 1 <= s.range <= Quarter && s.low + s.range <= Top
    ensures r.0.range == 2 * s.range && r.0.low + r.0.range <= Top
  {
    if s.low + s.range <= Half then
      (EncState(2 * s.low, 2 * s.range, 0), FollowBits(1, s.outstanding))
    else if s.low >= Half then
      (EncState(2 * (s.low - Half), 2 * s.range, 0), FollowBits(0, s.outstanding))
    else
      (EncState(2 * (s.low - Quarter), 2 * s.range, s.outstanding + 1), [])
  }

  /**
   * `arithCodeRenormalize_Encode`: the state it leaves and the bits it
   * emits.  From any interval with `L + R <= 2^26`, it re-establishes the
   * bounds `putSymbol` asserts on entry.
   */
  function Renorm(s: EncState): (r: (EncState, seq<Bit>))
    requires 1 <= s.range <= Half && s.low + s.range <= Top
    ensures EncoderBounds(r.0.low, r.0.range)
    decreases Half - s.range
  {
    if s.range > Quarter then (s, [])
    else
      var (s1, b1) := RenormStep(s);
      var (s2, b2) := Renorm(s1);
      (s2, b1 + b2)
  }

  /** The width after renormalisation: `R` doubled until it exceeds a quarter (the decoder's loop). */
  function RenormRange(range: nat): (r: nat)
    requires 1 <= range <= Half
    ensures Quarter < r <= Half
    decreases Half - range
  {
    if range > Quarter then range else RenormRange(2 * range)
  }

  /** How many times `R` doubles, hence how many bits the decoder reads. */
  function Doublings(range: nat): nat
    requires 1 <= range <= Half
    decreases Half - range
  {
    if range > Quarter then 0 else 1 + Doublings(2 * range)
  }

  /** Encoder and decoder renormalise the width identically. */
  lemma {:induction false} RenormRangeAgrees(s: EncState)
    requires 1 <= s.range <= Half && s.low + s.range <= Top
    ensures Renorm(s).0.range == RenormRange(s.range)
    decreases Half - s.range
  {
    if s.range <= Quarter {
      RenormRangeAgrees(RenormStep(s).0);
    }
  }

  /**
   * Narrowing keeps the interval inside the old one and non-empty, so it
   * meets the renormaliser's precondition.
   */
  lemma NarrowInside(low: nat, range: nat, lo: nat, f: nat, total: nat)
    requires EncoderBounds(low, range) && 1 <= f && lo + f <= total <= Quarter
    ensures 1 <= NarrowRange(range, lo, f, total) <= range
    ensures NarrowLow(low, range, lo, total) + NarrowRange(range, lo, f, total) <= low + range
  {
    var step := range / total;
    assert step >= 1 by {
      assert total * step == range - range % total;
      assert range - range % total > 0;
    }
    StepBound(range, total, lo + f);
    assert step * lo + step * f == step * (lo + f);
  }

  /**
   * One `putSymbol` on the coder state: narrow to the symbol's interval
   * `[Cum(f, s), Cum(f, s) + f[s])` of the total, then renormalise.
   */
  function Coded(st: EncState, f: seq<nat>, symbol: nat): (r: (EncState, seq<Bit>))
    requires EncoderBounds(st.low, st.range) && symbol < |f| && f[symbol] >= 1 && Sum(f) <= MaxTotal
    ensures EncoderBounds(r.0.low, r.0.range)
  {
    CountWithinSum(f, symbol);
    Renorm(Narrowed(st, Cum(f, symbol), f[symbol], Sum(f)))
  }

  /** The interval narrowed to `[lo, lo + f)` of `total`, outstanding bits untouched; it stays inside the old one. */
  function Narrowed(st: EncState, lo: nat, f: nat, total: nat): (r: EncState)
    requires EncoderBounds(st.low, st.range) && 1 <= f && lo + f <= total <= MaxTotal
    ensures 1 <= r.range <= st.range && r.low + r.range <= st.low + st.range
  {
    NarrowInside(st.low, st.range, lo, f, total);
    EncState(NarrowLow(st.low, st.range, lo, total), NarrowRange(st.range, lo, f, total), st.outstanding)
  }

  /**
   * A run of `putSymbol`s in one model whose counts do not move (the bogus
   * model): the coder state after the last symbol, and the bits written.
   */
  function CodedRun(st: EncState, f: seq<nat>, symbols: seq<nat>): (r: (EncState, seq<Bit>))
    requires EncoderBounds(st.low, st.range) && Codable(f)
    requires forall i :: 0 <= i < |symbols| ==> symbols[i] < |f|
    ensures EncoderBounds(r.0.low, r.0.range)
    ensures symbols == [] ==> r == (st, [])
    decreases |symbols|
  {
    if symbols == [] then (st, [])
    else
      var before := CodedRun(st, f, symbols[..|symbols| - 1]);
      var last := Coded(before.0, f, symbols[|symbols| - 1]);
      (last.0, before.1 + last.1)
  }

  /** `CodedRun` over one more symbol is one more `Coded` step. */
  lemma CodedRunSnoc(st: EncState, f: seq<nat>, symbols: seq<nat>, k: nat)
    requires EncoderBounds(st.low, st.range) && Codable(f)
    requires forall i :: 0 <= i < |symbols| ==> symbols[i] < |f|
    requires k < |symbols|
    ensures var before := CodedRun(st, f, symbols[..k]);
      var last := Coded(before.0, f, symbols[k]);
      CodedRun(st, f, symbols[..k + 1]) == (last.0, before.1 + last.1)
  {
    assert symbols[..k + 1][..k] == symbols[..k];
  }

  lemma TokensAppend(s0: seq<(Model, nat)>, m: Model, b: seq<nat>, x: nat)
    ensures s0 + Tokens(m, b) + [(m, x)] == s0 + Tokens(m, b + [x])
  {
    assert Tokens(m, b) + [(m, x)] == Tokens(m, b + [x]);
  }

  /** Extending a history by one more entry of model `m`. */
  lemma TokensExtend(s0: seq<(Model, nat)>, m: Model, b: seq<nat>, k: nat)
    requires k < |b|
    ensures s0 + Tokens(m, b[..k]) + [(m, b[k])] == s0 + Tokens(m, b[..k + 1])
  {
    assert Tokens(m, b[..k]) + [(m, b[k])] == Tokens(m, b[..k + 1]);
  }

  /** The history entries of coding `symbols` in model `m`, in order. */
  function Tokens(m: Model, symbols: seq<nat>): (r: seq<(Model, nat)>)
    ensures |r| == |symbols| && forall i :: 0 <= i < |r| ==> r[i] == (m, symbols[i])
  {
    seq(|symbols|, i requires 0 <= i < |symbols| => (m, symbols[i]))
  }

  /**
   * The four symbols `putUInt32` codes for `w`: its bytes, most
   * significant first (`(w & 0xFF000000) >> 24`, then the next mask down).
   */
  function WordBytes(w: nat): (r: seq<nat>)
    requires w < TwoTo32
    ensures |r| == 4 && forall i :: 0 <= i < 4 ==> r[i] < 256
  {
    [w / 0x100_0000, w / 0x1_0000 % 256, w / 0x100 % 256, w % 256]
  }

  /**
   * What `getUInt32` assembles from four decoded symbols, the first most
   * significant. Each symbol of the bogus model is below 256, so the `|`
   * of the shifted symbols is their sum.
   */
  function WordOf(b: seq<nat>): (w: nat)
    requires |b| == 4 && forall i :: 0 <= i < 4 ==> b[i] < 256
    ensures w < TwoTo32
  {
    b[0] * 0x100_0000 + b[1] * 0x1_0000 + b[2] * 0x100 + b[3]
  }

  /** `getUInt32` inverts `putUInt32`. */
  lemma WordOfWordBytes(w: nat)
    requires w < TwoTo32
    ensures WordOf(WordBytes(w)) == w
  {
    DivDiv(w, 0x100, 0x100);
    DivDiv(w, 0x1_0000, 0x100);
    assert w == w / 0x100 * 0x100 + w % 0x100;
    assert w / 0x100 == w / 0x1_0000 * 0x100 + w / 0x100 % 0x100;
    assert w / 0x1_0000 == w / 0x100_0000 * 0x100 + w / 0x1_0000 % 0x100;
  }

  /** ... and `putUInt32` inverts `getUInt32`: four bytes survive the trip. */
  lemma WordBytesWordOf(b: seq<nat>)
    requires |b| == 4 && forall i :: 0 <= i < 4 ==> b[i] < 256
    ensures WordBytes(WordOf(b)) == b
  {
    var w := WordOf(b);
    assert w / 0x100 % 0x100 == b[2] && w % 0x100 == b[3] by {
      ModUnique(w, 0x100, b[0] * 0x1_0000 + b[1] * 0x100 + b[2], b[3]);
      ModUnique(w / 0x100, 0x100, b[0] * 0x100 + b[1], b[2]);
    }
    assert w / 0x1_0000 % 0x100 == b[1] by {
      ModUnique(w, 0x1_0000, b[0] * 0x100 + b[1], b[2] * 0x100 + b[3]);
      ModUnique(w / 0x1_0000, 0x100, b[0], b[1]);
    }
    assert w / 0x100_0000 == b[0] by {
      ModUnique(w, 0x100_0000, b[0], b[1] * 0x1_0000 + b[2] * 0x100 + b[3]);
    }
  }

  /**
   * The encoder side: the interval, the outstanding bits, the bit stream
   * the coder writes into, and (as history) every symbol coded so far
   * with the model it was coded in.
   */
  class Encoder {
    const out: BitWriter
    var bigL: nat
    var bigR: nat
    var bitsOutstanding: nat
    ghost var sent: seq<(Model, nat)>

    ghost predicate Valid()
      reads this, out
    {
      out.Valid()
    }

    ghost function State(): EncState
      reads this
    {
      EncState(bigL, bigR, bitsOutstanding)
    }

    /** A coder writing into `out`, then `arithCodeStartEncoding`: `L = 0`, `R = 2^25`, nothing outstanding. */
    constructor (out: BitWriter)
      requires out.Valid()
      ensures Valid() && this.out == out && sent == []
      ensures bigL == 0 && bigR == Half && bitsOutstanding == 0 && EncoderBounds(bigL, bigR)
    {
      this.out := out;
      bigL, bigR, bitsOutstanding := 0, Half, 0;
      sent := [];
    }

    /** `arithCodeBitPlusFollow(bit)`: put `!bit`, then `bit` for each outstanding bit, clearing the count. */
    method BitPlusFollow(bit: Bit)
      requires Valid()
      modifies this, out, out.window
      ensures Valid() && out.Written() == old(out.Written()) + FollowBits(bit, old(bitsOutstanding))
      ensures bitsOutstanding == 0 && bigL == old(bigL) && bigR == old(bigR) && sent == old(sent)
    {
      ghost var before := out.Written();
      ghost var n := bitsOutstanding;
      out.PutBit(1 - bit);
      while bitsOutstanding > 0
        invariant Valid() && bigL == old(bigL) && bigR == old(bigR) && sent == old(sent)
        invariant bitsOutstanding <= n
        invariant out.Written() == before + [1 - bit] + Repeat(bit, n - bitsOutstanding)
      {
        out.PutBit(bit);
        bitsOutstanding := bitsOutstanding - 1;
        assert Repeat(bit, n - bitsOutstanding) == Repeat(bit, n - bitsOutstanding - 1) + [bit];
      }
      assert before + [1 - bit] + Repeat(bit, n) == before + FollowBits(bit, n);
    }

    /** `arithCodeRenormalize_Encode`, as `Renorm` describes it. */
    method Renormalize()
      requires Valid() && 1 <= bigR <= Half && bigL + bigR <= Top
      modifies this, out, out.window
      ensures Valid() && State() == Renorm(old(State())).0 && sent == old(sent)
      ensures out.Written() == old(out.Written()) + Renorm(old(State())).1
      ensures EncoderBounds(bigL, bigR)
    {
      ghost var s0 := State();
      ghost var w0 := out.Written();
      while bigR <= Quarter
        invariant Valid() && 1 <= bigR <= Half && bigL + bigR <= Top && sent == old(sent)
        invariant Renorm(State()).0 == Renorm(s0).0
        invariant out.Written() + Renorm(State()).1 == w0 + Renorm(s0).1
        decreases Half - bigR
      {
        ghost var s := State();
        ghost var w := out.Written();
        RenormalizeOnce();
        assert Renorm(s).1 == RenormStep(s).1 + Renorm(State()).1;
        AppendAssoc(w, RenormStep(s).1, Renorm(State()).1);
      }
      assert Renorm(State()) == (State(), []);
      assert out.Written() + [] == out.Written();
    }

    /** The body of the `arithCodeRenormalize_Encode` loop, with its `L <<= 1, R <<= 1` step. */
    method RenormalizeOnce()
      requires Valid() && 1 <= bigR <= Quarter && bigL + bigR <= Top
      modifies this, out, out.window
      ensures Valid() && State() == RenormStep(old(State())).0 && sent == old(sent)
      ensures out.Written() == old(out.Written()) + RenormStep(old(State())).1
    {
      if bigL + bigR <= Half {
        BitPlusFollow(1);
      } else if bigL >= Half {
        bigL := bigL - Half;
        BitPlusFollow(0);
      } else {
        bigL := bigL - Quarter;
        bitsOutstanding := bitsOutstanding + 1;
      }
      bigL, bigR := 2 * bigL, 2 * bigR;
    }

    /**
     * `putSymbol(m, symbol)`: narrow the interval to the symbol's share of
     * the model's total, renormalise, and update the model.
     */
    method PutSymbol(m: Model, symbol: nat)
      requires Valid() && m.Ready() && symbol < m.numSymbols && EncoderBounds(bigL, bigR)
      modifies this, out, out.window, m, m.freq
      ensures Valid() && m.Ready() && EncoderBounds(bigL, bigR)
      ensures State() == Coded(old(State()), old(m.Counts()), symbol).0
      ensures out.Written() == old(out.Written()) + Coded(old(State()), old(m.Counts()), symbol).1
      ensures m.Counts() == UpdatedFreqs(m.Params(), old(m.Counts()), symbol)
      ensures sent == old(sent) + [(m, symbol)]
    {
      ghost var f := m.Counts();
      var smallT := m.totFreq;
      var smallL := m.CumFreq(symbol);
      CountWithinSum(f, symbol);
      Narrow(smallL, m.freq[symbol], smallT);
      assert smallL == Cum(f, symbol) && smallT == Sum(f);
      ReadyAfterUpdate(m.Params(), f, symbol);
      m.Update(symbol);
      sent := sent + [(m, symbol)];
    }

    /**
     * The coding step of `putSymbol` once `smallL`, `*f` and `smallT` are
     * known: narrow the interval, then renormalise.
     */
    method Narrow(smallL: nat, freq: nat, smallT: nat)
      requires Valid() && EncoderBounds(bigL, bigR) && 1 <= freq && smallL + freq <= smallT <= MaxTotal
      modifies this, out, out.window
      ensures Valid() && EncoderBounds(bigL, bigR) && sent == old(sent)
      ensures var narrowed := Narrowed(old(State()), smallL, freq, smallT);
        State() == Renorm(narrowed).0 && out.Written() == old(out.Written()) + Renorm(narrowed).1
    {
      var smallH := smallL + freq;
      var smallR := bigR / smallT;
      var smallRxL := smallR * smallL;
      NarrowInside(bigL, bigR, smallL, freq, smallT);
      bigL := bigL + smallRxL;
      if smallH < smallT {
        bigR := smallR * freq;
      } else {
        bigR := bigR - smallRxL;
      }
      Renormalize();
    }

    /**
     * `putUInt32(w)`: the four bytes of `w`, most significant first, each
     * coded in the bogus model, which they leave uniform.
     */
    method PutUInt32(m: Model, w: nat)
      requires Valid() && m.Ready() && m.Params() == BogusParams && w < TwoTo32 && EncoderBounds(bigL, bigR)
      modifies this, out, out.window, m, m.freq
      ensures Valid() && m.Ready() && m.Counts() == old(m.Counts()) && EncoderBounds(bigL, bigR)
      ensures State() == CodedRun(old(State()), old(m.Counts()), WordBytes(w)).0
      ensures out.Written() == old(out.Written()) + CodedRun(old(State()), old(m.Counts()), WordBytes(w)).1
      ensures sent == old(sent) + Tokens(m, WordBytes(w))
    {
      PutBogusSymbols(m, WordBytes(w));
    }

    /** The four calls of `putUInt32`, one per byte, in the bogus model. */
    method PutBogusSymbols(m: Model, b: seq<nat>)
      requires Valid() && m.Ready() && m.Params() == BogusParams && EncoderBounds(bigL, bigR)
      requires forall i :: 0 <= i < |b| ==> b[i] < 256
      modifies this, out, out.window, m, m.freq
      ensures Valid() && m.Ready() && m.Counts() == old(m.Counts()) && EncoderBounds(bigL, bigR)
      ensures State() == CodedRun(old(State()), old(m.Counts()), b).0
      ensures out.Written() == old(out.Written()) + CodedRun(old(State()), old(m.Counts()), b).1
      ensures sent == old(sent) + Tokens(m, b)
    {
      ghost var f := m.Counts();
      ghost var st := State();
      ghost var w0 := out.Written();
      ghost var s0 := sent;
      assert f == Repeat<nat>(1, 256);
      for k := 0 to |b|
        invariant Valid() && m.Ready() && m.Counts() == f && EncoderBounds(bigL, bigR)
        invariant f == Repeat<nat>(1, 256)
        invariant State() == CodedRun(st, f, b[..k]).0 && out.Written() == w0 + CodedRun(st, f, b[..k]).1
        invariant sent == s0 + Tokens(m, b[..k])
      {
        ghost var before := CodedRun(st, f, b[..k]);
        ghost var step := Coded(before.0, f, b[k]);
        ghost var written := out.Written();
        ghost var sent0 := sent;
        CodedRunSnoc(st, f, b, k);
        PutSymbol(m, b[k]);
        BogusStaysUniform(b[k]);
        AppendAssoc(w0, before.1, step.1);
        TokensExtend(s0, m, b, k);
      }
      assert b[..|b|] == b;
    }

    /**
     * `arithCodeDoneEncoding`: the 26 bits of `L`, most significant first,
     * each through `arithCodeBitPlusFollow(!(L & i))`; the outstanding
     * bits follow the first of them.
     */
    method DoneEncoding()
      requires Valid()
      modifies this, out, out.window
      ensures Valid() && sent == old(sent)
      ensures var bits := BitsOf(old(bigL), SmallB);
        out.Written() == old(out.Written()) + FollowBits(1 - bits[0], old(bitsOutstanding)) + bits[1..]
    {
      ghost var bits := BitsOf(bigL, SmallB);
      ghost var w0 := out.Written();
      ghost var n := bitsOutstanding;
      for k := 0 to SmallB
        invariant Valid() && bigL == old(bigL) && sent == old(sent)
        invariant k == 0 ==> out.Written() == w0 && bitsOutstanding == n
        invariant k > 0 ==> bitsOutstanding == 0 && out.Written() == w0 + FollowBits(1 - bits[0], n) + bits[1..k]
      {
        var i := Pow2(SmallB - 1 - k);
        BitsOfAt(bigL, SmallB, k);
        var set_ := (bigL / i) % 2;
        BitPlusFollow(1 - set_);
        if k > 0 {
          assert FollowBits(1 - set_, 0) == [bits[k]];
          AppendAssoc(w0 + FollowBits(1 - bits[0], n), bits[1..k], [bits[k]]);
          assert bits[1..k] + [bits[k]] == bits[1..k + 1];
        } else {
          assert bits[1..1] == [];
        }
      }
    }
  }

  /** `target` of `getSymbol`: `D / (R / T)`, clamped to `T - 1`. */
  function DecodeTarget(d: nat, range: nat, total: nat): (t: nat)
    requires 1 <= total <= range
    ensures t < total
  {
    var step := range / total;
    DivAtLeastOne(range, total);
    if d / step >= total then total - 1 else d / step
  }

  lemma DivAtLeastOne(a: nat, b: nat)
    requires 1 <= b <= a
    ensures a / b >= 1
  {
    assert b * (a / b) == a - a % b;
    assert a - a % b > 0;
  }

  /** `q <= d / step` whenever `step * q <= d`, and `d < step * (d / step + 1)`. */
  lemma DivBounds(d: nat, step: nat, q: nat)
    requires step >= 1
    ensures step * q <= d ==> q <= d / step
    ensures step * (d / step) <= d < step * (d / step + 1)
  {
    assert d == step * (d / step) + d % step;
    if step * q <= d && q > d / step {
      MulMono(step, d / step + 1, q);
      assert false;
    }
  }

  lemma MulMono(a: nat, x: nat, y: nat)
    requires x <= y
    ensures a * x <= a * y
  {
  }

  /**
   * The decision part of `getSymbol`: the symbol whose interval holds the
   * target, the narrowed width, and `D` less the narrowed low end.
   */
  function DecodeStep(range: nat, d: nat, f: seq<nat>): (r: (nat, nat, nat))
    requires Quarter < range <= Half && Codable(f)
    ensures r.0 < |f| && 1 <= r.1 <= range
    ensures Cum(f, r.0) <= DecodeTarget(d, range, Sum(f)) < Cum(f, r.0) + f[r.0]
  {
    CountWithinSum(f, 0);
    var total := Sum(f);
    var step := range / total;
    var t := DecodeTarget(d, range, total);
    var s := SymbolFor(f, t);
    var lo := Cum(f, s);
    assert step * lo <= d by {
      DivAtLeastOne(range, total);
      DivBounds(d, step, lo);
      MulMono(step, lo, d / step);
    }
    CountWithinSum(f, s);
    NarrowInside(0, range, lo, f[s], total);
    (s, NarrowRange(range, lo, f[s], total), d - step * lo)
  }

  /** `DecodeStep` spelled out once its symbol is known, for the decoder's record. */
  lemma DecodeStepIs(range: nat, d: nat, f: seq<nat>, s: nat)
    requires Quarter < range <= Half && Codable(f) && 1 <= Sum(f)
    requires s == SymbolFor(f, DecodeTarget(d, range, Sum(f)))
    ensures Cum(f, s) + f[s] <= Sum(f) && range / Sum(f) * Cum(f, s) <= d
    ensures DecodeStep(range, d, f) ==
      (s, NarrowRange(range, Cum(f, s), f[s], Sum(f)), d - range / Sum(f) * Cum(f, s))
  {
    CountWithinSum(f, s);
    var step := range / Sum(f);
    var lo := Cum(f, s);
    DivAtLeastOne(range, Sum(f));
    DivBounds(d, step, lo);
    MulMono(step, lo, d / step);
    assert step * lo <= d;
    var r := DecodeStep(range, d, f);
    assert r.0 == s;
  }

  /**
   * The decoder inverts the encoder one symbol at a time: when `D` lies in
   * the sub-interval the encoder narrowed to for symbol `s`, the decoder
   * picks `s`, narrows the width the same way and keeps `D` relative to
   * the new low end.
   */
  lemma DecodeInvertsEncode(range: nat, d: nat, f: seq<nat>, s: nat)
    requires Quarter < range <= Half && Codable(f) && s < |f|
    requires Cum(f, s) + f[s] <= Sum(f)
    requires var step := range / Sum(f);
      step * Cum(f, s) <= d < step * Cum(f, s) + NarrowRange(range, Cum(f, s), f[s], Sum(f))
    ensures DecodeStep(range, d, f) ==
      (s, NarrowRange(range, Cum(f, s), f[s], Sum(f)), d - (range / Sum(f)) * Cum(f, s))
  {
    TargetInInterval(range, Sum(f), d, Cum(f, s), f[s]);
    SymbolForUnique(f, DecodeTarget(d, range, Sum(f)), s);
  }

  /** The arithmetic behind `DecodeInvertsEncode`, for one interval `[lo, lo + f)` of `total`. */
  lemma TargetInInterval(range: nat, total: nat, d: nat, lo: nat, f: nat)
    requires 1 <= f && lo + f <= total <= range
    requires (range / total) * lo <= d < (range / total) * lo + NarrowRange(range, lo, f, total)
    ensures lo <= DecodeTarget(d, range, total) < lo + f
  {
    var step := range / total;
    DivAtLeastOne(range, total);
    DivBounds(d, step, lo);
    if lo + f < total {
      assert d < step * (lo + f) by {
        MulAdd(step, lo, f);
      }
      MulLess(step, d / step, lo + f);
    }
  }

  /** The arithmetic behind `DecodeStepBelow`. */
  lemma BelowInInterval(range: nat, total: nat, d: nat, lo: nat, f: nat)
    requires 1 <= f && lo + f <= total <= range && d < range
    requires lo <= DecodeTarget(d, range, total) < lo + f
    ensures (range / total) * lo <= d
    ensures d - (range / total) * lo < NarrowRange(range, lo, f, total)
  {
    var step := range / total;
    DivAtLeastOne(range, total);
    DivBounds(d, step, lo);
    if lo + f < total {
      var t := DecodeTarget(d, range, total);
      assert t == d / step;
      assert d < step * (d / step + 1) by {
        DivBounds(d, step, 0);
      }
      MulMono(step, d / step + 1, lo + f);
      MulAdd(step, lo, f);
    }
  }

  lemma MulAdd(a: nat, x: nat, y: nat)
    ensures a * x + a * y == a * (x + y)
  {
  }

  /** `a * x < a * y` gives `x < y`. */
  lemma MulLess(a: nat, x: nat, y: nat)
    requires a * x < a * y
    ensures x < y
  {
    if x >= y {
      MulMono(a, y, x);
      assert false;
    }
  }

  /** On a stream the encoder produced `D < R`; one decoding step keeps `D` below the narrowed width. */
  lemma DecodeStepBelow(range: nat, d: nat, f: seq<nat>)
    requires Quarter < range <= Half && Codable(f) && d < range
    ensures DecodeStep(range, d, f).2 < DecodeStep(range, d, f).1
  {
    var s := DecodeStep(range, d, f).0;
    CountWithinSum(f, s);
    BelowInInterval(range, Sum(f), d, Cum(f, s), f[s]);
  }

  /** The code register after shifting in `bits`: `D <<= 1; D |= bit` per bit, in 32-bit arithmetic. */
  function FeedBits(d: nat, bits: seq<Bit>): nat
    decreases |bits|
  {
    if bits == [] then d else FeedBits(Wrap32(2 * d) + bits[0], bits[1..])
  }

  /** The state of the decoder's renormalisation loop after reading `bits`, started from `range0` and `d0`. */
  ghost predicate Doubling(range0: nat, d0: nat, bits: seq<Bit>, range: nat, d: nat)
  {
    1 <= range0 <= Half && 1 <= range <= Half && d < TwoTo32 &&
    RenormRange(range) == RenormRange(range0) &&
    Doublings(range0) == |bits| + Doublings(range) &&
    d == FeedBits(d0, bits)
  }

  /** One more doubling of the range, with one more bit shifted into the code value. */
  lemma DoublingStep(range0: nat, d0: nat, bits: seq<Bit>, range: nat, d: nat, b: Bit)
    requires Doubling(range0, d0, bits, range, d) && range <= Quarter
    ensures Doubling(range0, d0, bits + [b], 2 * range, Wrap32(2 * d) + b)
  {
    FeedBitsSnoc(d0, bits, b);
  }

  lemma {:induction false} FeedBitsSnoc(d: nat, bits: seq<Bit>, b: Bit)
    ensures FeedBits(d, bits + [b]) == Wrap32(2 * FeedBits(d, bits)) + b
    decreases |bits|
  {
    if bits == [] {
      assert [b][1..] == [];
    } else {
      assert (bits + [b])[1..] == bits[1..] + [b];
      FeedBitsSnoc(Wrap32(2 * d) + bits[0], bits[1..], b);
    }
  }

  /** Renormalisation keeps `D < R`: doubling both and adding one bit cannot reach the doubled width. */
  lemma {:induction false} FeedBitsBelow(d: nat, range: nat, bits: seq<Bit>)
    requires 1 <= range <= Half && d < range && |bits| == Doublings(range)
    ensures FeedBits(d, bits) < RenormRange(range)
    decreases Half - range
  {
    if range <= Quarter {
      assert Wrap32(2 * d) == 2 * d;
      FeedBitsBelow(Wrap32(2 * d) + bits[0], 2 * range, bits[1..]);
    }
  }

  /**
   * The decoder side: the width, the code register `D` (32 bits wide, so
   * a corrupt stream can make it wrap), the bit stream read from, and (as
   * history) every symbol decoded so far with its model.
   */
  class Decoder {
    const src: BitReader
    var bigR: nat
    var bigD: nat
    ghost var received: seq<(Model, nat)>

    ghost predicate Valid()
      reads this, src, src.window
    {
      src.Valid() && bigD < TwoTo32
    }

    /** A decoder reading from `src`; `arithCodeStartDecoding` sets the registers. */
    constructor (src: BitReader)
      requires src.Valid()
      ensures Valid() && this.src == src && received == []
    {
      this.src := src;
      bigR, bigD := Half, 0;
      received := [];
    }

    /** `arithCodeStartDecoding`: `R = 2^25`, and `D` is the next 26 bits, most significant first. */
    method StartDecoding() returns (r: Result<()>)
      requires Valid()
      modifies this, src, src.window
      ensures Valid() && received == old(received)
      ensures r.Ok? ==> (bigR == Half && |src.read| == |old(src.read)| + SmallB &&
                         bigD == PackBits(src.read[|old(src.read)|..]))
      ensures r.Fail? ==> r.failure == UnexpectedEof
    {
      ghost var r0 := src.read;
      ghost var bits: seq<Bit> := [];
      bigR := Half;
      bigD := 0;
      Pow2SmallB();
      for i := 0 to SmallB
        invariant Valid() && bigR == Half && received == old(received)
        invariant src.read == r0 + bits && |bits| == i
        invariant bigD == PackBits(bits) && bigD < Pow2(i)
      {
        var bit := src.GetBit();
        if bit.Fail? {
          return Fail(UnexpectedEof);
        }
        assert (bits + [bit.value])[..i] == bits;
        AppendAssoc(r0, bits, [bit.value]);
        bits := bits + [bit.value];
        bigD := 2 * bigD + bit.value;
        Pow2Mono(i + 1, SmallB);
      }
      assert src.read[|r0|..] == bits;
      r := Ok(());
    }

    /** The `while (bigR <= TWO_TO_THE(smallB - 2))` loop of `getSymbol`. */
    method Renormalize() returns (r: Result<()>)
      requires Valid() && 1 <= bigR <= Half
      modifies this, src, src.window
      ensures Valid() && received == old(received)
      ensures r.Ok? ==> (bigR == RenormRange(old(bigR)) &&
                         |src.read| == |old(src.read)| + Doublings(old(bigR)) &&
                         bigD == FeedBits(old(bigD), src.read[|old(src.read)|..]))
      ensures r.Fail? ==> r.failure == UnexpectedEof
    {
      ghost var r0 := src.read;
      ghost var bits: seq<Bit> := [];
      var range: nat, d: nat := bigR, bigD;
      while range <= Quarter
        invariant src.Valid() && bigR == old(bigR) && bigD == old(bigD) && received == old(received)
        invariant src.read == r0 + bits
        invariant Doubling(old(bigR), old(bigD), bits, range, d)
        decreases Half - range
      {
        var bit := src.GetBit();
        if bit.Fail? {
          return Fail(UnexpectedEof);
        }
        DoublingStep(old(bigR), old(bigD), bits, range, d, bit.value);
        bits := bits + [bit.value];
        range, d := 2 * range, Wrap32(2 * d) + bit.value;
      }
      assert src.read[|r0|..] == bits;
      bigR, bigD := range, d;
      r := Ok(());
    }

    /**
     * The decoding half of `getSymbol(m)`: find the symbol whose interval
     * holds the target, narrow as `putSymbol` did, and renormalise reading
     * one bit per doubling; the model is left as it was.
     */
    method DecodeSymbol(m: Model) returns (r: Result<nat>)
      requires Valid() && m.Ready() && Quarter < bigR <= Half
      modifies this, src, src.window
      ensures Valid() && received == old(received)
      ensures r.Ok? ==>
        var step := DecodeStep(old(bigR), old(bigD), m.Counts());
        r.value == step.0 && r.value < m.numSymbols &&
        bigR == RenormRange(step.1) && Quarter < bigR <= Half &&
        |src.read| == |old(src.read)| + Doublings(step.1) &&
        bigD == FeedBits(step.2, src.read[|old(src.read)|..])
      ensures r.Ok? && old(bigD) < old(bigR) ==> bigD < bigR
      ensures r.Fail? ==> r.failure == UnexpectedEof
    {
      ghost var f := m.Counts();
      ghost var step := DecodeStep(bigR, bigD, f);
      ghost var below := bigD < bigR;
      if below {
        DecodeStepBelow(bigR, bigD, f);
      }
      var symbol := Decide(m);
      var renorm := Renormalize();
      if renorm.Fail? {
        return Fail(UnexpectedEof);
      }
      if below {
        FeedBitsBelow(step.2, step.1, src.read[|old(src.read)|..]);
      }
      r := Ok(symbol);
    }

    /**
     * `getSymbol(m)`: decode one symbol as above, then update the model.
     */
    method GetSymbol(m: Model) returns (r: Result<nat>)
      requires Valid() && m.Ready() && Quarter < bigR <= Half
      modifies this, src, src.window, m, m.freq
      ensures Valid() && m.Ready()
      ensures r.Ok? ==>
        var step := DecodeStep(old(bigR), old(bigD), old(m.Counts()));
        r.value == step.0 && r.value < m.numSymbols &&
        bigR == RenormRange(step.1) && Quarter < bigR <= Half &&
        |src.read| == |old(src.read)| + Doublings(step.1) &&
        bigD == FeedBits(step.2, src.read[|old(src.read)|..]) &&
        m.Counts() == UpdatedFreqs(m.Params(), old(m.Counts()), r.value) &&
        received == old(received) + [(m, r.value)]
      ensures r.Ok? && old(bigD) < old(bigR) ==> bigD < bigR
      ensures r.Fail? ==> r.failure == UnexpectedEof
    {
      ghost var f := m.Counts();
      r := DecodeSymbol(m);
      if r.Fail? {
        return;
      }
      var symbol := r.value;
      ReadyAfterUpdate(m.Params(), f, symbol);
      m.Update(symbol);
      ghost var entry: (Model, nat) := (m, symbol);
      received := received + [entry];
    }

    /**
     * `getUInt32`: four symbols of the bogus model, the first most
     * significant (the order of the calls is fixed left to right here;
     * C leaves the evaluation order of the `|` operands open).
     */
    method GetUInt32(m: Model) returns (r: Result<nat>)
      requires Valid() && m.Ready() && m.Params() == BogusParams && Quarter < bigR <= Half
      modifies this, src, src.window, m, m.freq
      ensures Valid() && m.Ready()
      ensures r.Ok? ==> (r.value < TwoTo32 && m.Counts() == old(m.Counts()) && Quarter < bigR <= Half &&
                         received == old(received) + Tokens(m, WordBytes(r.value)))
      ensures r.Ok? && old(bigD) < old(bigR) ==> bigD < bigR
      ensures r.Fail? ==> r.failure == UnexpectedEof
    {
      ghost var f := m.Counts();
      ghost var r0 := received;
      ghost var below := bigD < bigR;
      var b: seq<nat> := [];
      for k := 0 to 4
        invariant Valid() && m.Ready() && m.Counts() == f && Quarter < bigR <= Half
        invariant |b| == k && (forall i :: 0 <= i < k ==> b[i] < 256)
        invariant received == r0 + Tokens(m, b)
        invariant below ==> bigD < bigR
      {
        var s :- GetSymbol(m);
        BogusStaysUniform(s);
        TokensAppend(r0, m, b, s);
        b := b + [s];
      }
      WordBytesWordOf(b);
      r := Ok(WordOf(b));
    }

    /**
     * The first half of `getSymbol`: compute the target, find its symbol,
     * and narrow `R` and `D` to that symbol's interval.
     */
    method Decide(m: Model) returns (symbol: nat)
      requires Valid() && m.Ready() && Quarter < bigR <= Half
      modifies this
      ensures Valid() && received == old(received)
      ensures (symbol, bigR, bigD) == DecodeStep(old(bigR), old(bigD), m.Counts())
    {
      ghost var f := m.Counts();
      assert Codable(f);
      var smallT := m.totFreq;
      assert smallT == Sum(f);
      var target := Target(smallT);
      var smallH;
      symbol, smallH := m.FindSymbol(target);
      var smallL := smallH - m.freq[symbol];
      assert smallL == Cum(f, symbol) && m.freq[symbol] == f[symbol];
      CountWithinSum(f, 0);
      DecodeStepIs(bigR, bigD, f, symbol);
      ghost var want := DecodeStep(bigR, bigD, f);
      assert want == (symbol, NarrowRange(bigR, smallL, f[symbol], smallT), bigD - bigR / smallT * smallL);
      NarrowTo(smallL, m.freq[symbol], smallT);
      assert bigR == want.1 && bigD == want.2;
    }

    /** The target count of `getSymbol`: `D / (R / smallT)`, capped at `smallT - 1`. */
    method Target(smallT: nat) returns (target: nat)
      requires 1 <= smallT <= bigR
      ensures target == DecodeTarget(bigD, bigR, smallT)
    {
      var smallR := bigR / smallT;
      DivAtLeastOne(bigR, smallT);
      target := bigD / smallR;
      if target >= smallT {
        target := smallT - 1;
      }
    }

    /**
     * The narrowing of `getSymbol` once `smallL`, `*f` and `smallT` are
     * known: `D` drops by `(R / smallT) * smallL` and `R` narrows as in
     * the encoder.
     */
    method NarrowTo(smallL: nat, freq: nat, smallT: nat)
      requires Valid() && 1 <= freq && smallL + freq <= smallT <= bigR
      requires bigR / smallT * smallL <= bigD
      modifies this
      ensures Valid() && received == old(received)
      ensures bigR == NarrowRange(old(bigR), smallL, freq, smallT)
      ensures bigD == old(bigD) - old(bigR) / smallT * smallL
    {
      var smallH := smallL + freq;
      var smallR := bigR / smallT;
      var smallRxL := smallR * smallL;
      StepBound(bigR, smallT, smallL);
      bigD := bigD - smallRxL;
      if smallH < smallT {
        bigR := smallR * freq;
      } else {
        bigR := bigR - smallRxL;
      }
    }
  }

  lemma {:induction false} Pow2Mono(i: nat, j: nat)
    requires i <= j
    ensures Pow2(i) <= Pow2(j)
    decreases j
  {
    if i < j {
      Pow2Mono(i, j - 1);
    }
  }

  lemma Pow2SmallB()
    ensures Pow2(SmallB) == Top
  {
    Pow2Byte();
    assert Pow2(16) == 65536;
  }
}
