/**
 * The structured model of models.h and models.c: adaptive frequency
 * tables, the parameters of the eight models and of the fixed "bogus"
 * model, and the tables that split a move-to-front rank into a class
 * symbol and an offset.
 */
module Models {
  import opened Common

  /** `MAX_SYMBOLS`: every model owns a frequency array of this size. */
  const MaxSymbols: nat := 256

  // The model indices (`MODEL_BASIS` .. `MODEL_128_255`, `MODEL_LAST`).
  const ModelBasis: nat := 0
  const Model2_3: nat := 1
  const Model128_255: nat := 7
  const ModelLast: nat := 8

  // The symbols of the basis model (`VAL_RUNA` .. `VAL_EOB`).
  const ValRunA: nat := 0
  const ValRunB: nat := 1
  const ValOne: nat := 2
  const Val2_3: nat := 3
  const Val128_255: nat := 9
  const ValEob: nat := 10

  /** The constant part of a `struct Model`. */
  datatype ModelParams = ModelParams(numSymbols: nat, incValue: nat, noExceed: nat)

  /** `model_bogus`: 256 symbols, never incremented, always rescaled. */
  const BogusParams: ModelParams := ModelParams(256, 0, 0)

  /** The initialiser of `models[]`, indexed by model. */
  function ModelTable(k: nat): (p: ModelParams)
    requires k < ModelLast
  {
    match k
    case 0 => ModelParams(11, 12, 1000)
    case 1 => ModelParams(2, 4, 1000)
    case 2 => ModelParams(4, 3, 1000)
    case 3 => ModelParams(8, 3, 1000)
    case 4 => ModelParams(16, 3, 1000)
    case 5 => ModelParams(32, 3, 1000)
    case 6 => ModelParams(64, 2, 1000)
    case _ => ModelParams(128, 1, 1000)
  }

  /** Sum of a run of counts, accumulated left to right. */
  function Sum(f: seq<nat>): nat
  {
    if f == [] then 0 else Sum(f[..|f| - 1]) + f[|f| - 1]
  }

  /** The per-symbol rescaling of `scaleModel`: `(f + 1) >> 1`. */
  function Halved(f: seq<nat>): (r: seq<nat>)
    ensures |r| == |f|
    ensures forall i :: 0 <= i < |f| ==> r[i] <= f[i] && (r[i] >= 1 <==> f[i] >= 1)
  {
    seq(|f|, i requires 0 <= i < |f| => (f[i] + 1) / 2)
  }

  /** The counts of `a` with the first `i` of them halved, rounding up. */
  ghost function HalvedUpTo(a: seq<nat>, i: nat): (r: seq<nat>)
    ensures |r| == |a|
  {
    seq(|a|, j requires 0 <= j < |a| => if j < i then (a[j] + 1) / 2 else a[j])
  }

  /** Halving one more count. */
  lemma HalvedUpToStep(a: seq<nat>, i: nat)
    requires i < |a|
    ensures HalvedUpTo(a, i + 1) == HalvedUpTo(a, i)[i := (a[i] + 1) / 2]
    ensures HalvedUpTo(a, i + 1)[..i + 1] == HalvedUpTo(a, i)[..i] + [(a[i] + 1) / 2]
  {
  }

  /** With the first `n` counts halved, the live counts are `Halved` and the rest are kept. */
  lemma HalvedUpToDone(a: seq<nat>, n: nat)
    requires n <= |a|
    ensures HalvedUpTo(a, n)[..n] == Halved(a[..n]) && HalvedUpTo(a, n)[n..] == a[n..]
  {
  }

  /** The cumulative count before symbol `s`: the low end of its coding interval. */
  function Cum(f: seq<nat>, s: nat): nat
    requires s <= |f|
  {
    Sum(f[..s])
  }

  /** Cumulative counts never decrease. */
  lemma {:induction false} CumMono(f: seq<nat>, i: nat, j: nat)
    requires i <= j <= |f|
    ensures Cum(f, i) <= Cum(f, j)
  {
    assert f[..j] == f[..i] + f[i..j];
    SumAppend(f[..i], f[i..j]);
  }

  /**
   * The symbol whose interval `[Cum(f, s), Cum(f, s) + f[s])` holds
   * `target`: what the search loop of `getSymbol` finds.
   */
  function SymbolFor(f: seq<nat>, target: nat): (s: nat)
    requires target < Sum(f)
    ensures s < |f| && Cum(f, s) <= target < Cum(f, s) + f[s]
    decreases |f|
  {
    var n := |f| - 1;
    if target >= Sum(f[..n]) then
      assert f[..n + 1] == f;
      n
    else
      var s := SymbolFor(f[..n], target);
      assert f[..n][..s] == f[..s] && f[..n][..s + 1] == f[..s + 1];
      SumPrefix(f, s);
      SumPrefix(f[..n], s);
      s
  }

  /** The intervals of distinct symbols do not overlap, so the symbol holding a target is unique. */
  lemma SymbolForUnique(f: seq<nat>, target: nat, s: nat)
    requires s < |f| && Cum(f, s) <= target < Cum(f, s) + f[s]
    ensures target < Sum(f) && SymbolFor(f, target) == s
  {
    CountWithinSum(f, s);
    var t := SymbolFor(f, target);
    if s < t {
      SumPrefix(f, s);
      CumMono(f, s + 1, t);
      assert false;
    } else if t < s {
      SumPrefix(f, t);
      CumMono(f, t + 1, s);
      assert false;
    }
  }

  /** The counts after `updateModel(m, s)`: bump `s`, then rescale if the total passed `noExceed`. */
  function UpdatedFreqs(p: ModelParams, f: seq<nat>, s: nat): seq<nat>
    requires s < |f|
  {
    var bumped := f[s := f[s] + p.incValue];
    if Sum(bumped) > p.noExceed then Halved(bumped) else bumped
  }

  lemma SumSnoc(f: seq<nat>, x: nat)
    ensures Sum(f + [x]) == Sum(f) + x
  {
    assert (f + [x])[..|f|] == f;
  }

  lemma {:induction false} SumAppend(f: seq<nat>, g: seq<nat>)
    ensures Sum(f + g) == Sum(f) + Sum(g)
    decreases |g|
  {
    if g == [] {
      assert f + g == f;
    } else {
      var g' := g[..|g| - 1];
      assert f + g == (f + g') + [g[|g| - 1]];
      SumAppend(f, g');
      SumSnoc(f + g', g[|g| - 1]);
      assert g == g' + [g[|g| - 1]];
      SumSnoc(g', g[|g| - 1]);
    }
  }

  /** A prefix one longer adds the next count. */
  lemma SumPrefix(f: seq<nat>, i: nat)
    requires i < |f|
    ensures Sum(f[..i + 1]) == Sum(f[..i]) + f[i]
  {
    assert f[..i + 1][..i] == f[..i];
  }

  /** Every count is part of the total. */
  lemma {:induction false} CountWithinSum(f: seq<nat>, i: nat)
    requires i < |f|
    ensures Sum(f[..i]) + f[i] <= Sum(f)
  {
    assert f == f[..i + 1] + f[i + 1..];
    SumAppend(f[..i + 1], f[i + 1..]);
    SumPrefix(f, i);
  }

  /** Raising one count by `d` raises the total by `d`. */
  lemma {:induction false} SumBump(f: seq<nat>, s: nat, d: nat)
    requires s < |f|
    ensures Sum(f[s := f[s] + d]) == Sum(f) + d
  {
    var g := f[s := f[s] + d];
    assert f == f[..s] + [f[s]] + f[s + 1..];
    assert g == f[..s] + [f[s] + d] + f[s + 1..];
    SumAppend(f[..s] + [f[s]], f[s + 1..]);
    SumAppend(f[..s] + [f[s] + d], f[s + 1..]);
    SumSnoc(f[..s], f[s]);
    SumSnoc(f[..s], f[s] + d);
  }

  /** Rescaling at least halves the total and adds at most half a unit per symbol. */
  lemma {:induction false} SumHalved(f: seq<nat>)
    ensures Sum(f) <= 2 * Sum(Halved(f)) <= Sum(f) + |f|
    decreases |f|
  {
    if f != [] {
      var f' := f[..|f| - 1];
      assert Halved(f)[..|f| - 1] == Halved(f');
      SumHalved(f');
    }
  }

  lemma {:induction false} SumRepeat(x: nat, n: nat)
    ensures Sum(Repeat<nat>(x, n)) == x * n
    decreases n
  {
    if n > 0 {
      assert Repeat<nat>(x, n) == Repeat<nat>(x, n - 1) + [x] by {
        assert forall i :: 0 <= i < n ==> Repeat<nat>(x, n)[i] == (Repeat<nat>(x, n - 1) + [x])[i];
      }
      SumRepeat(x, n - 1);
      SumSnoc(Repeat<nat>(x, n - 1), x);
    }
  }

  /** An update never zeroes a count, so every symbol keeps a non-empty coding interval. */
  lemma UpdateKeepsPositive(p: ModelParams, f: seq<nat>, s: nat)
    requires s < |f|
    requires forall i :: 0 <= i < |f| ==> f[i] >= 1
    ensures |UpdatedFreqs(p, f, s)| == |f|
    ensures forall i :: 0 <= i < |f| ==> UpdatedFreqs(p, f, s)[i] >= 1
  {
  }

  /**
   * Once the total is within `noExceed`, it stays within `noExceed` after
   * any update, provided `incValue + numSymbols <= noExceed` (the rounding
   * up of each halved count costs at most one unit per symbol).
   */
  lemma UpdateKeepsBound(p: ModelParams, f: seq<nat>, s: nat)
    requires s < |f| == p.numSymbols
    requires p.incValue + p.numSymbols <= p.noExceed
    requires Sum(f) <= p.noExceed
    ensures Sum(UpdatedFreqs(p, f, s)) <= p.noExceed
  {
    var bumped := f[s := f[s] + p.incValue];
    SumBump(f, s, p.incValue);
    var total := Sum(bumped);
    assert total == Sum(f) + p.incValue;
    if total > p.noExceed {
      var h := Halved(bumped);
      assert UpdatedFreqs(p, f, s) == h;
      assert |bumped| == p.numSymbols;
      assert total + |bumped| <= 2 * p.noExceed;
      SumHalved(bumped);
    } else {
      assert UpdatedFreqs(p, f, s) == bumped;
    }
  }

  /** The bogus model: all counts one, so every byte costs exactly eight bits, forever. */
  lemma BogusStaysUniform(s: nat)
    requires s < 256
    ensures UpdatedFreqs(BogusParams, Repeat<nat>(1, 256), s) == Repeat<nat>(1, 256)
  {
    var f := Repeat<nat>(1, 256);
    assert f[s := f[s] + 0] == f;
    SumRepeat(1, 256);
    assert Halved(f) == f;
  }

  /** Every entry of the parameter table fits the bound lemma, and starts within its bound. */
  lemma ModelTableSound(k: nat)
    requires k < ModelLast
    ensures ModelTable(k).incValue >= 1
    ensures ModelTable(k).incValue + ModelTable(k).numSymbols <= ModelTable(k).noExceed
    ensures ModelTable(k).incValue * ModelTable(k).numSymbols <= ModelTable(k).noExceed
    ensures ModelTable(k).noExceed == 1000
    ensures k == ModelBasis ==> ModelTable(k).numSymbols == ValEob + 1
    ensures k != ModelBasis ==> ModelTable(k).numSymbols == Pow2(k)
  {
  }

  /**
   * The largest total the arithmetic coder can narrow by: `R > 2^24` on
   * entry to `putSymbol`/`getSymbol`, so `R / totFreq >= 1` needs
   * `totFreq <= 2^24`.
   */
  const MaxTotal: nat := 0x100_0000

  /** Counts the coder can narrow by: at least one symbol, none with an empty interval, a total that fits. */
  ghost predicate Codable(f: seq<nat>)
  {
    |f| >= 1 && (forall i :: 0 <= i < |f| ==> f[i] >= 1) && Sum(f) <= MaxTotal
  }

  /**
   * Counts a coder may use: every symbol has a non-empty interval, the
   * total fits the coder, and either the model is adaptive with
   * `incValue + numSymbols <= noExceed` and a total within `noExceed`, or
   * it is the bogus model with all counts one.
   */
  ghost predicate ReadyCounts(p: ModelParams, f: seq<nat>)
  {
    |f| == p.numSymbols && Codable(f) &&
    (p == BogusParams ==> f == Repeat<nat>(1, 256)) &&
    (p != BogusParams ==> p.incValue + p.numSymbols <= p.noExceed <= MaxTotal && Sum(f) <= p.noExceed)
  }

  /** `updateModel` keeps a model ready for the coder, adaptive or bogus. */
  lemma ReadyAfterUpdate(p: ModelParams, f: seq<nat>, s: nat)
    requires ReadyCounts(p, f) && s < |f|
    ensures ReadyCounts(p, UpdatedFreqs(p, f, s))
  {
    UpdateKeepsPositive(p, f, s);
    if p == BogusParams {
      BogusStaysUniform(s);
    } else {
      UpdateKeepsBound(p, f, s);
    }
  }

  /** Every model `initModel` sets up, and the bogus model `initBogusModel` sets up, is ready. */
  lemma ReadyAfterInit(k: nat)
    requires k < ModelLast
    ensures ReadyCounts(ModelTable(k), Repeat<nat>(ModelTable(k).incValue, ModelTable(k).numSymbols))
    ensures ReadyCounts(BogusParams, Repeat<nat>(1, 256))
  {
    var p := ModelTable(k);
    ModelTableSound(k);
    SumRepeat(p.incValue, p.numSymbols);
    SumRepeat(1, 256);
  }

  /**
   * `struct Model`: the three constants, the total and the frequency
   * array.  Only `freq[0 .. numSymbols-1]` is ever used.
   */
  class Model {
    const numSymbols: nat
    const incValue: nat
    const noExceed: nat
    const freq: array<nat>
    var totFreq: nat

    function Params(): ModelParams
    {
      ModelParams(numSymbols, incValue, noExceed)
    }

    /** The live counts. */
    ghost function Counts(): seq<nat>
      reads freq
      requires numSymbols <= freq.Length
    {
      freq[..numSymbols]
    }

    /** Shape of the record, and `totFreq` is the sum of the live counts. */
    ghost predicate Valid()
      reads this, freq
    {
      freq.Length == MaxSymbols && 1 <= numSymbols <= MaxSymbols &&
      totFreq == Sum(freq[..numSymbols])
    }

    /** Valid, and its counts are fit for the coder. */
    ghost predicate Ready()
      reads this, freq
    {
      Valid() && ReadyCounts(Params(), Counts())
    }

    /** The `smallL` loop of `putSymbol`: the counts of the symbols before `symbol`, added up. */
    method CumFreq(symbol: nat) returns (c: nat)
      requires Valid() && symbol < numSymbols
      ensures c == Cum(Counts(), symbol) && c + freq[symbol] <= totFreq
    {
      c := 0;
      for k := 0 to symbol
        invariant c == Sum(freq[..k])
      {
        SumPrefix(freq[..], k);
        assert freq[..k + 1] == freq[..][..k + 1];
        c := c + freq[k];
      }
      assert freq[..symbol] == Counts()[..symbol];
      CountWithinSum(Counts(), symbol);
    }

    /**
     * The search loop of `getSymbol`: add up counts until the sum passes
     * `target`; the symbol reached and the sum so far (`smallH`).
     */
    method FindSymbol(target: nat) returns (s: nat, smallH: nat)
      requires Valid() && target < totFreq
      ensures s == SymbolFor(Counts(), target) && smallH == Cum(Counts(), s) + freq[s]
    {
      s := 0;
      smallH := freq[0];
      assert Counts()[..1] == [freq[0]];
      assert Counts()[..numSymbols] == Counts();
      while smallH <= target
        invariant s < numSymbols && smallH == Sum(Counts()[..s + 1]) && Sum(Counts()[..s]) <= target
        decreases numSymbols - s
      {
        s := s + 1;
        SumPrefix(Counts(), s);
        smallH := smallH + freq[s];
      }
      SumPrefix(Counts(), s);
      SymbolForUnique(Counts(), target, s);
    }

    /** A statically allocated model: its constants set, every count zero. */
    constructor (p: ModelParams)
      requires 1 <= p.numSymbols <= MaxSymbols
      ensures Valid() && Params() == p && fresh(freq)
      ensures freq[..] == Repeat<nat>(0, MaxSymbols) && totFreq == 0
    {
      numSymbols, incValue, noExceed := p.numSymbols, p.incValue, p.noExceed;
      freq := new nat[MaxSymbols](_ => 0);
      totFreq := 0;
      new;
      assert freq[..] == Repeat<nat>(0, MaxSymbols);
      assert freq[..p.numSymbols] == Repeat<nat>(0, p.numSymbols);
      SumRepeat(0, p.numSymbols);
    }

    /** `initModel`: every live count becomes `incValue`. */
    method Init()
      requires Valid()
      modifies this, freq
      ensures Valid() && Counts() == Repeat<nat>(incValue, numSymbols)
      ensures freq[numSymbols..] == old(freq[numSymbols..])
    {
      totFreq := incValue * numSymbols;
      for i := 0 to numSymbols
        invariant freq[..i] == Repeat<nat>(incValue, i)
        invariant totFreq == incValue * numSymbols
        invariant forall j :: i <= j < freq.Length ==> freq[j] == old(freq[j])
      {
        freq[i] := incValue;
        assert freq[..i + 1] == Repeat<nat>(incValue, i + 1);
      }
      SumRepeat(incValue, numSymbols);
      assert freq[..numSymbols] == Repeat<nat>(incValue, numSymbols);
    }

    /** `scaleModel`: halve every live count, rounding up, and recompute the total. */
    method Scale()
      requires Valid()
      modifies this, freq
      ensures Valid() && Counts() == Halved(old(Counts()))
      ensures freq[numSymbols..] == old(freq[numSymbols..])
    {
      ghost var a := freq[..];
      totFreq := 0;
      for i := 0 to numSymbols
        invariant freq[..] == HalvedUpTo(a, i)
        invariant totFreq == Sum(freq[..i])
      {
        HalvedUpToStep(a, i);
        SumSnoc(freq[..i], (a[i] + 1) / 2);
        freq[i] := freq[i] + 1;
        freq[i] := freq[i] / 2;
        totFreq := totFreq + freq[i];
      }
      HalvedUpToDone(a, numSymbols);
    }

    /** `updateModel`: reward `symbol`, rescaling when the total passes `noExceed`. */
    method Update(symbol: nat)
      requires Valid() && symbol < numSymbols
      modifies this, freq
      ensures Valid() && Counts() == UpdatedFreqs(Params(), old(Counts()), symbol)
      ensures freq[numSymbols..] == old(freq[numSymbols..])
    {
      ghost var before := freq[..numSymbols];
      freq[symbol] := freq[symbol] + incValue;
      totFreq := totFreq + incValue;
      assert freq[..numSymbols] == before[symbol := before[symbol] + incValue];
      SumBump(before, symbol, incValue);
      if totFreq > noExceed {
        Scale();
      }
    }
  }

  /** `initBogusModel`: every count one, total `numSymbols`. */
  method InitBogusModel(bogus: Model)
    requires bogus.Valid() && bogus.Params() == BogusParams
    modifies bogus, bogus.freq
    ensures bogus.Valid() && bogus.Counts() == Repeat<nat>(1, 256)
  {
    bogus.totFreq := bogus.numSymbols;
    for i := 0 to bogus.numSymbols
      invariant bogus.freq[..i] == Repeat<nat>(1, i)
      invariant bogus.totFreq == 256
    {
      bogus.freq[i] := 1;
      assert bogus.freq[..i + 1] == Repeat<nat>(1, i + 1);
    }
    assert bogus.freq[..bogus.numSymbols] == Repeat<nat>(1, 256);
    SumRepeat(1, 256);
  }

  /**
   * The global models of models.c: `models[MODEL_BASIS .. MODEL_128_255]`
   * and `model_bogus`, each with a frequency array of its own.
   */
  class ModelSet {
    const models: seq<Model>
    const bogus: Model

    /** The objects the model set owns. */
    ghost function Repr(): set<object>
    {
      (set k | 0 <= k < |models| :: models[k]) + (set k | 0 <= k < |models| :: models[k].freq) + {bogus, bogus.freq}
    }

    /** Eight models and the bogus one, no two sharing an object or a count array. */
    ghost predicate Separate()
    {
      |models| == ModelLast &&
      (forall i, j :: 0 <= i < ModelLast && 0 <= j < ModelLast && i != j ==> models[i] != models[j] && models[i].freq != models[j].freq) &&
      (forall k :: 0 <= k < ModelLast ==> models[k] != bogus && models[k].freq != bogus.freq)
    }

    ghost predicate Valid()
      reads this, Repr()
    {
      Separate() &&
      (forall k :: 0 <= k < ModelLast ==> models[k].Valid() && models[k].Params() == ModelTable(k)) &&
      bogus.Valid() && bogus.Params() == BogusParams
    }

    /** Every model, the bogus one included, is ready for the coder. */
    ghost predicate Ready()
      reads this, Repr()
    {
      Valid() && bogus.Ready() && forall k :: 0 <= k < ModelLast ==> models[k].Ready()
    }

    /** The statically allocated models, counts all zero. */
    constructor ()
      ensures Valid() && fresh(Repr())
    {
      var ms: seq<Model> := [];
      for k := 0 to ModelLast
        invariant |ms| == k
        invariant forall i :: 0 <= i < k ==> ms[i].Valid() && ms[i].Params() == ModelTable(i)
        invariant forall i :: 0 <= i < k ==> fresh(ms[i]) && fresh(ms[i].freq)
        invariant forall i, j :: 0 <= i < j < k ==> ms[i] != ms[j] && ms[i].freq != ms[j].freq
      {
        var m := new Model(ModelTable(k));
        ms := ms + [m];
      }
      models := ms;
      bogus := new Model(BogusParams);
    }

    /** `initModels`: `initModel` on each of the eight adaptive models; the bogus model is left alone. */
    method InitModels()
      requires Valid()
      modifies Repr()
      ensures Valid()
      ensures forall k :: 0 <= k < ModelLast ==>
        models[k].Counts() == Repeat<nat>(ModelTable(k).incValue, ModelTable(k).numSymbols) && models[k].Ready()
      ensures bogus.Counts() == old(bogus.Counts()) && bogus.totFreq == old(bogus.totFreq)
      ensures old(bogus.Ready()) ==> Ready()
    {
      for k := 0 to ModelLast
        invariant Valid()
        invariant forall i :: 0 <= i < k ==>
          models[i].Counts() == Repeat<nat>(ModelTable(i).incValue, ModelTable(i).numSymbols)
        invariant bogus.Counts() == old(bogus.Counts()) && bogus.totFreq == old(bogus.totFreq)
      {
        models[k].Init();
      }
      forall k | 0 <= k < ModelLast
        ensures models[k].Ready()
      {
        ReadyAfterInit(k);
      }
    }
  }

  /** One row of `MTFVals_encode`: the basis symbol, the class model and the offset within it. */
  datatype MtfEncodeEntry = MtfEncodeEntry(v: nat, m: nat, n: nat)

  /** One row of `MTFVals_decode`: the class model and its lowest rank. */
  datatype MtfDecodeEntry = MtfDecodeEntry(m: nat, n: nat)

  /** `MTFVals_encode[n]` for a rank `n` in 2..255: the row of rank `n` masks it with its class's low bits. */
  function MtfValsEncode(n: nat): MtfEncodeEntry
    requires 2 <= n <= 255
  {
    if n < 4 then MtfEncodeEntry(3, 1, BitAnd(n, 1))
    else if n < 8 then MtfEncodeEntry(4, 2, BitAnd(n, 3))
    else if n < 16 then MtfEncodeEntry(5, 3, BitAnd(n, 7))
    else if n < 32 then MtfEncodeEntry(6, 4, BitAnd(n, 15))
    else if n < 64 then MtfEncodeEntry(7, 5, BitAnd(n, 31))
    else if n < 128 then MtfEncodeEntry(8, 6, BitAnd(n, 63))
    else MtfEncodeEntry(9, 7, BitAnd(n, 127))
  }

  /** `MTFVals_decode[v]` for a class symbol `v` in `VAL_2_3` .. `VAL_128_255`. */
  function MtfValsDecode(v: nat): MtfDecodeEntry
    requires Val2_3 <= v <= Val128_255
  {
    match v
    case 3 => MtfDecodeEntry(1, 2)
    case 4 => MtfDecodeEntry(2, 4)
    case 5 => MtfDecodeEntry(3, 8)
    case 6 => MtfDecodeEntry(4, 16)
    case 7 => MtfDecodeEntry(5, 32)
    case 8 => MtfDecodeEntry(6, 64)
    case _ => MtfDecodeEntry(7, 128)
  }

  /** The rank class of `n`: the `c` with `2^c <= n < 2^(c+1)`. */
  function RankClass(n: nat): (c: nat)
    requires 2 <= n <= 255
    ensures 1 <= c <= 7 && Pow2(c) <= n < 2 * Pow2(c)
  {
    if n < 4 then 1 else if n < 8 then 2 else if n < 16 then 3 else if n < 32 then 4
    else if n < 64 then 5 else if n < 128 then 6 else 7
  }

  /**
   * The encode table sends rank `n` to the class symbol `VAL_2_3 + c - 1` of its
   * rank class `c`, to the model of that class, with an offset the model can code;
   * the decode table of that symbol names the same model, and or-ing its base
   * rank onto the offset gives `n` back.
   */
  lemma {:induction false} MtfTablesRoundTrip(n: nat)
    requires 2 <= n <= 255
    ensures var e := MtfValsEncode(n);
      var c := RankClass(n);
      e.v == Val2_3 + c - 1 && e.m == c &&
      e.n < ModelTable(e.m).numSymbols &&
      MtfValsDecode(e.v).m == e.m && BitOr(e.n, MtfValsDecode(e.v).n) == n
  {
    var c := RankClass(n);
    var lo := Pow2(c);
    Pow2Small();
    assert MtfValsEncode(n) == MtfEncodeEntry(c + 2, c, BitAnd(n, lo - 1));
    assert MtfValsDecode(c + 2) == MtfDecodeEntry(c, lo);
    assert ModelTable(c).numSymbols == lo;
    BitAndLowMask(n, c);
    assert n % lo == n - lo by { ModUnique(n, lo, 1, n - lo); }
    BitOrHighBit(n - lo, c);
  }

  lemma Pow2Small()
    ensures Pow2(1) == 2 && Pow2(2) == 4 && Pow2(3) == 8 && Pow2(4) == 16
    ensures Pow2(5) == 32 && Pow2(6) == 64 && Pow2(7) == 128
  {
  }

  /** Conversely, every (class symbol, offset) pair the decoder can receive comes from exactly one rank. */
  lemma {:induction false} MtfTablesRoundTripBack(v: nat, off: nat)
    requires Val2_3 <= v <= Val128_255
    requires off < ModelTable(MtfValsDecode(v).m).numSymbols
    ensures var n := BitOr(off, MtfValsDecode(v).n);
      2 <= n <= 255 && MtfValsEncode(n) == MtfEncodeEntry(v, MtfValsDecode(v).m, off)
  {
    var c := v - 2;
    var lo := Pow2(c);
    Pow2Small();
    assert MtfValsDecode(v).n == lo && ModelTable(MtfValsDecode(v).m).numSymbols == lo;
    BitOrHighBit(off, c);
    var n := off + lo;
    assert RankClass(n) == c;
    assert MtfValsEncode(n) == MtfEncodeEntry(c + 2, c, BitAnd(n, lo - 1));
    BitAndLowMask(n, c);
    ModUnique(n, lo, 1, off);
  }
}
