/**
 * Shared vocabulary of the model: bits, bytes, 32-bit unsigned words,
 * the ways a run stops abnormally, and small arithmetic helpers.
 */
module Common {
  /** One cell of a bit window (the source keeps one bit per byte). */
  type Bit = x: int | 0 <= x < 2

  type Byte = x: int | 0 <= x < 256

  /** The C `u_int32_t`/`unsigned` range. */
  type U32 = x: int | 0 <= x < 0x1_0000_0000

  const TwoTo32: int := 0x1_0000_0000

  datatype Option<T> = None | Some(value: T)

  /**
   * Abnormal ends: `unexpected_eof`, the messages of `invalid_input`, and
   * a malformed command-line argument (`die(EXIT_ERR_USER, …)`).
   */
  datatype Failure = UnexpectedEof | InvalidMagic | FileCorrupt | CrcError | UsageError

  datatype Result<T> = Ok(value: T) | Fail(failure: Failure)
  {
    predicate IsFailure() { Fail? }
    function PropagateFailure<U>(): Result<U> requires Fail? { Fail(failure) }
    function Extract(): T requires Ok? { value }
  }

  function Pow2(k: nat): (r: nat)
    ensures r >= 1
  {
    if k == 0 then 1 else 2 * Pow2(k - 1)
  }

  lemma Pow2Byte()
    ensures Pow2(0) == 1 && Pow2(1) == 2 && Pow2(2) == 4 && Pow2(3) == 8
    ensures Pow2(4) == 16 && Pow2(5) == 32 && Pow2(6) == 64 && Pow2(7) == 128 && Pow2(8) == 256
  {
  }

  lemma Pow2Word()
    ensures Pow2(16) == 0x1_0000 && Pow2(32) == TwoTo32
  {
    Pow2Byte();
    assert Pow2(12) == 0x1000;
    assert Pow2(16) == 0x1_0000;
    assert Pow2(20) == 0x10_0000;
    assert Pow2(24) == 0x100_0000;
    assert Pow2(28) == 0x1000_0000;
  }

  /** `n` copies of `x`. */
  function Repeat<T>(x: T, n: nat): (r: seq<T>)
    ensures |r| == n
    ensures forall i :: 0 <= i < n ==> r[i] == x
  {
    if n == 0 then [] else [x] + Repeat(x, n - 1)
  }

  /** Unsigned 32-bit wrap-around of an integer result, as C computes it. */
  function Wrap32(x: int): (r: U32)
    ensures r % TwoTo32 == x % TwoTo32
  {
    x % TwoTo32
  }

  /** The range 0 .. n-1 as a sequence. */
  function Range(n: nat): (r: seq<nat>)
    ensures |r| == n
    ensures forall i :: 0 <= i < n ==> r[i] == i
  {
    seq(n, i => i)
  }

  /** C's `&` on non-negative integers, one binary digit at a time. */
  function BitAnd(x: nat, y: nat): nat
  {
    if x == 0 || y == 0 then 0
    else 2 * BitAnd(x / 2, y / 2) + (if x % 2 == 1 && y % 2 == 1 then 1 else 0)
  }

  /** C's `|` on non-negative integers, one binary digit at a time. */
  function BitOr(x: nat, y: nat): nat
  {
    if x == 0 then y
    else if y == 0 then x
    else 2 * BitOr(x / 2, y / 2) + (if x % 2 == 1 || y % 2 == 1 then 1 else 0)
  }

  /** Masking with `2^k - 1` keeps the low `k` bits. */
  lemma {:induction false} BitAndLowMask(x: nat, k: nat)
    ensures BitAnd(x, Pow2(k) - 1) == x % Pow2(k)
    decreases k
  {
    if k == 0 || x == 0 {
    } else {
      var m := Pow2(k - 1);
      assert Pow2(k) - 1 == 2 * (m - 1) + 1;
      assert (Pow2(k) - 1) / 2 == m - 1;
      BitAndLowMask(x / 2, k - 1);
      DivModSplit(x, m);
    }
  }

  /** `x % 2m` splits into the low bit and the rest modulo `m`. */
  lemma DivModSplit(x: nat, m: nat)
    requires m >= 1
    ensures x % (2 * m) == 2 * ((x / 2) % m) + x % 2
  {
    var q := (x / 2) / m;
    var r := (x / 2) % m;
    assert x / 2 == q * m + r;
    assert x == 2 * (x / 2) + x % 2;
    assert x == q * (2 * m) + (2 * r + x % 2);
    ModUnique(x, 2 * m, q, 2 * r + x % 2);
  }

  /** Quotient and remainder are determined by any decomposition `x == q*d + r`, `0 <= r < d`. */
  lemma ModUnique(x: int, d: int, q: int, r: int)
    requires d > 0 && 0 <= r < d && x == q * d + r
    ensures x / d == q && x % d == r
  {
    var q', r' := x / d, x % d;
    assert (q - q') * d == r' - r;
    if q > q' {
      assert (q - q') * d >= d by { MulAtLeast(q - q', d); }
    } else if q < q' {
      assert (q' - q) * d >= d by { MulAtLeast(q' - q, d); }
    }
  }

  lemma MulAtLeast(a: int, d: int)
    requires a >= 1 && d > 0
    ensures a * d >= d
  {
  }

  /** Or-ing a power of two onto a value below it adds it. */
  lemma {:induction false} BitOrHighBit(a: nat, k: nat)
    requires a < Pow2(k)
    ensures BitOr(a, Pow2(k)) == a + Pow2(k)
    decreases k
  {
    if k == 0 || a == 0 {
    } else {
      BitOrHighBit(a / 2, k - 1);
      assert Pow2(k) / 2 == Pow2(k - 1);
      assert Pow2(k) % 2 == 0;
    }
  }

  /** Concatenation regrouped. */
  lemma AppendAssoc<T>(a: seq<T>, b: seq<T>, c: seq<T>)
    ensures a + b + c == a + (b + c)
  {
  }

  /** A prefix one longer is the prefix with the next element appended. */
  lemma PrefixSnoc<T>(s: seq<T>, i: nat)
    requires i < |s|
    ensures s[..i + 1] == s[..i] + [s[i]]
  {
  }
}
