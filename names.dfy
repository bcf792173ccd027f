/**
 * The command-line helpers that work on strings alone: `lc_atou` in
 * main.c, which reads an unsigned number from an option argument;
 * `makeup_output_fname` in main.c, which derives the output file name
 * from the input name; and its predecessor `output_generate_filename` in
 * old/bzip.c.  Strings are the characters of a C string, without the
 * terminating NUL.
 */
module Names {
  import opened Common

  /** The characters of a C string: no NUL before the terminator. */
  predicate CString(s: seq<char>)
  {
    forall i :: 0 <= i < |s| ==> s[i] != '\0'
  }

  // ---------------------------------------------------------------------
  // lc_atou

  predicate IsDigit(c: char)
  {
    '0' <= c <= '9'
  }

  /** `*str - '0'` for a digit. */
  function DigitOf(c: char): (d: nat)
    requires IsDigit(c)
    ensures d < 10
  {
    c as int - '0' as int
  }

  predicate AllDigits(s: seq<char>)
  {
    forall i :: 0 <= i < |s| ==> IsDigit(s[i])
  }

  /** The value of a digit string read left to right in `base`, before any wrap-around. */
  function DigitsValue(s: seq<char>, base: nat): nat
    requires AllDigits(s)
  {
    if s == [] then 0 else DigitsValue(s[..|s| - 1], base) * base + DigitOf(s[|s| - 1])
  }

  /** The digit character of a value below ten. */
  function DigitChar(d: nat): (c: char)
    requires d < 10
    ensures IsDigit(c) && DigitOf(c) == d
  {
    ('0' as int + d) as char
  }

  /**
   * `n` written in `base`, most significant digit first, with no leading
   * zeros (and "0" for zero): what `lc_atou` is meant to read back.
   */
  function Render(n: nat, base: nat): (s: seq<char>)
    requires 2 <= base <= 10
    ensures |s| >= 1 && AllDigits(s) && CString(s)
    decreases n
  {
    if n < base then [DigitChar(n)] else
      Euclid(n, base);
      Render(n / base, base) + [DigitChar(n % base)]
  }

  /** One more digit on the right: the value so far times the base, plus the digit. */
  lemma DigitsSnoc(t: seq<char>, c: char, base: nat)
    requires AllDigits(t) && IsDigit(c)
    ensures AllDigits(t + [c]) && DigitsValue(t + [c], base) == DigitsValue(t, base) * base + DigitOf(c)
  {
    assert (t + [c])[..|t|] == t;
  }

  /** Quotient and remainder put back together; the quotient of a number not below the base is smaller. */
  lemma Euclid(n: nat, base: nat)
    requires base >= 2
    ensures (n / base) * base + n % base == n && 0 <= n % base < base
    ensures n >= base ==> n / base < n
  {
    var q := n / base;
    if n >= base && q >= 1 {
      assert q * base >= q * 2 by { MulAtLeast(q, base); }
    }
  }

  /** Reading back what `Render` wrote gives the number. */
  lemma {:induction false} RenderRead(n: nat, base: nat)
    requires 2 <= base <= 10
    ensures DigitsValue(Render(n, base), base) == n
    decreases n
  {
    if n >= base {
      Euclid(n, base);
      var q, r := n / base, n % base;
      var t := Render(q, base);
      RenderRead(q, base);
      DigitsSnoc(t, DigitChar(r), base);
    }
  }

  /** Reducing modulo 2^32 after every step gives the same result as reducing once at the end. */
  lemma WrapStep(x: nat, base: nat, d: nat)
    ensures (x % TwoTo32 * base + d) % TwoTo32 == (x * base + d) % TwoTo32
  {
    var q := x / TwoTo32;
    var y := x % TwoTo32 * base + d;
    assert x == q * TwoTo32 + x % TwoTo32;
    assert x * base + d == y + (q * base) * TwoTo32;
    assert y == (y / TwoTo32) * TwoTo32 + y % TwoTo32;
    ModUnique(x * base + d, TwoTo32, q * base + y / TwoTo32, y % TwoTo32);
  }

  /**
   * `lc_atou`: the digits of `str` read left to right in `base`, in
   * unsigned 32-bit arithmetic.  Any character outside '0'..'9' is a
   * usage error, whatever the base: '8' and '9' pass even in base 8.
   */
  method LcAtou(str: seq<char>, base: nat) returns (r: Result<U32>)
    requires 2 <= base <= 10
    ensures r.Ok? <==> AllDigits(str)
    ensures r.Fail? ==> r.failure == UsageError
    ensures r.Ok? ==> r.value == DigitsValue(str, base) % TwoTo32
  {
    var result: U32 := 0;
    var i := 0;
    while i < |str|
      invariant i <= |str| && AllDigits(str[..i])
      invariant result == DigitsValue(str[..i], base) % TwoTo32
    {
      if !IsDigit(str[i]) {
        return Fail(UsageError);
      }
      assert str[..i + 1][..i] == str[..i];
      WrapStep(DigitsValue(str[..i], base), base, DigitOf(str[i]));
      result := Wrap32(result * base + DigitOf(str[i]));
      i := i + 1;
    }
    assert str[..i] == str;
    r := Ok(result);
  }

  // ---------------------------------------------------------------------
  // makeup_output_fname

  /** `PATH_MAX` on Linux, the size of the static name buffer (the limits header is not part of this model). */
  const PathMax: nat := 4096

  const BzExt: seq<char> := ".bz"
  const BunzExt: seq<char> := ".bunz"

  /** Where the input comes from: standard input, or a named file. */
  datatype Input = StdIn | Named(fname: seq<char>)

  /** The name ends in ".bz" and has something before it. */
  predicate HasBzExt(f: seq<char>)
  {
    |f| > 3 && f[|f| - 3..] == BzExt
  }

  /**
   * `makeup_output_fname`: "-" for standard input; otherwise the name
   * with ".bz" appended when compressing, with a trailing ".bz" removed
   * when decompressing, or with ".bunz" appended when decompressing any
   * other name.  The kept part of the name is cut short when the result
   * and its NUL would not fit the buffer.
   */
  function OutputName(input: Input, compress: bool): (r: seq<char>)
    requires input.Named? ==> CString(input.fname)
    ensures input.StdIn? ==> r == "-"
    ensures |r| < PathMax && CString(r)
  {
    match input
    case StdIn => "-"
    case Named(f) =>
      var lf := if !compress && HasBzExt(f) then |f| - 3 else |f|;
      var ext := if compress then BzExt else if HasBzExt(f) then [] else BunzExt;
      var sext := |ext| + 1;
      var kept := if lf + sext > PathMax then PathMax - sext else lf;
      f[..kept] + ext
  }

  /** Compressing a name that fits appends ".bz". */
  lemma CompressName(f: seq<char>)
    requires CString(f) && |f| + 4 <= PathMax
    ensures OutputName(Named(f), true) == f + BzExt
  {
    assert f[..|f|] == f;
  }

  /** Decompressing a ".bz" name strips the extension; any other name that fits gets ".bunz". */
  lemma DecompressName(f: seq<char>)
    requires CString(f) && |f| + 6 <= PathMax
    ensures HasBzExt(f) ==> OutputName(Named(f), false) == f[..|f| - 3]
    ensures !HasBzExt(f) ==> OutputName(Named(f), false) == f + BunzExt
  {
    assert f[..|f|] == f;
    if HasBzExt(f) {
      assert f[..|f| - 3] + [] == f[..|f| - 3];
    }
  }

  /** A name too long for the buffer is cut so that the extension and the NUL just fit. */
  lemma LongName(f: seq<char>)
    requires CString(f)
    ensures |f| + 4 > PathMax ==> OutputName(Named(f), true) == f[..PathMax - 4] + BzExt
    ensures |f| + 6 > PathMax && !HasBzExt(f) ==> OutputName(Named(f), false) == f[..PathMax - 6] + BunzExt
    ensures |f| + 4 > PathMax ==> |OutputName(Named(f), true)| == PathMax - 1
  {
  }

  /** The name the decompressor derives from the compressor's output name is the original name. */
  lemma OutputNameRoundTrip(f: seq<char>)
    requires CString(f) && 1 <= |f| && |f| + 4 <= PathMax
    ensures OutputName(Named(OutputName(Named(f), true)), false) == f
  {
    CompressName(f);
    var g := f + BzExt;
    assert CString(g) && HasBzExt(g);
    assert g[..|g| - 3] + [] == f;
  }

  // ---------------------------------------------------------------------
  // output_generate_filename (old/bzip.c)

  /**
   * The outcomes of `output_generate_filename`: the name does not fit
   * (−1), a derived name (1), or a generated temporary name (0).
   */
  datatype Generated = NoRoom | Derived(name: seq<char>) | Temporary(name: seq<char>)

  /** The function's return value for each outcome. */
  function Code(g: Generated): (c: int)
    ensures -1 <= c <= 1
  {
    match g
    case NoRoom => -1
    case Derived(_) => 1
    case Temporary(_) => 0
  }

  /** `sprintf(ofname, "%s.%u.%lu", bzip_prgname, getpid(), tm.tv_usec)`. */
  function TemporaryName(prgname: seq<char>, pid: nat, usec: nat): (t: seq<char>)
  {
    prgname + "." + Render(pid, 10) + "." + Render(usec, 10)
  }

  /**
   * `output_generate_filename`: when compressing, the name with ".bz"
   * appended if it and the NUL fit `ofnameSize`; when decompressing, a
   * name with a trailing ".bz" loses it (if it fits), and any other name
   * gets a temporary name built from the program name, the process id
   * and the microseconds of the clock, passed in here.
   */
  function OutputGenerateFilename(ofnameSize: nat, ifname: seq<char>, compress: bool,
                                  prgname: seq<char>, pid: nat, usec: nat): (g: Generated)
    ensures g.Derived? && compress ==> |g.name| < ofnameSize && |g.name| == |ifname| + 3 && g.name[..|ifname|] == ifname
    ensures g.Derived? && !compress ==> |g.name| < ofnameSize && HasBzExt(ifname) && g.name + BzExt == ifname
    ensures g.Temporary? ==> !compress && !HasBzExt(ifname)
  {
    if compress then
      if |ifname| + |BzExt| + 1 > ofnameSize then NoRoom else Derived(ifname + BzExt)
    else
      var baseLen := |ifname| - |BzExt|;
      if baseLen > 0 && ifname[baseLen..] == BzExt then
        if baseLen + 1 > ofnameSize then NoRoom else Derived(ifname[..baseLen])
      else
        Temporary(TemporaryName(prgname, pid, usec))
  }

  /** Where both fit, the old and the new function derive the same names from a compressible or ".bz" name. */
  lemma GenerateAgrees(ofnameSize: nat, f: seq<char>, compress: bool, prgname: seq<char>, pid: nat, usec: nat)
    requires CString(f) && |f| + 4 <= ofnameSize && |f| + 4 <= PathMax
    requires compress || HasBzExt(f)
    ensures OutputGenerateFilename(ofnameSize, f, compress, prgname, pid, usec) == Derived(OutputName(Named(f), compress))
  {
    if compress {
      CompressName(f);
    } else {
      assert f[..|f| - 3] + [] == f[..|f| - 3];
    }
  }

  /** The old decompressor recovers the input name from the name the old compressor made. */
  lemma GenerateRoundTrip(ofnameSize: nat, f: seq<char>, prgname: seq<char>, pid: nat, usec: nat)
    requires 1 <= |f| && |f| + 4 <= ofnameSize
    ensures var g := OutputGenerateFilename(ofnameSize, f, true, prgname, pid, usec);
      g == Derived(f + BzExt) &&
      OutputGenerateFilename(ofnameSize, g.name, false, prgname, pid, usec) == Derived(f)
  {
    var g := f + BzExt;
    assert g[|g| - 3..] == BzExt;
    assert g[..|g| - 3] == f;
  }
}
