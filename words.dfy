/**
 * The packed block of compress.c and its accessors (compress.h): each
 * entry of `words[]` is a 32-bit word that is also viewed as two
 * half-words and four bytes.  The macros are chosen per byte order so that
 * on either order `GETFIRST` is the most significant byte of `GETALL`,
 * `GETFOURTH` the least, and `GETFIRST16` the high half.  The model keeps
 * the four bytes and derives the word and half-word views from them.
 */
module Words {
  import opened Common

  /** One entry of `words[]`: `GETFIRST` .. `GETFOURTH`. */
  datatype Word = Word(first: Byte, second: Byte, third: Byte, fourth: Byte)

  /** `GETALL`: the bytes as one unsigned word, `GETFIRST` most significant. */
  function GetAll(w: Word): (r: nat)
    ensures r < TwoTo32
  {
    w.first * 0x100_0000 + w.second * 0x1_0000 + w.third * 0x100 + w.fourth
  }

  /** `GETFIRST16`: the high half, the bucket key of `sortIt`. */
  function GetFirst16(w: Word): (r: nat)
    ensures r < 0x1_0000
  {
    w.first * 0x100 + w.second
  }

  /** `GETREST16`: the low half. */
  function GetRest16(w: Word): (r: nat)
    ensures r < 0x1_0000
  {
    w.third * 0x100 + w.fourth
  }

  /** The byte order of the views: the high half leads `GETALL`, `GETFIRST` leads the high half. */
  lemma WordViews(w: Word)
    ensures GetAll(w) == GetFirst16(w) * 0x1_0000 + GetRest16(w)
    ensures GetFirst16(w) / 0x100 == w.first && GetAll(w) / 0x100_0000 == w.first
  {
    ModUnique(GetAll(w), 0x100_0000, w.first, w.second * 0x1_0000 + w.third * 0x100 + w.fourth);
  }

  /** The bytes of a word, most significant first, as a sequence. */
  function WordBytesOf(w: Word): seq<Byte>
  {
    [w.first, w.second, w.third, w.fourth]
  }

  /** The block as the byte string it holds: the `GETFIRST` byte of every word. */
  function Firsts(w: seq<Word>): (b: seq<Byte>)
    ensures |b| == |w| && forall i :: 0 <= i < |w| ==> b[i] == w[i].first
  {
    seq(|w|, i requires 0 <= i < |w| => w[i].first)
  }

  /** Lexicographic order on byte strings of the same length. */
  predicate LexLess(a: seq<Byte>, b: seq<Byte>)
    requires |a| == |b|
    decreases |a|
  {
    |a| > 0 && (a[0] < b[0] || (a[0] == b[0] && LexLess(a[1..], b[1..])))
  }

  /** Comparing `GETALL` as unsigned words compares the four bytes lexicographically. */
  lemma GetAllOrder(v: Word, w: Word)
    ensures GetAll(v) < GetAll(w) <==> LexLess(WordBytesOf(v), WordBytesOf(w))
    ensures GetAll(v) == GetAll(w) <==> v == w
  {
    var a, b := WordBytesOf(v), WordBytesOf(w);
    assert a[1..][1..][1..][1..] == [] && b[1..][1..][1..][1..] == [];
    assert LexLess(a[1..][1..][1..], b[1..][1..][1..]) <==> v.fourth < w.fourth;
    assert LexLess(a[1..][1..], b[1..][1..]) <==> v.third < w.third || (v.third == w.third && v.fourth < w.fourth);
    var x, y := v.second * 0x1_0000 + v.third * 0x100 + v.fourth, w.second * 0x1_0000 + w.third * 0x100 + w.fourth;
    var x', y' := v.third * 0x100 + v.fourth, w.third * 0x100 + w.fourth;
    assert x < 0x100_0000 && y < 0x100_0000 && x' < 0x1_0000 && y' < 0x1_0000;
    assert GetAll(v) == v.first * 0x100_0000 + x && GetAll(w) == w.first * 0x100_0000 + y;
    assert x == v.second * 0x1_0000 + x' && y == w.second * 0x1_0000 + y';
    if v.first != w.first {
      if v.first < w.first {
        assert GetAll(v) < (v.first + 1) * 0x100_0000 <= GetAll(w);
      } else {
        assert GetAll(w) < (w.first + 1) * 0x100_0000 <= GetAll(v);
      }
    } else if v.second != w.second {
      if v.second < w.second {
        assert x < (v.second + 1) * 0x1_0000 <= y;
      } else {
        assert y < (w.second + 1) * 0x1_0000 <= x;
      }
    } else if v.third != w.third {
      if v.third < w.third {
        assert x' < (v.third + 1) * 0x100 <= y';
      } else {
        assert y' < (w.third + 1) * 0x100 <= x';
      }
    }
  }

  /**
   * `NORMALIZELO(p)`: a possibly negative index (an unsigned value read as
   * `int`) brought back into the block by adding `words_end` once.
   */
  function NormalizeLo(p: int, wordsEnd: nat): int
  {
    if p >= 0 then p else wordsEnd + p
  }

  /** `NORMALIZEHI(p)`: an index past the block brought back by subtracting `words_end` once. */
  function NormalizeHi(p: nat, wordsEnd: nat): int
  {
    if p < wordsEnd then p else p - wordsEnd
  }

  /** `NORMALIZELO` is the circular index only while `p` is less than one block below zero. */
  lemma NormalizeLoCircular(p: int, wordsEnd: nat)
    requires -(wordsEnd as int) <= p < wordsEnd
    ensures NormalizeLo(p, wordsEnd) == p % wordsEnd
  {
    if p < 0 {
      ModUnique(p, wordsEnd, -1, wordsEnd + p);
    } else {
      ModUnique(p, wordsEnd, 0, p);
    }
  }

  /** ... and it is not beyond that: one block further down it stays negative. */
  lemma NormalizeLoTooLow(p: int, wordsEnd: nat)
    requires p < -(wordsEnd as int)
    ensures NormalizeLo(p, wordsEnd) < 0
  {
  }

  /** `NORMALIZEHI` is the circular index only while `p` is less than two blocks. */
  lemma NormalizeHiCircular(p: nat, wordsEnd: nat)
    requires p < 2 * wordsEnd
    ensures NormalizeHi(p, wordsEnd) == p % wordsEnd
  {
    if p < wordsEnd {
      ModUnique(p, wordsEnd, 0, p);
    } else {
      ModUnique(p, wordsEnd, 1, p - wordsEnd);
    }
  }

  /** ... and from two blocks on it stays past the end. */
  lemma NormalizeHiTooHigh(p: nat, wordsEnd: nat)
    requires p >= 2 * wordsEnd
    ensures NormalizeHi(p, wordsEnd) >= wordsEnd
  {
  }

  /** `SETFIRST(a, c)`: only the first byte of word `a` changes. */
  method SetFirst(words: array<Word>, a: nat, c: Byte)
    requires a < words.Length
    modifies words
    ensures words[..] == old(words[..])[a := old(words[a]).(first := c)]
  {
    words[a] := words[a].(first := c);
  }

  /** `SETSECOND(a, c)`. */
  method SetSecond(words: array<Word>, a: nat, c: Byte)
    requires a < words.Length
    modifies words
    ensures words[a] == old(words[a]).(second := c)
    ensures forall k :: 0 <= k < words.Length && k != a ==> words[k] == old(words[k])
  {
    words[a] := words[a].(second := c);
  }

  /** `SETTHIRD(a, c)`. */
  method SetThird(words: array<Word>, a: nat, c: Byte)
    requires a < words.Length
    modifies words
    ensures words[a] == old(words[a]).(third := c)
    ensures forall k :: 0 <= k < words.Length && k != a ==> words[k] == old(words[k])
  {
    words[a] := words[a].(third := c);
  }

  /** `SETFOURTH(a, c)`. */
  method SetFourth(words: array<Word>, a: nat, c: Byte)
    requires a < words.Length
    modifies words
    ensures words[a] == old(words[a]).(fourth := c)
    ensures forall k :: 0 <= k < words.Length && k != a ==> words[k] == old(words[k])
  {
    words[a] := words[a].(fourth := c);
  }

  /**
   * `SETREST16(a, h)`: the low half of word `a` becomes `h`; the bucket key
   * `GETFIRST16` and with it `GETFIRST` are kept, and no other word changes.
   */
  method SetRest16(words: array<Word>, a: nat, h: nat)
    requires a < words.Length && h < 0x1_0000
    modifies words
    ensures GetRest16(words[a]) == h
    ensures words[a].first == old(words[a]).first && words[a].second == old(words[a]).second
    ensures GetFirst16(words[a]) == GetFirst16(old(words[a]))
    ensures forall k :: 0 <= k < words.Length && k != a ==> words[k] == old(words[k])
  {
    words[a] := words[a].(third := h / 0x100, fourth := h % 0x100);
  }

  /** `SWAP(za, zb)`: exchange two entries of `zptr`, nothing else. */
  method Swap(zptr: array<nat>, za: nat, zb: nat)
    requires za < zptr.Length && zb < zptr.Length
    modifies zptr
    ensures zptr[..] == old(zptr[..])[za := old(zptr[zb])][zb := old(zptr[za])]
    ensures multiset(zptr[..]) == multiset(old(zptr[..]))
  {
    var zt := zptr[za];
    zptr[za] := zptr[zb];
    zptr[zb] := zt;
  }
}
