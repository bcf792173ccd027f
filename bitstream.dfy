/**
 * The bit and byte streams of main.c: a compressed stream is handled as a
 * window of one-bit cells that is packed into bytes eight cells at a time,
 * first cell most significant, and unpacked the same way; the plain
 * streams are byte sequences whose CRC is updated once per byte.  The
 * files behind the streams are sequences.
 */
module BitStream {
  import opened Common
  import opened Crc

  /** `BITS_OF(u_int8_t) * BS_BIT_WINDOW` cells. */
  const BitWindowCells: nat := 128

  /** The `k` low bits of `c`, most significant first. */
  function BitsOf(c: nat, k: nat): (cells: seq<Bit>)
    ensures |cells| == k
  {
    if k == 0 then [] else BitsOf(c / 2, k - 1) + [c % 2]
  }

  /** The value of cells read most significant first: `c <<= 1; c |= cell` per cell. */
  function PackBits(cells: seq<Bit>): nat
  {
    if cells == [] then 0 else 2 * PackBits(cells[..|cells| - 1]) + cells[|cells| - 1]
  }

  lemma {:induction false} PackBitsBound(cells: seq<Bit>)
    ensures PackBits(cells) < Pow2(|cells|)
    decreases |cells|
  {
    if cells != [] {
      PackBitsBound(cells[..|cells| - 1]);
    }
  }

  /** Unpacking then packing `k` bits of `c` keeps exactly its `k` low bits. */
  lemma {:induction false} PackBitsOf(c: nat, k: nat)
    ensures PackBits(BitsOf(c, k)) == c % Pow2(k)
    decreases k
  {
    if k > 0 {
      var cells := BitsOf(c, k);
      assert cells[..k - 1] == BitsOf(c / 2, k - 1);
      PackBitsOf(c / 2, k - 1);
      DivModSplit(c, Pow2(k - 1));
    }
  }

  /** Packing then unpacking gives the cells back. */
  lemma {:induction false} BitsOfPack(cells: seq<Bit>)
    ensures BitsOf(PackBits(cells), |cells|) == cells
    decreases |cells|
  {
    if cells != [] {
      var n := |cells|;
      var front := cells[..n - 1];
      var v := PackBits(cells);
      assert v / 2 == PackBits(front) && v % 2 == cells[n - 1];
      BitsOfPack(front);
      assert cells == front + [cells[n - 1]];
    }
  }

  /** Cell `k` of the `n`-bit expansion of `c` is bit `n-1-k` of `c`: `(c & (1 << (n-1-k))) != 0`. */
  lemma {:induction false} BitsOfAt(c: nat, n: nat, k: nat)
    requires k < n
    ensures BitsOf(c, n)[k] == (c / Pow2(n - 1 - k)) % 2
    decreases n
  {
    if k < n - 1 {
      BitsOfAt(c / 2, n - 1, k);
      DivDiv(c, 2, Pow2(n - 2 - k));
    }
  }

  lemma DivDiv(c: nat, a: nat, b: nat)
    requires a > 0 && b > 0
    ensures c / a / b == c / (a * b)
  {
    var q := c / a / b;
    var r := c / a % b;
    var s := c % a;
    assert c / a == q * b + r;
    assert c == a * (q * b + r) + s;
    assert c == q * (a * b) + (a * r + s);
    assert a * r + s < a * b by {
      assert a * r <= a * (b - 1);
    }
    ModUnique(c, a * b, q, a * r + s);
  }

  /** The eight cells of one byte, most significant first (one step of the `bs_fill_bit` loop). */
  function UnpackByte(c: Byte): (cells: seq<Bit>)
    ensures |cells| == 8
  {
    BitsOf(c, 8)
  }

  /** The byte eight cells make (one step of the `bs_flush_bit` loop). */
  function PackByte(cells: seq<Bit>): (c: Byte)
    requires |cells| == 8
  {
    PackBitsBound(cells);
    PackBits(cells)
  }

  /** A byte sequence as cells. */
  function Unpack(bytes: seq<Byte>): (cells: seq<Bit>)
    ensures |cells| == 8 * |bytes|
  {
    if bytes == [] then [] else Unpack(bytes[..|bytes| - 1]) + UnpackByte(bytes[|bytes| - 1])
  }

  /** A whole number of bytes' worth of cells as bytes. */
  function Pack(cells: seq<Bit>): (bytes: seq<Byte>)
    requires |cells| % 8 == 0
    ensures 8 * |bytes| == |cells|
  {
    if cells == [] then [] else Pack(cells[..|cells| - 8]) + [PackByte(cells[|cells| - 8..])]
  }

  /** Below a byte boundary, the next boundary is eight cells on. */
  lemma NextByte(p: nat, end: nat)
    requires p % 8 == 0 && end % 8 == 0 && p < end
    ensures p + 8 <= end && (p + 8) % 8 == 0
  {
    assert p == 8 * (p / 8) && end == 8 * (end / 8);
    ModUnique(p + 8, 8, p / 8 + 1, 0);
  }

  /** Packing eight more cells appends one byte. */
  lemma PackSnoc(cells: seq<Bit>, wp: nat)
    requires wp % 8 == 0 && wp + 8 <= |cells|
    ensures Pack(cells[..wp + 8]) == Pack(cells[..wp]) + [PackByte(cells[wp..wp + 8])]
  {
    assert cells[..wp + 8][..wp] == cells[..wp];
    assert cells[..wp + 8][wp..] == cells[wp..wp + 8];
  }

  lemma {:induction false} UnpackAppend(a: seq<Byte>, b: seq<Byte>)
    ensures Unpack(a + b) == Unpack(a) + Unpack(b)
    decreases |b|
  {
    if b == [] {
      assert a + b == a;
    } else {
      var b', last := b[..|b| - 1], b[|b| - 1];
      assert (a + b)[..|a + b| - 1] == a + b' && (a + b)[|a + b| - 1] == last;
      assert Unpack(a + b) == Unpack(a + b') + UnpackByte(last);
      assert Unpack(b) == Unpack(b') + UnpackByte(last);
      UnpackAppend(a, b');
      AppendAssoc(Unpack(a), Unpack(b'), UnpackByte(last));
    }
  }

  /** Unpacking inverts packing. */
  lemma {:induction false} UnpackPack(cells: seq<Bit>)
    requires |cells| % 8 == 0
    ensures Unpack(Pack(cells)) == cells
    decreases |cells|
  {
    if cells != [] {
      var n := |cells|;
      UnpackPack(cells[..n - 8]);
      var last := cells[n - 8..];
      BitsOfPack(last);
      var bytes := Pack(cells);
      assert bytes[..|bytes| - 1] == Pack(cells[..n - 8]);
      assert cells == cells[..n - 8] + last;
    }
  }

  /** Packing inverts unpacking. */
  lemma {:induction false} PackUnpack(bytes: seq<Byte>)
    ensures Pack(Unpack(bytes)) == bytes
    decreases |bytes|
  {
    if bytes != [] {
      var n := |bytes|;
      var front, last := bytes[..n - 1], bytes[n - 1];
      var cells := Unpack(bytes);
      assert cells == Unpack(front) + UnpackByte(last);
      var m := |cells| - 8;
      assert cells[..m] == Unpack(front);
      assert cells[m..] == UnpackByte(last);
      calc {
        Pack(cells);
        Pack(cells[..m]) + [PackByte(cells[m..])];
        Pack(Unpack(front)) + [PackByte(UnpackByte(last))];
        { PackUnpack(front); PackByteUnpackByte(last); }
        front + [last];
      }
      assert front + [last] == bytes;
    }
  }

  lemma PackByteUnpackByte(b: Byte)
    ensures PackByte(UnpackByte(b)) == b
  {
    PackBitsOf(b, 8);
    Pow2Byte();
  }

  /** The cells `bs_align` adds: zeros up to the next multiple of eight, none if already aligned. */
  function AlignPadding(count: nat): (pad: seq<Bit>)
    ensures (count + |pad|) % 8 == 0 && |pad| < 8
    ensures forall i :: 0 <= i < |pad| ==> pad[i] == 0
  {
    if count % 8 == 0 then [] else Repeat<Bit>(0, 8 - count % 8)
  }

  /**
   * The output side of a compressed stream: the bit window
   * `bit_window[0 .. bit_p)` and the bytes already packed out of it.
   */
  class BitWriter {
    const window: array<Bit>
    var bitP: nat
    var bytes: seq<Byte>

    ghost predicate Valid()
      reads this
    {
      window.Length == BitWindowCells && bitP <= BitWindowCells
    }

    /** Every cell put so far, flushed or not. */
    ghost function Written(): seq<Bit>
      reads this, window
      requires Valid()
    {
      Unpack(bytes) + window[..bitP]
    }

    constructor ()
      ensures Valid() && Written() == [] && bitP == 0 && fresh(window)
    {
      window := new Bit[BitWindowCells](_ => 0);
      bitP := 0;
      bytes := [];
    }

    /**
     * `bs_flush_bit`: the window must hold whole bytes; each eight cells
     * become one byte, first cell most significant.  The cells written do
     * not change, only where they are kept.
     */
    method FlushBit()
      requires Valid() && bitP % 8 == 0
      modifies this
      ensures Valid() && bitP == 0
      ensures bytes == old(bytes) + Pack(old(window[..bitP]))
      ensures Written() == old(Written())
    {
      ghost var cells := window[..bitP];
      var endp := bitP;
      var wp := 0;
      bitP := 0;
      while wp < endp
        invariant wp % 8 == 0 && wp <= endp && endp == |cells| && endp % 8 == 0
        invariant bitP == 0 && window[..endp] == cells
        invariant bytes == old(bytes) + Pack(cells[..wp])
      {
        NextByte(wp, endp);
        var c := PackWindowByte(wp);
        assert window[wp..wp + 8] == window[..endp][wp..wp + 8];
        PackSnoc(cells, wp);
        AppendAssoc(old(bytes), Pack(cells[..wp]), [c]);
        bytes := bytes + [c];
        wp := wp + 8;
      }
      assert cells[..wp] == cells;
      UnpackPack(cells);
      UnpackAppend(old(bytes), Pack(cells));
    }

    /** The inner loop of `bs_flush_bit`: cells `wp .. wp + 8` of the window shifted into one byte. */
    method PackWindowByte(wp: nat) returns (c: Byte)
      requires Valid() && wp + 8 <= window.Length
      ensures c == PackByte(window[wp..wp + 8])
    {
      ghost var cells := window[wp..wp + 8];
      var acc: nat := 0;
      for k := 0 to 8
        invariant acc == PackBits(cells[..k])
      {
        assert cells[..k + 1][..k] == cells[..k];
        acc := 2 * acc + window[wp + k];
      }
      assert cells[..8] == cells;
      PackBitsBound(cells);
      Pow2Byte();
      c := acc;
    }

    /** `bs_put_bit`: flush a full window, then append the cell. */
    method PutBit(bit: Bit)
      requires Valid()
      modifies this, window
      ensures Valid() && Written() == old(Written()) + [bit]
    {
      if bitP == BitWindowCells {
        FlushBit();
      }
      window[bitP] := bit;
      bitP := bitP + 1;
    }

    /** `bs_align` on an output stream: pad with zero cells to a byte boundary. */
    method Align()
      requires Valid()
      modifies this, window
      ensures Valid() && Written() == old(Written()) + AlignPadding(|old(Written())|)
      ensures |Written()| % 8 == 0
    {
      ghost var before := Written();
      assert |before| % 8 == bitP % 8;
      var d: nat := bitP % 8;
      if d == 0 {
        assert before + AlignPadding(|before|) == before;
        return;
      }
      d := 8 - d;
      ghost var added: nat := 0;
      while d > 0
        invariant Valid() && bitP + d <= BitWindowCells && (bitP + d) % 8 == 0
        invariant Written() == before + Repeat<Bit>(0, added)
        invariant added + d == 8 - |before| % 8 && |before| % 8 != 0
      {
        ghost var prev := window[..bitP];
        PadStep(Unpack(bytes), prev, before, added);
        window[bitP] := 0;
        assert window[..bitP + 1] == prev + [0];
        bitP := bitP + 1;
        d := d - 1;
        added := added + 1;
      }
      assert Repeat<Bit>(0, added) == AlignPadding(|before|);
    }
  }

  /**
   * The input side of a compressed stream: the file's bytes, the position
   * of the next unread byte, and the bit window `bit_window[bit_p .. bit_end)`.
   */
  class BitReader {
    const data: seq<Byte>
    const window: array<Bit>
    var bytePos: nat
    var bitP: nat
    var bitEnd: nat
    /** Every cell handed out so far. */
    ghost var read: seq<Bit>

    ghost predicate Valid()
      reads this, window
    {
      window.Length == BitWindowCells && bitP <= bitEnd <= BitWindowCells &&
      bitEnd % 8 == 0 && bytePos <= |data| &&
      Unpack(data[..bytePos]) == read + window[bitP..bitEnd]
    }

    constructor (data: seq<Byte>)
      ensures Valid() && this.data == data && read == [] && fresh(window)
    {
      this.data := data;
      window := new Bit[BitWindowCells](_ => 0);
      bytePos, bitP, bitEnd := 0, 0, 0;
      read := [];
    }

    /**
     * `bs_fill_bit(bs, 0)` on an exhausted window: no byte left is the
     * unexpected-EOF error of `bs_fill_byte`; otherwise up to sixteen bytes
     * are expanded into the window, most significant bit first.
     */
    method FillBit() returns (r: Result<nat>)
      requires Valid() && bitP == bitEnd
      modifies this, window
      ensures Valid() && read == old(read)
      ensures r.Fail? <==> old(bytePos) == |data|
      ensures r.Fail? ==> r.failure == UnexpectedEof
      ensures r.Ok? ==> bitEnd > bitP && bytePos > old(bytePos)
    {
      var n := |data| - bytePos;
      if n == 0 {
        return Fail(UnexpectedEof);
      }
      n := n * 8;
      var end := if n > BitWindowCells then BitWindowCells else n;
      ghost var start := bytePos;
      assert window[bitP..bitEnd] == [];
      assert Unpack(data[..start]) == read;
      var p := ExpandBytes(bytePos, end);
      assert data[..p] == data[..start] + data[start..p];
      UnpackAppend(data[..start], data[start..p]);
      bitP, bitEnd, bytePos := 0, end, p;
      assert window[bitP..bitEnd] == window[..end];
      r := Ok(n);
    }

    /** The `bs_fill_bit` loop: expand bytes from `start` into the window until `end` cells are filled. */
    method ExpandBytes(start: nat, end: nat) returns (p: nat)
      requires end % 8 == 0 && end <= window.Length && start <= |data| && end <= 8 * (|data| - start)
      modifies window
      ensures 8 * (p - start) == end && start <= p <= |data|
      ensures window[..end] == Unpack(data[start..p])
    {
      p := start;
      var wp := 0;
      while wp < end
        invariant start <= p <= |data| && wp == 8 * (p - start) && wp <= end
        invariant window[..wp] == Unpack(data[start..p])
      {
        var c := data[p];
        ExpandByte(c, wp);
        UnpackSnoc(data[start..p], c);
        assert data[start..p + 1] == data[start..p] + [c];
        assert window[..wp + 8] == window[..wp] + window[wp..wp + 8];
        p := p + 1;
        wp := wp + 8;
      }
    }

    /** One step of the `bs_fill_bit` loop: cell `wp + k` gets `(c & (1 << (7 - k))) != 0`. */
    method ExpandByte(c: Byte, wp: nat)
      requires wp + 8 <= window.Length
      modifies window
      ensures window[..wp] == old(window[..wp])
      ensures window[wp..wp + 8] == UnpackByte(c)
    {
      for k := 0 to 8
        invariant window[..wp] == old(window[..wp])
        invariant window[wp..wp + k] == UnpackByte(c)[..k]
      {
        BitsOfAt(c, 8, k);
        window[wp + k] := (c / Pow2(7 - k)) % 2;
      }
    }

    /** `bs_get_bit`: the next cell of the stream, or the unexpected-EOF error when the file is used up. */
    method GetBit() returns (r: Result<Bit>)
      requires Valid()
      modifies this, window
      ensures Valid()
      ensures r.Ok? ==> read == old(read) + [r.value] && read <= Unpack(data)
      ensures r.Fail? ==> r.failure == UnexpectedEof && read == Unpack(data)
    {
      if bitP == bitEnd {
        var filled := FillBit();
        if filled.Fail? {
          assert data[..bytePos] == data;
          return Fail(UnexpectedEof);
        }
      }
      var bit := window[bitP];
      assert window[bitP..bitEnd] == [bit] + window[bitP + 1..bitEnd];
      AppendAssoc(read, [bit], window[bitP + 1..bitEnd]);
      bitP := bitP + 1;
      read := read + [bit];
      PrefixUnpack(data, bytePos);
      r := Ok(bit);
    }

    /** `bs_align` on an input stream: skip the rest of the current byte. */
    method Align()
      requires Valid()
      modifies this, window
      ensures Valid() && |read| % 8 == 0
      ensures old(read) <= read <= Unpack(data) && |read| - |old(read)| < 8
    {
      PrefixUnpack(data, bytePos);
      var d: nat := bitP % 8;
      if d == 0 {
        AlignedCount(|read|, bytePos, bitEnd, bitP);
        return;
      }
      d := 8 - d;
      AlignWithin(bitP, bitEnd);
      ghost var cells := window[..];
      ghost var from := bitP;
      ZeroCells(bitP, bitP + d);
      SkipCells(Unpack(data[..bytePos]), read, cells, window[..], from, from + d, bitEnd);
      bitP := bitP + d;
      read := read + cells[from..bitP];
      AlignedCount(|read|, bytePos, bitEnd, bitP);
    }

    /** The `bs_align` loop: cells `from .. to` of the window are set to zero, the later ones are kept. */
    method ZeroCells(from: nat, to: nat)
      requires from <= to <= window.Length
      modifies window
      ensures window[to..] == old(window[to..])
    {
      var p := from;
      while p < to
        invariant from <= p <= to
        invariant window[to..] == old(window[to..])
      {
        window[p] := 0;
        p := p + 1;
      }
    }
  }

  /**
   * The input side of a plain stream (compression): the file's bytes, the
   * position of the next unread byte, and the CRC register of every byte
   * handed out so far.
   */
  class ByteReader {
    const data: seq<Byte>
    const table: CrcTable
    var pos: nat
    var crc: bv32

    ghost predicate Valid()
      reads this
    {
      pos <= |data| && crc == CrcOf(table, CrcInit, data[..pos])
    }

    /** `bs_open_input` followed by `bs_crc_init`. */
    constructor (data: seq<Byte>, table: CrcTable)
      ensures Valid() && this.data == data && this.table == table && pos == 0
    {
      this.data, this.table := data, table;
      pos, crc := 0, CrcInit;
    }

    /**
     * `bs_get_byte`: the next byte, fed into the CRC, or `None` (the C
     * function's -1) once the file is used up.
     */
    method GetByte() returns (r: Option<Byte>)
      requires Valid()
      modifies this
      ensures Valid()
      ensures old(pos) < |data| ==> r == Some(data[old(pos)]) && pos == old(pos) + 1
      ensures old(pos) == |data| ==> r == None && pos == old(pos)
    {
      if pos == |data| {
        return None;
      }
      var c := data[pos];
      CrcOfSnoc(table, CrcInit, data[..pos], c);
      assert data[..pos + 1] == data[..pos] + [c];
      crc := UpdateCrc(table, crc, c);
      pos := pos + 1;
      r := Some(c);
    }
  }

  /**
   * The output side of a plain stream (decompression): the bytes put so
   * far and the CRC register over them.
   */
  class ByteWriter {
    const table: CrcTable
    var out: seq<Byte>
    var crc: bv32

    ghost predicate Valid()
      reads this
    {
      crc == CrcOf(table, CrcInit, out)
    }

    /** `bs_open_output` followed by `bs_crc_init`. */
    constructor (table: CrcTable)
      ensures Valid() && this.table == table && out == []
    {
      this.table := table;
      out, crc := [], CrcInit;
    }

    /** `bs_put_byte`: append the byte and feed it into the CRC. */
    method PutByte(c: Byte)
      requires Valid()
      modifies this
      ensures Valid() && out == old(out) + [c]
    {
      CrcOfSnoc(table, CrcInit, out, c);
      crc := UpdateCrc(table, crc, c);
      out := out + [c];
    }
  }

  /** One more zero cell of padding. */
  lemma PadStep(flushed: seq<Bit>, prev: seq<Bit>, before: seq<Bit>, added: nat)
    requires flushed + prev == before + Repeat<Bit>(0, added)
    ensures flushed + (prev + [0]) == before + Repeat<Bit>(0, added + 1)
  {
    assert Repeat<Bit>(0, added + 1) == Repeat<Bit>(0, added) + [0];
    AppendAssoc(flushed, prev, [0]);
    AppendAssoc(before, Repeat<Bit>(0, added), [0]);
  }

  /** A cell off a byte boundary, below a boundary `end`, reaches the next boundary within `end`. */
  lemma AlignWithin(p: nat, end: nat)
    requires p % 8 != 0 && end % 8 == 0 && p <= end
    ensures p + (8 - p % 8) <= end && (p + (8 - p % 8)) % 8 == 0
  {
    assert end == 8 * (end / 8) && p == 8 * (p / 8) + p % 8;
    ModUnique(p + (8 - p % 8), 8, p / 8 + 1, 0);
  }

  /**
   * Cells `from .. to` of the window moved from the unread part to the read
   * part; `w` is the window afterwards, unchanged from `to` on.
   */
  lemma SkipCells(prefix: seq<Bit>, read: seq<Bit>, cells: seq<Bit>, w: seq<Bit>, from: nat, to: nat, end: nat)
    requires from <= to <= end <= |cells| == |w| && prefix == read + cells[from..end]
    requires w[to..] == cells[to..]
    ensures prefix == (read + cells[from..to]) + w[to..end]
    ensures read <= read + cells[from..to] <= prefix
    ensures |read + cells[from..to]| == |prefix| - (end - to)
  {
    assert w[to..end] == w[to..][..end - to] == cells[to..][..end - to] == cells[to..end];
    assert cells[from..end] == cells[from..to] + cells[to..end];
    AppendAssoc(read, cells[from..to], cells[to..end]);
  }

  /** With the window at a byte boundary, a whole number of bytes has been read. */
  lemma AlignedCount(n: nat, bytes: nat, end: nat, p: nat)
    requires end % 8 == 0 && p % 8 == 0 && n + end - p == 8 * bytes
    ensures n % 8 == 0
  {
    assert end == 8 * (end / 8) && p == 8 * (p / 8);
    ModUnique(n, 8, bytes - end / 8 + p / 8, 0);
  }

  lemma UnpackSnoc(a: seq<Byte>, c: Byte)
    ensures Unpack(a + [c]) == Unpack(a) + UnpackByte(c)
  {
    assert (a + [c])[..|a|] == a;
  }

  lemma {:induction false} PrefixUnpack(data: seq<Byte>, k: nat)
    requires k <= |data|
    ensures Unpack(data[..k]) <= Unpack(data)
  {
    assert data == data[..k] + data[k..];
    UnpackAppend(data[..k], data[k..]);
  }
}
