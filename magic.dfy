/**
 * The four-byte header of a compressed stream: `write_magic` in
 * compress.c and `read_magic` in decompress.c.  Both go through the bit
 * stream one cell at a time, most significant bit of each byte first.
 * The bytes are C `char`s, which are signed here, so a header byte at or
 * above 128 reads back negative.
 */
module Magic {
  import opened Common
  import opened BitStream

  const CharB: Byte := 66   // 'B'
  const CharZ: Byte := 90   // 'Z'
  const Char0: Byte := 48   // '0'
  const Char1: Byte := 49   // '1'
  const CharM: Byte := 77   // 'M'

  /** The value a `char` holding byte `b` has. */
  function SignedChar(b: Byte): (c: int)
    ensures -128 <= c < 128 && (c < 0 <==> b >= 128) && (c + 256) % 256 == b
  {
    if b < 128 then b else b - 256
  }

  /**
   * The header `write_magic(clevel, nthreads)` writes: 'B', 'Z', then
   * '0', or 'M' + nthreads when threads are asked for, then '0' + clevel;
   * each is stored into a `char`, so only its low eight bits survive.
   */
  function MagicBytes(clevel: nat, nthreads: nat): (m: seq<Byte>)
    ensures |m| == 4
  {
    [CharB, CharZ, if nthreads > 0 then (CharM + nthreads) % 256 else Char0, (clevel + Char0) % 256]
  }

  /**
   * The verdict of `read_magic` on the four bytes it reads: the level,
   * or `None` ("invalid magic").  The last byte is compared as a signed
   * `char` against '1'.
   */
  function MagicLevel(m: seq<Byte>): (r: Option<nat>)
    requires |m| == 4
    ensures r.Some? ==> 1 <= r.value <= 79
  {
    if m[0] != CharB || m[1] != CharZ || m[2] != Char0 || SignedChar(m[3]) < Char1 then None
    else Some(SignedChar(m[3]) - Char0)
  }

  /** Every level from 1 to 79 survives the trip through the header. */
  lemma MagicRoundTrip(clevel: nat)
    requires 1 <= clevel <= 79
    ensures MagicLevel(MagicBytes(clevel, 0)) == Some(clevel)
  {
  }

  /** A header `read_magic` accepts is exactly the one written for its level without threads. */
  lemma MagicLevelWritten(m: seq<Byte>)
    requires |m| == 4 && MagicLevel(m).Some?
    ensures m == MagicBytes(MagicLevel(m).value, 0)
  {
  }

  /**
   * Which headers `read_magic` accepts, over every level and thread count:
   * the level must be 1..79 modulo 256, and the thread marker 'M' + nthreads
   * is refused unless it wraps round to '0' (nthreads = 227 modulo 256).
   */
  lemma MagicAccepted(clevel: nat, nthreads: nat)
    ensures MagicLevel(MagicBytes(clevel, nthreads)).Some? <==>
      (nthreads == 0 || nthreads % 256 == 227) && 1 <= clevel % 256 <= 79
  {
    var m := MagicBytes(clevel, nthreads);
    assert m[3] == (clevel % 256 + 48) % 256;
    if nthreads > 0 {
      assert m[2] == (nthreads % 256 + 77) % 256;
    }
  }

  /**
   * `write_magic`: each header byte as eight cells, bit 7 first (the
   * source tests bit 7 and shifts the `char` left; the cell sent at step
   * `o` is bit `7 - o` of the byte).
   */
  method WriteMagic(w: BitWriter, clevel: nat, nthreads: nat)
    requires w.Valid()
    modifies w, w.window
    ensures w.Valid() && w.Written() == old(w.Written()) + Unpack(MagicBytes(clevel, nthreads))
  {
    var magic := [CharB, CharZ, if nthreads > 0 then (CharM + nthreads) % 256 else Char0, (clevel + Char0) % 256];
    PutBytesCells(w, magic);
  }

  /** The outer loop of `write_magic`: each byte of `magic` in turn. */
  method PutBytesCells(w: BitWriter, magic: seq<Byte>)
    requires w.Valid()
    modifies w, w.window
    ensures w.Valid() && w.Written() == old(w.Written()) + Unpack(magic)
  {
    ghost var w0 := w.Written();
    for i := 0 to |magic|
      invariant w.Valid() && w.Written() == w0 + Unpack(magic[..i])
    {
      var c := magic[i];
      PutByteCells(w, c);
      assert magic[..i + 1] == magic[..i] + [c];
      UnpackSnoc(magic[..i], c);
    }
    assert magic[..|magic|] == magic;
  }

  /** The inner loop of `write_magic`: the eight cells of `c`, bit 7 first. */
  method PutByteCells(w: BitWriter, c: Byte)
    requires w.Valid()
    modifies w, w.window
    ensures w.Valid() && w.Written() == old(w.Written()) + UnpackByte(c)
  {
    ghost var w1 := w.Written();
    for o := 0 to 8
      invariant w.Valid() && w.Written() == w1 + UnpackByte(c)[..o]
    {
      BitsOfAt(c, 8, o);
      w.PutBit((c / Pow2(7 - o)) % 2);
      assert UnpackByte(c)[..o + 1] == UnpackByte(c)[..o] + [UnpackByte(c)[o]];
    }
    assert UnpackByte(c)[..8] == UnpackByte(c);
  }

  /**
   * `read_magic`: 32 cells, eight to a byte (`magic[i] <<= 1; magic[i] |= bit`),
   * then the verdict of `MagicLevel`.  Running out of input is the
   * unexpected-end error of `bs_fill_byte`.
   */
  method ReadMagic(rd: BitReader) returns (r: Result<nat>)
    requires rd.Valid()
    modifies rd, rd.window
    ensures rd.Valid()
    ensures r.Ok? ==> (|rd.read| == |old(rd.read)| + 32 &&
                       MagicLevel(Pack(rd.read[|old(rd.read)|..])) == Some(r.value))
    ensures r.Fail? ==> ((r.failure == InvalidMagic && |rd.read| == |old(rd.read)| + 32 &&
                          MagicLevel(Pack(rd.read[|old(rd.read)|..])) == None) ||
                         r.failure == UnexpectedEof)
  {
    ghost var r0 := rd.read;
    var magic: seq<Byte> := [];
    for i := 0 to 4
      invariant rd.Valid() && |magic| == i && rd.read == r0 + Unpack(magic)
    {
      var c :- GetByteCells(rd);
      UnpackSnoc(magic, c);
      AppendAssoc(r0, Unpack(magic), UnpackByte(c));
      magic := magic + [c];
    }
    assert rd.read[|r0|..] == Unpack(magic);
    PackUnpack(magic);
    if magic[0] != CharB || magic[1] != CharZ || magic[2] != Char0 || SignedChar(magic[3]) < Char1 {
      return Fail(InvalidMagic);
    }
    r := Ok(SignedChar(magic[3]) - Char0);
  }

  /** The inner loop of `read_magic`: eight cells shifted into one byte, first cell most significant. */
  method GetByteCells(rd: BitReader) returns (r: Result<Byte>)
    requires rd.Valid()
    modifies rd, rd.window
    ensures rd.Valid()
    ensures r.Ok? ==> rd.read == old(rd.read) + UnpackByte(r.value)
    ensures r.Fail? ==> r.failure == UnexpectedEof
  {
    ghost var r0 := rd.read;
    var c: nat := 0;
    ghost var cells: seq<Bit> := [];
    for o := 0 to 8
      invariant rd.Valid() && |cells| == o && c == PackBits(cells)
      invariant rd.read == r0 + cells
    {
      var bit :- rd.GetBit();
      assert (cells + [bit])[..o] == cells;
      AppendAssoc(r0, cells, [bit]);
      c := 2 * c + bit;
      cells := cells + [bit];
    }
    PackBitsBound(cells);
    Pow2Byte();
    BitsOfPack(cells);
    r := Ok(c);
  }
}
