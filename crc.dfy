/**
 * The table-driven CRC-32 of crc.h: each byte shifts the register left by
 * eight and folds in one table entry chosen by the register's top byte
 * and the byte itself.  The register starts at all ones and the stream
 * stores its complement.
 */
module Crc {
  import opened Common

  /** The 256 entries of `crc32Table` (their values live in crc.c, which is not part of this model). */
  type CrcTable = t: seq<bv32> | |t| == 256 witness seq(256, _ => 0)

  /** `bs_crc_init`: the register before the first byte. */
  const CrcInit: bv32 := 0xFFFF_FFFF

  /** The table slot `(crc >> 24) ^ cha` picked by one update: always one of the 256 entries. */
  function TableIndex(crc: bv32, b: Byte): (k: nat)
    ensures k < 256
  {
    ((crc >> 24) ^ (b as bv32)) as nat
  }

  /** `updateCRC(crc, cha)`. */
  function UpdateCrc(table: CrcTable, crc: bv32, b: Byte): bv32
  {
    (crc << 8) ^ table[TableIndex(crc, b)]
  }

  /** The register after feeding the bytes of `s` in order, starting from `crc`. */
  function CrcOf(table: CrcTable, crc: bv32, s: seq<Byte>): bv32
    decreases |s|
  {
    if s == [] then crc else CrcOf(table, UpdateCrc(table, crc, s[0]), s[1..])
  }

  /** Feeding `s` then `t` is feeding `s + t`: the register is all the state there is. */
  lemma {:induction false} CrcOfAppend(table: CrcTable, crc: bv32, s: seq<Byte>, t: seq<Byte>)
    ensures CrcOf(table, crc, s + t) == CrcOf(table, CrcOf(table, crc, s), t)
    decreases |s|
  {
    if s == [] {
      assert s + t == t;
    } else {
      assert (s + t)[1..] == s[1..] + t;
      CrcOfAppend(table, UpdateCrc(table, crc, s[0]), s[1..], t);
    }
  }

  /** One more byte is one more update. */
  lemma CrcOfSnoc(table: CrcTable, crc: bv32, s: seq<Byte>, b: Byte)
    ensures CrcOf(table, crc, s + [b]) == UpdateCrc(table, CrcOf(table, crc, s), b)
  {
    CrcOfAppend(table, crc, s, [b]);
  }

  /** The value written after the last block: the complement of the register. */
  function StoredCrc(crc: bv32): bv32
  {
    !crc
  }

  /** The decompressor's test `~getUInt32() != output_bs.crc`, negated: the check passes. */
  predicate CrcMatches(stored: bv32, computed: bv32)
  {
    !stored == computed
  }

  /** The check passes exactly when the stored word is the complement the compressor wrote. */
  lemma CrcMatchesIff(stored: bv32, computed: bv32)
    ensures CrcMatches(stored, computed) <==> stored == StoredCrc(computed)
  {
    assert CrcMatches(stored, computed) ==> stored == !(!stored);
  }
}
