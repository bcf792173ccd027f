# bzip 0.21 block compressor, modelled in Dafny

This project models the core of bzip 0.21, Julian Seward's block-sorting
compressor. The compressor works on one block at a time:

1. It reads the input as run-length pairs: runs of 4 to 255 equal bytes become
   four copies plus a count byte.
2. It "spots" the block, adding one to the first byte of a few
   pseudo-random positions so that the sort never meets very long equal
   stretches.
3. It sorts every rotation of the block in the Burrows–Wheeler manner. The
   sort is a two-byte radix sort into buckets, then a quicksort with an
   insertion sort, or a Shell sort for small blocks.
4. It move-to-front codes the last column. Runs of rank 0 become
   RUNA/RUNB digits.
5. It codes every symbol with an adaptive multi-symbol arithmetic coder
   that has 26-bit precision. The symbols are spread over a basis model,
   seven rank-class models and a uniform "bogus" model.

The decompressor undoes each step in reverse order. It checks the magic
number, decodes the arithmetic code, undoes the move-to-front coding,
inverts the block sort from the last column by counting, un-spots the block
and expands the runs. It compares the CRC-32 of the output with the one
stored in the stream.

Each part of the program is a Dafny module:

- `Common` holds shared definitions.
- `Crc` models the CRC update (src/crc.h).
- `Words` models the four-byte words the sort works on (src/compress.h).
- `BitStream` models the bit and byte streams (src/main.c).
- `Magic` models the magic number.
- `Models` models the frequency models (src/models.h, src/models.c).
- `Arith` models the arithmetic encoder and decoder.
- `Mtf` and `MtfDecode` model move-to-front coding and decoding.
- `Counting` and `Unbwt` model the inverse sort.
- `Bwt` proves that the inverse sort undoes the block sort: walking back over
  the last column of any sorted order of the rotations, from the row of
  rotation 0, rebuilds the block, ties between equal rotations included.
- `Spot` models spotting.
- `Rle` models run-length coding and expansion.
- `Sort`, `Qsort` and `BlockSort` model the block sort.
- `Names` models the command-line helpers that derive file names and parse
  numbers.
- `OldBzip` models the earlier single-file version, old/bzip.c, where it
  differs from the current one.

Code that updates state in place is modelled as classes and methods on
arrays:

- the coder registers;
- the model frequency tables;
- the bit windows;
- the word and pointer arrays of the sort;
- the move-to-front list;
- the decoded block.

Each of these methods is proved against a functional specification. Pure
computations are functions, and the properties that relate several
operations are lemmas:

- each arithmetic decoding step picks the encoded symbol and narrows as the
  encoder did, when the code value lies in that symbol's interval;
- the move-to-front decoding inverts the move-to-front coding, on the
  sequence of symbols sent through the models;
- the walk back over the last column undoes the block sort, in whatever order
  the sort leaves equal rotations;
- run expansion inverts run coding;
- un-spotting inverts spotting;
- the sort yields a sorted permutation;
- the move-to-front coding is injective.

## Model

| member | source | states |
|---|---|---|
| Crc.TableIndex | src/crc.h:17-18 | the table index taken by one CRC step is below 256 |
| Crc.CrcOfAppend | src/crc.h:17-18 | the CRC of a concatenation is the CRC of the second part started from the CRC of the first |
| Crc.CrcOfSnoc | src/compress.c:185 | feeding one more byte is one `updateCRC` step on the running CRC |
| Crc.CrcMatchesIff | src/decompress.c:78-79 | the stored and computed CRCs match exactly when the stored word is the finalised computed CRC |
| Words.GetAll | src/compress.h:30-49 | the 32-bit view of a word is below 2^32 |
| Words.GetFirst16 | src/compress.h:30-49 | the high 16-bit view is below 2^16 |
| Words.GetRest16 | src/compress.h:30-49 | the low 16-bit view is below 2^16 |
| Words.WordViews | src/compress.h:30-49 | the 32-bit view is the high half times 2^16 plus the low half, and its top byte is the word's first byte on either byte order |
| Words.GetAllOrder | src/compress.h:30-49 | comparing 32-bit views is the lexicographic order of the four bytes, and equal views mean equal words |
| Words.NormalizeLoCircular | src/compress.h:27 | NORMALIZELO is reduction modulo the block length for indices down to minus the length |
| Words.NormalizeLoTooLow | src/compress.h:27 | below minus the length, NORMALIZELO stays negative, so it adds only once |
| Words.NormalizeHiCircular | src/compress.h:28 | NORMALIZEHI is reduction modulo the block length for indices below twice the length |
| Words.NormalizeHiTooHigh | src/compress.h:28 | at twice the length or more, NORMALIZEHI leaves the index out of range |
| Words.SetFirst | src/compress.h:59 | only the first byte of the chosen word changes |
| Words.SetSecond | src/compress.h:60 | only the second byte of the chosen word changes |
| Words.SetThird | src/compress.h:61 | only the third byte of the chosen word changes |
| Words.SetFourth | src/compress.h:62 | only the fourth byte of the chosen word changes |
| Words.SetRest16 | src/compress.h:56 | the low half of the chosen word becomes the value, its bucket key GETFIRST16 and its first byte are kept, and no other word changes |
| Words.Swap | src/compress.h:75-83 | the two entries are exchanged, and the pointer array stays a permutation of itself |
| Magic.MagicBytes | src/compress.c:119-122 | the magic number is four bytes |
| Magic.MagicLevel | src/decompress.c:104-107 | an accepted magic number yields a level from 1 to 79 |
| Magic.MagicRoundTrip | src/decompress.c:104-107 | the reader recovers every level the writer can write for a single-threaded stream |
| Magic.MagicLevelWritten | src/decompress.c:104-107 | every accepted magic number is exactly the one the writer produces for its level |
| Magic.MagicAccepted | src/compress.c:121 | a written magic number is accepted iff its thread byte is '0' (no threads, or a count whose low byte is 227 so that 'M' + nthreads wraps to '0') and the level's low byte is 1..79, with the signed-char comparison |
| Magic.SignedChar | src/decompress.c:104-107 | the signed-char value of a byte: negative exactly for bytes from 128, and congruent to the byte modulo 256 |
| Magic.WriteMagic | src/compress.c:108-129 | the bits written are the four magic bytes, each most significant bit first |
| Magic.PutBytesCells | src/compress.c:123-128 | the bits written are the given bytes, each most significant bit first |
| Magic.PutByteCells | src/compress.c:124-128 | the bits written are the eight bits of the byte, most significant first |
| Magic.ReadMagic | src/decompress.c:89-108 | reads 32 bits and returns the level iff those bytes form an accepted magic number; otherwise it fails with InvalidMagic, or with UnexpectedEof at end of input |
| Magic.GetByteCells | src/decompress.c:96-101 | reads eight bits and returns the byte they spell, or fails at end of input |
| BitStream.BitsOfAt | src/main.c:181-189 | bit k of the n-bit expansion of c is bit n-1-k of c, so the most significant bit comes first |
| BitStream.PackBitsOf | src/main.c:216-241 | packing the n-bit expansion of c gives c modulo 2^n |
| BitStream.BitsOfPack | src/main.c:176-190 | expanding the packed value of a bit sequence gives the sequence back |
| BitStream.UnpackPack | src/main.c:216-241 | unpacking the bytes packed from whole bytes of bits gives those bits back |
| BitStream.PackUnpack | src/main.c:176-190 | packing the bits unpacked from bytes gives the bytes back |
| BitStream.AlignPadding | src/main.c:486-495 | the padding is fewer than eight zero bits and brings the count to a multiple of eight |
| BitStream.BitWriter.FlushBit | src/main.c:197-244 | the whole bytes of the window are appended to the output, the window empties, and the bit sequence written so far is unchanged |
| BitStream.BitWriter.PackWindowByte | src/main.c:216-241 | returns the byte whose bits, most significant first, are the eight window cells |
| BitStream.BitWriter.PutBit | src/compress.c:189-199 | the bit sequence written grows by exactly the given bit, and the window is flushed when full |
| BitStream.BitWriter.Align | src/main.c:486-495 | appends the zero padding to the next byte boundary |
| BitStream.BitReader.FillBit | src/main.c:156-195 | fails with UnexpectedEof exactly when no input byte is left; otherwise it expands at least one more byte into the window |
| BitStream.BitReader.ExpandBytes | src/main.c:176-190 | the window holds the bits of the bytes consumed, most significant first |
| BitStream.BitReader.ExpandByte | src/main.c:181-189 | eight cells receive the bits of the byte, and the cells before them are kept |
| BitStream.BitReader.GetBit | src/decompress.c:126-136 | the bits read so far grow by the returned bit and remain a prefix of the input's bits; at end of input it fails with UnexpectedEof |
| BitStream.BitReader.Align | src/main.c:486-495 | skips fewer than eight bits, up to the next byte boundary of the input |
| BitStream.BitReader.ZeroCells | src/main.c:493-494 | cells past the cleared range keep their values |
| BitStream.ByteReader.constructor | src/main.c:481-484 | a fresh reader starts at the first input byte with the initial CRC |
| BitStream.ByteReader.GetByte | src/compress.c:174-187 | returns the next input byte and advances, or returns end of file and does not move; the CRC register stays the CRC of every byte handed out |
| BitStream.ByteWriter.constructor | src/main.c:481-484 | a fresh writer has written nothing, and its CRC register is the initial value |
| BitStream.ByteWriter.PutByte | src/decompress.c:138-147 | the output grows by exactly the byte, and the CRC register stays the CRC of everything written |
| Models.Halved | src/models.h:91-102 | halving keeps the table length, never raises a count, and keeps every positive count positive |
| Models.SumHalved | src/models.h:95-100 | the halved total is at least half the old one, and at most half the old one plus half the number of symbols |
| Models.CumMono | src/decompress.c:166-175 | cumulative frequencies never decrease along the table |
| Models.SymbolFor | src/decompress.c:166-175 | the symbol found is the one whose interval of cumulative frequencies contains the target |
| Models.SymbolForUnique | src/decompress.c:166-175 | any symbol whose interval contains the target is the one found, so the search is exact |
| Models.SumBump | src/models.h:108-109 | adding to one count adds the same amount to the total |
| Models.UpdateKeepsPositive | src/models.h:98-99 | an update leaves every count positive, so every symbol stays codable |
| Models.UpdateKeepsBound | src/models.h:104-112 | an update keeps the total within noExceed |
| Models.BogusStaysUniform | src/models.c:25 | the bogus model (increment 0) stays uniform, with every count 1, whatever it codes |
| Models.ModelTableSound | src/models.c:26-36 | every table entry has a positive increment, a total limit of 1000 that leaves room for one more increment, and the basis model codes up to EOB while class model c codes 2^c offsets |
| Models.ReadyAfterUpdate | src/models.h:104-112 | a model fit for coding stays fit after an update |
| Models.ReadyAfterInit | src/models.c:318-343 | every model, and the bogus model, is fit for coding right after initialisation |
| Models.SumRepeat | src/models.c:340 | a table of n equal counts x totals x*n |
| Models.Model.CumFreq | src/compress.c:260-264 | returns the cumulative frequency below the symbol, and its interval lies within the total |
| Models.Model.FindSymbol | src/decompress.c:166-175 | returns the symbol whose interval holds the target, and the top of that interval |
| Models.Model.Init | src/models.c:336-343 | every count becomes the increment, and the total follows |
| Models.Model.Scale | src/models.h:91-102 | the counts become their halved values, and the total follows |
| Models.Model.Update | src/models.h:104-112 | the counts become the updated frequencies: the symbol's count grows by the increment, with halving once the total would pass noExceed |
| Models.InitBogusModel | src/models.c:326-333 | the bogus model becomes 256 counts of 1 |
| Models.ModelSet.InitModels | src/models.c:318-324 | every model of the table is reset to its initial counts, and the bogus model is untouched |
| Models.RankClass | src/models.c:39-297 | a rank 2..255 lies in exactly one class c from 1 to 7, with 2^c <= rank < 2^(c+1) |
| Models.MtfTablesRoundTrip | src/models.c:39-297 | the encode table sends each rank to its class symbol and class model with a codable offset, and the decode table gives the rank back from them |
| Models.MtfTablesRoundTripBack | src/decompress.c:210-216 | every class symbol and offset the decoder can receive comes from exactly one rank |
| Arith.NarrowRange | src/compress.c:266-273 | the narrowed range never exceeds the old one |
| Arith.RenormStep | src/compress.c:233-245 | one renormalisation step doubles the range and keeps the interval within 2^26 |
| Arith.Renorm | src/compress.c:231-246 | renormalisation restores the coder's bounds: a range above a quarter and an interval within 2^26 |
| Arith.RenormRange | src/decompress.c:185-190 | the renormalised range lies above a quarter and at most a half |
| Arith.RenormRangeAgrees | src/decompress.c:185-190 | the decoder's range doubling ends with the same range as the encoder's renormalisation |
| Arith.NarrowInside | src/compress.c:266-273 | the narrowed interval is non-empty and nested in the old one |
| Arith.Narrowed | src/compress.c:266-273 | narrowing to a symbol's interval gives a non-empty sub-interval of the current one |
| Arith.Coded | src/compress.c:248-279 | coding a symbol keeps the encoder's bounds |
| Arith.CodedRun | src/compress.c:281-287 | coding a sequence of symbols keeps the bounds, and the empty sequence changes nothing |
| Arith.WordBytes | src/compress.c:281-287 | a 32-bit word is sent as four bytes, most significant first |
| Arith.WordOf | src/decompress.c:199-205 | four bytes rebuild a 32-bit word |
| Arith.WordOfWordBytes | src/decompress.c:199-205 | rebuilding the word from its four bytes gives the word back |
| Arith.WordBytesWordOf | src/decompress.c:199-205 | the four bytes of a rebuilt word are the original bytes |
| Arith.Encoder.constructor | src/compress.c:131-136 | a fresh encoder has low 0, a range of half of 2^26, nothing outstanding and no output |
| Arith.Encoder.BitPlusFollow | src/compress.c:224-229 | writes the bit followed by the outstanding opposite bits, and clears the outstanding count |
| Arith.Encoder.Renormalize | src/compress.c:231-246 | registers and output move exactly as the renormalisation function says, ending within the coder's bounds |
| Arith.Encoder.RenormalizeOnce | src/compress.c:233-245 | one pass of the loop: registers and output follow one renormalisation step |
| Arith.Encoder.PutSymbol | src/compress.c:248-279 | the registers and the written bits become those of coding the symbol with the model's old counts, the model is updated, and the symbol joins the sent history |
| Arith.Encoder.Narrow | src/compress.c:266-276 | narrowing to the symbol's interval, then renormalising |
| Arith.Encoder.PutUInt32 | src/compress.c:281-287 | the four bytes of the word are coded in the bogus model, whose counts do not change |
| Arith.Encoder.PutBogusSymbols | src/compress.c:283-286 | each byte is coded in turn in the bogus model |
| Arith.Encoder.DoneEncoding | src/compress.c:138-144 | flushes the 26 bits of low: the top one with the outstanding bits after it, then the other 25 |
| Arith.DecodeTarget | src/decompress.c:161-164 | the decoder's target is below the model total |
| Arith.DecodeStep | src/decompress.c:158-183 | the symbol decoded is the one whose interval holds the target, and the new range is positive and no wider |
| Arith.DecodeInvertsEncode | src/decompress.c:152-197 | when the code value lies in the interval the encoder chose for s, the decoder picks s and narrows the range and the value exactly as the encoder did |
| Arith.DecodeStepBelow | src/decompress.c:177-183 | a code value inside the range stays inside the narrowed range |
| Arith.FeedBitsBelow | src/decompress.c:185-190 | shifting in bits while the range doubles keeps the code value below the range |
| Arith.Decoder.StartDecoding | src/decompress.c:110-121 | reads 26 bits into the code value and sets the range to half of 2^26, or fails at end of input |
| Arith.Decoder.Renormalize | src/decompress.c:185-190 | the range doubles up to above a quarter, shifting one input bit into the code value per doubling |
| Arith.Decoder.DecodeSymbol | src/decompress.c:152-192 | returns the symbol of one decoding step under the unchanged model, with the range and code value narrowed and renormalised as the encoder did, the bits read counted by the doublings, and the code value kept below the range |
| Arith.Decoder.GetSymbol | src/decompress.c:152-197 | returns the decoded symbol, narrows and renormalises as the encoder did, updates the model, and keeps the code value below the range |
| Arith.Decoder.GetUInt32 | src/decompress.c:199-205 | decodes four bogus-model bytes and returns the word they spell |
| Arith.Decoder.Decide | src/decompress.c:158-183 | the decoded symbol and the new range and code value are those of one decoding step |
| Arith.Decoder.Target | src/decompress.c:161-164 | returns the target frequency of the code value |
| Arith.Decoder.NarrowTo | src/decompress.c:175-183 | the range and the code value are narrowed to the decoded symbol's interval |
| Mtf.ZeroRun | src/compress.c:300-319 | a run of zero ranks is sent as a non-empty string of RUNA/RUNB digits |
| Mtf.RunLengthZeroRun | src/decompress.c:242-250 | the decoder's digit fold reads back the run length from its digits |
| Mtf.ZeroRunRunLength | src/decompress.c:242-250 | every non-empty digit string is the coding of exactly one run length, so the coding is bijective |
| Mtf.ZeroRunShort | src/compress.c:302 | a run below 2^n needs at most n digits, so 32 digit slots suffice |
| Mtf.Flush | src/compress.c:787-794 | flushing a pending run sends nothing iff no zero ranks are pending, and otherwise only run digits |
| Mtf.FlushInjective | src/compress.c:300-319 | different run lengths flush to different digit strings |
| Mtf.Identity | src/compress.c:772-773 | the initial list holds each byte value at its own position |
| Mtf.IdentityIsPerm | src/compress.c:772-773 | the initial list is a permutation of the 256 byte values |
| Mtf.IndexOf | src/compress.c:808-812 | the rank found is the first position holding the byte |
| Mtf.MoveToFront | src/compress.c:814-815 | the byte at the rank moves to the front |
| Mtf.MoveToFrontPerm | src/compress.c:814-815 | moving to front keeps the list a permutation, and rank 0 leaves it unchanged |
| Mtf.Yy | src/compress.c:776-819 | the list after coding any prefix of the column is a permutation of the byte values |
| Mtf.LastRank | src/compress.c:776-819 | every byte coded has a rank below 256 |
| Mtf.RankTokens | src/compress.c:796-818 | a rank 1..255 is sent as one or two symbols, the last of which is not a run digit |
| Mtf.Emitted | src/compress.c:776-819 | the symbols sent so far never end in a run digit, because a run is held back until it ends |
| Mtf.EmittedInjective | src/compress.c:776-819 | two columns that send the same symbols and hold the same pending run are equal |
| Mtf.MtfTokensInjective | src/compress.c:764-824 | the move-to-front coding of a column is injective, so the column can be recovered from it |
| Mtf.PendingBound | src/compress.c:783 | the pending zero run never exceeds the number of bytes coded |
| Mtf.Put | src/compress.c:248-279 | coding a symbol in the numbered model adds exactly that (model, symbol) pair to the history |
| Mtf.PutAdaptive | src/compress.c:248-279 | coding in an adaptive model adds that pair to the history |
| Mtf.PutBogus | src/compress.c:248-279 | coding in the bogus model adds that pair to the history |
| Mtf.SendZeroes | src/compress.c:300-319 | sends exactly the run digits of the pending run length in the basis model |
| Mtf.CollectRunDigits | src/compress.c:306-312 | the digits collected, read in reverse, are the run's digit string |
| Mtf.CollectStep | src/compress.c:309-311 | each division step peels one more digit off the front of the remaining run |
| Mtf.SendRunDigits | src/compress.c:314-318 | sends the collected digits, last collected first, in the basis model |
| Mtf.SendMtfVal | src/compress.c:292-298 | a rank 2..255 is sent as its class symbol then its offset in the class model |
| Mtf.FindRank | src/compress.c:807-812 | finds the rank of a byte that is not at the front two positions |
| Mtf.ShiftUp | src/compress.c:814 | the entries before the rank move up one place, and the front and the entries after the rank are kept |
| Mtf.CodeByte | src/compress.c:780-818 | coding one byte moves the list, the pending run and the history to their values for the column one byte longer |
| Mtf.FlushRun | src/compress.c:787-794 | the pending run's digits are sent, or nothing when none is pending |
| Mtf.CodeRank | src/compress.c:796-818 | a byte not at the front is sent as its rank's symbols and moved to the front |
| Mtf.CodeRankOne | src/compress.c:796-801 | a byte at rank 1 is sent as VAL_ONE and swapped to the front |
| Mtf.CodeRankAbove | src/compress.c:802-817 | a byte at rank 2 or more is found, sent, and moved to the front |
| Mtf.SwapFront | src/compress.c:798-799 | swapping the first two entries is moving rank 1 to the front |
| Mtf.MoveUpFrom | src/compress.c:814-815 | the shift and store move the byte at the rank to the front |
| Mtf.LastColumn | src/compress.c:780 | the last column has one byte per sorted rotation |
| Mtf.LastColumnCyclic | src/compress.c:780 | entry i of the last column is the byte before the start of the i-th sorted rotation, cyclically |
| Mtf.HeaderWord | src/compress.c:769 | the block header (the finish flag and the original pointer) fits in 32 bits |
| Mtf.MoveToFrontCodeAndSend | src/compress.c:764-824 | sends the header word in the bogus model, then the move-to-front coding of the last column, then EOB |
| Mtf.SendHeader | src/compress.c:769-770 | the header word's four bytes are sent in the bogus model |
| Mtf.PutHeaderWord | src/compress.c:769 | the header word is coded through the bogus model alone |
| Mtf.FinishColumn | src/compress.c:821-823 | the last pending run is flushed and EOB is sent, which completes the column's coding |
| Mtf.CodeColumn | src/compress.c:775-819 | after the loop, the history holds the coding of the whole column, with the final run still pending |
| Mtf.CodeColumnByte | src/compress.c:778-780 | one iteration codes the next column byte |
| Mtf.InitialList | src/compress.c:772-773 | the new list is the identity |
| Mtf.ColumnByte | src/compress.c:780 | returns the column's i-th byte |
| MtfDecode.Signed32 | src/decompress.c:224-226 | the header word read as a signed 32-bit integer, congruent to it modulo 2^32 |
| MtfDecode.OrigPtrOf | src/decompress.c:227 | the original pointer decoded from the header fits in 32 bits |
| MtfDecode.FinishOf | src/decompress.c:271 | the finish flag is the sign bit of the header word |
| MtfDecode.HeaderRoundTrip | src/decompress.c:226-227 | decoding a written header gives back the finish flag and the original pointer |
| MtfDecode.HeaderWordDecode | src/decompress.c:226-227 | every 32-bit header word is the coding of the flag and pointer decoded from it |
| MtfDecode.RunLength32 | src/decompress.c:242-250 | the run length computed in unsigned 32-bit arithmetic fits in 32 bits |
| MtfDecode.RunLength32Wraps | src/decompress.c:242-250 | the 32-bit run length is the true run length modulo 2^32 |
| MtfDecode.RunLengthAllB | src/decompress.c:242-250 | k RUNB digits denote a run of 2^k-1 zeros |
| MtfDecode.RunCheckWraps | src/decompress.c:252-253 | a literal followed by 32 RUNB digits passes the unsigned length check although the run does not fit the block |
| MtfDecode.MtfRoundTrip | src/decompress.c:221-272 | equal symbol histories give an equal header and an equal column, so decoding is determined by what was sent |
| MtfDecode.Get | src/decompress.c:152-197 | decoding in the numbered model adds that (model, symbol) pair to the history |
| MtfDecode.GetAdaptive | src/decompress.c:152-197 | decoding in an adaptive model adds that pair to the history |
| MtfDecode.GetBogus | src/decompress.c:152-197 | decoding in the bogus model adds that pair to the history |
| MtfDecode.GetMtfVal | src/decompress.c:210-216 | a class symbol and its offset decode to the rank that the encoder sends with them |
| MtfDecode.GetRun | src/decompress.c:238-256 | reads a run's digits up to the next non-digit symbol, and returns the run length when it fits the room left, failing with FileCorrupt otherwise |
| MtfDecode.Fill | src/decompress.c:255 | the block grows by n copies of the front byte |
| MtfDecode.ReadRun | src/decompress.c:238-256 | a decoded run extends the column by its zeros, and the history is the coding of that column followed by the next symbol |
| MtfDecode.ReadRank | src/decompress.c:261-262 | a decoded rank extends the column by the byte at that rank, which moves to the front |
| MtfDecode.PlaceRank | src/decompress.c:266-268 | the byte at the rank is appended, and the list is moved to front |
| MtfDecode.StepColumn | src/decompress.c:233-269 | one decoding step appends the run and then the ranked byte, keeping what came before |
| MtfDecode.ReadHead | src/decompress.c:237-257 | reads an optional run and the symbol after it, failing when the run would pass the limit |
| MtfDecode.ReadStep | src/decompress.c:237-265 | one step either ends the column at EOB or extends it, and the history stays the coding of the column |
| MtfDecode.FillRun | src/decompress.c:255-256 | the block grows by the run of the front byte |
| MtfDecode.WriteStep | src/decompress.c:255-268 | the block and the list are updated as one decoding step says |
| MtfDecode.DecodeColumn | src/decompress.c:230-269 | the column decoded has at most limit bytes, and the history is its coding followed by EOB; it fails only at end of input or when the column is too long |
| MtfDecode.GetAndMoveToFrontDecode | src/decompress.c:221-272 | the block end is within the limit, and the history is the header word then the coding of the decoded column then EOB; it fails with FileCorrupt only when the column is too long |
| MtfDecode.DecodeList | src/decompress.c:230-269 | the decoded column in the block array is at most limit bytes, and its coding followed by EOB is what was read |
| MtfDecode.GetHeader | src/decompress.c:226-228 | reads the header word through the bogus model |
| MtfDecode.GetBogusWord | src/decompress.c:199-205 | reads four bogus-model bytes as one word |
| Counting.CountIsMultiplicity | src/decompress.c:283-284 | the count of a byte is its multiplicity in the block |
| Counting.OccurrenceOrder | src/decompress.c:283-284 | earlier occurrences of a byte get smaller occurrence numbers |
| Counting.CountBelowIsSmaller | src/decompress.c:286-292 | the prefix sum at c counts the bytes smaller than c |
| Counting.Pigeonhole | src/compress.c:593-599 | n distinct values below n are exactly 0..n-1, so a placement without collisions is a permutation |
| Unbwt.LastToFirst | src/decompress.c:299 | the last-to-first map sends every position to a position of the block |
| Unbwt.LastToFirstInjective | src/decompress.c:299 | the last-to-first map is injective, so it is a permutation |
| Unbwt.Below | src/decompress.c:299 | a smaller byte maps to an earlier position, which preserves the sorted order of the first column |
| Unbwt.Iterate | src/decompress.c:294-300 | iterating the map stays within the block |
| Unbwt.Unwind | src/decompress.c:294-300 | the unwound block has the column's length and ends with the byte at the original pointer |
| Unbwt.UndoReversibleTransformation | src/decompress.c:278-301 | fails exactly when the original pointer lies outside a non-empty block; otherwise it rebuilds the block by walking back from the original pointer |
| Bwt.CountIfPerm | src/decompress.c:282-292 | how many entries satisfy a predicate depends only on the multiset of the entries |
| Bwt.RotPred | src/compress.c:780 | the rotation one byte earlier is the last byte of a rotation followed by the rest of it |
| Bwt.Column | src/compress.c:780 | row r of the last column is the byte cyclically before the start of the r-th sorted rotation |
| Bwt.ColumnIsLast | src/compress.c:780 | that byte is the last byte of the rotation in row r |
| Bwt.LastColumnIsColumn | src/compress.c:780 | the column read from the first bytes of the words at zptr[i] - 1, cyclically, is that last column |
| Bwt.SortedLocate | src/decompress.c:294-300 | in sorted keys, a row at or above the number of keys below S and below the number not above S holds S |
| Bwt.LowerCount | src/decompress.c:282-299 | the keys below the predecessor key of row i are at most the row the map sends i to |
| Bwt.UpperCount | src/decompress.c:282-299 | the keys not above the predecessor key of row i are more than the row the map sends i to |
| Bwt.LastToFirstKey | src/decompress.c:299 | over sorted keys whose predecessors rearrange them, the map sends row i to a row holding row i's predecessor key |
| Bwt.RotsShifted | src/compress.c:780 | the rotations of a sorted permutation, with the last column, meet that setting |
| Bwt.LastToFirstRow | src/decompress.c:299 | one step of the walk over the last column of a sorted order lands on a row whose rotation starts one byte earlier |
| Bwt.SortedSteps | src/decompress.c:299 | in a sorted permutation every step of the walk lands so |
| Bwt.WalkRows | src/decompress.c:294-300 | after m steps from the row of rotation 0 the walk is on a row holding the rotation m bytes back |
| Bwt.WalkBytes | src/decompress.c:296-297 | the byte the walk reads after m steps is the byte m + 1 positions back from the block's start, cyclically |
| Bwt.UnwindSorted | src/decompress.c:294-300 | for any sorted permutation, the walk from the row of rotation 0 over the last column gives the block |
| Bwt.TransformRoundTrip | src/compress.c:748-762 | walking back over the column that moveToFrontCodeAndSend reads, from the original pointer, gives the block |
| Unbwt.RankOccurrences | src/decompress.c:282-284 | counts each byte, and records for every position how many equal bytes precede it |
| Unbwt.PrefixSums | src/decompress.c:286-292 | the counts become the number of smaller bytes |
| Unbwt.WalkBack | src/decompress.c:294-300 | the block is filled back to front by following the last-to-first map from the original pointer |
| Unbwt.FirstReadAsWritten | src/decompress.c:294-298 | the unchecked walk reads the column at the header's pointer whenever the block is non-empty |
| Unbwt.ZeroHeaderOutsideBlock | src/decompress.c:227 | a header word 0 decodes to pointer 2^32-1, outside every block, and the unchecked walk reads there |
| Spot.Advance | src/compress.c:723-724 | each step between spots is from 7915 to 8068 |
| Spot.SpotFromShape | src/compress.c:717-725 | the spots are increasing, lie below the bound, exist iff the start is below the bound, and the last is within a step of the bound |
| Spot.SpotPositions | src/compress.c:715-725 | the spots of a block are increasing, start at SPOT_BASIS_STEP, stay below the last byte, and exist iff the block is long enough |
| Spot.Bump | src/compress.c:722 | bumping keeps the block length |
| Spot.BumpWord | src/compress.c:722 | only the first byte of the word changes, by one modulo 256 |
| Spot.BumpFirstBytes | src/compress.c:722 | bumping the first bytes of the words is bumping the block, and the other bytes are kept |
| Spot.BumpInverse | src/decompress.c:315 | subtracting one at the same positions undoes adding one |
| Spot.SpotRoundTrip | src/decompress.c:303-319 | un-spotting a spotted block gives the block back |
| Spot.SpotBlockEncode | src/compress.c:710-726 | the first byte of each spotted word is incremented modulo 256, and nothing else changes |
| Spot.SpotBlockDecode | src/decompress.c:303-319 | each spotted byte is decremented modulo 256, and nothing else changes; an empty block is left alone |
| Spot.SpotBoundAsWritten | src/decompress.c:310 | for a non-empty block the unsigned bound is the block end minus one |
| Spot.EmptyBlockSpotsAsWritten | src/decompress.c:310 | for an empty block the unsigned bound wraps to 2^32-1, so the loop visits spots far outside the block |
| Rle.RunCode | src/compress.c:683-700 | a run of 1 to 3 bytes is written as itself; a run of 4 or more is written as four bytes and a count, five bytes in all |
| Rle.RlePairs.constructor | src/compress.c:637-638 | a fresh reader has read nothing |
| Rle.RlePairs.GetRlePair | src/compress.c:635-668 | returns a run of 1 to 255 equal bytes taken from the input, with the next byte different unless the run stopped at 255; at end of input it returns length 0 |
| Rle.RlePairs.ReadAhead | src/compress.c:664 | the read-ahead byte is the next input byte, or end of file |
| Rle.LoadedBlock | src/compress.c:673-708 | the block is the run coding of the runs, with the sentinel 42 added at the end of the file |
| Rle.LoadAndRleSource | src/compress.c:673-708 | the block holds the run coding of the runs read, and the runs expand to the input consumed; at end of input the block ends with the sentinel and is at most blocksize-19 long, otherwise it stops between blocksize-19 and blocksize-15 |
| Rle.LoadStep | src/compress.c:681-704 | one pass of the loop codes one more run, or adds the sentinel at end of input |
| Rle.PutSentinel | src/compress.c:701-703 | the sentinel byte 42 is appended to the block |
| Rle.PutRun | src/compress.c:683-700 | the run's coding is appended to the block |
| Rle.UnRleFrom | src/decompress.c:331-355 | expansion fails only with FileCorrupt |
| Rle.UnRleBlock | src/decompress.c:321-359 | expanding a block fails only with FileCorrupt |
| Rle.PutCopies | src/decompress.c:353-354 | the output grows by k copies of the byte |
| Rle.UnRleAndDump | src/decompress.c:321-359 | succeeds iff the block expands, and then writes exactly its expansion |
| Rle.DumpStep | src/decompress.c:335-354 | one pass of the loop writes the output the expansion function assigns to it |
| Rle.UnRleRun | src/decompress.c:331-355 | the coding of one run expands to the run |
| Rle.UnRleCode | src/decompress.c:331-355 | the coding of a chain of runs expands to their concatenation |
| Rle.RleRoundTrip | src/decompress.c:321-359 | expanding a loaded block, with its sentinel on the last block, gives back the input it was loaded from |
| Rle.UnRleEndAsWritten | src/decompress.c:326-327 | apart from an empty last block, the end is the block end, minus the sentinel on the last block |
| Rle.EmptyLastBlockAsWritten | src/decompress.c:326-327 | an empty last block makes the unsigned end wrap to 2^32-1 |
| Sort.LexAsym | src/compress.c:324-344 | lexicographic order is asymmetric |
| Sort.LexTotal | src/compress.c:324-344 | lexicographic order is total on distinct sequences of equal length |
| Sort.LexTrans | src/compress.c:324-344 | lexicographic order is transitive |
| Sort.RotLeqTrans | src/compress.c:324-344 | "not greater" between rotations is transitive |
| Sort.RotGtAsym | src/compress.c:324-344 | "greater" between rotations is asymmetric |
| Sort.TrivialGt | src/compress.c:324-344 | returns whether rotation i1 is lexicographically greater than rotation i2 |
| Sort.NextByte | src/compress.c:339-340 | the wrapped increment moves to the next byte of the rotation |
| Sort.ShellInsert | src/compress.c:370-379 | one insertion keeps the pointers a permutation, and in the final pass the sorted prefix grows by one |
| Sort.ShiftDown | src/compress.c:372-379 | the hole moves down one gap, and only one entry changes |
| Sort.ShiftStep | src/compress.c:372-379 | one pass of the shifting loop, and whether to continue |
| Sort.FillHole | src/compress.c:372-379 | storing the held pointer restores the permutation, and in the final pass sortedness |
| Sort.ShellPass | src/compress.c:365-381 | one pass keeps a permutation, and the pass with gap 1 leaves the pointers sorted |
| Sort.Knuth | src/compress.c:360-363 | the gap sequence 1, 4, 13, ... is positive |
| Sort.KnuthThird | src/compress.c:367 | dividing a gap by three gives the previous gap |
| Sort.ShellTrivial | src/compress.c:347-382 | leaves the pointer array a permutation of 0..n-1 in sorted rotation order |
| Sort.NormalizeHiReduce | src/compress.h:28 | NORMALIZEHI below twice the length is cyclic reduction |
| Sort.Stripe | src/compress.c:538-567 | every word holds four consecutive bytes of the block, cyclically, starting at its own position |
| Sort.StripeStep | src/compress.c:545-566 | one pass writes byte i into the words that contain it |
| Sort.StripedAll | src/compress.c:560-566 | after the last pass every word is complete |
| Sort.WordStep | src/compress.c:402-407 | equal words extend the agreement by four bytes, and differing words decide the rotation order |
| Sort.CompareWords | src/compress.c:402-407 | one word comparison either extends the agreement or decides the order |
| Sort.FirstDifference | src/compress.c:384-451 | the first differing byte decides the rotation order |
| Sort.AgreeWhole | src/compress.c:384-451 | rotations that agree on a whole block length are not greater than each other |
| Sort.FullRound | src/compress.c:394-447 | one round of four word comparisons either extends the agreement by 16 bytes or decides the order |
| Sort.NextRound | src/compress.c:442-443 | NORMALIZEHI moves both positions 16 bytes on, cyclically |
| Sort.FullGt | src/compress.c:384-451 | returns whether rotation i1 is greater than rotation i2, comparing words |
| Qsort.RotGtIrreflexive | src/compress.c:390-391 | no rotation is greater than itself |
| Qsort.IsortStep | src/compress.c:518-524 | one shift step of the insertion sort |
| Qsort.IsortShift | src/compress.c:518-524 | shifts greater entries up until the held pointer's place is found |
| Qsort.IsortInsert | src/compress.c:514-526 | the sorted prefix of the range grows by one entry, rearranged only within the range |
| Qsort.IsortUnit | src/compress.c:511-526 | the range ends sorted, rearranged only within itself |
| Qsort.CondSwap | src/compress.c:473-474 | the two entries end in order, swapped iff they were out of order |
| Qsort.Median3 | src/compress.c:472-478 | the first, middle and last entries end in order |
| Qsort.ScanUp | src/compress.c:487 | finds the next entry not below the pivot, skipping only entries not above it |
| Qsort.ScanDown | src/compress.c:488 | finds the next entry not above the pivot, skipping only entries not below it |
| Qsort.PartitionStart | src/compress.c:472-481 | the median of three is placed as pivot next to the end |
| Qsort.PartitionRound | src/compress.c:485-493 | one round of the scans and the swap keeps the partition invariant |
| Qsort.Partition | src/compress.c:469-494 | the pivot ends at i, with nothing greater before it and nothing smaller after it, rearranged within the range |
| Qsort.Combine | src/compress.c:496-506 | two sorted sides around a placed pivot form a sorted range |
| Qsort.Settle | src/compress.c:496-533 | sorting both sides, in either order, sorts the range |
| Qsort.QsortFull | src/compress.c:459-536 | entries are rearranged only within the range, and the range ends in sorted rotation order |
| BlockSort.Key | src/compress.c:590 | the bucket key is the first two bytes of the rotation |
| BlockSort.BucketsFill | src/compress.c:591-592 | the buckets together hold every position |
| BlockSort.BucketsApart | src/compress.c:591-599 | buckets follow one another in key order and do not overlap |
| BlockSort.SlotInBucket | src/compress.c:597-598 | each position is placed inside its key's bucket |
| BlockSort.SlotInjective | src/compress.c:597-598 | no two positions get the same slot |
| BlockSort.Placed | src/compress.c:593-599 | placing every position in its slot buckets the pointers |
| BlockSort.CountKeys | src/compress.c:588-590 | the table holds the number of positions with each key |
| BlockSort.SumKeys | src/compress.c:591-592 | the table holds running totals: the number of positions with a key up to each value |
| BlockSort.PlaceStep | src/compress.c:597-598 | one placement keeps the placement invariant |
| BlockSort.PlaceKeys | src/compress.c:593-599 | every position is placed in its bucket, and the table ends at the bucket starts |
| BlockSort.StripePeriodic | src/compress.c:601 | striped words repeat with the block's period |
| BlockSort.CopyHead | src/compress.c:601 | the words after the block repeat its first words, which are kept |
| BlockSort.Reach | src/compress.c:574-582 | grade g covers bucket sizes up to its bound, and the last grade reaches the largest block |
| BlockSort.SortGrade | src/compress.c:606-628 | sorts every bucket whose size falls in this grade |
| BlockSort.GradeBucket | src/compress.c:611-615 | sorts one bucket if its size is in the grade, and leaves the others sorted as they were |
| BlockSort.GradesDone | src/compress.c:602 | after the last grade every bucket is sorted |
| BlockSort.KeyOrder | src/compress.c:589-599 | a smaller key means a smaller rotation, so bucket order agrees with rotation order |
| BlockSort.AllSorted | src/compress.c:569-630 | sorted buckets placed in key order make the whole pointer array sorted |
| BlockSort.SortIt | src/compress.c:569-630 | leaves the pointer array a permutation of 0..n-1 in sorted rotation order, and the block still in the first bytes of the words |
| BlockSort.SortGrades | src/compress.c:602-629 | grading from bucketed pointers ends with a sorted permutation |
| BlockSort.DoReversibleTransformation | src/compress.c:748-762 | sorts the rotations, and returns the first position holding rotation 0; it returns nothing exactly for the empty block; walking back over the column that is then sent, from the returned position, gives the block |
| BlockSort.ZeroPlaced | src/compress.c:758-761 | the search for rotation 0 always finds it in a non-empty block |
| Names.Render | src/main.c:266-280 | a number written as digits in a base from 2 to 10 is a non-empty digit string |
| Names.RenderRead | src/main.c:266-280 | reading back the written digits gives the number |
| Names.LcAtou | src/main.c:266-280 | succeeds iff every character is a digit, and returns the value read in the base modulo 2^32; otherwise it is a usage error |
| Names.OutputName | src/main.c:303-341 | standard input gives "-"; every name fits the buffer with its NUL |
| Names.CompressName | src/main.c:303-341 | compressing appends ".bz" when it fits |
| Names.DecompressName | src/main.c:303-341 | decompressing strips ".bz", and appends ".bunz" to any other name |
| Names.LongName | src/main.c:303-341 | a name too long is cut so that the extension and the NUL just fit |
| Names.OutputNameRoundTrip | src/main.c:303-341 | decompressing the compressed name gives the original name back |
| Names.Code | old/bzip.c:2166-2202 | the outcome codes are -1, 0 and 1 |
| Names.OutputGenerateFilename | old/bzip.c:2166-2202 | a derived name fits the buffer and is the input with ".bz" added or removed; a temporary name is only made when decompressing a name without ".bz" |
| Names.GenerateAgrees | old/bzip.c:2166-2202 | where both fit, the old and the new function derive the same names |
| Names.GenerateRoundTrip | old/bzip.c:2166-2202 | the old decompressor recovers the name the old compressor extended |
| OldBzip.OldModel.Fill | old/bzip.c:758-768 | the live counts are set to the value, and the guard cells are kept |
| OldBzip.OldModel.Init | old/bzip.c:752-777 | every count becomes the increment, or 1 for increment 0 |
| OldBzip.OldModel.Rescale | old/bzip.c:790-799 | the counts are halved, with the rule of the current version, and the total follows |
| OldBzip.OldModel.Update | old/bzip.c:784-800 | the 1-based update equals the current one, and the number of rescalings is counted |
| OldBzip.OldModel.CumFreq | old/bzip.c:689-693 | the 1-based cumulative frequency equals the current one |
| OldBzip.OldModel.FindSymbol | old/bzip.c:722-729 | the 1-based symbol found is the current one plus one |
| OldBzip.OldBogusStaysUniform | old/bzip.c:833-836 | the old bogus model stays uniform and agrees with the current one |
| OldBzip.OldFollowBits | old/bzip.c:611-619 | the old bit-plus-follow writes what the current one writes |
| OldBzip.OldRenormAgrees | old/bzip.c:652-671 | the old renormalisation equals the current one |
| OldBzip.OldDoneBits | old/bzip.c:628-634 | the old flush writes what the current one writes |
| OldBzip.OldWordSymbols | old/bzip.c:851-857 | the old word coding sends four 1-based symbols |
| OldBzip.OldWordOf | old/bzip.c:876-886 | the old word decoding gives a 32-bit word |
| OldBzip.OldWordRoundTrip | old/bzip.c:876-886 | the old word decoding inverts the old coding |
| OldBzip.OldInt32Symbols | old/bzip.c:843-849 | a signed 32-bit integer is sent as four 1-based symbols |
| OldBzip.OldGetInt32 | old/bzip.c:864-874 | the old integer decoding gives a signed 32-bit value |
| OldBzip.OldInt32RoundTrip | old/bzip.c:864-874 | the old integer decoding inverts the old coding |
| OldBzip.OldClassOf | old/bzip.c:967-1007 | the old switch puts a rank in the class c with 2^c <= rank < 2^(c+1) |
| OldBzip.OldSendMtfVal | old/bzip.c:967-1007 | the old sender accepts exactly the values it has a case for, and panics on the rest |
| OldBzip.OldMtfValRoundTrip | old/bzip.c:924-965 | the old decoder reads back every value the old sender sends |
| OldBzip.OldMtfValAgrees | old/bzip.c:967-1007 | the old sender sends the current symbols, each plus one |
| OldBzip.OldSendClass | old/bzip.c:967-1007 | a rank of class c is sent as basis symbol c+3 and its offset plus one |
| OldBzip.CurrentSendClass | src/models.c:39-297 | with the current tables, a rank of class c is sent as basis symbol c+2 and its offset |
| OldBzip.CollectBits | old/bzip.c:1118-1128 | the bits collected spell the run's digit string |
| OldBzip.SendBits | old/bzip.c:1130-1138 | sends the digits of the collected bits, each plus one |
| OldBzip.OldSendZeroes | old/bzip.c:1110-1139 | sends nothing for no run, and otherwise the run's digits, each plus one |
| OldBzip.OldRunLengthAgrees | old/bzip.c:1215-1227 | the old digit fold reads the same length as the current one |
| OldBzip.OldZeroRunRoundTrip | old/bzip.c:1215-1227 | the old decoder reads back the length of every run the old encoder sends |
| OldBzip.OldNormalize | old/bzip.c:1074-1090 | the old NORMALIZE is NORMALIZEHI for non-negative positions and NORMALIZELO for negative ones |
| OldBzip.OldNormalizeCircular | old/bzip.c:1074-1080 | the old NORMALIZE is cyclic reduction in its range |
| OldBzip.StrongNormalize | old/bzip.c:1098-1108 | STRONG_NORMALIZE reduces any position into the block |
| OldBzip.OldSpotAgrees | old/bzip.c:1742-1777 | the old spot positions, computed from the last index, are the current ones |
| OldBzip.OldSpotBlock | old/bzip.c:1742-1777 | spotting adds one at the spots when compressing and subtracts one when decompressing |
| OldBzip.OldSpotRoundTrip | old/bzip.c:1742-1777 | old un-spotting undoes old spotting |
| OldBzip.OldRleSource.GetByte | old/bzip.c:524-531 | returns the next byte and advances, or -1 at end of input |
| OldBzip.OldRleSource.ScanRun | old/bzip.c:1789-1797 | counts a run of 1 to 255 equal bytes and puts back the first different one |
| OldBzip.OldRleSource.FeedCrc | old/bzip.c:1801-1803 | the CRC takes in the run's bytes |
| OldBzip.OldRleSource.GetRlePair | old/bzip.c:1779-1806 | returns -1 and 0 at end of input; otherwise a run of 1 to 255 equal input bytes, with the next byte different unless the run stopped at 255 |

## Left out

- File and stream I/O is not modelled.
  - Input is a byte sequence, and output is a byte or bit sequence.
  - Opening files, signals, `stat`, and the command-line driver in src/main.c are not part of this model.
- Errors that end the program are modelled as follows:
  - errors that the source raises with `longjmp` (unexpected end of file, bad magic number, corrupt file, usage errors) return a failed `Result`;
  - `panic` and `assert` conditions are preconditions.
- The values of the CRC-32 table are not modelled. They are a parameter of the `Crc` functions.
- Multi-threading is not modelled.
  - `thread_slave` (src/compress.c:149-169) and the driver loop of `decompress` (src/decompress.c:56-80) are not modelled. Each is a composition of the modelled stages over one block.
  - Only the CRC comparison of those drivers is modelled, by Crc.CrcMatchesIff.
  - The reader refuses a thread byte of 'M' + nthreads in the magic number (Magic.MagicAccepted). The threaded stream format itself is not modelled.
- The rank caching of sortIt (src/compress.c:616-627) is not modelled.
  - This is the rewriting of the low halves of words with SETREST16 after each bucket is sorted. The accessor itself is Words.SetRest16.
  - After a bucket is sorted, the source writes each entry's rank in that bucket into the low half of its word. Later comparisons in fullGt read the ranks in place of the third and fourth bytes.
  - For distinct rotations the ranks follow the order of the rotations, so the decided order is the same.
  - Equal rotations differ here. A periodic block has them; an example is the 1200-byte block ("ab*")x400, which the final block ("ab*")x399 then "ab" becomes with the sentinel 42. Their ranks differ, so the source's fullGt orders them strictly, in the order the earlier bucket sort left them. The model's FullGt finds neither greater than the other.
  - So the model's zptr, and with it the original pointer written in the header, can differ from the source's. Both are sorted permutations with the same last column, and the walk back from the row of rotation 0 rebuilds the block from either (Bwt.UnwindSorted).
- The explicit stack of qsortFull, with its depth assertion, is modelled by recursion.
  - Qsort.QsortFull: the stack bound (`sp <= 14`) is not checked.
- Some choices in the source that do not change results are not modelled:
  - the `RC` debugging macro;
  - the choice between `rawmemchr` and `memchr`;
  - the `HAVE_*` configuration switches.
- The model assumes the build switches `CONFIG_FANCY_UI`, `CONFIG_COMPRESS` and `CONFIG_DECOMPRESS` are all defined.
  - Names.LcAtou follows the `CONFIG_FANCY_UI` branch of src/main.c:270-277. Without the switch, lc_atou returns its result unset.
  - Names.OutputName follows the `CONFIG_FANCY_UI` branch of src/main.c:305-337. Without the switch, makeup_output_fname returns "-" (src/main.c:338-340).
- Arith.DecodeInvertsEncode: only the per-step inverse is proved, for a code value that already lies in the interval the encoder chose.
  - The stream-level round trip is not proved: that the decoder, fed the encoder's bits (follow bits and the final flush included), returns the encoder's symbols.
  - Stating it needs an invariant relating the decoder's code value to every bit the encoder will still write, which this model does not carry.
- Arith.Encoder.PutSymbol: the `MAX_BITS_OUTSTANDING` check is not modelled. The count of outstanding bits is unbounded.
- Names.OutputName: `PATH_MAX` is taken as 4096. The limits header is not part of this model.
- Names.OutputGenerateFilename: the fixed size of the temporary name is not modelled.
  - The old `sprintf` writes it without checking its size.
  - The process id and the clock reading are parameters.
- Several operations of old/bzip.c are not modelled again, because they are the same algorithms as their current versions apart from 1-based symbols, which the agreement lemmas cover:
  - the coder's narrowing, putSymbol and getSymbol, and arithCodeStartDecoding;
  - moveToFrontCodeAndSend and getAndMoveToFrontDecode;
  - the sorts and stripe;
  - undoReversibleTransformation;
  - loadAndRLEsource and unRLEandDump. The old unRLEandDump also lacks the bounds check on the count byte.
- OldBzip.OldRleSource.ScanRun: the old `bs_unget_byte` is modelled as moving the position back by one.
- BlockSort.DoReversibleTransformation: the source panics on an empty block. The model returns no pointer for it instead.
- MtfDecode.GetRun: the room check is made after each digit, not once after the last digit as in the source.
  - So a truncated over-long run reports FileCorrupt where the source reports the end of input.
  - The source's loop ends only when the input stops supplying run digits. Its unsigned length wraps past 32 digits, and the arithmetic decoder can return symbols without consuming input. A terminating loop has nothing to decrease on in that form, so the model stops at the first digit that overflows the room.
- Unbwt.UndoReversibleTransformation: this is the corrected operation. It adds the range check on the original pointer that the source lacks (see Findings).

## Findings

| source | as written | input that shows it | evidently intended | confidence | as-written member | corrected member |
|---|---|---|---|---|---|---|
| src/decompress.c:252-253 | the run check adds the run length to the block end in unsigned 32-bit arithmetic, and the sum can wrap below the limit | a literal byte, then 32 RUNB digits: the run length is 2^32-1 and 1 + n wraps to 0 | reject any run that does not fit in the room left in the block | not executed | MtfDecode.RunCheckWraps | MtfDecode.GetRun |
| src/decompress.c:294-298 | the original pointer from the header is used as an index without a range check | a header word 0, which decodes to pointer 2^32-1 | fail with a corrupt-file error when the pointer is not inside the block | not executed | Unbwt.ZeroHeaderOutsideBlock | Unbwt.UndoReversibleTransformation |
| src/decompress.c:310 | the spot loop's bound `block_end - 1` is unsigned and wraps for an empty block | a block whose first symbol is EOB | visit no spots in an empty block | not executed | Spot.EmptyBlockSpotsAsWritten | Spot.SpotBlockDecode |
| src/decompress.c:326-327 | the last block drops its sentinel by decrementing the unsigned block end, which wraps when the block is empty | a last block whose first symbol is EOB | reject an empty last block, which has no sentinel | not executed | Rle.EmptyLastBlockAsWritten | Rle.UnRleAndDump |
