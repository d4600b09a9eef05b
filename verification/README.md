# gzdec in Dafny

This is a model of `gzdec`, a single-header decoder that inflates a whole GZIP
member held in memory into a caller-supplied buffer. `gzdec(in, insize, out,
outsize)` returns one of the following:

- `GZ_OK`;
- `GZ_INVFILE`, for an input that is too short, an ISIZE of 0, or any error
  inside the DEFLATE data;
- `GZ_NOSPACE`, when the trailer's ISIZE exceeds `outsize`;
- `GZ_INVMAGIC`;
- `GZ_INVCMETHOD`.

`gzdecsize` reads that ISIZE.

The model follows the code as written, including where it departs from RFC 1951
(DEFLATE) and RFC 1952 (GZIP). Each departure is stated as a lemma about the
as-written model. The C pointers, global scratch arrays and the node arena
become values:

- A bit reader is a `Cursor`, which is the input plus a bit position.
- The Huffman trie is a sequence of `Node`s in which index 0 stands for NULL.
- Each C routine becomes a pure function that returns its result together with
  the advanced cursor.

The modules follow the file's layout:

| file | module | C code |
|---|---|---|
| `base.dfy` | `Base` | powers of two, the binary digits of a number, `Option` |
| `bitstream.dfy` | `BitStream` | `gz_nextbit` and `gz_readbits`: an abstract cursor, plus the C's `mask`/`buf`/`ptr`/`end` stream proved to refine it |
| `runs.dfy` | `Runs` | `gz_torange` |
| `canonical.dfy` | `Canonical` | the `blcount`, `nxtcode` and `tree[i].code` loops of `gz_buildht`, and their relation to the canonical codes of section 3.2.2 of RFC 1951 |
| `trie.dfy` | `Trie` | the node arena and the insertion loop of `gz_buildht`; `gz_huffdec` |
| `buildht.dfy` | `HuffTable` | `gz_buildht` as a whole |
| `fixedcodes.dfy` | `FixedCodes` | the fixed length arrays `gzdec` fills for a block with `btype == 1`, and the two `gz_buildht` calls on them |
| `codelengths.dfy` | `CodeLengths` | `gz_gethufft` |
| `lendist.dfy` | `LenDist` | `gz_getlen`, `gz_getdist` and their tables |
| `inflate.dfy` | `Inflate` | the block loop of `gzdec`: stored, fixed and dynamic blocks, and the symbol loop with `EMIT` and the back-reference copy |
| `dynamic.dfy` | `DynamicCodes` | an encoder's tables for a dynamic block, and the header, `clenord` loop and three tables of that block read back |
| `gzip.dfy` | `Gzip` | `gzdecsize`, the size checks, the member header, and `gzdec` end to end |

The round trips are stated against an encoder written in the model:

- **Huffman tables.** A symbol's code bits, read from anywhere in the stream,
  decode back to that symbol. This holds for every table `gz_buildht` can
  return for a prefix-free code book.
- **Code lengths.** An encoding of a length array as code-length instructions
  is read back by `gz_gethufft`'s loop.
- **Lengths and distances.** Every length 3..258 and distance 1..32768, written
  as its code and extra bits, is read back.
- **Tokens.** The codes of a well-formed sequence of literals and matches, ended
  by the end-of-block code, decode to exactly that sequence's LZ77 expansion.
- **Dynamic blocks.** HLIT, HDIST, HCLEN, the code-length code lengths in
  `clenord` order and the two length arrays as code-length instructions,
  followed by the tokens' codes, make a dynamic block that decodes to the
  tokens' expansion and leaves `arrclen` holding the written lengths.
- **Whole members.** A header with any mix of the optional fields, followed by
  one final block with fixed or with dynamic codes, decodes to that expansion
  with `GZ_OK`.

The fixed tables are derived rather than assumed. The canonical codes of the
fixed lengths are the table of section 3.2.6 of RFC 1951, and no code is a
prefix of another. The trie of the literal/length codes needs exactly as many
nodes as `GZ_HTLL_MAX` (575) provides, and the distance trie needs exactly the
63 of `GZ_HTDIST_MAX`, so both `gz_buildht` calls succeed with no node to spare.

How this code departs from the RFCs:

- **Stored blocks always fail.** `b0len != ~b0nlen` compares an 8-bit value with
  the complement of another inside an `unsigned int`, so the test is true for
  every input, and a stored block always ends the call with `GZ_INVFILE`
  (`Inflate.StoredBlock`, `Inflate.StoredOrReservedFails`). The lengths are
  also read as 8-bit fields, not 16, and straight after the block header, with
  no skip to a byte boundary.
- **Early back-references are not refused.** The guard `outp < out` tests the
  write pointer, which never lies before the buffer, so a distance longer than
  the output so far is not refused. See Findings.
- **A repeat can write past the end of the array.** The repeat loop of
  `gz_gethufft` writes `rep` entries before checking the bound. See Findings.
- **Repeat codes cannot cross from the literal/length lengths into the
  distance lengths.** RFC 1951 reads the `257 + hlit` literal/length lengths
  and the `1 + hdist` distance lengths as one sequence, so a 16, 17 or 18 may
  run on from one into the other. `gzdec` reads them with two separate calls
  of `gz_gethufft`. A repeat that runs past the literal/length count fails the
  block, through the final `i != count` test or the overrun in Findings
  (`CodeLengths.RepeatPastCountRefused`, `Inflate.RepeatAcrossTablesFails`).
  A 16 as the first distance length also fails, because the second call has
  no previous length to repeat (`Inflate.LeadingRepeatOfDistancesFails`).
- **Code lengths carry over between blocks.** `arrclen` is not reset between
  blocks. A dynamic block that reads fewer than 19 code-length lengths keeps the
  previous block's values for the rest (`Inflate.DynamicBlockClens`).
- **`blcount[0]` is not zeroed.** The code-length count for length 0 is left in
  place, unlike RFC 1951. The codes then exceed the RFC's by a multiple of
  `2^len`, which the insertion's bit test discards, so the trie is the RFC's
  (`Canonical.FirstCodeOffset`, `Canonical.CodePathIsRfc`).
- **Output overflow reports `GZ_INVFILE`.** `EMIT` past `outsize` returns
  `GZ_INVFILE`, never `GZ_NOSPACE` (`Inflate.LiteralIntoFullBuffer`,
  `Gzip.GzDecStatus`).
- **An ISIZE of 0 is rejected.** A member whose ISIZE is 0 is refused as
  `GZ_INVFILE`, even when it is a valid empty member (`Gzip.GzDecStatus`).
- **The `257 + hlit > LLLEN` test is dead.** A 5-bit `hlit` is at most 31, so
  the test can never fire (`Inflate.HlitTestNeverFires`).
- **Length code 284 reaches 258.** With 5 extra bits, length code 284 yields
  227..258, where RFC 1951 gives 227..257 (`LenDist.LenTiling`). Every length
  stays at most 258 (`LenDist.LenTableAgrees`).
- **Reserved FLG bits are not refused.** Section 2.3.1.2 of RFC 1952 requires
  an error when bit 5, 6 or 7 of FLG is set. `gzdec` tests only FEXTRA, FNAME,
  FCOMMENT and FHCRC, so such a header is accepted and read as if those bits
  were clear (`Gzip.ReservedFlagsAccepted`, `Gzip.ReservedBitsIgnored`).

## Model

| member | source | states |
|---|---|---|
| BitStream.NextBit | src/gzdec.h:71-98 | the bit returned is the stream bit at the cursor, taking each byte least significant bit first; the cursor moves one bit, or stays put at the end of the input |
| BitStream.ReadBits | src/gzdec.h:100-115 | bit k of the value is the k-th stream bit from the cursor, the value is below 2^n, and the cursor advances n bits but never past the end of the input |
| BitStream.ExhaustedReadsZero | src/gzdec.h:76-79 | once the input is used up, every read yields 0 and leaves the cursor where it is |
| BitStream.NonzeroReadAdvances | src/gzdec.h:100-115 | a read that yields a nonzero value has consumed at least one bit |
| BitStream.ReadByte | src/gzdec.h:633-652 | eight bits read at a byte boundary are that input byte, and the cursor lands on the next byte |
| BitStream.ReadU16 | src/gzdec.h:654-658 | sixteen bits read at a byte boundary are the little-endian value of the two bytes there (XLEN) |
| BitStream.ReadBitsField | src/gzdec.h:100-115 | an n-bit field written least significant bit first reads back as its value, consuming exactly n bits |
| BitStream.COpenStartsAtZero | src/gzdec.h:627-631 | the C stream set-up (mask 1, first byte in the buffer) stands for bit position 0 of the input |
| BitStream.CNextBitRefines | src/gzdec.h:71-98 | the C bit step on `mask`, `buf`, `ptr` and `end` returns the same bit and reaches the same position as NextBit, and keeps the stream well formed |
| BitStream.CReadBitsRefines | src/gzdec.h:100-115 | the C accumulation loop returns the same value and reaches the same position as ReadBits |
| BitStream.CEndIsSticky | src/gzdec.h:76-98 | once the C stream's end flag is set, every read returns 0 and leaves the stream unchanged |
| Runs.ToRange | src/gzdec.h:172-207 | succeeds exactly when the array has at most rmax runs of equal lengths; the runs returned are consecutive, cover the array and carry the length of every symbol in them |
| Runs.ToRangeFromRuns | src/gzdec.h:187-204 | the loop resumed at index i with the runs of the first i entries succeeds exactly when the whole array's runs fit, and returns those runs |
| HuffTable.MaxBlenBoundsLengths | src/gzdec.h:250-259 | the largest run length bounds every symbol's length and is some symbol's length, unless it is 0 |
| HuffTable.RunCountIsBlCount | src/gzdec.h:284-291 | adding run sizes per length gives, for every length, the number of symbols with that length |
| HuffTable.TreeLengthsAreLengths | src/gzdec.h:306-319 | stepping `actrange` through the runs gives every symbol its own code length |
| HuffTable.BuildHt | src/gzdec.h:223-387 | refuses more than 288 lengths and any length of 30 or more; a table it returns has `htmax` nodes and decodes exactly the RFC 1951 canonical code book of the lengths |
| HuffTable.InsertAllDecodes | src/gzdec.h:339-384 | when the insertion loop succeeds, the trie holds exactly one entry per symbol of nonzero length, under that symbol's code |
| HuffTable.InsertAllSucceeds | src/gzdec.h:339-384 | the insertion loop never fails when no two symbols share a code and the node array has room for every prefix of every code |
| HuffTable.BuildHtSucceeds | src/gzdec.h:223-387 | a length array within the limits builds whenever its canonical code book is prefix-free and the node array has room for every prefix of every code |
| HuffTable.CodesAreRfc | src/gzdec.h:293-326 | the code paths the loops assign are those of the canonical codes of section 3.2.2 of RFC 1951 |
| Canonical.AssignedCodes | src/gzdec.h:306-326 | the code `tree[i].code` receives is the first code of its length plus the number of earlier symbols with that length |
| Canonical.CodesIncrease | src/gzdec.h:319-324 | symbols of one length get increasing codes, consecutive when no symbol of that length lies between them |
| Canonical.FirstCodeOffset | src/gzdec.h:289-304 | with `blcount[0]` left in place, each first code exceeds the RFC 1951 one by `blcount[0] * 2^len` |
| Canonical.CodePathIsRfc | src/gzdec.h:347-351 | the low `len` bits the insertion tests, most significant first, are those of the RFC 1951 code, so the excess is discarded |
| Canonical.PrefixBlock | src/gzdec.h:347-351 | when one code's path starts another's, the longer code lies in the block of codes whose top bits are the shorter code |
| Canonical.TopBits | src/gzdec.h:347-351 | the first k bits a `len`-bit code is inserted under are the path of its top k bits |
| FixedCodes.LitCodesAreTable | src/gzdec.h:714-740 | the canonical codes of the fixed literal/length lengths are the code table of section 3.2.6 of RFC 1951 |
| FixedCodes.DistCodesAreTable | src/gzdec.h:742-747 | every fixed distance symbol gets itself as its 5-bit code |
| FixedCodes.LitPrefixFree | src/gzdec.h:714-740 | no fixed literal/length code is a prefix of another |
| FixedCodes.DistPrefixFree | src/gzdec.h:742-747 | no fixed distance code is a prefix of another |
| FixedCodes.LitPrefixCount | src/gzdec.h:714-752 | the fixed literal/length codes have exactly 575 prefixes, so their trie fills all `GZ_HTLL_MAX` nodes it is given |
| FixedCodes.DistPrefixCount | src/gzdec.h:742-757 | the fixed distance codes have exactly 63 prefixes, so their trie fills all `GZ_HTDIST_MAX` nodes it is given |
| FixedCodes.FixedCodesHold | src/gzdec.h:711-760 | both `gz_buildht` calls of a fixed block succeed, and the code books they decode are prefix-free |
| Trie.NewArena | src/gzdec.h:334-338 | after zeroing and allocating the root, the arena is well formed with one node |
| Trie.Grow | src/gzdec.h:353-375 | allocating a child links it under its parent, hands out the next free node, and changes no node's symbol |
| Trie.InsertPath | src/gzdec.h:343-383 | a successful insertion leaves a well-formed arena of the same size |
| Trie.InsertPathOutcome | src/gzdec.h:343-383 | insertion fails exactly when the arena has too few free nodes for the missing part of the path, or the path ends on a node that already holds a symbol; on success it allocates exactly the missing nodes |
| Trie.InsertTarget | src/gzdec.h:343-383 | after insertion, the path leads to a node holding the symbol, that node held none before, and no other node's symbol changed |
| Trie.InsertKeepsWalk | src/gzdec.h:347-377 | insertion keeps every walk that already existed |
| Trie.InsertAddsEntry | src/gzdec.h:339-384 | a trie that decodes a set of entries decodes that set plus the new entry after the insertion |
| Trie.InsertCovers | src/gzdec.h:343-383 | inserting a code no entry has, into a trie whose nodes cover the prefixes of its codes and with room for the new code's prefixes, succeeds, covers the new prefixes and uses no more nodes than there are prefixes |
| Trie.EmptyDecodesNothing | src/gzdec.h:334-338 | the fresh arena decodes no entry |
| Trie.HuffDecRoundTrip | src/gzdec.h:132-156 | in a trie that decodes a prefix-free set, a symbol's code read from any cursor decodes to that symbol and consumes exactly the code |
| Trie.MissingChildFails | src/gzdec.h:138-155 | bits that pass through inner nodes and then take an edge the trie lacks, at any depth, make the decode return -1 right after the last of those bits |
| Trie.InnerBeforeEnd | src/gzdec.h:138-153 | in a prefix-free table, every node strictly inside a code's path is inner, so the decode loop does not stop early |
| LenDist.GetLen | src/gzdec.h:485-507 | a code outside 257..285 gives -1 and reads nothing; any other code gives RFC 1951's base length plus its extra bits |
| LenDist.GetDist | src/gzdec.h:533-550 | a code outside 0..29 gives -1 and reads nothing; any other code gives RFC 1951's base distance plus its extra bits, within 1..32768 |
| LenDist.LenTiling | src/gzdec.h:479-507 | each length code's range starts right after the previous one ends, and code 284 with its 5 extra bits reaches 258, the length code 285 stands for |
| LenDist.LenTableAgrees | src/gzdec.h:479-507 | `gz_lentable` and the early returns agree with RFC 1951's length bases and extra-bit counts, and every length stays at most 258 |
| LenDist.DistTableAgrees | src/gzdec.h:525-550 | `gz_disttable` plus one and the early return agree with RFC 1951's distance bases and extra-bit counts |
| LenDist.LenRoundTrip | src/gzdec.h:485-507 | every length 3..258, written as its code and extra bits, is read back with exactly those bits consumed |
| LenDist.DistRoundTrip | src/gzdec.h:533-550 | every distance 1..32768, written as its code and extra bits, is read back with exactly those bits consumed |
| CodeLengths.ReadLengthsFrom | src/gzdec.h:409-458 | on success, exactly `count` lengths, each at most 15, extending those already read |
| CodeLengths.ReadLengthsErrors | src/gzdec.h:413-429 | a symbol outside 0..18, or 16 before any length has been read, fails the read |
| CodeLengths.RepeatCounts | src/gzdec.h:424-442 | 16 repeats 3..6 times, 17 writes 3..10 zeros and 18 writes 11..138 zeros |
| CodeLengths.GetHuffT | src/gzdec.h:389-461 | a table it returns decodes the code book of the lengths read, padded with zeros to `maxcount` |
| CodeLengths.ReadLengthsRoundTrip | src/gzdec.h:409-458 | an encoding of a length array as code-length instructions is read back as that array |
| CodeLengths.OneInstr | src/gzdec.h:410-452 | one instruction's code and extra bits append its run to the lengths read |
| CodeLengths.AsWrittenAgrees | src/gzdec.h:448-458 | the loop as written, with its unchecked writes, and the bounds-checked reading agree wherever the former stays inside the array |
| CodeLengths.OvershootRefused | src/gzdec.h:455-458 | a repeat that overshoots `count` but stays inside the array is refused by the final `i != count` test |
| CodeLengths.ReadLengthsPrefix | src/gzdec.h:409-452 | well-formed instructions that fill part of the array bring the loop to the state after them: their lengths written, the cursor just past their bits |
| CodeLengths.RepeatStepRefused | src/gzdec.h:424-458 | a loop turn whose repeat would run past `count` ends the read with no lengths, right after the repeat's extra bits |
| CodeLengths.RepeatPastCountRefused | src/gzdec.h:409-458 | after instructions filling fewer than `count` lengths, a repeat that runs past `count` fails the read, although the same instructions fit RFC 1951's single sequence of lengths |
| Inflate.RepeatAcrossTablesFails | src/gzdec.h:786-800 | a repeat in the literal/length lengths whose run would end among the distance lengths fails the block and writes nothing, where RFC 1951 reads the run on into the distance lengths |
| Inflate.LeadingRepeatOfDistancesFails | src/gzdec.h:794-800 | a 16 as the first distance length fails the block right after its code, where RFC 1951 repeats the last literal/length length |
| CodeLengths.RepeatOverrunsArray | src/gzdec.h:448-452 | with 287 lengths read, a symbol 18 writes past the 288-entry array in the code as written, and the checked reading refuses it |
| Inflate.CopyBack | src/gzdec.h:844-849 | copies byte by byte, each new byte equal to the one `dist` before it, and stops at `outsize` |
| Inflate.CopyBackIsRepeated | src/gzdec.h:844-849 | when it fits, the copy appends the last `dist` bytes repeated periodically to length `len` |
| Inflate.Symbols | src/gzdec.h:809-858 | the symbol loop only appends to the output, never past `outsize`, and only moves the cursor forward |
| Inflate.LiteralIntoFullBuffer | src/gzdec.h:574-579 | a literal decoded with the buffer full fails the block and writes nothing |
| Inflate.GuardAsWrittenNeverFires | src/gzdec.h:838-842 | the guard as written never refuses a copy, and a distance of 1 on an empty output reads before the buffer |
| Inflate.GuardRefusesEarlyReference | src/gzdec.h:829-842 | with the guard corrected, a back-reference longer than the output so far fails the block and writes nothing |
| Inflate.SymbolsRoundTrip | src/gzdec.h:809-858 | the codes of well-formed tokens and then the end-of-block code decode to exactly the tokens' LZ77 expansion, ending right after the end-of-block code |
| Inflate.EndStep | src/gzdec.h:809-812 | the end-of-block code ends the loop successfully with the output unchanged |
| Inflate.LiteralStep | src/gzdec.h:816-822 | a literal's code appends that byte when there is room |
| Inflate.MatchStep | src/gzdec.h:827-850 | a match's length code, extra bits, distance code and extra bits append the repeated bytes |
| Inflate.StoredBlock | src/gzdec.h:695-710 | a stored block always fails after reading two 8-bit fields and leaves the output unchanged |
| Inflate.StoredOrReservedFails | src/gzdec.h:693-807 | block types 0 and 3 fail the block, and the call ends with `GZ_INVFILE` |
| Inflate.FixedBlock | src/gzdec.h:711-760 | a fixed block that succeeds has built both tables and is the symbol loop over them |
| Inflate.ClenRankInverts | src/gzdec.h:593-595 | the code-length order `clenord` is a permutation of 0..18, and the rank table is its inverse |
| Inflate.ReadClens | src/gzdec.h:774-779 | reading `hclen + 4` code-length lengths consumes exactly 3 bits each |
| Inflate.ReadClensResult | src/gzdec.h:774-779 | after the loop, each symbol whose rank was reached holds its 3-bit field, and every other symbol keeps its earlier value |
| Inflate.DynamicBlock | src/gzdec.h:761-803 | a dynamic block only appends to the output, within `outsize`, and returns the 19 code-length lengths it leaves behind |
| Inflate.DynamicTables | src/gzdec.h:781-803 | building the three tables and running the symbol loop only appends to the output, within `outsize` |
| Inflate.DynamicBlockClens | src/gzdec.h:761-779 | after a dynamic block, the code-length lengths are the fields just read for the first `hclen + 4` ranks, and the previous block's values elsewhere |
| Inflate.HlitTestNeverFires | src/gzdec.h:764-771 | `257 + hlit` is at most 288 for every 5-bit `hlit`, so the test never fires |
| Inflate.OneBlock | src/gzdec.h:690-858 | one pass of the block loop only appends to the output within `outsize`, and a successful pass consumes input |
| Inflate.Blocks | src/gzdec.h:688-861 | the block loop ends with `GZ_OK` or `GZ_INVFILE` and only appends to the output within `outsize` |
| Inflate.FixedBlockRoundTrip | src/gzdec.h:688-760 | a final fixed block carrying the codes of well-formed tokens and the end-of-block code ends the loop with `GZ_OK` and exactly their expansion |
| Inflate.OneBlockFixed | src/gzdec.h:690-760 | the header bits 1, 1, 0 select a final fixed block that starts right after them |
| DynamicCodes.CountsRead | src/gzdec.h:764-766 | HLIT, HDIST and HCLEN written least significant bit first in 5, 5 and 4 bits read back as their values, each read starting where the previous one ended |
| DynamicCodes.ClensRoundTrip | src/gzdec.h:774-779 | 3-bit fields written in `clenord` order read back into `arrclen` as exactly the tables' code-length code lengths, provided the earlier `arrclen` already agrees on the symbols the loop does not reach; the reader ends 3 bits per field later |
| DynamicCodes.ClenTable | src/gzdec.h:781-784 | `gz_buildht` on code-length code lengths below 8 whose code is prefix-free and fits `GZ_HTCLEN_MAX` nodes succeeds, and its trie decodes their code book |
| DynamicCodes.LengthsTrie | src/gzdec.h:389-461 | `gz_gethufft` fed the code-length instructions of a length array reads exactly that array padded with zeros, builds a trie decoding its code book, and stops right after the instructions |
| DynamicCodes.DynamicTablesRoundTrip | src/gzdec.h:781-803 | with `arrclen` read, the two length arrays as instructions and then the tokens' codes and the end-of-block code build all three tables and decode to exactly the tokens' expansion, stopping right after the end-of-block code |
| DynamicCodes.DynamicBlockRoundTrip | src/gzdec.h:761-803 | a dynamic block written from valid tables goes through with exactly the tokens' expansion, stops after the end-of-block code and leaves `arrclen` holding the tables' code-length code lengths |
| DynamicCodes.OneBlockDynamic | src/gzdec.h:688-692 | the header bits 1, 0, 1 select a final dynamic block that starts right after them |
| DynamicCodes.LastDynamicRoundTrip | src/gzdec.h:688-858 | a final dynamic block written from valid tables, after blocks whose `arrclen` agrees with the tables on the code-length symbols it does not write (`Unwritten`), ends the block loop with `GZ_OK` and exactly the tokens' expansion |
| Gzip.GzDecSize | src/gzdec.h:875-894 | 0 for inputs shorter than 18 bytes, and always below 2^32 |
| Gzip.GzDecSizeRoundTrip | src/gzdec.h:886-891 | the value of a trailer written little-endian is read back |
| Gzip.GzDecSizeIsTrailer | src/gzdec.h:886-891 | the value read, written little-endian, is the last four bytes of the input |
| Gzip.ReadHeader | src/gzdec.h:633-686 | the header reader ends with OK, a bad magic or a bad method, on the same input |
| Gzip.ReadHeaderStatus | src/gzdec.h:633-644 | a bad magic is reported exactly when the first two bytes are not 1f 8b, and a bad method exactly when the magic is right and the third byte is not 8 |
| Gzip.ReservedBitsIgnored | src/gzdec.h:565-569 | the four flags `gzdec` tests sit in bits 1 to 4 of FLG, so clearing bits 5, 6 and 7 changes none of the tests |
| Gzip.SkipFieldsIgnoreReserved | src/gzdec.h:654-686 | the optional fields are skipped to the same place whatever bits 5, 6 and 7 of FLG hold |
| Gzip.ReservedFlagsAccepted | src/gzdec.h:646-686 | with the right magic and CM, the header is accepted whatever FLG holds, reserved bits included, and read exactly as with those bits cleared |
| Gzip.ReadHeaderRoundTrip | src/gzdec.h:646-686 | any header with any mix of FEXTRA, FNAME, FCOMMENT and FHCRC is skipped, leaving the cursor on the first DEFLATE bit |
| Gzip.FieldsAt | src/gzdec.h:654-686 | the optional fields, laid out in order, are skipped to exactly their end |
| Gzip.GzDec | src/gzdec.h:560-863 | never writes past `outsize`, and writes nothing when it returns `GZ_NOSPACE`, `GZ_INVMAGIC` or `GZ_INVCMETHOD` |
| Gzip.GzDecStatus | src/gzdec.h:607-644 | short inputs and an ISIZE of 0 give `GZ_INVFILE`; `GZ_NOSPACE` exactly when ISIZE exceeds `outsize`; `GZ_INVMAGIC` and `GZ_INVCMETHOD` exactly when an admitted input has a bad magic or method |
| Gzip.HeaderThenBlocks | src/gzdec.h:627-688 | after a valid header, `gzdec` is the block loop started on the first DEFLATE bit with an empty output and zeroed code-length lengths |
| Gzip.GzDecFixedRoundTrip | src/gzdec.h:560-863 | a member made of a valid header and one final fixed block carrying well-formed tokens decodes with `GZ_OK` to exactly their expansion |
| Gzip.GzDecDynamicRoundTrip | src/gzdec.h:560-863 | a member made of a valid header and one final dynamic block, whose tables give length 0 to every code-length symbol the block does not list, decodes with `GZ_OK` to exactly the tokens' expansion |

## Left out

- I/O and the usage comment in the header file are left out: the input and the output buffer are values.
- The global scratch arrays (`gz_range_`, `gz_blcount_`, `gz_nxtcode_`, `gz_tree_`, and the three node arrays) are left out. They become per-call values, which is safe because `gzdec` is single-threaded and refills each array before use.
- `gz_memset` is left out as an operation. Its effect is part of the functions that use it: `NewArena`, the zeroed code-length arrays, and `Zeros`.
- The NULL checks on `in`, `ht` and the scratch pointers are left out, because values cannot be NULL.
- The trailer CRC32, and any comparison of ISIZE with the bytes written, are left out because the C does not check them either. ISIZE only gates `outsize`.
- Only the first member of a multi-member input is decoded, as in the C; the bytes after the final block are ignored.
- The meaning of FTEXT and of the FEXTRA sub-fields is left out, because the C skips both.
- The header CRC16 is left out; `FHCRC` is skipped as one 16-bit read.
- Undefined behaviour in the C is left out. Where the C writes or reads outside an array, the model either refuses the input or exhibits the out-of-bounds access as a separate datatype case (see Findings). The one signed overflow, in the code computation of `gz_buildht`, is described under `HuffTable.BuildHt` below.
- Runs.ToRange: requires at least one length. For `count == 0` the C returns 1 without writing a run, and `gz_buildht` then reads `range[0]` as an earlier call left it. Every call site passes 19, 32 or 288 lengths, so this case is not reachable from `gzdec`.
- HuffTable.BuildHt: requires at least one length, for the reason given for `Runs.ToRange`, and computes codes with unbounded integers. In the C, `code` is a signed `int`. With lengths of 23 or more and enough zero-length symbols, `(code + blcount[bits-1]) << 1` exceeds its range, which is undefined behaviour. The lengths `gzdec` passes are at most 15, so this cannot happen there.
- Trie.HuffDecRoundTrip: a prefix-free code book is a hypothesis. `gz_buildht` does not check a code book for being prefix-free or for being oversubscribed, and does not refuse either.
- HuffTable.BuildHtSucceeds: states a sufficient condition for success, not an exact one. For a code book that is not prefix-free, whether insertion succeeds is stated only one symbol at a time, by `Trie.InsertPathOutcome`.
- DynamicCodes.DynamicBlockRoundTrip: the encoder keeps the literal/length and the distance instructions in two lists, each filling its own array (`Fits`), so no repeat in it crosses from one array into the other. `gzdec` refuses such a repeat, as `Inflate.RepeatAcrossTablesFails` and `Inflate.LeadingRepeatOfDistancesFails` state, so a stream that uses one is outside the round trip.
- DynamicCodes.DynamicBlockRoundTrip: assumes that the `arrclen` left by earlier blocks agrees with the tables on the code-length symbols the block does not write (`Unwritten`). What the block does with any other `arrclen` is stated by `Inflate.DynamicBlockClens` alone.
- DynamicCodes.LastDynamicRoundTrip: carries the same `Unwritten` hypothesis as `DynamicCodes.DynamicBlockRoundTrip`, because the final block reads its code-length code lengths over the `arrclen` earlier blocks left. `Gzip.GzDecDynamicRoundTrip` meets it with the zeroed `arrclen` of a first block.
- The round trips cover one final block after the header. A member with several blocks is covered by the block-loop invariants of `Inflate.Blocks`, not by a round trip.
- Stored blocks are left out as a decoding path. The C cannot decode them, and the model only states that they fail.

## Findings

| source | as written | input that shows it | evidently intended | confidence | as-written member | corrected member |
|---|---|---|---|---|---|---|
| src/gzdec.h:838-842 | the guard tests `outp < out`, the write pointer, which never lies before the buffer | a length code followed by distance code 0 (distance 1) as the first symbol of the first block: `backp` points one byte before `out` and `EMIT(*backp)` reads it | refuse a back-reference whose distance exceeds the bytes written so far (`backp < out`) | not executed | Inflate.GuardAsWrittenNeverFires | Inflate.GuardRefusesEarlyReference |
| src/gzdec.h:448-452 | the repeat loop writes `rep` entries with no bound, and only `i != count` after the loop refuses an overshoot | a literal/length array of 288 entries with 287 lengths read, then symbol 18 with extra bits 0: entries 287..297 are written into the 288-entry `arrll` | refuse `i + rep > count` before writing | not executed | CodeLengths.RepeatOverrunsArray | CodeLengths.ReadLengthsFrom |
