/** `gzdec` and `gzdecsize`: the GZIP member header of section 2.3 of RFC 1952
    is checked and skipped, then the DEFLATE blocks are decoded into a buffer
    of `outsize` bytes. The trailer's CRC32 and ISIZE are not checked against
    the output; ISIZE only sizes the buffer. */
module Gzip {
  import opened Base
  import opened BitStream
  import opened CodeLengths
  import opened HuffTable
  import opened Inflate
  import opened FixedCodes
  import opened DynamicCodes

  /** The shortest input `gzdec` and `gzdecsize` accept: a 10-byte header and
      an 8-byte trailer. */
  const MIN_INPUT: nat := 18

  /** The width of `gz_readbits(&ins, 8)`; 16-bit fields are read as `2 * BYTE`
      bits, as the C writes `2*8`. */
  const BYTE: nat := 8

  /** Bit positions of the flags in FLG. */
  const FHCRC: nat := 1
  const FEXTRA: nat := 2
  const FNAME: nat := 3
  const FCOMMENT: nat := 4

  /** The C test `flags & F` for the flag at bit `k`. */
  predicate HasFlag(flags: nat, k: nat) {
    Digit(flags, k) == 1
  }

  // ---------------------------------------------------------------------------
  // ISIZE

  /** `gzdecsize`: the little-endian 32-bit value of the last four bytes
      (the `|=` of disjoint shifts is their sum), or 0 when the input is
      shorter than 18 bytes. */
  function GzDecSize(input: seq<byte>): (n: nat)
    ensures n < 0x1_0000_0000
    ensures |input| < MIN_INPUT ==> n == 0
  {
    if |input| < MIN_INPUT then 0
    else
      var k := |input| - 4;
      input[k] as nat + 0x100 * input[k + 1] as nat + 0x1_0000 * input[k + 2] as nat + 0x100_0000 * input[k + 3] as nat
  }

  /** A 32-bit value as four little-endian bytes, as section 2.1 of RFC 1952
      stores ISIZE. */
  function Le32(n: nat): (b: seq<byte>)
    requires n < 0x1_0000_0000
    ensures |b| == 4
  {
    [n % 0x100, n / 0x100 % 0x100, n / 0x1_0000 % 0x100, n / 0x100_0000]
  }

  /** ISIZE written little-endian is read back by `gzdecsize`. */
  lemma GzDecSizeRoundTrip(prefix: seq<byte>, n: nat)
    requires |prefix| >= MIN_INPUT - 4 && n < 0x1_0000_0000
    ensures GzDecSize(prefix + Le32(n)) == n
  {
    var input := prefix + Le32(n);
    var k := |input| - 4;
    assert input[k..] == Le32(n);
    var b0, b1, b2, b3 := n % 0x100, n / 0x100 % 0x100, n / 0x1_0000 % 0x100, n / 0x100_0000;
    assert n / 0x100 == b1 + 0x100 * (n / 0x1_0000);
    assert n / 0x1_0000 == b2 + 0x100 * b3;
    assert n == b0 + 0x100 * (n / 0x100);
  }

  /** The size `gzdecsize` reports is the last four bytes read little-endian. */
  lemma GzDecSizeIsTrailer(input: seq<byte>)
    requires |input| >= MIN_INPUT
    ensures Le32(GzDecSize(input)) == input[|input| - 4..]
  {
    var k := |input| - 4;
    Le32Digits(input[k] as nat, input[k + 1] as nat, input[k + 2] as nat, input[k + 3] as nat);
  }

  /** Four bytes combined little-endian are split back into themselves. */
  lemma Le32Digits(b0: nat, b1: nat, b2: nat, b3: nat)
    requires b0 < 0x100 && b1 < 0x100 && b2 < 0x100 && b3 < 0x100
    ensures Le32(b0 + 0x100 * b1 + 0x1_0000 * b2 + 0x100_0000 * b3) == [b0, b1, b2, b3]
  {
    var n := b0 + 0x100 * b1 + 0x1_0000 * b2 + 0x100_0000 * b3;
    assert n % 0x100 == b0;
    assert n / 0x100 % 0x100 == b1 by {
      assert n / 0x100 == b1 + 0x100 * b2 + 0x1_0000 * b3;
    }
    assert n / 0x1_0000 % 0x100 == b2 by {
      assert n / 0x1_0000 == b2 + 0x100 * b3;
    }
    assert n / 0x100_0000 == b3;
  }

  // ---------------------------------------------------------------------------
  // The header

  /** `n` bytes read and dropped: the loop over `xlen` and the six
      `gz_readbits(&ins, 8)` after FLG. */
  function SkipBytes(c: Cursor, n: nat): (r: Cursor)
    requires c.Valid()
    ensures Follows(c, r) && r.pos == Min(c.pos + 8 * n, 8 * |c.data|)
    decreases n
  {
    if n == 0 then c else SkipBytes(ReadBits(c, BYTE).cur, n - 1)
  }

  /** The FNAME and FCOMMENT loops: bytes up to and including a zero. An
      exhausted input reads as zero, so the loop ends there at the latest. */
  function SkipString(c: Cursor): (r: Cursor)
    requires c.Valid()
    ensures Follows(c, r)
    decreases c.Unread()
  {
    var b := ReadBits(c, BYTE);
    if b.value == 0 then b.cur
    else
      NonzeroReadAdvances(c, 8);
      SkipString(b.cur)
  }

  /** The header check's outcome and the reader at the first block. */
  datatype HeaderRead = HeaderRead(status: Status, cur: Cursor)

  /** The header part of `gzdec`: ID1 and ID2, CM, FLG, six bytes of MTIME,
      XFL and OS, then the optional fields FLG announces. */
  function ReadHeader(input: seq<byte>): (r: HeaderRead)
    requires |input| > 0
    ensures r.cur.Valid() && r.cur.data == input
    ensures r.status in {Ok, InvMagic, InvCMethod}
  {
    var c := Cursor(input, 0);
    var id1 := ReadBits(c, BYTE);
    var id2 := ReadBits(id1.cur, BYTE);
    if id1.value != 0x1f || id2.value != 0x8b then HeaderRead(InvMagic, id2.cur)
    else
      var cm := ReadBits(id2.cur, BYTE);
      if cm.value != 8 then HeaderRead(InvCMethod, cm.cur)
      else
        var flags := ReadBits(cm.cur, BYTE);
        HeaderRead(Ok, SkipOptional(SkipBytes(flags.cur, 6), flags.value))
  }

  /** The optional fields in the order the C tests them, which is the order
      section 2.3 of RFC 1952 lays them out in. */
  const OPTIONAL: seq<nat> := [FEXTRA, FNAME, FCOMMENT, FHCRC]

  /** The optional header fields FLG announces, skipped one after another. */
  function SkipOptional(c: Cursor, flags: nat): (r: Cursor)
    requires c.Valid()
    ensures Follows(c, r)
  {
    SkipFields(c, flags, OPTIONAL)
  }

  function SkipFields(c: Cursor, flags: nat, fields: seq<nat>): (r: Cursor)
    requires c.Valid()
    ensures Follows(c, r)
    decreases |fields|
  {
    if fields == [] then c
    else SkipFields(SkipField(c, flags, fields[0]), flags, fields[1..])
  }

  /** One `if(flags & F)` of the header: FEXTRA is the 16-bit XLEN then XLEN
      bytes, FNAME and FCOMMENT are zero-terminated, FHCRC is a 16-bit read;
      a field FLG does not announce is not read. */
  function SkipField(c: Cursor, flags: nat, field: nat): (r: Cursor)
    requires c.Valid()
    ensures Follows(c, r)
  {
    if !HasFlag(flags, field) then c
    else if field == FEXTRA then
      var xlen := ReadBits(c, 2 * BYTE);
      SkipBytes(xlen.cur, xlen.value)
    else if field == FHCRC then ReadBits(c, 2 * BYTE).cur
    else SkipString(c)
  }

  // ---------------------------------------------------------------------------
  // gzdec

  /** `gzdec(in, insize, out, outsize)`: the size checks, the header, then the
      blocks, starting with `arrclen` all zero. */
  function GzDec(input: seq<byte>, outsize: nat): (r: Outcome)
    ensures |r.out| <= outsize
    ensures r.status != Ok && r.status != InvFile ==> r.out == []
  {
    if |input| < MIN_INPUT then Outcome(InvFile, [])
    else
      var isize := GzDecSize(input);
      if isize == 0 then Outcome(InvFile, [])
      else if outsize < isize then Outcome(NoSpace, [])
      else
        var h := ReadHeader(input);
        if h.status != Ok then Outcome(h.status, [])
        else Blocks(h.cur, [], Zeros(MAXCLEN), outsize)
  }

  /** What `gzdec` answers before it looks at any block: `InvFile` for short
      inputs and a zero ISIZE, `NoSpace` when ISIZE exceeds the buffer,
      `InvMagic` and `InvCMethod` for the first three header bytes, and
      otherwise whatever the block loop answers (`Ok` or `InvFile`). */
  lemma GzDecStatus(input: seq<byte>, outsize: nat)
    ensures var r := GzDec(input, outsize);
      (|input| < MIN_INPUT || GzDecSize(input) == 0) ==> r == Outcome(InvFile, [])
    ensures GzDec(input, outsize).status == NoSpace
      <==> |input| >= MIN_INPUT && 0 < GzDecSize(input) && outsize < GzDecSize(input)
    ensures GzDec(input, outsize).status == InvMagic
      <==> Admitted(input, outsize) && (input[0] != 0x1f || input[1] != 0x8b)
    ensures GzDec(input, outsize).status == InvCMethod
      <==> Admitted(input, outsize) && input[0] == 0x1f && input[1] == 0x8b && input[2] != 8
    ensures GzDec(input, outsize).status == Ok ==>
      Admitted(input, outsize) && input[0] == 0x1f && input[1] == 0x8b && input[2] == 8
  {
    var r := GzDec(input, outsize);
    if |input| < MIN_INPUT || GzDecSize(input) == 0 {
      assert r == Outcome(InvFile, []);
    } else if outsize < GzDecSize(input) {
      assert r == Outcome(NoSpace, []);
    } else {
      ReadHeaderStatus(input);
      var h := ReadHeader(input);
      if h.status == Ok {
        var b := Blocks(h.cur, [], Zeros(MAXCLEN), outsize);
        assert r == b;
        assert b.status == Ok || b.status == InvFile;
      } else {
        assert r == Outcome(h.status, []);
      }
    }
  }

  /** The header check fails exactly on a wrong ID1/ID2 or a CM other than 8. */
  lemma ReadHeaderStatus(input: seq<byte>)
    requires |input| >= 3
    ensures ReadHeader(input).status == InvMagic <==> input[0] != 0x1f || input[1] != 0x8b
    ensures ReadHeader(input).status == InvCMethod <==> input[0] == 0x1f && input[1] == 0x8b && input[2] != 8
    ensures ReadHeader(input).status == Ok <==> input[0] == 0x1f && input[1] == 0x8b && input[2] == 8
  {
    var c := Cursor(input, 0);
    assert c == Cursor(input, 8 * 0);
    ReadByte(input, 0);
    var id1 := ReadBits(c, BYTE);
    assert id1.cur == Cursor(input, 8 * 1);
    ReadByte(input, 1);
    var id2 := ReadBits(id1.cur, BYTE);
    assert id2.cur == Cursor(input, 8 * 2);
    ReadByte(input, 2);
  }

  /** The flags `gzdec` tests are bits 1 to 4 of FLG, so bits 5, 6 and 7,
      which section 2.3.1.2 of RFC 1952 reserves, change none of the tests. */
  lemma ReservedBitsIgnored(flags: nat, field: nat)
    requires field < 5
    ensures HasFlag(flags, field) == HasFlag(flags % 32, field)
  {
    Pow2Values();
    assert flags == flags % 32 + (flags / 32) * Pow2(5);
    DigitsBelowUnchanged(flags % 32, flags / 32, 5, field);
  }

  /** The optional fields are skipped alike whatever the reserved bits hold. */
  lemma {:induction false} SkipFieldsIgnoreReserved(c: Cursor, flags: nat, fields: seq<nat>)
    requires c.Valid() && forall i :: 0 <= i < |fields| ==> fields[i] < 5
    ensures SkipFields(c, flags, fields) == SkipFields(c, flags % 32, fields)
    decreases |fields|
  {
    if fields != [] {
      ReservedBitsIgnored(flags, fields[0]);
      var c1 := SkipField(c, flags, fields[0]);
      assert c1 == SkipField(c, flags % 32, fields[0]);
      SkipFieldsIgnoreReserved(c1, flags, fields[1..]);
    }
  }

  /** A header with a reserved FLG bit set is accepted, where section 2.3.1.2
      of RFC 1952 requires an error, and is read as if those bits were clear. */
  lemma ReservedFlagsAccepted(input: seq<byte>)
    requires |input| >= 4 && input[0] == 0x1f && input[1] == 0x8b && input[2] == 8
    ensures ReadHeader(input).status == Ok
    ensures ReadHeader(input).cur == SkipOptional(SkipBytes(Cursor(input, 32), 6), input[3] % 32)
  {
    ReadHeaderStatus(input);
    assert Cursor(input, 24) == Cursor(input, 8 * 3);
    ReadByte(input, 3);
    var cm := ReadBits(ReadBits(ReadBits(Cursor(input, 0), BYTE).cur, BYTE).cur, BYTE);
    assert cm.cur == Cursor(input, 24) by {
      ReadByte(input, 0);
      ReadByte(input, 1);
      ReadByte(input, 2);
    }
    SkipFieldsIgnoreReserved(SkipBytes(Cursor(input, 32), 6), input[3], OPTIONAL);
  }

  /** The size checks `gzdec` makes before reading the header pass. */
  predicate Admitted(input: seq<byte>, outsize: nat) {
    |input| >= MIN_INPUT && 0 < GzDecSize(input) <= outsize
  }

  // ---------------------------------------------------------------------------
  // Writing a header

  /** The fields of a member header (section 2.3.1 of RFC 1952): FLG, the six
      bytes MTIME, XFL and OS, and the optional fields FLG announces. */
  datatype Header = Header(flags: byte, mtimeXflOs: seq<byte>, extra: seq<byte>, name: seq<byte>, comment: seq<byte>, hcrc: seq<byte>)

  /** Field sizes fit and the zero-terminated fields hold no zero. */
  ghost predicate ValidHeader(h: Header) {
    && |h.mtimeXflOs| == 6 && |h.extra| < 0x1_0000 && |h.hcrc| == 2
    && (forall k :: 0 <= k < |h.name| ==> h.name[k] != 0)
    && (forall k :: 0 <= k < |h.comment| ==> h.comment[k] != 0)
  }

  /** A 16-bit value as two little-endian bytes. */
  function Le16(n: nat): (b: seq<byte>)
    requires n < 0x1_0000
    ensures |b| == 2 && U16(b[0], b[1]) == n
  {
    [n % 0x100, n / 0x100]
  }

  /** The bytes of one optional field, or none when FLG does not announce it. */
  function FieldBytes(h: Header, field: nat): seq<byte>
    requires |h.extra| < 0x1_0000
  {
    if !HasFlag(h.flags, field) then []
    else if field == FEXTRA then Le16(|h.extra|) + h.extra
    else if field == FHCRC then h.hcrc
    else if field == FNAME then h.name + [0]
    else h.comment + [0]
  }

  function FieldsBytes(h: Header, fields: seq<nat>): seq<byte>
    requires |h.extra| < 0x1_0000
  {
    if fields == [] then [] else FieldBytes(h, fields[0]) + FieldsBytes(h, fields[1..])
  }

  /** The bytes of a member header with compression method 8. */
  function HeaderBytes(h: Header): seq<byte>
    requires |h.extra| < 0x1_0000
  {
    [0x1f, 0x8b, 8, h.flags] + h.mtimeXflOs + FieldsBytes(h, OPTIONAL)
  }

  /** A zero-terminated field whose zero is byte `e`, starting at byte `i`,
      is skipped up to and including its zero. */
  lemma {:induction false} SkipStringAt(data: seq<byte>, i: nat, e: nat)
    requires i <= e < |data| && data[e] == 0
    requires forall k :: i <= k < e ==> data[k] != 0
    ensures SkipString(Cursor(data, 8 * i)) == Cursor(data, 8 * (e + 1))
    decreases e - i
  {
    var c := Cursor(data, 8 * i);
    ReadByte(data, i);
    var b := ReadBits(c, BYTE);
    assert b.cur == Cursor(data, 8 * (i + 1));
    if i < e {
      assert b.value != 0;
      SkipStringAt(data, i + 1, e);
    } else {
      assert b.value == 0;
    }
  }

  /** `bytes` sit at byte `i` of `data`. */
  ghost predicate BytesAt(data: seq<byte>, i: nat, bytes: seq<byte>) {
    i + |bytes| <= |data| && data[i..i + |bytes|] == bytes
  }

  lemma BytesAtSplit(data: seq<byte>, i: nat, a: seq<byte>, b: seq<byte>)
    requires BytesAt(data, i, a + b)
    ensures BytesAt(data, i, a) && BytesAt(data, i + |a|, b)
  {
    assert data[i..i + |a|] == (a + b)[..|a|];
    assert data[i + |a|..i + |a| + |b|] == (a + b)[|a|..];
  }

  lemma BytesAtMiddle(p: seq<byte>, x: seq<byte>, q: seq<byte>)
    ensures BytesAt(p + x + q, |p|, x)
  {
    assert (p + x + q)[|p|..|p| + |x|] == x;
  }

  /** FEXTRA: XLEN, then XLEN bytes. */
  lemma ExtraAt(data: seq<byte>, i: nat, extra: seq<byte>)
    requires |extra| < 0x1_0000 && BytesAt(data, i, Le16(|extra|) + extra)
    ensures var xlen := ReadBits(Cursor(data, 8 * i), 2 * BYTE);
      SkipBytes(xlen.cur, xlen.value) == Cursor(data, 8 * (i + 2 + |extra|))
  {
    var f := Le16(|extra|) + extra;
    assert data[i] == f[0] && data[i + 1] == f[1];
    ReadU16(data, i, 2 * BYTE);
  }

  /** FNAME or FCOMMENT: a zero-terminated string. */
  lemma StringAt(data: seq<byte>, i: nat, s: seq<byte>)
    requires forall k :: 0 <= k < |s| ==> s[k] != 0
    requires BytesAt(data, i, s + [0])
    ensures SkipString(Cursor(data, 8 * i)) == Cursor(data, 8 * (i + |s| + 1))
  {
    assert data[i + |s|] == (s + [0])[|s|];
    forall k | i <= k < i + |s|
      ensures data[k] != 0
    {
      assert data[k] == (s + [0])[k - i];
    }
    SkipStringAt(data, i, i + |s|);
  }

  /** One optional field laid out at byte `i` is skipped. */
  lemma FieldAt(data: seq<byte>, i: nat, h: Header, field: nat)
    requires ValidHeader(h) && BytesAt(data, i, FieldBytes(h, field))
    ensures SkipField(Cursor(data, 8 * i), h.flags, field).pos == 8 * (i + |FieldBytes(h, field)|)
  {
    if HasFlag(h.flags, field) {
      if field == FEXTRA {
        ExtraAt(data, i, h.extra);
      } else if field == FHCRC {
      } else if field == FNAME {
        StringAt(data, i, h.name);
      } else {
        StringAt(data, i, h.comment);
      }
    }
  }

  /** The optional fields laid out from byte `i` are skipped. */
  lemma {:induction false} FieldsAt(data: seq<byte>, i: nat, h: Header, fields: seq<nat>)
    requires ValidHeader(h) && BytesAt(data, i, FieldsBytes(h, fields))
    ensures SkipFields(Cursor(data, 8 * i), h.flags, fields).pos == 8 * (i + |FieldsBytes(h, fields)|)
    decreases |fields|
  {
    if fields != [] {
      var f, rest := FieldBytes(h, fields[0]), FieldsBytes(h, fields[1..]);
      BytesAtSplit(data, i, f, rest);
      FieldAt(data, i, h, fields[0]);
      FieldsAt(data, i + |f|, h, fields[1..]);
      SkipFieldsPos(Cursor(data, 8 * i), h.flags, fields, 8 * (i + |f|), 8 * (i + |f| + |rest|));
      assert |FieldsBytes(h, fields)| == |f| + |rest|;
    }
  }

  /** Where skipping the fields ends, from where the first one ends. */
  lemma SkipFieldsPos(c0: Cursor, flags: nat, fields: seq<nat>, p1: nat, p: nat)
    requires c0.Valid() && fields != []
    requires SkipField(c0, flags, fields[0]).pos == p1
    requires SkipFields(Cursor(c0.data, p1), flags, fields[1..]).pos == p
    ensures SkipFields(c0, flags, fields).pos == p
  {
    SameCursor(SkipField(c0, flags, fields[0]), Cursor(c0.data, p1));
  }

  /** The fixed ten bytes of a header lead to the optional fields. */
  lemma ReadHeaderFixed(input: seq<byte>, flags: byte)
    requires 10 <= |input| && input[..4] == [0x1f, 0x8b, 8, flags]
    ensures ReadHeader(input) == HeaderRead(Ok, SkipOptional(Cursor(input, 80), flags))
  {
    assert input[0] == 0x1f && input[1] == 0x8b && input[2] == 8 && input[3] == flags by {
      assert input[..4][3] == flags;
    }
    ReadByte(input, 0);
    ReadByte(input, 1);
    ReadByte(input, 2);
    ReadByte(input, 3);
    assert Cursor(input, 0) == Cursor(input, 8 * 0);
  }

  /** A header written from its fields is read back by `gzdec`: the status is
      `Ok` and the first block starts right after the header. */
  lemma ReadHeaderRoundTrip(h: Header, body: seq<byte>)
    requires ValidHeader(h)
    ensures var input := HeaderBytes(h) + body;
      ReadHeader(input) == HeaderRead(Ok, Cursor(input, 8 * |HeaderBytes(h)|))
  {
    var input := HeaderBytes(h) + body;
    var fixed: seq<byte> := [0x1f, 0x8b, 8, h.flags] + h.mtimeXflOs;
    var fields := FieldsBytes(h, OPTIONAL);
    assert input == fixed + fields + body;
    assert input[..4] == [0x1f, 0x8b, 8, h.flags];
    ReadHeaderFixed(input, h.flags);
    BytesAtMiddle(fixed, fields, body);
    FieldsAt(input, 10, h, OPTIONAL);
    SameCursor(SkipOptional(Cursor(input, 80), h.flags), Cursor(input, 8 * |HeaderBytes(h)|));
  }

  /** End to end: an input the size checks admit, holding a header written
      from its fields and then a last block with fixed codes, decodes with
      status `Ok` to exactly the LZ77 expansion of the block's tokens. */
  lemma GzDecFixedRoundTrip(h: Header, input: seq<byte>, outsize: nat, tokens: seq<Token>, codes: Codes)
    requires ValidHeader(h) && HeaderBytes(h) <= input && Admitted(input, outsize)
    requires CodesOf(CodeBook(FixedLitLengths()), CodeBook(FixedDistLengths()), codes, tokens)
    requires WellFormed([], tokens) && |Lz77([], tokens)| <= outsize
    requires BitsAt(Cursor(input, 8 * |HeaderBytes(h)|), LastFixedHeader + (TokensBits(tokens, codes) + codes.ll[END_OF_BLOCK]))
    ensures GzDec(input, outsize) == Outcome(Ok, Lz77([], tokens))
  {
    var c := Cursor(input, 8 * |HeaderBytes(h)|);
    HeaderThenBlocks(h, input, outsize);
    FixedBlockRoundTrip(c, [], Zeros(MAXCLEN), outsize, tokens, codes);
  }

  /** End to end: an input the size checks admit, holding a header written
      from its fields and then a last block with dynamic codes, decodes with
      status `Ok` to exactly the LZ77 expansion of the block's tokens. The
      code-length code lengths start zeroed, so the tables must give length 0
      to every code-length symbol the block does not list, as RFC 1951 does. */
  lemma GzDecDynamicRoundTrip(
    h: Header, input: seq<byte>, outsize: nat, t: Tables, tokens: seq<Token>, codes: Codes)
    requires ValidHeader(h) && HeaderBytes(h) <= input && Admitted(input, outsize)
    requires ValidTables(t) && Unwritten(t, Zeros(MAXCLEN))
    requires CodesOf(CodeBook(LitLengths(t)), CodeBook(DistLengths(t)), codes, tokens)
    requires WellFormed([], tokens) && |Lz77([], tokens)| <= outsize
    requires BitsAt(Cursor(input, 8 * |HeaderBytes(h)|),
      LastDynamicHeader + (TablesBits(t) + (TokensBits(tokens, codes) + codes.ll[END_OF_BLOCK])))
    ensures GzDec(input, outsize) == Outcome(Ok, Lz77([], tokens))
  {
    var c := Cursor(input, 8 * |HeaderBytes(h)|);
    HeaderThenBlocks(h, input, outsize);
    LastDynamicRoundTrip(c, [], Zeros(MAXCLEN), outsize, t, tokens, codes);
  }

  /** Past the size checks and a header written from its fields, `gzdec` is
      the block loop from the first byte after the header. */
  lemma HeaderThenBlocks(h: Header, input: seq<byte>, outsize: nat)
    requires ValidHeader(h) && HeaderBytes(h) <= input && Admitted(input, outsize)
    ensures GzDec(input, outsize) == Blocks(Cursor(input, 8 * |HeaderBytes(h)|), [], Zeros(MAXCLEN), outsize)
  {
    var body := input[|HeaderBytes(h)|..];
    assert input == HeaderBytes(h) + body;
    ReadHeaderRoundTrip(h, body);
  }
}
