/** The block loop of `gzdec`: DEFLATE blocks (section 3.2.3 of RFC 1951) until
    the one marked last, each decoded with fixed or dynamic Huffman tables into
    literals and back-references copied inside the output buffer. */
module Inflate {
  import opened Base
  import opened BitStream
  import opened Trie
  import opened HuffTable
  import opened CodeLengths
  import opened LenDist
  import opened FixedCodes

  /** `enum gz_result`. */
  datatype Status = Ok | InvMagic | InvCMethod | InvFile | NoSpace

  /** `GZ_HTCLEN_MAX`: a node array of `2n - 1` nodes for the 19 code-length
      symbols. */
  const HTCLEN_MAX: nat := 37

  /** `MAXCLEN`: the size of the code-length alphabet. */
  const MAXCLEN: nat := 19

  /** The end-of-block symbol. */
  const END_OF_BLOCK: nat := 256

  /** `clenord`: the order in which code-length code lengths are stored. */
  const ClenOrder: seq<nat> := [16, 17, 18, 0, 8, 7, 9, 6, 10, 5, 11, 4, 12, 3, 13, 2, 14, 1, 15]

  // ---------------------------------------------------------------------------
  // Output

  /** A reader, the bytes written so far, and whether the step went through
      (`false` is an `GZ_INVFILE` return). */
  datatype Step = Step(ok: bool, cur: Cursor, out: seq<byte>)

  /** The back-reference loop: `EMIT(*backp++)` `len` times, each byte taken
      `dist` positions back, so a copy may overlap the bytes it writes. It
      stops when the buffer of `outsize` bytes is full. */
  function CopyBack(out: seq<byte>, dist: nat, len: nat, outsize: nat): (r: seq<byte>)
    requires 1 <= dist <= |out| <= outsize
    ensures |r| == Min(|out| + len, outsize) && out <= r
    ensures forall k :: |out| <= k < |r| ==> r[k] == r[k - dist]
    decreases len
  {
    if len == 0 || |out| == outsize then out
    else
      var r := CopyBack(out + [out[|out| - dist]], dist, len - 1, outsize);
      assert (out + [out[|out| - dist]])[|out|] == out[|out| - dist];
      r
  }

  /** The bytes a back-reference produces, as section 3.2.3 of RFC 1951
      describes them: the last `dist` bytes, repeated as often as needed. */
  function Repeated(out: seq<byte>, dist: nat, len: nat): (r: seq<byte>)
    requires 1 <= dist <= |out|
    ensures |r| == len
    decreases len
  {
    var window := out[|out| - dist..];
    if len <= dist then window[..len] else window + Repeated(out, dist, len - dist)
  }

  /** Byte `k` of a repetition is byte `k` of the window, or the byte `dist`
      before it. */
  lemma {:induction false} RepeatedPeriodic(out: seq<byte>, dist: nat, len: nat, k: nat)
    requires 1 <= dist <= |out| && k < len
    ensures Repeated(out, dist, len)[k] ==
      if k < dist then out[|out| - dist + k] else Repeated(out, dist, len)[k - dist]
    decreases len
  {
    if len > dist && k >= dist {
      var rest := Repeated(out, dist, len - dist);
      assert Repeated(out, dist, len)[k] == rest[k - dist];
      if k - dist >= dist {
        RepeatedPeriodic(out, dist, len - dist, k - dist);
        assert Repeated(out, dist, len)[k - dist] == rest[k - 2 * dist];
      } else {
        RepeatedPeriodic(out, dist, len - dist, k - dist);
      }
    }
  }

  /** When the buffer has room, the byte loop produces exactly the RFC's copy. */
  lemma CopyBackIsRepeated(out: seq<byte>, dist: nat, len: nat, outsize: nat)
    requires 1 <= dist <= |out| && |out| + len <= outsize
    ensures CopyBack(out, dist, len, outsize) == out + Repeated(out, dist, len)
  {
    var r := CopyBack(out, dist, len, outsize);
    var q := Repeated(out, dist, len);
    forall k | 0 <= k < len
      ensures r[|out| + k] == q[k]
    {
      CopyStep(out, dist, len, outsize, k);
    }
    assert r == out + q;
  }

  lemma {:induction false} CopyStep(out: seq<byte>, dist: nat, len: nat, outsize: nat, k: nat)
    requires 1 <= dist <= |out| && |out| + len <= outsize && k < len
    ensures CopyBack(out, dist, len, outsize)[|out| + k] == Repeated(out, dist, len)[k]
    decreases k
  {
    var r := CopyBack(out, dist, len, outsize);
    RepeatedPeriodic(out, dist, len, k);
    assert r[|out| + k] == r[|out| + k - dist];
    if k >= dist {
      CopyStep(out, dist, len, outsize, k - dist);
    }
  }

  /** `EMIT(b)`: a full buffer fails the block. */
  function Emit(out: seq<byte>, b: byte, outsize: nat): Option<seq<byte>> {
    if |out| >= outsize then None else Some(out + [b])
  }

  // ---------------------------------------------------------------------------
  // The symbol loop of a compressed block

  /** The inner loop of `gzdec` for one block: decode literal/length symbols
      until 256. A literal is emitted; a length symbol 257..287 is followed by
      its extra bits, a distance code and that code's extra bits, and then the
      back-reference is copied. Anything else, and a back-reference reaching
      before the start of the output, fail the block. */
  function Symbols(htll: seq<Node>, htdist: seq<Node>, c: Cursor, out: seq<byte>, outsize: nat): (r: Step)
    requires |htll| > 0 && Linked(htll) && |htdist| > 0 && Linked(htdist)
    requires c.Valid() && |out| <= outsize
    ensures Follows(c, r.cur) && out <= r.out && |r.out| <= outsize
    decreases outsize - |out|
  {
    var d := HuffDec(htll, c);
    if d.sym == END_OF_BLOCK as int then Step(true, d.cur, out)
    else if d.sym < 0 || d.sym > LLLEN as int then Step(false, d.cur, out)
    else if d.sym <= 255 then
      match Emit(out, d.sym, outsize)
      case None => Step(false, d.cur, out)
      case Some(out2) => Symbols(htll, htdist, d.cur, out2, outsize)
    else if d.sym < LLLEN as int then
      var len := GetLen(d.sym, d.cur);
      var dcode := HuffDec(htdist, len.cur);
      var dist := GetDist(dcode.sym, dcode.cur);
      if dist.value < 0 || len.value <= 0 then Step(false, dist.cur, out)
      else if dist.value > |out| then Step(false, dist.cur, out)
      else
        var out2 := CopyBack(out, dist.value, len.value, outsize);
        if |out| + len.value > outsize then Step(false, dist.cur, out2)
        else Symbols(htll, htdist, dist.cur, out2, outsize)
    else Step(false, d.cur, out)
  }

  /** `EMIT` into a full buffer fails the block (`GZ_INVFILE`, not
      `GZ_NOSPACE`) and writes nothing. */
  lemma LiteralIntoFullBuffer(htll: seq<Node>, htdist: seq<Node>, c: Cursor, out: seq<byte>, outsize: nat, b: byte, c1: Cursor)
    requires |htll| > 0 && Linked(htll) && |htdist| > 0 && Linked(htdist) && c.Valid()
    requires HuffDec(htll, c) == Decoded(b as int, c1) && |out| == outsize
    ensures var r := Symbols(htll, htdist, c, out, outsize);
      !r.ok && r.out == out && r.cur == c1
  {
    assert Emit(out, b, outsize).None?;
  }

  /** What the back-reference code of `gzdec` does as written: its guard
      `outp < out` tests the write pointer, which never lies before the buffer,
      instead of `backp = outp - dist`; a distance longer than the output so
      far then reads before the buffer. */
  datatype CopyAsWritten = CopyRefused | ReadsBeforeBuffer | Copied(out: seq<byte>)

  function BackRefAsWritten(out: seq<byte>, dist: nat, len: nat, outsize: nat): (w: CopyAsWritten)
    requires 1 <= dist && |out| <= outsize
  {
    var outp := |out|;
    if outp < 0 then CopyRefused
    else if dist > |out| then ReadsBeforeBuffer
    else Copied(CopyBack(out, dist, len, outsize))
  }

  /** The guard as written refuses nothing: a back-reference of distance 1 as
      the first thing in the output reads the byte before the buffer. */
  lemma GuardAsWrittenNeverFires(out: seq<byte>, dist: nat, len: nat, outsize: nat)
    requires 1 <= dist && |out| <= outsize
    ensures BackRefAsWritten(out, dist, len, outsize) != CopyRefused
    ensures BackRefAsWritten([], 1, 3, outsize) == ReadsBeforeBuffer
  {
  }

  /** The corrected guard: every back-reference the model copies stays inside
      the bytes already written, and one that would not is refused. */
  lemma GuardRefusesEarlyReference(htll: seq<Node>, htdist: seq<Node>, c: Cursor, out: seq<byte>, outsize: nat)
    requires |htll| > 0 && Linked(htll) && |htdist| > 0 && Linked(htdist)
    requires c.Valid() && |out| <= outsize
    requires var d := HuffDec(htll, c); 257 <= d.sym < LLLEN as int
    requires var d := HuffDec(htll, c);
      var len := GetLen(d.sym, d.cur);
      var dcode := HuffDec(htdist, len.cur);
      GetDist(dcode.sym, dcode.cur).value > |out|
    ensures !Symbols(htll, htdist, c, out, outsize).ok
    ensures Symbols(htll, htdist, c, out, outsize).out == out
  {
  }

  // ---------------------------------------------------------------------------
  // What an encoder writes into a block

  /** An LZ77 token: a literal byte or a back-reference of `len` bytes from
      `dist` bytes back. */
  datatype Token = Literal(b: byte) | Match(len: nat, dist: nat)

  /** The output tokens produce after `out`, by section 3.2.3 of RFC 1951. */
  function Lz77(out: seq<byte>, tokens: seq<Token>): seq<byte>
    decreases |tokens|
  {
    if tokens == [] then out
    else
      match tokens[0]
      case Literal(b) => Lz77(out + [b], tokens[1..])
      case Match(len, dist) =>
        if 1 <= dist <= |out| then Lz77(out + Repeated(out, dist, len), tokens[1..])
        else out
  }

  /** Every back-reference has a length 3..258 and a distance 1..32768 that
      reaches no further back than the output so far. */
  ghost predicate WellFormed(out: seq<byte>, tokens: seq<Token>)
    decreases |tokens|
  {
    if tokens == [] then true
    else
      match tokens[0]
      case Literal(b) => WellFormed(out + [b], tokens[1..])
      case Match(len, dist) =>
        && 3 <= len <= 258 && 1 <= dist <= 32768 && dist <= |out|
        && WellFormed(out + Repeated(out, dist, len), tokens[1..])
  }

  /** Code words for both alphabets: `ll[s]` and `dd[s]` are the codes of
      literal/length symbol `s` and distance symbol `s`. */
  datatype Codes = Codes(ll: seq<seq<bit>>, dd: seq<seq<bit>>)

  /** The bits of one token. */
  function TokenBits(t: Token, codes: Codes): seq<bit>
    requires |codes.ll| == LLLEN && |codes.dd| == DISTLEN
    requires t.Match? ==> 3 <= t.len <= 258 && 1 <= t.dist <= 32768
  {
    match t
    case Literal(b) => codes.ll[b]
    case Match(len, dist) => LenBits(len, codes) + DistBits(dist, codes)
  }

  /** A length's code followed by its extra bits. */
  function LenBits(len: nat, codes: Codes): seq<bit>
    requires |codes.ll| == LLLEN && 3 <= len <= 258
  {
    codes.ll[LenSymbol(len)] + LenExtraBits(len)
  }

  /** A distance's code followed by its extra bits. */
  function DistBits(dist: nat, codes: Codes): seq<bit>
    requires |codes.dd| == DISTLEN && 1 <= dist <= 32768
  {
    codes.dd[DistSymbol(dist)] + DistExtraBits(dist)
  }

  /** Tokens whose matches have lengths 3..258 and distances 1..32768. */
  ghost predicate Encodable(tokens: seq<Token>) {
    forall k :: 0 <= k < |tokens| ==> tokens[k].Match? ==> 3 <= tokens[k].len <= 258 && 1 <= tokens[k].dist <= 32768
  }

  /** The bits of a block's tokens, without the end-of-block code. */
  function TokensBits(tokens: seq<Token>, codes: Codes): seq<bit>
    requires |codes.ll| == LLLEN && |codes.dd| == DISTLEN && Encodable(tokens)
    decreases |tokens|
  {
    if tokens == [] then []
    else TokenBits(tokens[0], codes) + TokensBits(tokens[1..], codes)
  }

  /** `codes` are the code words of the tables' entries for every symbol the
      tokens and the end of the block use. */
  ghost predicate CodesOf(ll: set<Entry>, dd: set<Entry>, codes: Codes, tokens: seq<Token>) {
    && |codes.ll| == LLLEN && |codes.dd| == DISTLEN
    && Encodable(tokens)
    && HasCode(ll, codes.ll, END_OF_BLOCK)
    && forall k :: 0 <= k < |tokens| ==>
         match tokens[k]
         case Literal(b) => HasCode(ll, codes.ll, b)
         case Match(len, dist) => HasCode(ll, codes.ll, LenSymbol(len)) && HasCode(dd, codes.dd, DistSymbol(dist))
  }

  ghost predicate HasCode(es: set<Entry>, words: seq<seq<bit>>, s: nat) {
    s < |words| && |words[s]| > 0 && Entry(words[s], s) in es
  }
  // ---------------------------------------------------------------------------
  // Decoding what an encoder wrote

  /** The output only grows. */
  lemma {:induction false} Lz77Grows(out: seq<byte>, tokens: seq<Token>)
    requires WellFormed(out, tokens)
    ensures out <= Lz77(out, tokens)
    ensures tokens != [] && tokens[0].Literal? ==> |out| < |Lz77(out, tokens)|
    ensures tokens != [] && tokens[0].Match? ==> |out| + tokens[0].len <= |Lz77(out, tokens)|
    decreases |tokens|
  {
    if tokens != [] {
      match tokens[0]
      case Literal(b) =>
        Lz77Grows(out + [b], tokens[1..]);
      case Match(len, dist) =>
        Lz77Grows(out + Repeated(out, dist, len), tokens[1..]);
    }
  }

  lemma CodesOfTail(ll: set<Entry>, dd: set<Entry>, codes: Codes, tokens: seq<Token>)
    requires tokens != [] && CodesOf(ll, dd, codes, tokens)
    ensures CodesOf(ll, dd, codes, tokens[1..])
    ensures TokensBits(tokens, codes) == TokenBits(tokens[0], codes) + TokensBits(tokens[1..], codes)
  {
    var tail := tokens[1..];
    forall k | 0 <= k < |tail|
      ensures tail[k] == tokens[k + 1]
    {
    }
  }

  lemma BitsAtSplitAssoc(c: Cursor, p: seq<bit>, q: seq<bit>, e: seq<bit>)
    requires BitsAt(c, p + q + e)
    ensures BitsAt(c, p) && BitsAt(c.(pos := c.pos + |p|), q + e)
  {
    assert p + q + e == p + (q + e);
    BitsAtSplit(c, p, q + e);
  }

  /** The end-of-block code ends the loop. */
  lemma EndStep(htll: seq<Node>, ll: set<Entry>, htdist: seq<Node>, c: Cursor, out: seq<byte>, outsize: nat, code: seq<bit>)
    requires Decodes(htll, ll) && PrefixFree(ll) && |htdist| > 0 && Linked(htdist)
    requires |code| > 0 && Entry(code, END_OF_BLOCK) in ll
    requires c.Valid() && BitsAt(c, code) && |out| <= outsize
    ensures Symbols(htll, htdist, c, out, outsize) == Step(true, c.(pos := c.pos + |code|), out)
  {
    HuffDecRoundTrip(htll, ll, Entry(code, END_OF_BLOCK), c);
    assert HuffDec(htll, c) == Decoded(END_OF_BLOCK, c.(pos := c.pos + |code|));
  }

  /** A literal's code emits the literal. */
  lemma LiteralStep(htll: seq<Node>, ll: set<Entry>, htdist: seq<Node>, c: Cursor, out: seq<byte>, outsize: nat, b: byte, code: seq<bit>)
    requires Decodes(htll, ll) && PrefixFree(ll) && |htdist| > 0 && Linked(htdist)
    requires |code| > 0 && Entry(code, b) in ll
    requires c.Valid() && BitsAt(c, code) && |out| < outsize
    ensures Symbols(htll, htdist, c, out, outsize) == Symbols(htll, htdist, c.(pos := c.pos + |code|), out + [b], outsize)
  {
    HuffDecRoundTrip(htll, ll, Entry(code, b), c);
    var c1 := c.(pos := c.pos + |code|);
    assert HuffDec(htll, c) == Decoded(b as int, c1);
    assert Emit(out, b, outsize) == Some(out + [b]);
  }

  /** A length's bits decode to the length. */
  lemma DecodeLength(htll: seq<Node>, ll: set<Entry>, codes: Codes, c: Cursor, len: nat)
    requires Decodes(htll, ll) && PrefixFree(ll)
    requires |codes.ll| == LLLEN && 3 <= len <= 258 && HasCode(ll, codes.ll, LenSymbol(len))
    requires c.Valid() && BitsAt(c, LenBits(len, codes))
    ensures HuffDec(htll, c) == Decoded(LenSymbol(len), c.(pos := c.pos + |codes.ll[LenSymbol(len)]|))
    ensures GetLen(LenSymbol(len), c.(pos := c.pos + |codes.ll[LenSymbol(len)]|)) == Resolved(len, c.(pos := c.pos + |LenBits(len, codes)|))
  {
    var lc := LenSymbol(len);
    var p1, p2 := codes.ll[lc], LenExtraBits(len);
    BitsAtSplit(c, p1, p2);
    HuffDecRoundTrip(htll, ll, Entry(p1, lc), c);
    var c1 := c.(pos := c.pos + |p1|);
    assert HuffDec(htll, c) == Decoded(lc, c1);
    LenRoundTrip(len, c1);
    assert |LenBits(len, codes)| == |p1| + |p2|;
    assert GetLen(lc, c1) == Resolved(len, c.(pos := c.pos + |LenBits(len, codes)|));
  }

  /** A distance's bits decode to the distance. */
  lemma DecodeDistance(htdist: seq<Node>, dd: set<Entry>, codes: Codes, c: Cursor, dist: nat)
    requires Decodes(htdist, dd) && PrefixFree(dd)
    requires |codes.dd| == DISTLEN && 1 <= dist <= 32768 && HasCode(dd, codes.dd, DistSymbol(dist))
    requires c.Valid() && BitsAt(c, DistBits(dist, codes))
    ensures HuffDec(htdist, c) == Decoded(DistSymbol(dist), c.(pos := c.pos + |codes.dd[DistSymbol(dist)]|))
    ensures GetDist(DistSymbol(dist), c.(pos := c.pos + |codes.dd[DistSymbol(dist)]|)) == Resolved(dist, c.(pos := c.pos + |DistBits(dist, codes)|))
  {
    var dc := DistSymbol(dist);
    var p1, p2 := codes.dd[dc], DistExtraBits(dist);
    BitsAtSplit(c, p1, p2);
    HuffDecRoundTrip(htdist, dd, Entry(p1, dc), c);
    var c1 := c.(pos := c.pos + |p1|);
    assert HuffDec(htdist, c) == Decoded(dc, c1);
    DistRoundTrip(dist, c1);
    assert |DistBits(dist, codes)| == |p1| + |p2|;
    assert GetDist(dc, c1) == Resolved(dist, c.(pos := c.pos + |DistBits(dist, codes)|));
  }

  /** The four reads of a match, one after the other. */
  lemma MatchDecodes(htll: seq<Node>, ll: set<Entry>, htdist: seq<Node>, dd: set<Entry>, codes: Codes, c: Cursor, len: nat, dist: nat)
    returns (c1: Cursor, c2: Cursor, c3: Cursor)
    requires Decodes(htll, ll) && PrefixFree(ll) && Decodes(htdist, dd) && PrefixFree(dd)
    requires |codes.ll| == LLLEN && |codes.dd| == DISTLEN
    requires 3 <= len <= 258 && 1 <= dist <= 32768
    requires HasCode(ll, codes.ll, LenSymbol(len)) && HasCode(dd, codes.dd, DistSymbol(dist))
    requires c.Valid() && BitsAt(c, TokenBits(Match(len, dist), codes))
    ensures c1.Valid() && c2.Valid() && c3.Valid()
    ensures HuffDec(htll, c) == Decoded(LenSymbol(len), c1)
    ensures GetLen(LenSymbol(len), c1) == Resolved(len, c2)
    ensures HuffDec(htdist, c2) == Decoded(DistSymbol(dist), c3)
    ensures GetDist(DistSymbol(dist), c3) == Resolved(dist, c.(pos := c.pos + |TokenBits(Match(len, dist), codes)|))
  {
    var lb, db := LenBits(len, codes), DistBits(dist, codes);
    var lc, dc := LenSymbol(len), DistSymbol(dist);
    BitsAtSplit(c, lb, db);
    DecodeLength(htll, ll, codes, c, len);
    c1 := c.(pos := c.pos + |codes.ll[lc]|);
    c2 := c.(pos := c.pos + |lb|);
    DecodeDistance(htdist, dd, codes, c2, dist);
    c3 := c2.(pos := c2.pos + |codes.dd[dc]|);
    SameCursor(c2.(pos := c2.pos + |db|), c.(pos := c.pos + |TokenBits(Match(len, dist), codes)|));
  }

  /** A match's codes copy the match. */
  lemma MatchStep(htll: seq<Node>, ll: set<Entry>, htdist: seq<Node>, dd: set<Entry>, codes: Codes, c: Cursor, out: seq<byte>, outsize: nat, len: nat, dist: nat, c4: Cursor, out2: seq<byte>)
    requires Decodes(htll, ll) && PrefixFree(ll) && Decodes(htdist, dd) && PrefixFree(dd)
    requires |codes.ll| == LLLEN && |codes.dd| == DISTLEN
    requires 3 <= len <= 258 && 1 <= dist <= 32768 && dist <= |out| && |out| + len <= outsize
    requires HasCode(ll, codes.ll, LenSymbol(len)) && HasCode(dd, codes.dd, DistSymbol(dist))
    requires c.Valid() && BitsAt(c, TokenBits(Match(len, dist), codes))
    requires c4 == c.(pos := c.pos + |TokenBits(Match(len, dist), codes)|) && c4.Valid()
    requires out2 == out + Repeated(out, dist, len) && |out2| <= outsize
    ensures Symbols(htll, htdist, c, out, outsize) == Symbols(htll, htdist, c4, out2, outsize)
  {
    var c1, c2, c3 := MatchDecodes(htll, ll, htdist, dd, codes, c, len, dist);
    CopyBackIsRepeated(out, dist, len, outsize);
    assert CopyBack(out, dist, len, outsize) == out2;
  }

  /** Fed the codes of well-formed tokens and then the end-of-block code, the
      symbol loop writes exactly the LZ77 expansion of the tokens and stops
      after the end-of-block code. */
  lemma {:induction false} SymbolsRoundTrip(
    htll: seq<Node>, ll: set<Entry>, htdist: seq<Node>, dd: set<Entry>, codes: Codes,
    tokens: seq<Token>, c: Cursor, out: seq<byte>, outsize: nat)
    requires Decodes(htll, ll) && PrefixFree(ll) && Decodes(htdist, dd) && PrefixFree(dd)
    requires CodesOf(ll, dd, codes, tokens)
    requires WellFormed(out, tokens) && |Lz77(out, tokens)| <= outsize
    requires c.Valid() && BitsAt(c, TokensBits(tokens, codes) + codes.ll[END_OF_BLOCK])
    ensures |out| <= outsize
    ensures Symbols(htll, htdist, c, out, outsize)
      == Step(true, c.(pos := c.pos + |TokensBits(tokens, codes)| + |codes.ll[END_OF_BLOCK]|), Lz77(out, tokens))
    decreases |tokens|, 1
  {
    Lz77Grows(out, tokens);
    var eob := codes.ll[END_OF_BLOCK];
    if tokens == [] {
      assert TokensBits(tokens, codes) + eob == eob;
      EndStep(htll, ll, htdist, c, out, outsize, eob);
      assert Lz77(out, tokens) == out;
      SameCursor(c.(pos := c.pos + |eob|), c.(pos := c.pos + |TokensBits(tokens, codes)| + |eob|));
    } else if tokens[0].Literal? {
      LiteralRoundTrip(htll, ll, htdist, dd, codes, tokens, c, out, outsize);
    } else {
      MatchRoundTrip(htll, ll, htdist, dd, codes, tokens, c, out, outsize);
    }
  }

  /** `SymbolsRoundTrip` when the first token is a literal. */
  lemma {:induction false} LiteralRoundTrip(
    htll: seq<Node>, ll: set<Entry>, htdist: seq<Node>, dd: set<Entry>, codes: Codes,
    tokens: seq<Token>, c: Cursor, out: seq<byte>, outsize: nat)
    requires Decodes(htll, ll) && PrefixFree(ll) && Decodes(htdist, dd) && PrefixFree(dd)
    requires CodesOf(ll, dd, codes, tokens)
    requires WellFormed(out, tokens) && |Lz77(out, tokens)| <= outsize
    requires c.Valid() && BitsAt(c, TokensBits(tokens, codes) + codes.ll[END_OF_BLOCK])
    requires tokens != [] && tokens[0].Literal?
    requires |out| <= outsize
    ensures Symbols(htll, htdist, c, out, outsize)
      == Step(true, c.(pos := c.pos + |TokensBits(tokens, codes)| + |codes.ll[END_OF_BLOCK]|), Lz77(out, tokens))
    decreases |tokens|, 0
  {
    Lz77Grows(out, tokens);
    var eob := codes.ll[END_OF_BLOCK];
    CodesOfTail(ll, dd, codes, tokens);
    var head, rest := TokenBits(tokens[0], codes), TokensBits(tokens[1..], codes);
    BitsAtSplitAssoc(c, head, rest, eob);
    var c2 := c.(pos := c.pos + |head|);
    var b := tokens[0].b;
    assert HasCode(ll, codes.ll, b) by {
      assert tokens[0] == Literal(b);
    }
    assert head == codes.ll[b];
    assert WellFormed(out + [b], tokens[1..]) && Lz77(out, tokens) == Lz77(out + [b], tokens[1..]);
    LiteralStep(htll, ll, htdist, c, out, outsize, b, head);
    SymbolsRoundTrip(htll, ll, htdist, dd, codes, tokens[1..], c2, out + [b], outsize);
    SameCursor(c2.(pos := c2.pos + |rest| + |eob|), c.(pos := c.pos + |TokensBits(tokens, codes)| + |eob|));
  }

  /** `SymbolsRoundTrip` when the first token is a match. */
  lemma {:induction false} MatchRoundTrip(
    htll: seq<Node>, ll: set<Entry>, htdist: seq<Node>, dd: set<Entry>, codes: Codes,
    tokens: seq<Token>, c: Cursor, out: seq<byte>, outsize: nat)
    requires Decodes(htll, ll) && PrefixFree(ll) && Decodes(htdist, dd) && PrefixFree(dd)
    requires CodesOf(ll, dd, codes, tokens)
    requires WellFormed(out, tokens) && |Lz77(out, tokens)| <= outsize
    requires c.Valid() && BitsAt(c, TokensBits(tokens, codes) + codes.ll[END_OF_BLOCK])
    requires tokens != [] && tokens[0].Match?
    requires |out| <= outsize
    ensures Symbols(htll, htdist, c, out, outsize)
      == Step(true, c.(pos := c.pos + |TokensBits(tokens, codes)| + |codes.ll[END_OF_BLOCK]|), Lz77(out, tokens))
    decreases |tokens|, 0
  {
    Lz77Grows(out, tokens);
    var eob := codes.ll[END_OF_BLOCK];
    CodesOfTail(ll, dd, codes, tokens);
    var head, rest := TokenBits(tokens[0], codes), TokensBits(tokens[1..], codes);
    BitsAtSplitAssoc(c, head, rest, eob);
    var c2 := c.(pos := c.pos + |head|);
    var len, dist := tokens[0].len, tokens[0].dist;
    assert HasCode(ll, codes.ll, LenSymbol(len)) && HasCode(dd, codes.dd, DistSymbol(dist)) by {
      assert tokens[0] == Match(len, dist);
    }
    var out2 := out + Repeated(out, dist, len);
    assert 3 <= len <= 258 && 1 <= dist <= 32768 && dist <= |out|;
    assert WellFormed(out2, tokens[1..]) && Lz77(out, tokens) == Lz77(out2, tokens[1..]);
    assert head == TokenBits(Match(len, dist), codes);
    assert |out2| <= outsize && c2.Valid();
    SameCursor(c2, c.(pos := c.pos + |TokenBits(Match(len, dist), codes)|));
    MatchStep(htll, ll, htdist, dd, codes, c, out, outsize, len, dist, c2, out2);
    SymbolsRoundTrip(htll, ll, htdist, dd, codes, tokens[1..], c2, out2, outsize);
    var end := c.(pos := c.pos + |TokensBits(tokens, codes)| + |eob|);
    SameCursor(c2.(pos := c2.pos + |rest| + |eob|), end);
  }

  // ---------------------------------------------------------------------------
  // Blocks

  /** C's `~v` on a 32-bit `unsigned int`. */
  function Not32(v: nat): nat
    requires v < 0x1_0000_0000
  {
    0xFFFF_FFFF - v
  }

  /** A stored block (`btype == 0`) as `gzdec` reads it: an 8-bit `b0len` and
      an 8-bit `b0nlen`, with no skip to a byte boundary, compared by
      `b0len != ~b0nlen` on unsigned ints. No two 8-bit values pass that test,
      so the block is always refused and the copy loop after the test is
      unreachable. */
  function StoredBlock(c: Cursor, out: seq<byte>): (r: Step)
    requires c.Valid()
    ensures !r.ok && Follows(c, r.cur) && r.cur.pos == Min(c.pos + 16, 8 * |c.data|) && r.out == out
  {
    var len := ReadBits(c, 8);
    var nlen := ReadBits(len.cur, 8);
    Pow2Eight();
    if len.value != Not32(nlen.value) then Step(false, nlen.cur, out)
    else assert false; Step(false, nlen.cur, out)
  }

  /** A block with fixed codes (`btype == 1`): the tables built from the
      length arrays `lits` and `dists`, then the symbols. `OneBlock` passes
      `FixedLitLengths()` and `FixedDistLengths()`; taking them as parameters
      keeps the verifier from evaluating the table construction on them. */
  function FixedBlock(c: Cursor, out: seq<byte>, outsize: nat, lits: seq<nat>, dists: seq<nat>): (r: Step)
    requires c.Valid() && |out| <= outsize && 0 < |lits| && 0 < |dists|
    ensures Follows(c, r.cur) && out <= r.out && |r.out| <= outsize
    ensures r.ok ==>
      && BuildHt(lits, HTLL_MAX).Some? && BuildHt(dists, HTDIST_MAX).Some?
      && r == Symbols(BuildHt(lits, HTLL_MAX).value, BuildHt(dists, HTDIST_MAX).value, c, out, outsize)
  {
    match BuildHt(lits, HTLL_MAX)
    case None => Step(false, c, out)
    case Some(htll) =>
      match BuildHt(dists, HTDIST_MAX)
      case None => Step(false, c, out)
      case Some(htdist) => Symbols(htll, htdist, c, out, outsize)
  }

  /** The position of each code-length symbol in `ClenOrder`. */
  const ClenRank: seq<nat> := [3, 17, 15, 13, 11, 9, 7, 5, 4, 6, 8, 10, 12, 14, 16, 18, 0, 1, 2]

  /** `ClenRank` inverts `ClenOrder`, so `ClenOrder` names each of the 19
      symbols exactly once. */
  lemma ClenRankInverts()
    ensures |ClenOrder| == |ClenRank| == MAXCLEN
    ensures forall s :: 0 <= s < MAXCLEN ==> ClenRank[s] < MAXCLEN && ClenOrder[ClenRank[s]] == s
    ensures forall k :: 0 <= k < MAXCLEN ==> ClenOrder[k] < MAXCLEN && ClenRank[ClenOrder[k]] == k
  {
  }

  lemma OrderOfRank(s: nat)
    requires s < MAXCLEN
    ensures ClenRank[s] < MAXCLEN && ClenOrder[ClenRank[s]] == s
  {
    ClenRankInverts();
  }

  /** The code-length code lengths and the reader after them. */
  datatype ClensRead = ClensRead(lens: seq<nat>, cur: Cursor)

  /** The loop `arrclen[clenord[i]] = gz_readbits(&ins, 3)` for `i` from `i`
      up to `n`. */
  function ReadClens(clens: seq<nat>, c: Cursor, i: nat, n: nat): (r: ClensRead)
    requires |clens| == MAXCLEN && i <= n <= MAXCLEN && c.Valid()
    ensures |r.lens| == MAXCLEN && Follows(c, r.cur)
    ensures r.cur.pos == Min(c.pos + 3 * (n - i), 8 * |c.data|)
    decreases n - i
  {
    if i == n then ClensRead(clens, c)
    else
      var v := ReadBits(c, 3);
      ReadClens(clens[ClenOrder[i] := v.value], v.cur, i + 1, n)
  }

  /** The loop leaves the length of every symbol whose position in
      `clenord` it does not reach as it was. */
  lemma {:induction false} ReadClensKeeps(clens: seq<nat>, c: Cursor, i: nat, n: nat)
    requires |clens| == MAXCLEN && i <= n <= MAXCLEN && c.Valid()
    ensures forall s :: 0 <= s < MAXCLEN && !(i <= ClenRank[s] < n) ==> ReadClens(clens, c, i, n).lens[s] == clens[s]
    decreases n - i
  {
    if i < n {
      var v := ReadBits(c, 3);
      var clens2 := clens[ClenOrder[i] := v.value];
      ReadClensKeeps(clens2, v.cur, i + 1, n);
      forall s | 0 <= s < MAXCLEN && !(i <= ClenRank[s] < n)
        ensures clens2[s] == clens[s]
      {
        OrderOfRank(s);
      }
    }
  }

  /** The reader `m` bits further on, stopped at the end of the input. */
  function Skip(c: Cursor, m: nat): (r: Cursor)
    requires c.Valid()
    ensures r.Valid() && Follows(c, r)
  {
    c.(pos := Min(c.pos + m, 8 * |c.data|))
  }

  /** The `k`-th 3-bit field from `c`. */
  function Field3(c: Cursor, k: nat): nat
    requires c.Valid()
  {
    ReadBits(Skip(c, 3 * k), 3).value
  }

  /** The length of a symbol whose position `ClenRank[s]` the loop reaches is
      the 3-bit field read at that position. */
  lemma ReadClensWrites(clens: seq<nat>, c: Cursor, n: nat)
    requires |clens| == MAXCLEN && n <= MAXCLEN && c.Valid()
    ensures forall s :: 0 <= s < MAXCLEN && ClenRank[s] < n ==>
      ReadClens(clens, c, 0, n).lens[s] == Field3(c, ClenRank[s])
  {
    forall s | 0 <= s < MAXCLEN && ClenRank[s] < n
      ensures ReadClens(clens, c, 0, n).lens[s] == Field3(c, ClenRank[s])
    {
      ReadClensField(clens, c, c, 0, n, s);
    }
  }

  /** The loop from position `i`, with `c` the reader `3 * i` bits past `c0`,
      gives symbol `s` the field at position `ClenRank[s]` from `c0`. */
  lemma {:induction false} ReadClensField(clens: seq<nat>, c0: Cursor, c: Cursor, i: nat, n: nat, s: nat)
    requires |clens| == MAXCLEN && i <= n <= MAXCLEN && c0.Valid() && c.Valid()
    requires c.data == c0.data && c.pos == Min(c0.pos + 3 * i, 8 * |c0.data|)
    requires s < MAXCLEN && i <= ClenRank[s] < n
    ensures ReadClens(clens, c, i, n).lens[s] == Field3(c0, ClenRank[s])
    decreases n - i, 1
  {
    if ClenRank[s] == i {
      ReadClensFirstField(clens, c0, c, i, n, s);
    } else {
      ReadClensLaterField(clens, c0, c, i, n, s);
    }
  }

  /** The symbol at position `i` gets the field read first. */
  lemma ReadClensFirstField(clens: seq<nat>, c0: Cursor, c: Cursor, i: nat, n: nat, s: nat)
    requires |clens| == MAXCLEN && i < n <= MAXCLEN && c0.Valid() && c.Valid()
    requires c.data == c0.data && c.pos == Min(c0.pos + 3 * i, 8 * |c0.data|)
    requires s < MAXCLEN && ClenRank[s] == i
    ensures ReadClens(clens, c, i, n).lens[s] == Field3(c0, ClenRank[s])
  {
    var v := ReadBits(c, 3);
    var clens2 := clens[ClenOrder[i] := v.value];
    assert ReadClens(clens, c, i, n).lens == ReadClens(clens2, v.cur, i + 1, n).lens;
    OrderOfRank(s);
    ReadClensKeeps(clens2, v.cur, i + 1, n);
    SameCursor(Skip(c0, 3 * i), c);
  }

  /** A symbol at a later position gets the field the rest of the loop
      reads for it. */
  lemma {:induction false} ReadClensLaterField(clens: seq<nat>, c0: Cursor, c: Cursor, i: nat, n: nat, s: nat)
    requires |clens| == MAXCLEN && i < n <= MAXCLEN && c0.Valid() && c.Valid()
    requires c.data == c0.data && c.pos == Min(c0.pos + 3 * i, 8 * |c0.data|)
    requires s < MAXCLEN && i < ClenRank[s] < n
    ensures ReadClens(clens, c, i, n).lens[s] == Field3(c0, ClenRank[s])
    decreases n - i, 0
  {
    var v := ReadBits(c, 3);
    var clens2 := clens[ClenOrder[i] := v.value];
    assert ReadClens(clens, c, i, n).lens == ReadClens(clens2, v.cur, i + 1, n).lens;
    ReadClensField(clens2, c0, v.cur, i + 1, n, s);
  }

  /** A step of the block loop: whether the block went through, the reader
      after it, the output, and `arrclen`, which outlives the block. */
  datatype Block = Block(ok: bool, cur: Cursor, out: seq<byte>, clens: seq<nat>)

  /** A block with dynamic codes (`btype == 2`): `hlit`, `hdist`, `hclen`,
      `hclen + 4` code-length code lengths into `arrclen` in `clenord` order,
      the code-length trie, the two length tables, then the symbols. */
  function DynamicBlock(c: Cursor, out: seq<byte>, clens: seq<nat>, outsize: nat): (r: Block)
    requires c.Valid() && |out| <= outsize && |clens| == MAXCLEN
    ensures Follows(c, r.cur) && out <= r.out && |r.out| <= outsize && |r.clens| == MAXCLEN
  {
    var hlit := ReadBits(c, 5);
    var hdist := ReadBits(hlit.cur, 5);
    var hclen := ReadBits(hdist.cur, 4);
    assert Pow2(4) == 16 && Pow2(5) == 32;
    if 257 + hlit.value > LLLEN then Block(false, hclen.cur, out, clens)
    else DynamicAfterCounts(clens, hclen.cur, hclen.value + 4, hlit.value, hdist.value, out, outsize)
  }

  /** A dynamic block once its three counts are read: the `n` code-length
      code lengths into `arrclen`, then the tables and the symbols. */
  function DynamicAfterCounts(clens: seq<nat>, c: Cursor, n: nat, hlit: nat, hdist: nat, out: seq<byte>, outsize: nat): (r: Block)
    requires |clens| == MAXCLEN && n <= MAXCLEN && c.Valid() && |out| <= outsize
    requires 257 + hlit <= LLLEN && 1 + hdist <= DISTLEN
    ensures Follows(c, r.cur) && out <= r.out && |r.out| <= outsize
    ensures r.clens == ReadClens(clens, c, 0, n).lens
  {
    var cl := ReadClens(clens, c, 0, n);
    var s := DynamicTables(cl, hlit, hdist, out, outsize);
    Block(s.ok, s.cur, s.out, cl.lens)
  }

  /** Once the count of literal/length codes fits, a dynamic block goes on
      past its three counts. */
  lemma DynamicBlockUnfold(c: Cursor, out: seq<byte>, clens: seq<nat>, outsize: nat)
    requires c.Valid() && |out| <= outsize && |clens| == MAXCLEN
    requires 257 + ReadBits(c, 5).value <= LLLEN
    ensures var h1 := ReadBits(c, 5);
      var h2 := ReadBits(h1.cur, 5);
      var h3 := ReadBits(h2.cur, 4);
      && h2.value < 32 && h3.value < 16
      && DynamicBlock(c, out, clens, outsize)
         == DynamicAfterCounts(clens, h3.cur, h3.value + 4, h1.value, h2.value, out, outsize)
  {
    assert Pow2(4) == 16 && Pow2(5) == 32;
  }

  /** The rest of a dynamic block once `arrclen` is read: the code-length
      trie, the `257 + hlit` literal/length and `1 + hdist` distance lengths,
      their tries, then the symbols. */
  function DynamicTables(cl: ClensRead, hlit: nat, hdist: nat, out: seq<byte>, outsize: nat): (r: Step)
    requires cl.cur.Valid() && |cl.lens| == MAXCLEN && |out| <= outsize
    requires 257 + hlit <= LLLEN && 1 + hdist <= DISTLEN
    ensures Follows(cl.cur, r.cur) && out <= r.out && |r.out| <= outsize
  {
    match BuildHt(cl.lens, HTCLEN_MAX)
    case None => Step(false, cl.cur, out)
    case Some(htclen) =>
      var ll := GetHuffT(cl.cur, 257 + hlit, LLLEN, htclen, HTLL_MAX);
      match ll.ht
      case None => Step(false, ll.cur, out)
      case Some(htll) =>
        var dd := GetHuffT(ll.cur, 1 + hdist, DISTLEN, htclen, HTDIST_MAX);
        match dd.ht
        case None => Step(false, dd.cur, out)
        case Some(htdist) => Symbols(htll, htdist, dd.cur, out, outsize)
  }

  /** The literal/length and the distance code lengths are read as two
      separate arrays. After instructions that fill `m` of the `257 + hlit`
      literal/length lengths, a repeat whose run ends among the distance
      lengths fails the block and writes nothing, although section 3.2.7 of
      RFC 1951 reads all the lengths as one sequence that such a repeat may
      cross. */
  lemma RepeatAcrossTablesFails(
    cl: ClensRead, hlit: nat, hdist: nat, out: seq<byte>, outsize: nat,
    paths: seq<seq<bit>>, instrs: seq<Instr>, ins: Instr, m: nat)
    requires cl.cur.Valid() && |cl.lens| == MAXCLEN && |out| <= outsize
    requires 257 + hlit <= LLLEN && 1 + hdist <= DISTLEN
    requires BuildHt(cl.lens, HTCLEN_MAX).Some? && PrefixFree(CodeBook(cl.lens))
    requires CodesFor(CodeBook(cl.lens), paths, instrs)
    requires 16 <= ins.sym <= 18 && |paths[ins.sym]| > 0 && Entry(paths[ins.sym], ins.sym) in CodeBook(cl.lens)
    requires ins.extra < Pow2(ExtraBits(ins.sym)) && (ins.sym == 16 ==> m > 0)
    requires BitsAt(cl.cur, Encode(instrs, paths) + (paths[ins.sym] + LsbBits(ins.extra, ExtraBits(ins.sym))))
    requires Fits([], instrs, m) && m < 257 + hlit < m + RepeatBase(ins.sym) + ins.extra
    requires m + RepeatBase(ins.sym) + ins.extra <= (257 + hlit) + (1 + hdist)
    ensures var r := DynamicTables(cl, hlit, hdist, out, outsize); !r.ok && r.out == out
    ensures Fits([], instrs + [ins], m + RepeatBase(ins.sym) + ins.extra)
  {
    var htclen := BuildHt(cl.lens, HTCLEN_MAX).value;
    RepeatPastCountRefused(htclen, CodeBook(cl.lens), paths, instrs, ins, cl.cur, 257 + hlit, m);
  }

  /** A 16 as the first distance code length fails the block: the distance
      lengths start afresh with no previous length to repeat, where section
      3.2.7 of RFC 1951 repeats the last literal/length length. */
  lemma LeadingRepeatOfDistancesFails(cl: ClensRead, hlit: nat, hdist: nat, out: seq<byte>, outsize: nat)
    requires cl.cur.Valid() && |cl.lens| == MAXCLEN && |out| <= outsize
    requires 257 + hlit <= LLLEN && 1 + hdist <= DISTLEN
    requires BuildHt(cl.lens, HTCLEN_MAX).Some?
    ensures var htclen := BuildHt(cl.lens, HTCLEN_MAX).value;
      var ll := GetHuffT(cl.cur, 257 + hlit, LLLEN, htclen, HTLL_MAX);
      var d := HuffDec(htclen, ll.cur);
      ll.ht.Some? && d.sym == 16 ==> DynamicTables(cl, hlit, hdist, out, outsize) == Step(false, d.cur, out)
  {
    var htclen := BuildHt(cl.lens, HTCLEN_MAX).value;
    var ll := GetHuffT(cl.cur, 257 + hlit, LLLEN, htclen, HTLL_MAX);
    ReadLengthsErrors(htclen, ll.cur, 1 + hdist, []);
  }

  /** `arrclen` is not cleared between blocks: after a dynamic block, a
      code-length symbol whose position in `clenord` the block reaches holds
      the 3-bit field read for it, and every other one keeps the length an
      earlier block gave it. */
  lemma DynamicBlockClens(c: Cursor, out: seq<byte>, clens: seq<nat>, outsize: nat)
    requires c.Valid() && |out| <= outsize && |clens| == MAXCLEN
    ensures var hclen := ReadBits(ReadBits(ReadBits(c, 5).cur, 5).cur, 4);
      forall s :: 0 <= s < MAXCLEN ==>
        DynamicBlock(c, out, clens, outsize).clens[s]
          == if ClenRank[s] < hclen.value + 4 then Field3(hclen.cur, ClenRank[s]) else clens[s]
  {
    var hclen := ReadBits(ReadBits(ReadBits(c, 5).cur, 5).cur, 4);
    var n := DynamicBlockReadsClens(c, out, clens, outsize);
    ReadClensResult(clens, hclen.cur, n);
  }

  /** The `clenord` loop over the first `n` positions, symbol by symbol. */
  lemma ReadClensResult(clens: seq<nat>, c: Cursor, n: nat)
    requires |clens| == MAXCLEN && n <= MAXCLEN && c.Valid()
    ensures forall s :: 0 <= s < MAXCLEN ==>
      ReadClens(clens, c, 0, n).lens[s] == if ClenRank[s] < n then Field3(c, ClenRank[s]) else clens[s]
  {
    ReadClensKeeps(clens, c, 0, n);
    ReadClensWrites(clens, c, n);
  }

  /** Whatever becomes of the block, `arrclen` ends as the `clenord` loop
      left it. */
  lemma DynamicBlockReadsClens(c: Cursor, out: seq<byte>, clens: seq<nat>, outsize: nat) returns (n: nat)
    requires c.Valid() && |out| <= outsize && |clens| == MAXCLEN
    ensures var hclen := ReadBits(ReadBits(ReadBits(c, 5).cur, 5).cur, 4);
      && n == hclen.value + 4 && n <= MAXCLEN
      && DynamicBlock(c, out, clens, outsize).clens == ReadClens(clens, hclen.cur, 0, n).lens
  {
    var hlit := ReadBits(c, 5);
    var hdist := ReadBits(hlit.cur, 5);
    var hclen := ReadBits(hdist.cur, 4);
    HlitTestNeverFires(c);
    DynamicBlockUnfold(c, out, clens, outsize);
    n := hclen.value + 4;
  }

  /** `hlit` has five bits, so `257 + hlit` is at most 288 and the test
      `257 + hlit > LLLEN` never refuses a block. */
  lemma HlitTestNeverFires(c: Cursor)
    requires c.Valid()
    ensures 257 + ReadBits(c, 5).value <= LLLEN
  {
    assert Pow2(5) == 32;
  }

  /** One pass of the `while(!islast)` loop: `islast`, `btype`, then the block. */
  function OneBlock(c: Cursor, out: seq<byte>, clens: seq<nat>, outsize: nat): (r: Block)
    requires c.Valid() && |out| <= outsize && |clens| == MAXCLEN
    ensures Follows(c, r.cur) && out <= r.out && |r.out| <= outsize && |r.clens| == MAXCLEN
    ensures r.ok ==> c.pos < r.cur.pos
  {
    var islast := ReadBits(c, 1);
    var btype := ReadBits(islast.cur, 2);
    if btype.value == 0 then
      var s := StoredBlock(btype.cur, out);
      Block(false, s.cur, s.out, clens)
    else
      NonzeroReadAdvances(islast.cur, 2);
      if btype.value == 1 then
        var s := FixedBlock(btype.cur, out, outsize, FixedLitLengths(), FixedDistLengths());
        Block(s.ok, s.cur, s.out, clens)
      else if btype.value == 2 then DynamicBlock(btype.cur, out, clens, outsize)
      else Block(false, btype.cur, out, clens)
  }

  /** A block of type 0 (stored) or 3 (reserved) fails, and so does the block
      loop, with `GZ_INVFILE`. */
  lemma StoredOrReservedFails(c: Cursor, out: seq<byte>, clens: seq<nat>, outsize: nat)
    requires c.Valid() && |out| <= outsize && |clens| == MAXCLEN
    requires var btype := ReadBits(ReadBits(c, 1).cur, 2).value; btype == 0 || btype == 3
    ensures !OneBlock(c, out, clens, outsize).ok
    ensures Blocks(c, out, clens, outsize).status == InvFile
  {
  }

  /** The outcome of `gzdec`: its return value and what it wrote into `out`. */
  datatype Outcome = Outcome(status: Status, out: seq<byte>)

  /** The block loop: blocks until one with `islast` set has been decoded. A
      block read from an exhausted input has type 0 and is refused, so every
      block that goes through consumes input and the loop ends. */
  function Blocks(c: Cursor, out: seq<byte>, clens: seq<nat>, outsize: nat): (r: Outcome)
    requires c.Valid() && |out| <= outsize && |clens| == MAXCLEN
    ensures r.status == Ok || r.status == InvFile
    ensures out <= r.out && |r.out| <= outsize
    decreases c.Unread()
  {
    var b := OneBlock(c, out, clens, outsize);
    if !b.ok then Outcome(InvFile, b.out)
    else if ReadBits(c, 1).value == 1 then Outcome(Ok, b.out)
    else Blocks(b.cur, b.out, b.clens, outsize)
  }

  /** The block header of a last block with fixed codes: BFINAL = 1, then
      BTYPE = 1 written least significant bit first. */
  const LastFixedHeader: seq<bit> := [1, 1, 0]

  /** A last block with fixed codes carrying the codes of well-formed tokens
      and then the end-of-block code ends the block loop with `Ok` and exactly
      the LZ77 expansion of the tokens. */
  lemma FixedBlockRoundTrip(c: Cursor, out: seq<byte>, clens: seq<nat>, outsize: nat, tokens: seq<Token>, codes: Codes)
    requires c.Valid() && |clens| == MAXCLEN && |out| <= outsize
    requires CodesOf(CodeBook(FixedLitLengths()), CodeBook(FixedDistLengths()), codes, tokens)
    requires WellFormed(out, tokens) && |Lz77(out, tokens)| <= outsize
    requires BitsAt(c, LastFixedHeader + (TokensBits(tokens, codes) + codes.ll[END_OF_BLOCK]))
    ensures Blocks(c, out, clens, outsize) == Outcome(Ok, Lz77(out, tokens))
  {
    BitsAtSplit(c, LastFixedHeader, TokensBits(tokens, codes) + codes.ll[END_OF_BLOCK]);
    OneBlockFixed(c, out, clens, outsize);
    FixedSymbols(c.(pos := c.pos + 3), out, outsize, tokens, codes);
  }

  /** The fixed block decodes the symbols its codes spell. */
  lemma FixedSymbols(c: Cursor, out: seq<byte>, outsize: nat, tokens: seq<Token>, codes: Codes)
    requires c.Valid() && |out| <= outsize
    requires CodesOf(CodeBook(FixedLitLengths()), CodeBook(FixedDistLengths()), codes, tokens)
    requires WellFormed(out, tokens) && |Lz77(out, tokens)| <= outsize
    requires BitsAt(c, TokensBits(tokens, codes) + codes.ll[END_OF_BLOCK])
    ensures FixedBlock(c, out, outsize, FixedLitLengths(), FixedDistLengths()).ok
    ensures FixedBlock(c, out, outsize, FixedLitLengths(), FixedDistLengths()).out == Lz77(out, tokens)
  {
    FixedCodesHold();
    var htll := BuildHt(FixedLitLengths(), HTLL_MAX).value;
    var htdist := BuildHt(FixedDistLengths(), HTDIST_MAX).value;
    SymbolsRoundTrip(htll, CodeBook(FixedLitLengths()), htdist, CodeBook(FixedDistLengths()), codes, tokens, c, out, outsize);
  }

  /** The first header bit of a last fixed block: `islast` is 1. */
  lemma LastBitRead(c: Cursor)
    requires c.Valid() && BitsAt(c, LastFixedHeader)
    ensures ReadBits(c, 1).value == 1 && ReadBits(c, 1).cur.pos == c.pos + 1
    ensures BitsAt(ReadBits(c, 1).cur, [1, 0])
  {
    assert LastFixedHeader == LsbBits(1, 1) + [1, 0];
    BitsAtSplit(c, LsbBits(1, 1), [1, 0]);
    ReadBitsField(c, 1, 1);
  }

  /** The next two header bits: `btype` is 1. */
  lemma FixedTypeRead(c: Cursor)
    requires c.Valid() && BitsAt(c, [1, 0])
    ensures ReadBits(c, 2).value == 1 && ReadBits(c, 2).cur.pos == c.pos + 2
  {
    assert LsbBits(1, 2) == [1, 0];
    ReadBitsField(c, 1, 2);
  }

  /** After the header bits of a last fixed block, the block loop decodes a
      fixed block, and the pass is its outcome. */
  lemma OneBlockFixed(c: Cursor, out: seq<byte>, clens: seq<nat>, outsize: nat)
    requires c.Valid() && |clens| == MAXCLEN && |out| <= outsize
    requires BitsAt(c, LastFixedHeader)
    ensures ReadBits(c, 1).value == 1
    ensures var s := FixedBlock(c.(pos := c.pos + 3), out, outsize, FixedLitLengths(), FixedDistLengths());
      OneBlock(c, out, clens, outsize) == Block(s.ok, s.cur, s.out, clens)
  {
    LastBitRead(c);
    var c1 := ReadBits(c, 1).cur;
    FixedTypeRead(c1);
    SameCursor(ReadBits(c1, 2).cur, c.(pos := c.pos + 3));
  }
}
