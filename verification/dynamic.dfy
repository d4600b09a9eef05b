/** What an encoder writes for a block with dynamic codes (section 3.2.7 of
    RFC 1951), and what `gzdec`'s block loop makes of it: the code-length
    code, the two length arrays, their tries and the symbols, read back in
    the order they were written. */
module DynamicCodes {
  import opened Base
  import opened BitStream
  import opened Trie
  import opened HuffTable
  import opened CodeLengths
  import opened FixedCodes
  import opened Inflate

  /** The tables of a dynamic block as an encoder chooses them: the counts
      HLIT, HDIST and HCLEN, the lengths of the 19 code-length codes (indexed
      by symbol), the code words of the code-length code, and the code-length
      instructions that spell the literal/length and the distance lengths. */
  datatype Tables = Tables(
    hlit: nat, hdist: nat, hclen: nat, clens: seq<nat>,
    paths: seq<seq<bit>>, lits: seq<Instr>, dists: seq<Instr>)

  /** `cl` is a prefix-free code whose trie fits in `htmax` nodes. */
  ghost predicate Buildable(cl: seq<nat>, htmax: nat) {
    PrefixFree(CodeBook(cl)) && |Prefixes(CodeBook(cl))| <= htmax
  }

  /** The literal/length lengths the instructions spell, padded with zeros to
      288 as `gz_gethufft` pads them. */
  function LitLengths(t: Tables): seq<nat>
    requires t.hlit < 32
  {
    Expand([], t.lits) + Zeros(LLLEN - (257 + t.hlit))
  }

  /** The distance lengths, padded with zeros to 32. */
  function DistLengths(t: Tables): seq<nat>
    requires t.hdist < 32
  {
    Expand([], t.dists) + Zeros(DISTLEN - (1 + t.hdist))
  }

  /** Tables an encoder can write and a decoder can build: the counts fit
      their fields, each code-length code length fits three bits, the
      instructions spell exactly `257 + hlit` and `1 + hdist` lengths with
      codes of the code-length code, and all three codes are prefix-free with
      tries that fit the node arrays `gzdec` gives them. */
  ghost predicate ValidTables(t: Tables) {
    && t.hlit < 32 && t.hdist < 32 && t.hclen < 16
    && |t.clens| == MAXCLEN && (forall s :: 0 <= s < MAXCLEN ==> t.clens[s] < 8)
    && Buildable(t.clens, HTCLEN_MAX)
    && CodesFor(CodeBook(t.clens), t.paths, t.lits) && Fits([], t.lits, 257 + t.hlit)
    && CodesFor(CodeBook(t.clens), t.paths, t.dists) && Fits([], t.dists, 1 + t.hdist)
    && Buildable(LitLengths(t), HTLL_MAX) && Buildable(DistLengths(t), HTDIST_MAX)
  }

  /** `arrclen` as an earlier block left it agrees with the tables on every
      code-length symbol past the `hclen + 4` the block writes. */
  ghost predicate Unwritten(t: Tables, prev: seq<nat>)
    requires |t.clens| == MAXCLEN && |prev| == MAXCLEN
  {
    forall s :: 0 <= s < MAXCLEN && ClenRank[s] >= t.hclen + 4 ==> prev[s] == t.clens[s]
  }

  // ---------------------------------------------------------------------------
  // The bits

  /** The 3-bit fields of the code-length code lengths, in the order
      `clenord` stores them. */
  function ClenChunks(clens: seq<nat>): (parts: seq<seq<bit>>)
    requires |clens| == MAXCLEN
    ensures |parts| == MAXCLEN
    ensures forall k :: 0 <= k < MAXCLEN ==> ClenOrder[k] < MAXCLEN && parts[k] == LsbBits(clens[ClenOrder[k]], 3)
  {
    ClenRankInverts();
    seq(MAXCLEN, k requires 0 <= k < MAXCLEN => LsbBits(clens[ClenOrder[k]], 3))
  }

  /** The parts from `i` up to `n`, one after the other. */
  function Join(parts: seq<seq<bit>>, i: nat, n: nat): seq<bit>
    requires i <= n <= |parts|
    decreases n - i
  {
    if i == n then [] else parts[i] + Join(parts, i + 1, n)
  }

  /** HLIT, HDIST and HCLEN. */
  function CountsBits(t: Tables): (bits: seq<bit>) {
    LsbBits(t.hlit, 5) + LsbBits(t.hdist, 5) + LsbBits(t.hclen, 4)
  }

  /** The two length arrays in code-length instructions. */
  function LengthsBits(t: Tables): seq<bit>
    requires ValidTables(t)
  {
    Encode(t.lits, t.paths) + Encode(t.dists, t.paths)
  }

  /** Everything a dynamic block holds before its symbols. */
  function TablesBits(t: Tables): seq<bit>
    requires ValidTables(t)
  {
    CountsBits(t) + Join(ClenChunks(t.clens), 0, t.hclen + 4) + LengthsBits(t)
  }

  /** The block header of a last block with dynamic codes: BFINAL = 1, then
      BTYPE = 2 written least significant bit first. */
  const LastDynamicHeader: seq<bit> := [1, 0, 1]

  // ---------------------------------------------------------------------------
  // Reading them back

  /** The three counts read back. */
  lemma CountsRead(c: Cursor, t: Tables)
    requires c.Valid() && t.hlit < 32 && t.hdist < 32 && t.hclen < 16
    requires BitsAt(c, CountsBits(t))
    ensures ReadBits(c, 5) == Read(t.hlit, c.(pos := c.pos + 5))
    ensures ReadBits(c.(pos := c.pos + 5), 5) == Read(t.hdist, c.(pos := c.pos + 10))
    ensures ReadBits(c.(pos := c.pos + 10), 4) == Read(t.hclen, c.(pos := c.pos + 14))
  {
    assert Pow2(4) == 16 && Pow2(5) == 32;
    var a, b, d := LsbBits(t.hlit, 5), LsbBits(t.hdist, 5), LsbBits(t.hclen, 4);
    var c5, c10, c14 := c.(pos := c.pos + 5), c.(pos := c.pos + 10), c.(pos := c.pos + 14);
    BitsAtRegroup3(c, a, b, d);
    FieldThen(c, t.hlit, 5, b + d, c5);
    FieldThen(c5, t.hdist, 5, d, c10);
    FieldLast(c10, t.hclen, 4, c14);
  }

  /** Bits that spell `a + b + d` spell it grouped from the right. */
  lemma BitsAtRegroup3(c: Cursor, a: seq<bit>, b: seq<bit>, d: seq<bit>)
    requires BitsAt(c, a + b + d)
    ensures BitsAt(c, a + (b + d))
  {
    assert a + b + d == a + (b + d);
  }

  /** An `n`-bit field holding `v`, followed by `q`, reads back as `v` and
      leaves the reader at `rest`, where `q` starts. */
  lemma FieldThen(c: Cursor, v: nat, n: nat, q: seq<bit>, rest: Cursor)
    requires c.Valid() && v < Pow2(n) && BitsAt(c, LsbBits(v, n) + q)
    requires rest == c.(pos := c.pos + n)
    ensures ReadBits(c, n) == Read(v, rest) && rest.Valid() && BitsAt(rest, q)
  {
    BitsAtRest(c, LsbBits(v, n), q, rest);
    ReadBitsField(c, v, n);
  }

  /** An `n`-bit field holding `v` reads back as `v` and leaves the reader
      at `rest`. */
  lemma FieldLast(c: Cursor, v: nat, n: nat, rest: Cursor)
    requires c.Valid() && v < Pow2(n) && BitsAt(c, LsbBits(v, n))
    requires rest == c.(pos := c.pos + n)
    ensures ReadBits(c, n) == Read(v, rest)
  {
    ReadBitsField(c, v, n);
  }

  /** Part `k` starts where the parts before it end. */
  lemma {:induction false} PartAt(parts: seq<seq<bit>>, c: Cursor, i: nat, n: nat, k: nat)
    requires i <= k < n <= |parts|
    requires BitsAt(c, Join(parts, i, n))
    ensures BitsAt(c.(pos := c.pos + |Join(parts, i, k)|), parts[k])
    decreases k - i
  {
    BitsAtSplit(c, parts[i], Join(parts, i + 1, n));
    if k > i {
      PartAt(parts, c.(pos := c.pos + |parts[i]|), i + 1, n, k);
    }
  }

  /** Parts of `w` bits each join into `w` bits per part. */
  lemma {:induction false} JoinLength(parts: seq<seq<bit>>, w: nat, i: nat, n: nat)
    requires i <= n <= |parts| && forall j :: i <= j < n ==> |parts[j]| == w
    ensures |Join(parts, i, n)| == w * (n - i)
    decreases n - i
  {
    if i < n {
      JoinLength(parts, w, i + 1, n);
    }
  }

  /** The `clenord` loop reads the fields back into `arrclen`: every symbol it
      reaches gets its field, and the rest already agree. */
  lemma ClensRoundTrip(prev: seq<nat>, c: Cursor, t: Tables)
    requires c.Valid() && |prev| == MAXCLEN && t.hclen < 16
    requires |t.clens| == MAXCLEN && (forall s :: 0 <= s < MAXCLEN ==> t.clens[s] < 8)
    requires Unwritten(t, prev)
    requires BitsAt(c, Join(ClenChunks(t.clens), 0, t.hclen + 4))
    ensures ReadClens(prev, c, 0, t.hclen + 4) == ClensRead(t.clens, c.(pos := c.pos + 3 * (t.hclen + 4)))
  {
    assert ClensWritten(prev, c, t);
    ClensAgree(prev, c, t);
    ClensEnd(prev, c, t);
    SameClensRead(ReadClens(prev, c, 0, t.hclen + 4), t.clens, c.(pos := c.pos + 3 * (t.hclen + 4)));
  }

  /** `c` holds the code-length code length fields of `t` in `clenord`
      order, and `prev` already agrees wherever the loop does not reach. */
  ghost predicate ClensWritten(prev: seq<nat>, c: Cursor, t: Tables) {
    && c.Valid() && |prev| == MAXCLEN && t.hclen < 16
    && |t.clens| == MAXCLEN && (forall s :: 0 <= s < MAXCLEN ==> t.clens[s] < 8)
    && Unwritten(t, prev)
    && BitsAt(c, Join(ClenChunks(t.clens), 0, t.hclen + 4))
  }

  /** The `clenord` loop stops right after the fields. */
  lemma ClensEnd(prev: seq<nat>, c: Cursor, t: Tables)
    requires ClensWritten(prev, c, t)
    ensures ReadClens(prev, c, 0, t.hclen + 4).cur == c.(pos := c.pos + 3 * (t.hclen + 4))
  {
    JoinLength(ClenChunks(t.clens), 3, 0, t.hclen + 4);
    ClensCursor(prev, c, t.hclen + 4);
  }

  /** The `clenord` loop reads three bits per field. */
  lemma ClensCursor(prev: seq<nat>, c: Cursor, n: nat)
    requires c.Valid() && |prev| == MAXCLEN && n <= MAXCLEN && c.pos + 3 * n <= 8 * |c.data|
    ensures ReadClens(prev, c, 0, n).cur == c.(pos := c.pos + 3 * n)
  {
    SameCursor(ReadClens(prev, c, 0, n).cur, c.(pos := c.pos + 3 * n));
  }

  /** A read of `arrclen` is determined by the lengths and the cursor. */
  lemma SameClensRead(a: ClensRead, lens: seq<nat>, cur: Cursor)
    requires a.lens == lens && a.cur == cur
    ensures a == ClensRead(lens, cur)
  {
  }

  /** The `clenord` loop reads every symbol's length in the tables. */
  lemma ClensAgree(prev: seq<nat>, c: Cursor, t: Tables)
    requires ClensWritten(prev, c, t)
    ensures ReadClens(prev, c, 0, t.hclen + 4).lens == t.clens
  {
    forall s | 0 <= s < MAXCLEN
      ensures ReadClens(prev, c, 0, t.hclen + 4).lens[s] == t.clens[s]
    {
      ClenOfSymbol(prev, c, t, s);
    }
    SameLengths(ReadClens(prev, c, 0, t.hclen + 4).lens, t.clens);
  }

  /** Two arrays of code-length code lengths that agree on every symbol are
      equal. */
  lemma SameLengths(a: seq<nat>, b: seq<nat>)
    requires |a| == MAXCLEN && |b| == MAXCLEN
    requires forall s :: 0 <= s < MAXCLEN ==> a[s] == b[s]
    ensures a == b
  {
  }

  /** One symbol of `ClensRoundTrip`. */
  lemma ClenOfSymbol(prev: seq<nat>, c: Cursor, t: Tables, s: nat)
    requires ClensWritten(prev, c, t) && s < MAXCLEN
    ensures ReadClens(prev, c, 0, t.hclen + 4).lens[s] == t.clens[s]
  {
    var n := t.hclen + 4;
    ReadClensResult(prev, c, n);
    if ClenRank[s] < n {
      FieldOfSymbol(c, t.clens, n, s);
    }
  }

  /** Symbol `s`'s 3-bit field reads back as its length. */
  lemma FieldOfSymbol(c: Cursor, clens: seq<nat>, n: nat, s: nat)
    requires c.Valid() && |clens| == MAXCLEN && n <= MAXCLEN
    requires s < MAXCLEN && ClenRank[s] < n && clens[s] < 8
    requires BitsAt(c, Join(ClenChunks(clens), 0, n))
    ensures Field3(c, ClenRank[s]) == clens[s]
  {
    var k := ClenRank[s];
    OrderOfRank(s);
    assert Pow2(3) == 8;
    ChunkRead(ClenChunks(clens), 3, c, n, k, clens[s]);
  }

  /** Among parts of `w` bits each, part `k` holding the field of `v` reads
      back as `v`. */
  lemma ChunkRead(parts: seq<seq<bit>>, w: nat, c: Cursor, n: nat, k: nat, v: nat)
    requires c.Valid() && k < n <= |parts| && forall j :: 0 <= j < |parts| ==> |parts[j]| == w
    requires parts[k] == LsbBits(v, w) && v < Pow2(w)
    requires BitsAt(c, Join(parts, 0, n))
    ensures ReadBits(Skip(c, w * k), w).value == v
  {
    PartAt(parts, c, 0, n, k);
    JoinLength(parts, w, 0, k);
    var at := c.(pos := c.pos + w * k);
    ReadBitsField(at, v, w);
    SameCursor(Skip(c, w * k), at);
  }

  /** `gz_gethufft` fed the instructions for a length array reads exactly
      that array, padded with zeros, builds its trie and leaves the reader
      just past the instructions. */
  lemma LengthsTrie(
    htclen: seq<Node>, es: set<Entry>, paths: seq<seq<bit>>, instrs: seq<Instr>,
    c: Cursor, count: nat, maxcount: nat, cl: seq<nat>, htmax: nat) returns (ht: seq<Node>, cur: Cursor)
    requires Decodes(htclen, es) && PrefixFree(es) && CodesFor(es, paths, instrs)
    requires c.Valid() && Fits([], instrs, count) && BitsAt(c, Encode(instrs, paths))
    requires count <= maxcount <= LL_MAX && 0 < maxcount && 0 < htmax
    requires cl == Expand([], instrs) + Zeros(maxcount - count) && Buildable(cl, htmax)
    ensures Decodes(ht, CodeBook(cl)) && cur == c.(pos := c.pos + |Encode(instrs, paths)|)
    ensures GetHuffT(c, count, maxcount, htclen, htmax) == TableRead(Some(ht), cur)
  {
    LengthsBelow(htclen, es, paths, instrs, c, count, maxcount, cl);
    BuildHtSucceeds(cl, htmax);
    ht := BuildHt(cl, htmax).value;
    cur := c.(pos := c.pos + |Encode(instrs, paths)|);
  }

  /** The instructions read back as their lengths, and every padded length
      is one `gz_buildht` can count. */
  lemma LengthsBelow(
    htclen: seq<Node>, es: set<Entry>, paths: seq<seq<bit>>, instrs: seq<Instr>,
    c: Cursor, count: nat, maxcount: nat, cl: seq<nat>)
    requires Decodes(htclen, es) && PrefixFree(es) && CodesFor(es, paths, instrs)
    requires c.Valid() && Fits([], instrs, count) && BitsAt(c, Encode(instrs, paths))
    requires count <= maxcount && cl == Expand([], instrs) + Zeros(maxcount - count)
    ensures ReadLengthsFrom(htclen, c, count, [])
        == LengthsRead(Some(Expand([], instrs)), c.(pos := c.pos + |Encode(instrs, paths)|))
    ensures forall j :: 0 <= j < |cl| ==> cl[j] < BL_COUNT_MAX
  {
    ReadLengthsRoundTrip(htclen, es, paths, instrs, c, count, []);
    var lens := ReadLengthsFrom(htclen, c, count, []).lengths.value;
    forall j | 0 <= j < |cl|
      ensures cl[j] < BL_COUNT_MAX
    {
      if j < count {
        assert cl[j] == lens[j];
      }
    }
  }

  /** The code-length code lengths of valid tables build their trie. */
  lemma ClenTable(clens: seq<nat>) returns (htclen: seq<Node>)
    requires |clens| == MAXCLEN && (forall s :: 0 <= s < MAXCLEN ==> clens[s] < 8)
    requires Buildable(clens, HTCLEN_MAX)
    ensures BuildHt(clens, HTCLEN_MAX) == Some(htclen) && Decodes(htclen, CodeBook(clens))
  {
    BuildHtSucceeds(clens, HTCLEN_MAX);
    htclen := BuildHt(clens, HTCLEN_MAX).value;
  }

  /** The padded literal/length array is the instructions' lengths followed
      by zeros. */
  lemma LitPadded(t: Tables)
    requires t.hlit < 32
    ensures LitLengths(t) == Expand([], t.lits) + Zeros(LLLEN - (257 + t.hlit))
  {
  }

  /** The padded distance array is the instructions' lengths followed by
      zeros. */
  lemma DistPadded(t: Tables)
    requires t.hdist < 32
    ensures DistLengths(t) == Expand([], t.dists) + Zeros(DISTLEN - (1 + t.hdist))
  {
  }

  /** With the three tables built, the rest of the block is the symbol
      loop. */
  lemma DynamicTablesGiven(
    clens: seq<nat>, c: Cursor, hlit: nat, hdist: nat, out: seq<byte>, outsize: nat,
    htclen: seq<Node>, htll: seq<Node>, htdist: seq<Node>, c1: Cursor, c2: Cursor)
    requires c.Valid() && |clens| == MAXCLEN && |out| <= outsize
    requires 257 + hlit <= LLLEN && 1 + hdist <= DISTLEN
    requires BuildHt(clens, HTCLEN_MAX) == Some(htclen)
    requires GetHuffT(c, 257 + hlit, LLLEN, htclen, HTLL_MAX) == TableRead(Some(htll), c1)
    requires GetHuffT(c1, 1 + hdist, DISTLEN, htclen, HTDIST_MAX) == TableRead(Some(htdist), c2)
    ensures DynamicTables(ClensRead(clens, c), hlit, hdist, out, outsize) == Symbols(htll, htdist, c2, out, outsize)
  {
  }

  /** The literal/length trie of valid tables, built from the instructions
      the code-length trie reads. */
  lemma LitRead(t: Tables, htclen: seq<Node>, c: Cursor) returns (htll: seq<Node>, c1: Cursor)
    requires t.hlit < 32 && Decodes(htclen, CodeBook(t.clens)) && PrefixFree(CodeBook(t.clens))
    requires CodesFor(CodeBook(t.clens), t.paths, t.lits) && Fits([], t.lits, 257 + t.hlit)
    requires Buildable(LitLengths(t), HTLL_MAX)
    requires c.Valid() && BitsAt(c, Encode(t.lits, t.paths))
    ensures Decodes(htll, CodeBook(LitLengths(t))) && c1 == c.(pos := c.pos + |Encode(t.lits, t.paths)|)
    ensures GetHuffT(c, 257 + t.hlit, LLLEN, htclen, HTLL_MAX) == TableRead(Some(htll), c1)
  {
    LitPadded(t);
    htll, c1 := LengthsTrie(htclen, CodeBook(t.clens), t.paths, t.lits, c, 257 + t.hlit, LLLEN, LitLengths(t), HTLL_MAX);
  }

  /** The distance trie of valid tables, built from the instructions that
      follow the literal/length ones. */
  lemma DistRead(t: Tables, htclen: seq<Node>, c1: Cursor) returns (htdist: seq<Node>, c2: Cursor)
    requires t.hdist < 32 && Decodes(htclen, CodeBook(t.clens)) && PrefixFree(CodeBook(t.clens))
    requires CodesFor(CodeBook(t.clens), t.paths, t.dists) && Fits([], t.dists, 1 + t.hdist)
    requires Buildable(DistLengths(t), HTDIST_MAX)
    requires c1.Valid() && BitsAt(c1, Encode(t.dists, t.paths))
    ensures Decodes(htdist, CodeBook(DistLengths(t))) && c2 == c1.(pos := c1.pos + |Encode(t.dists, t.paths)|)
    ensures GetHuffT(c1, 1 + t.hdist, DISTLEN, htclen, HTDIST_MAX) == TableRead(Some(htdist), c2)
  {
    DistPadded(t);
    htdist, c2 := LengthsTrie(htclen, CodeBook(t.clens), t.paths, t.dists, c1, 1 + t.hdist, DISTLEN, DistLengths(t), HTDIST_MAX);
  }

  /** `gzdec` got past the three tables: the code-length trie built from
      `clens`, the literal/length and distance lengths read with it from `c`
      and `c1`, their tries built, and the reader left at `c2`. */
  ghost predicate Built(
    clens: seq<nat>, c: Cursor, hlit: nat, hdist: nat,
    htclen: seq<Node>, htll: seq<Node>, htdist: seq<Node>, c1: Cursor, c2: Cursor)
  {
    && c.Valid() && |clens| == MAXCLEN && 257 + hlit <= LLLEN && 1 + hdist <= DISTLEN
    && BuildHt(clens, HTCLEN_MAX) == Some(htclen)
    && Decodes(htclen, CodeBook(clens))
    && GetHuffT(c, 257 + hlit, LLLEN, htclen, HTLL_MAX) == TableRead(Some(htll), c1)
    && GetHuffT(c1, 1 + hdist, DISTLEN, htclen, HTDIST_MAX) == TableRead(Some(htdist), c2)
  }

  /** The tries decode prefix-free codes in which the tokens are written, the
      tokens expand within `outsize`, and their bits and the end-of-block
      code follow at `c2`. */
  ghost predicate SymbolsReady(
    htll: seq<Node>, ll: set<Entry>, htdist: seq<Node>, dd: set<Entry>,
    codes: Codes, tokens: seq<Token>, out: seq<byte>, outsize: nat, c2: Cursor)
  {
    && Decodes(htll, ll) && PrefixFree(ll) && Decodes(htdist, dd) && PrefixFree(dd)
    && CodesOf(ll, dd, codes, tokens)
    && WellFormed(out, tokens) && |out| <= outsize && |Lz77(out, tokens)| <= outsize
    && c2.Valid() && BitsAt(c2, TokensBits(tokens, codes) + codes.ll[END_OF_BLOCK])
  }

  /** Tries that decode the codes the tokens are written with: the rest of
      the block is the symbol loop, which goes through with the tokens' LZ77
      expansion. */
  lemma TablesThenSymbols(
    clens: seq<nat>, c: Cursor, hlit: nat, hdist: nat, out: seq<byte>, outsize: nat,
    htclen: seq<Node>, htll: seq<Node>, htdist: seq<Node>, c1: Cursor, c2: Cursor,
    ll: set<Entry>, dd: set<Entry>, codes: Codes, tokens: seq<Token>)
    requires Built(clens, c, hlit, hdist, htclen, htll, htdist, c1, c2)
    requires SymbolsReady(htll, ll, htdist, dd, codes, tokens, out, outsize, c2)
    ensures DynamicTables(ClensRead(clens, c), hlit, hdist, out, outsize)
      == Step(true, c2.(pos := c2.pos + |TokensBits(tokens, codes)| + |codes.ll[END_OF_BLOCK]|), Lz77(out, tokens))
  {
    DynamicTablesGiven(clens, c, hlit, hdist, out, outsize, htclen, htll, htdist, c1, c2);
    SymbolsRoundTrip(htll, ll, htdist, dd, codes, tokens, c2, out, outsize);
  }

  /** The three tries the tables of a dynamic block build, and the readers
      after each length array: `gz_gethufft` reads the literal/length
      lengths, then the distance lengths, each with the code-length trie, and
      both tries decode the padded arrays' codes. */
  lemma TablesRead(t: Tables, c: Cursor) returns (htclen: seq<Node>, htll: seq<Node>, htdist: seq<Node>, c1: Cursor, c2: Cursor)
    requires ValidTables(t) && c.Valid()
    requires BitsAt(c, LengthsBits(t))
    ensures Built(t.clens, c, t.hlit, t.hdist, htclen, htll, htdist, c1, c2)
    ensures Decodes(htll, CodeBook(LitLengths(t))) && Decodes(htdist, CodeBook(DistLengths(t)))
    ensures c2 == c.(pos := c.pos + |LengthsBits(t)|)
  {
    var le, de := Encode(t.lits, t.paths), Encode(t.dists, t.paths);
    BitsAtSplit(c, le, de);
    htclen := ClenTable(t.clens);
    htll, c1 := LitRead(t, htclen, c);
    BitsAtRest(c, le, de, c1);
    htdist, c2 := DistRead(t, htclen, c1);
  }

  /** Tries built from valid tables are ready for tokens written with their
      codes. */
  lemma ReadyAfterTables(
    t: Tables, htll: seq<Node>, htdist: seq<Node>, codes: Codes, tokens: seq<Token>,
    out: seq<byte>, outsize: nat, c2: Cursor)
    requires ValidTables(t)
    requires Decodes(htll, CodeBook(LitLengths(t))) && Decodes(htdist, CodeBook(DistLengths(t)))
    requires CodesOf(CodeBook(LitLengths(t)), CodeBook(DistLengths(t)), codes, tokens)
    requires WellFormed(out, tokens) && |out| <= outsize && |Lz77(out, tokens)| <= outsize
    requires c2.Valid() && BitsAt(c2, TokensBits(tokens, codes) + codes.ll[END_OF_BLOCK])
    ensures SymbolsReady(htll, CodeBook(LitLengths(t)), htdist, CodeBook(DistLengths(t)), codes, tokens, out, outsize, c2)
  {
  }

  /** The tables of the code-length code and the two length arrays, then the
      symbols: the block goes through, stops after the end-of-block code and
      writes the LZ77 expansion of the tokens. */
  lemma DynamicTablesRoundTrip(
    t: Tables, c: Cursor, out: seq<byte>, outsize: nat, tokens: seq<Token>, codes: Codes)
    requires ValidTables(t) && c.Valid() && |out| <= outsize
    requires CodesOf(CodeBook(LitLengths(t)), CodeBook(DistLengths(t)), codes, tokens)
    requires WellFormed(out, tokens) && |Lz77(out, tokens)| <= outsize
    requires BitsAt(c, LengthsBits(t) + (TokensBits(tokens, codes) + codes.ll[END_OF_BLOCK]))
    ensures DynamicTables(ClensRead(t.clens, c), t.hlit, t.hdist, out, outsize)
      == Step(true, c.(pos := c.pos + |LengthsBits(t)| + |TokensBits(tokens, codes)| + |codes.ll[END_OF_BLOCK]|), Lz77(out, tokens))
  {
    var symbols := TokensBits(tokens, codes) + codes.ll[END_OF_BLOCK];
    BitsAtSplit(c, LengthsBits(t), symbols);
    var htclen, htll, htdist, c1, c2 := TablesRead(t, c);
    BitsAtRest(c, LengthsBits(t), symbols, c2);
    ReadyAfterTables(t, htll, htdist, codes, tokens, out, outsize, c2);
    TablesThenSymbols(
      t.clens, c, t.hlit, t.hdist, out, outsize, htclen, htll, htdist, c1, c2,
      CodeBook(LitLengths(t)), CodeBook(DistLengths(t)), codes, tokens);
    SameCursor(
      c2.(pos := c2.pos + |TokensBits(tokens, codes)| + |codes.ll[END_OF_BLOCK]|),
      c.(pos := c.pos + |LengthsBits(t)| + |TokensBits(tokens, codes)| + |codes.ll[END_OF_BLOCK]|));
  }

  /** `gzdec` read the block's counts HLIT, HDIST and HCLEN from `c`, then
      `hclen + 4` code-length code lengths into `arrclen`, which went from
      `prev` to `clens`, leaving the reader at `c1`. */
  ghost predicate HeaderRead(
    c: Cursor, prev: seq<nat>, hlit: nat, hdist: nat, hclen: nat, clens: seq<nat>, c1: Cursor)
  {
    && c.pos + 14 <= 8 * |c.data| && |prev| == MAXCLEN && hlit < 32 && hdist < 32 && hclen < 16
    && ReadBits(c, 5) == Read(hlit, c.(pos := c.pos + 5))
    && ReadBits(c.(pos := c.pos + 5), 5) == Read(hdist, c.(pos := c.pos + 10))
    && ReadBits(c.(pos := c.pos + 10), 4) == Read(hclen, c.(pos := c.pos + 14))
    && ReadClens(prev, c.(pos := c.pos + 14), 0, hclen + 4) == ClensRead(clens, c1)
  }

  /** The counts and the code-length code lengths of valid tables read back
      from their bits, with `arrclen` as `Unwritten` allows. */
  lemma HeaderOf(c: Cursor, prev: seq<nat>, t: Tables, rest: seq<bit>) returns (c1: Cursor)
    requires c.Valid() && |prev| == MAXCLEN && t.hlit < 32 && t.hdist < 32 && t.hclen < 16
    requires |t.clens| == MAXCLEN && (forall s :: 0 <= s < MAXCLEN ==> t.clens[s] < 8)
    requires Unwritten(t, prev)
    requires BitsAt(c, CountsBits(t) + (Join(ClenChunks(t.clens), 0, t.hclen + 4) + rest))
    ensures c1 == c.(pos := c.pos + 14 + 3 * (t.hclen + 4))
    ensures HeaderRead(c, prev, t.hlit, t.hdist, t.hclen, t.clens, c1)
    ensures c1.Valid() && BitsAt(c1, rest)
  {
    var n := t.hclen + 4;
    var cb, fb := CountsBits(t), Join(ClenChunks(t.clens), 0, n);
    BitsAtSplit(c, cb, fb + rest);
    var c14 := c.(pos := c.pos + 14);
    BitsAtSplit(c14, fb, rest);
    JoinLength(ClenChunks(t.clens), 3, 0, n);
    c1 := c14.(pos := c14.pos + 3 * n);
    BitsAtRest(c14, fb, rest, c1);
    CountsRead(c, t);
    ClensRoundTrip(prev, c14, t);
  }

  /** With the header read and the tables' outcome `s`, the block is `s`,
      carrying the new `arrclen`. */
  lemma BlockGiven(
    c: Cursor, out: seq<byte>, prev: seq<nat>, outsize: nat,
    hlit: nat, hdist: nat, hclen: nat, clens: seq<nat>, c1: Cursor, s: Step)
    requires HeaderRead(c, prev, hlit, hdist, hclen, clens, c1)
    requires c.Valid() && c1.Valid() && |out| <= outsize
    requires DynamicTables(ClensRead(clens, c1), hlit, hdist, out, outsize) == s
    ensures DynamicBlock(c, out, prev, outsize) == Block(s.ok, s.cur, s.out, clens)
  {
    HeaderChain(c, prev, hlit, hdist, hclen, clens, c1);
    DynamicBlockUnfold(c, out, prev, outsize);
    AfterCountsGiven(prev, c.(pos := c.pos + 14), hclen + 4, hlit, hdist, out, outsize, clens, c1, s);
  }

  /** The header's three reads, chained as the block reads them. */
  lemma HeaderChain(
    c: Cursor, prev: seq<nat>, hlit: nat, hdist: nat, hclen: nat, clens: seq<nat>, c1: Cursor)
    requires HeaderRead(c, prev, hlit, hdist, hclen, clens, c1) && c.Valid()
    ensures var h1 := ReadBits(c, 5);
      var h2 := ReadBits(h1.cur, 5);
      var h3 := ReadBits(h2.cur, 4);
      && h1.value == hlit && h2.value == hdist && 257 + hlit <= LLLEN
      && ReadClens(prev, h3.cur, 0, h3.value + 4) == ClensRead(clens, c1)
  {
    var h1 := ReadBits(c, 5);
    var h2 := ReadBits(h1.cur, 5);
    var h3 := ReadBits(h2.cur, 4);
    assert h1 == Read(hlit, c.(pos := c.pos + 5));
    assert h2 == Read(hdist, c.(pos := c.pos + 10));
    assert h3 == Read(hclen, c.(pos := c.pos + 14));
    assert ReadClens(prev, h3.cur, 0, h3.value + 4) == ReadClens(prev, c.(pos := c.pos + 14), 0, hclen + 4);
  }

  /** Past its counts, a dynamic block whose `arrclen` loop read `clens`
      and left the reader at `c1` is the outcome of its tables. */
  lemma AfterCountsGiven(
    prev: seq<nat>, c: Cursor, n: nat, hlit: nat, hdist: nat, out: seq<byte>, outsize: nat,
    clens: seq<nat>, c1: Cursor, s: Step)
    requires |prev| == MAXCLEN && n <= MAXCLEN && c.Valid() && |out| <= outsize
    requires 257 + hlit <= LLLEN && 1 + hdist <= DISTLEN
    requires ReadClens(prev, c, 0, n) == ClensRead(clens, c1)
    requires DynamicTables(ClensRead(clens, c1), hlit, hdist, out, outsize) == s
    ensures DynamicAfterCounts(prev, c, n, hlit, hdist, out, outsize) == Block(s.ok, s.cur, s.out, clens)
  {
  }

  /** The bits of the tables are the counts, the code-length code lengths
      and the two length arrays, in that order. */
  lemma TablesBitsSplit(t: Tables, c: Cursor, symbols: seq<bit>)
    requires ValidTables(t)
    requires BitsAt(c, TablesBits(t) + symbols)
    ensures BitsAt(c, CountsBits(t) + (Join(ClenChunks(t.clens), 0, t.hclen + 4) + (LengthsBits(t) + symbols)))
    ensures |TablesBits(t)| == 14 + 3 * (t.hclen + 4) + |LengthsBits(t)|
  {
    JoinLength(ClenChunks(t.clens), 3, 0, t.hclen + 4);
    BitsAtRegroup(c, CountsBits(t), Join(ClenChunks(t.clens), 0, t.hclen + 4), LengthsBits(t), symbols);
  }

  /** Bits that spell `a + b + l + s` spell it grouped from the right. */
  lemma BitsAtRegroup(c: Cursor, a: seq<bit>, b: seq<bit>, l: seq<bit>, s: seq<bit>)
    requires BitsAt(c, a + b + l + s)
    ensures BitsAt(c, a + (b + (l + s)))
  {
    assert a + b + l + s == a + (b + (l + s));
  }

  /** A dynamic block written from valid tables, read with an `arrclen` that
      agrees on the symbols the block leaves unwritten, goes through with the
      LZ77 expansion of its tokens, stops after the end-of-block code, and
      leaves `arrclen` holding the tables' code-length code lengths. */
  lemma DynamicBlockRoundTrip(
    c: Cursor, out: seq<byte>, prev: seq<nat>, outsize: nat, t: Tables, tokens: seq<Token>, codes: Codes)
    requires ValidTables(t) && c.Valid() && |out| <= outsize && |prev| == MAXCLEN
    requires Unwritten(t, prev)
    requires CodesOf(CodeBook(LitLengths(t)), CodeBook(DistLengths(t)), codes, tokens)
    requires WellFormed(out, tokens) && |Lz77(out, tokens)| <= outsize
    requires BitsAt(c, TablesBits(t) + (TokensBits(tokens, codes) + codes.ll[END_OF_BLOCK]))
    ensures DynamicBlock(c, out, prev, outsize)
      == Block(true, c.(pos := c.pos + |TablesBits(t)| + |TokensBits(tokens, codes)| + |codes.ll[END_OF_BLOCK]|),
               Lz77(out, tokens), t.clens)
  {
    var symbols := TokensBits(tokens, codes) + codes.ll[END_OF_BLOCK];
    TablesBitsSplit(t, c, symbols);
    var c1 := HeaderOf(c, prev, t, LengthsBits(t) + symbols);
    DynamicTablesRoundTrip(t, c1, out, outsize, tokens, codes);
    var s := Step(true, c1.(pos := c1.pos + |LengthsBits(t)| + |TokensBits(tokens, codes)| + |codes.ll[END_OF_BLOCK]|), Lz77(out, tokens));
    BlockGiven(c, out, prev, outsize, t.hlit, t.hdist, t.hclen, t.clens, c1, s);
    SameCursor(s.cur, c.(pos := c.pos + |TablesBits(t)| + |TokensBits(tokens, codes)| + |codes.ll[END_OF_BLOCK]|));
  }

  /** A last block with dynamic codes ends the block loop with `Ok` and
      exactly the LZ77 expansion of its tokens. */
  lemma LastDynamicRoundTrip(
    c: Cursor, out: seq<byte>, prev: seq<nat>, outsize: nat, t: Tables, tokens: seq<Token>, codes: Codes)
    requires ValidTables(t) && c.Valid() && |out| <= outsize && |prev| == MAXCLEN
    requires Unwritten(t, prev)
    requires CodesOf(CodeBook(LitLengths(t)), CodeBook(DistLengths(t)), codes, tokens)
    requires WellFormed(out, tokens) && |Lz77(out, tokens)| <= outsize
    requires BitsAt(c, LastDynamicHeader + (TablesBits(t) + (TokensBits(tokens, codes) + codes.ll[END_OF_BLOCK])))
    ensures Blocks(c, out, prev, outsize) == Outcome(Ok, Lz77(out, tokens))
  {
    var rest := TablesBits(t) + (TokensBits(tokens, codes) + codes.ll[END_OF_BLOCK]);
    var c3 := c.(pos := c.pos + 3);
    BitsAtRest(c, LastDynamicHeader, rest, c3);
    OneBlockDynamic(c, out, prev, outsize);
    DynamicBlockRoundTrip(c3, out, prev, outsize, t, tokens, codes);
  }

  /** After the header bits of a last dynamic block, the block loop decodes a
      dynamic block, and the pass is its outcome. */
  lemma OneBlockDynamic(c: Cursor, out: seq<byte>, prev: seq<nat>, outsize: nat)
    requires c.Valid() && |prev| == MAXCLEN && |out| <= outsize
    requires BitsAt(c, LastDynamicHeader)
    ensures ReadBits(c, 1).value == 1
    ensures OneBlock(c, out, prev, outsize) == DynamicBlock(c.(pos := c.pos + 3), out, prev, outsize)
  {
    assert LastDynamicHeader == LsbBits(1, 1) + LsbBits(2, 2);
    BitsAtSplit(c, LsbBits(1, 1), LsbBits(2, 2));
    ReadBitsField(c, 1, 1);
    var c1 := ReadBits(c, 1).cur;
    assert Pow2(2) == 4;
    ReadBitsField(c1, 2, 2);
    SameCursor(ReadBits(c1, 2).cur, c.(pos := c.pos + 3));
  }
}
