/** The fixed Huffman codes of section 3.2.6 of RFC 1951, as `gzdec` builds
    them for a block with `btype == 1`: the length arrays its `arrll` and
    `arrdist` loops fill, the codes `gz_buildht` derives from them, and the
    fact that both tables build in the node arrays the decoder reserves. */
module FixedCodes {
  import opened Base
  import opened Canonical
  import opened Trie
  import opened HuffTable

  /** `GZ_HTLL_MAX`, `GZ_HTDIST_MAX`: node arrays of `2n - 1` nodes for the
      alphabets of 288 and 32 symbols. */
  const HTLL_MAX: nat := 575
  const HTDIST_MAX: nat := 63

  /** `LLLEN`, `DISTLEN`: the literal/length and distance alphabet sizes. */
  const LLLEN: nat := 288
  const DISTLEN: nat := 32

  /** The lengths section 3.2.6 of RFC 1951 fixes for the literal/length
      alphabet, as the four `arrll` loops of `gzdec` fill them. */
  function FixedLitLengths(): (cl: seq<nat>)
    ensures |cl| == LLLEN
  {
    seq(LLLEN, i => if i <= 143 then 8 else if i <= 255 then 9 else if i <= 279 then 7 else 8)
  }

  /** The fixed distance lengths: all 5. */
  function FixedDistLengths(): (cl: seq<nat>)
    ensures |cl| == DISTLEN
  {
    seq(DISTLEN, _ => 5)
  }

  /** The code table of section 3.2.6 of RFC 1951: literals 0-143 take
      `00110000` on, 144-255 take `110010000` on, 256-279 take `0000000` on
      and 280-287 take `11000000` on. */
  function FixedLitCode(j: nat): nat {
    if j <= 143 then 48 + j
    else if j <= 255 then 400 + (j - 144)
    else if j <= 279 then j - 256
    else 192 + (j - 280)
  }

  // ---------------------------------------------------------------------------
  // The literal/length codes

  /** How many of the first `j` literal/length symbols have length `v`. */
  ghost function LitCountTo(j: nat, v: nat): nat {
    if j <= 144 then (if v == 8 then j else 0)
    else if j <= 256 then (if v == 8 then 144 else if v == 9 then j - 144 else 0)
    else if j <= 280 then (if v == 8 then 144 else if v == 9 then 112 else if v == 7 then j - 256 else 0)
    else (if v == 8 then 144 + (j - 280) else if v == 9 then 112 else if v == 7 then 24 else 0)
  }

  lemma LitCountBelow(j: nat, v: nat)
    requires j <= LLLEN
    ensures CountIn(FixedLitLengths(), 0, j, v) == LitCountTo(j, v)
  {
    var cl := FixedLitLengths();
    if j <= 144 {
      ConstantCount(cl, 0, j, 8, v);
    } else if j <= 256 {
      LitCountBelow(144, v);
      CountInSplit(cl, 0, 144, j, v);
      ConstantCount(cl, 144, j, 9, v);
    } else if j <= 280 {
      LitCountBelow(256, v);
      CountInSplit(cl, 0, 256, j, v);
      ConstantCount(cl, 256, j, 7, v);
    } else {
      LitCountBelow(280, v);
      CountInSplit(cl, 0, 280, j, v);
      ConstantCount(cl, 280, j, 8, v);
    }
  }

  /** The first codes of lengths 7, 8 and 9. */
  lemma LitNextCodes(cl: seq<nat>)
    requires cl == FixedLitLengths()
    ensures RfcNextCode(cl, 7) == 0 && RfcNextCode(cl, 8) == 48 && RfcNextCode(cl, 9) == 400
  {
    forall v | 1 <= v <= 8
      ensures BlCount(cl, v) == if v == 7 then 24 else if v == 8 then 152 else 0
    {
      LitCountBelow(LLLEN, v);
    }
    assert RfcNextCode(cl, 1) == 0;
    assert RfcNextCode(cl, 2) == 0;
    assert RfcNextCode(cl, 3) == 0;
    assert RfcNextCode(cl, 4) == 0;
    assert RfcNextCode(cl, 5) == 0;
    assert RfcNextCode(cl, 6) == 0;
  }

  /** The canonical codes of the fixed literal/length lengths are the table
      of section 3.2.6 of RFC 1951. */
  lemma LitCodesAreTable(j: nat)
    requires j < LLLEN
    ensures RfcCode(FixedLitLengths(), j) == FixedLitCode(j)
  {
    var cl := FixedLitLengths();
    LitNextCodes(cl);
    LitCountBelow(j, cl[j]);
  }

  /** Each length's codes occupy their own stretch: 7-bit codes lie below
      24, 8-bit codes in `[48, 200)` and 9-bit codes in `[400, 512)`. */
  lemma LitCodeRange(j: nat)
    requires j < LLLEN
    ensures var l, c := FixedLitLengths()[j], FixedLitCode(j);
      && 7 <= l <= 9 && c < Pow2(l)
      && (l == 7 ==> c < 24)
      && (l == 8 ==> 48 <= c < 200)
      && (l == 9 ==> 400 <= c)
  {
    Pow2Values();
  }

  /** `PrefixBlockIf` for lengths at most two apart, in linear terms. */
  lemma SmallBlock(cj: nat, lj: nat, ck: nat, lk: nat)
    requires lj <= lk <= lj + 2 && cj < Pow2(lj) && ck < Pow2(lk)
    ensures Path(cj, lj) <= Path(ck, lk) ==>
      && (lk == lj ==> ck == cj)
      && (lk == lj + 1 ==> 2 * cj <= ck < 2 * cj + 2)
      && (lk == lj + 2 ==> 4 * cj <= ck < 4 * cj + 4)
  {
    PrefixBlockIf(cj, lj, ck, lk);
    Pow2Values();
  }

  /** No fixed literal/length code starts another. */
  lemma LitNotPrefix(j: nat, k: nat)
    requires j < LLLEN && k < LLLEN && j != k
    ensures !(Path(FixedLitCode(j), FixedLitLengths()[j]) <= Path(FixedLitCode(k), FixedLitLengths()[k]))
  {
    var cl := FixedLitLengths();
    LitCodeRange(j);
    LitCodeRange(k);
    if cl[j] <= cl[k] {
      SmallBlock(FixedLitCode(j), cl[j], FixedLitCode(k), cl[k]);
    }
  }

  lemma LitPrefixFree()
    ensures PrefixFree(CodeBook(FixedLitLengths()))
  {
    var cl := FixedLitLengths();
    forall e1, e2 | e1 in CodeBook(cl) && e2 in CodeBook(cl) && e1 != e2
      ensures !(e1.path <= e2.path)
    {
      var j, k := e1.sym, e2.sym;
      LitCodesAreTable(j);
      LitCodesAreTable(k);
      LitNotPrefix(j, k);
    }
  }

  /** The depth bounds of the literal/length trie: below depth 8 any node
      may exist, at depth 8 only codes from 48 up, at depth 9 from 400 up. */
  const LitLows: seq<nat> := [0, 0, 0, 0, 0, 0, 0, 48, 400]

  /** The top `k` bits of a literal/length code reach the depth's low bound. */
  lemma LitTopBitsLow(lows: seq<nat>, l: nat, k: nat, c: nat, q: nat)
    requires lows == LitLows
    requires 0 < k <= l && 7 <= l <= 9
    requires (l == 8 ==> 48 <= c) && (l == 9 ==> 400 <= c)
    requires c < (q + 1) * Pow2(l - k)
    ensures lows[k - 1] <= q
  {
    if k == 8 && l == 9 {
      assert Pow2(1) == 2;
    } else if k >= 8 {
      assert Pow2(0) == 1;
    }
  }

  /** Every prefix of a literal/length code lies in the tiers of `LitLows`. */
  lemma LitPrefixInTiers(lows: seq<nat>, j: nat, k: nat)
    requires lows == LitLows && j < LLLEN && 0 < k <= FixedLitLengths()[j]
    ensures Path(FixedLitCode(j), FixedLitLengths()[j])[..k] in Tiers(lows, 9)
  {
    var l, c := FixedLitLengths()[j], FixedLitCode(j);
    LitCodeRange(j);
    var q := TopBits(c, l, k);
    LitTopBitsLow(lows, l, k, c, q);
    InTiers(lows, 9, q, k);
  }

  lemma LitPrefixesInTiers(lows: seq<nat>)
    requires lows == LitLows
    ensures Prefixes(CodeBook(FixedLitLengths())) <= Tiers(lows, 9)
  {
    var cl := FixedLitLengths();
    forall u | u in Prefixes(CodeBook(cl))
      ensures u in Tiers(lows, 9)
    {
      if u != [] {
        var e, k := PrefixOf(CodeBook(cl), u);
        CodeBookEntry(cl, e);
        LitCodesAreTable(e.sym);
        LitPrefixInTiers(lows, e.sym, k);
      }
    }
  }

  /** Each depth's low bound lies within that depth's codes. */
  lemma LowsFit(lows: seq<nat>)
    requires lows == LitLows || lows == DistLows
    ensures forall d :: 0 <= d < |lows| ==> lows[d] <= Pow2(d + 1)
  {
    Pow2Values();
  }

  /** 1 + (2 + 4 + ... + 128) + (256 - 48) + (512 - 400) nodes. */
  lemma LitRoom(lows: seq<nat>)
    requires lows == LitLows
    ensures TierRoom(lows, 9) == 575
  {
    Pow2Values();
    assert TierRoom(lows, 7) == 255;
  }

  lemma LitTierRoom(lows: seq<nat>)
    requires lows == LitLows
    ensures |Tiers(lows, 9)| == 575
  {
    LowsFit(lows);
    TiersCard(lows, 9);
    LitRoom(lows);
  }

  /** The symbol whose fixed code is `c` in `l` bits. */
  lemma LitSymbolOf(l: nat, c: nat) returns (j: nat)
    requires (l == 7 && c < 24) || (l == 8 && 48 <= c < 200) || (l == 9 && 400 <= c < 512)
    ensures j < LLLEN && FixedLitLengths()[j] == l && FixedLitCode(j) == c
  {
    if l == 7 {
      j := c + 256;
    } else if l == 8 && c < 192 {
      j := c - 48;
    } else if l == 8 {
      j := c - 192 + 280;
    } else {
      j := c - 400 + 144;
    }
  }

  /** A code, `l` bits long, whose top `d` bits are `v`: codes below 24 take
      7 bits, codes in `[48, 200)` take 8 and codes from 400 up take 9, and
      between them they cover every tier path. */
  lemma LitExtension(d: nat, v: nat) returns (l: nat, c: nat)
    requires 1 <= d <= 9 && LitLows[d - 1] <= v < Pow2(d)
    ensures d <= l && c == v * Pow2(l - d)
    ensures (l == 7 && c < 24) || (l == 8 && 48 <= c < 200) || (l == 9 && 400 <= c < 512)
  {
    Pow2Values();
    if d == 9 {
      l, c := 9, v;
    } else if d == 8 && v < 200 {
      l, c := 8, v;
    } else if d == 8 {
      l, c := 9, 2 * v;
    } else {
      var p := Pow2(7 - d);
      Pow2Add(d, 7 - d);
      var w := v * p;
      assert w < 128 by {
        assert v * p < Pow2(d) * p;
      }
      assert Pow2(8 - d) == 2 * p && Pow2(9 - d) == 4 * p;
      if w < 24 {
        l, c := 7, w;
      } else if w < 100 {
        l, c := 8, 2 * w;
      } else {
        l, c := 9, 4 * w;
      }
    }
  }

  /** The `d`-bit path of `v` starts a fixed literal/length code. */
  lemma LitTierPrefix(d: nat, v: nat)
    requires 1 <= d <= 9 && LitLows[d - 1] <= v < Pow2(d)
    ensures Path(v, d) in Prefixes(CodeBook(FixedLitLengths()))
  {
    var l, c := LitExtension(d, v);
    var j := LitSymbolOf(l, c);
    LitCodesAreTable(j);
    CodeBookPrefix(FixedLitLengths(), j, l, c, v, d);
  }

  /** Every tier path is a prefix of a fixed literal/length code. */
  lemma LitTiersArePrefixes(lows: seq<nat>)
    requires lows == LitLows
    ensures Tiers(lows, 9) <= Prefixes(CodeBook(FixedLitLengths()))
  {
    forall u | u in Tiers(lows, 9)
      ensures u in Prefixes(CodeBook(FixedLitLengths()))
    {
      if u != [] {
        var d, v := TierOf(lows, 9, u);
        LitTierPrefix(d, v);
      }
    }
  }

  /** The literal/length trie needs every one of the `GZ_HTLL_MAX` nodes:
      its prefixes are exactly the tier paths. */
  lemma LitPrefixCount()
    ensures |Prefixes(CodeBook(FixedLitLengths()))| == HTLL_MAX
  {
    var lows := LitLows;
    LitPrefixesInTiers(lows);
    LitTiersArePrefixes(lows);
    assert Prefixes(CodeBook(FixedLitLengths())) == Tiers(lows, 9);
    LitTierRoom(lows);
  }

  // ---------------------------------------------------------------------------
  // The distance codes

  /** The canonical code of distance symbol `j` is `j` itself, in 5 bits. */
  lemma DistCodesAreTable(j: nat)
    requires j < DISTLEN
    ensures RfcCode(FixedDistLengths(), j) == j
  {
    var cl := FixedDistLengths();
    forall v | 1 <= v <= 4
      ensures BlCount(cl, v) == 0
    {
      ConstantCount(cl, 0, DISTLEN, 5, v);
    }
    assert RfcNextCode(cl, 5) == 0;
    ConstantCount(cl, 0, j, 5, 5);
  }

  lemma DistPrefixFree()
    ensures PrefixFree(CodeBook(FixedDistLengths()))
  {
    var cl := FixedDistLengths();
    Pow2Values();
    forall e1, e2 | e1 in CodeBook(cl) && e2 in CodeBook(cl) && e1 != e2
      ensures !(e1.path <= e2.path)
    {
      var j, k := e1.sym, e2.sym;
      DistCodesAreTable(j);
      DistCodesAreTable(k);
      PrefixBlockIf(j, 5, k, 5);
    }
  }

  /** Any node of the distance trie may exist: every depth starts at 0. */
  const DistLows: seq<nat> := [0, 0, 0, 0, 0]

  /** Every prefix of a distance code lies in the tiers of `DistLows`. */
  lemma DistPrefixInTiers(lows: seq<nat>, j: nat, k: nat)
    requires lows == DistLows && j < DISTLEN && 0 < k <= 5
    ensures Path(RfcCode(FixedDistLengths(), j), 5)[..k] in Tiers(lows, 5)
  {
    DistCodesAreTable(j);
    assert Pow2(5) == 32;
    var q := TopBits(j, 5, k);
    InTiers(lows, 5, q, k);
  }

  lemma DistPrefixesInTiers(lows: seq<nat>)
    requires lows == DistLows
    ensures Prefixes(CodeBook(FixedDistLengths())) <= Tiers(lows, 5)
  {
    var cl := FixedDistLengths();
    forall u | u in Prefixes(CodeBook(cl))
      ensures u in Tiers(lows, 5)
    {
      if u != [] {
        var e, k := PrefixOf(CodeBook(cl), u);
        CodeBookEntry(cl, e);
        DistPrefixInTiers(lows, e.sym, k);
      }
    }
  }

  lemma DistTierRoom(lows: seq<nat>)
    requires lows == DistLows
    ensures |Tiers(lows, 5)| == 63
  {
    LowsFit(lows);
    TiersCard(lows, 5);
    Pow2Values();
    assert TierRoom(lows, 5) == 63;
  }

  /** In a table that gives each of the 32 distance symbols itself as its
      5-bit code, the `d`-bit path of `v` starts the code `v * 2^(5 - d)`. */
  lemma DistTierPrefix(cl: seq<nat>, d: nat, v: nat)
    requires |cl| == DISTLEN && forall j :: 0 <= j < DISTLEN ==> cl[j] == 5 && RfcCode(cl, j) == j
    requires 1 <= d <= 5 && v < Pow2(d)
    ensures Path(v, d) in Prefixes(CodeBook(cl))
  {
    var c := DistScaled(d, v);
    CodeBookPrefix(cl, c, 5, c, v, d);
  }

  /** `v` followed by `5 - d` zero bits is a 5-bit code. */
  lemma DistScaled(d: nat, v: nat) returns (c: nat)
    requires d <= 5 && v < Pow2(d)
    ensures c == v * Pow2(5 - d) && c < DISTLEN
  {
    var p := Pow2(5 - d);
    c := v * p;
    Pow2Add(d, 5 - d);
    assert Pow2(5) == 32;
    assert v * p < Pow2(d) * p;
  }

  /** Every tier path is a prefix of a fixed distance code. */
  lemma DistTiersArePrefixes(lows: seq<nat>)
    requires lows == DistLows
    ensures Tiers(lows, 5) <= Prefixes(CodeBook(FixedDistLengths()))
  {
    var cl := FixedDistLengths();
    forall j | 0 <= j < DISTLEN
      ensures cl[j] == 5 && RfcCode(cl, j) == j
    {
      DistCodesAreTable(j);
    }
    forall u | u in Tiers(lows, 5)
      ensures u in Prefixes(CodeBook(cl))
    {
      if u != [] {
        var d, v := TierOf(lows, 5, u);
        DistTierPrefix(cl, d, v);
      }
    }
  }

  /** The distance trie needs every one of the `GZ_HTDIST_MAX` nodes. */
  lemma DistPrefixCount()
    ensures |Prefixes(CodeBook(FixedDistLengths()))| == HTDIST_MAX
  {
    var lows := DistLows;
    DistPrefixesInTiers(lows);
    DistTiersArePrefixes(lows);
    assert Prefixes(CodeBook(FixedDistLengths())) == Tiers(lows, 5);
    DistTierRoom(lows);
  }

  // ---------------------------------------------------------------------------
  // Both tables build

  /** Both fixed tables build, and the code books they decode are prefix-free.
      With `LitPrefixCount` and `DistPrefixCount`, they fill their node arrays
      exactly. */
  lemma FixedCodesHold()
    ensures BuildHt(FixedLitLengths(), HTLL_MAX).Some? && BuildHt(FixedDistLengths(), HTDIST_MAX).Some?
    ensures PrefixFree(CodeBook(FixedLitLengths())) && PrefixFree(CodeBook(FixedDistLengths()))
  {
    LitPrefixFree();
    LitPrefixCount();
    BuildHtSucceeds(FixedLitLengths(), HTLL_MAX);
    DistPrefixFree();
    DistPrefixCount();
    BuildHtSucceeds(FixedDistLengths(), HTDIST_MAX);
  }
}
