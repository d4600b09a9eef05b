/** Length and distance codes of section 3.2.5 of RFC 1951 as `gz_getlen` and
    `gz_getdist` resolve them: a base from a table plus a number of extra bits
    read from the stream. */
module LenDist {
  import opened Base
  import opened BitStream

  /** `gz_lentable`: the base lengths of codes 265..284. */
  const LenTable: seq<nat> := [11, 13, 15, 17, 19, 23, 27, 31, 35, 43, 51, 59, 67, 83, 99, 115, 131, 163, 195, 227]

  /** `gz_disttable`: the base distances, less one, of codes 4..29. */
  const DistTable: seq<nat> := [4, 6, 8, 12, 16, 24, 32, 48, 64, 96, 128, 192, 256, 384, 512, 768, 1024, 1536, 2048, 3072, 4096, 6144, 8192, 12288, 16384, 24576]

  /** The length table of section 3.2.5 of RFC 1951, indexed by code - 257. */
  const RfcLenBase: seq<nat> := [3, 4, 5, 6, 7, 8, 9, 10, 11, 13, 15, 17, 19, 23, 27, 31, 35, 43, 51, 59, 67, 83, 99, 115, 131, 163, 195, 227, 258]
  const RfcLenExtra: seq<nat> := [0, 0, 0, 0, 0, 0, 0, 0, 1, 1, 1, 1, 2, 2, 2, 2, 3, 3, 3, 3, 4, 4, 4, 4, 5, 5, 5, 5, 0]

  /** The distance table of section 3.2.5 of RFC 1951, indexed by code. */
  const RfcDistBase: seq<nat> := [1, 2, 3, 4, 5, 7, 9, 13, 17, 25, 33, 49, 65, 97, 129, 193, 257, 385, 513, 769, 1025, 1537, 2049, 3073, 4097, 6145, 8193, 12289, 16385, 24577]
  const RfcDistExtra: seq<nat> := [0, 0, 0, 0, 1, 1, 2, 2, 3, 3, 4, 4, 5, 5, 6, 6, 7, 7, 8, 8, 9, 9, 10, 10, 11, 11, 12, 12, 13, 13]

  /** A resolved length or distance (-1 for an invalid code) and the reader after
      its extra bits. */
  datatype Resolved = Resolved(value: int, cur: Cursor)

  predicate IsLenCode(code: int) {
    257 <= code <= 285
  }

  predicate IsDistCode(code: int) {
    0 <= code <= 29
  }

  /** `gz_getlen`. */
  function GetLen(code: int, c: Cursor): (r: Resolved)
    requires c.Valid()
    ensures !IsLenCode(code) ==> r == Resolved(-1, c)
    ensures IsLenCode(code) ==>
      var e := ReadBits(c, RfcLenExtra[code - 257]);
      r == Resolved(RfcLenBase[code - 257] + e.value, e.cur)
    ensures IsLenCode(code) ==> 3 <= r.value <= 258
  {
    LenTableAgrees(code);
    if code < 257 || code > 285 then Resolved(-1, c)
    else if code == 285 then Resolved(258, c)
    else if code < 265 then Resolved(code - 254, c)
    else
      var extra := ReadBits(c, (code - 261) / 4);
      Resolved(extra.value + LenTable[code - 265], extra.cur)
  }

  /** `gz_getdist`. */
  function GetDist(code: int, c: Cursor): (r: Resolved)
    requires c.Valid()
    ensures !IsDistCode(code) ==> r == Resolved(-1, c)
    ensures IsDistCode(code) ==>
      var e := ReadBits(c, RfcDistExtra[code]);
      r == Resolved(RfcDistBase[code] + e.value, e.cur)
    ensures IsDistCode(code) ==> 1 <= r.value <= 32768
  {
    DistTableAgrees(code);
    if code < 0 || code > 29 then Resolved(-1, c)
    else if code < 4 then Resolved(code + 1, c)
    else
      var extra := ReadBits(c, (code - 2) / 2);
      Resolved(extra.value + DistTable[code - 4] + 1, extra.cur)
  }

  /** The C's tables and formulas give the RFC's base, extra-bit count and
      largest value for every length code. */
  lemma LenTableAgrees(code: int)
    ensures IsLenCode(code) ==>
      && RfcLenBase[code - 257] + Pow2(RfcLenExtra[code - 257]) - 1 <= 258
      && RfcLenBase[code - 257] >= 3
      && (code == 285 ==> RfcLenBase[code - 257] == 258 && RfcLenExtra[code - 257] == 0)
      && (code < 265 ==> RfcLenBase[code - 257] == code - 254 && RfcLenExtra[code - 257] == 0)
      && (265 <= code < 285 ==>
            RfcLenBase[code - 257] == LenTable[code - 265] && RfcLenExtra[code - 257] == (code - 261) / 4)
  {
    if IsLenCode(code) {
      LenRow(code, RfcLenBase[code - 257], RfcLenExtra[code - 257]);
    }
  }

  lemma LenRow(code: int, base: nat, extra: nat)
    requires IsLenCode(code) && base == RfcLenBase[code - 257] && extra == RfcLenExtra[code - 257]
    ensures base + Pow2(extra) - 1 <= 258 && base >= 3
    ensures code == 285 ==> base == 258 && extra == 0
    ensures code < 265 ==> base == code - 254 && extra == 0
    ensures 265 <= code < 285 ==> base == LenTable[code - 265] && extra == (code - 261) / 4
  {
    if 265 <= code < 285 {
      LenRowTable(code, base, extra);
    } else {
      if code == 257 { assert base == 3 && extra == 0;
      } else if code == 258 { assert base == 4 && extra == 0;
      } else if code == 259 { assert base == 5 && extra == 0;
      } else if code == 260 { assert base == 6 && extra == 0;
      } else if code == 261 { assert base == 7 && extra == 0;
      } else if code == 262 { assert base == 8 && extra == 0;
      } else if code == 263 { assert base == 9 && extra == 0;
      } else if code == 264 { assert base == 10 && extra == 0;
      } else {
        assert base == 258 && extra == 0;
      }
    }
  }

  lemma LenRowTable(code: int, base: nat, extra: nat)
    requires 265 <= code < 285 && base == RfcLenBase[code - 257] && extra == RfcLenExtra[code - 257]
    ensures base + Pow2(extra) - 1 <= 258 && base >= 3
    ensures base == LenTable[code - 265] && extra == (code - 261) / 4
  {
    if code < 270 {
      LenRowTableA(code, base, extra);
    } else if code < 275 {
      LenRowTableB(code, base, extra);
    } else if code < 280 {
      LenRowTableC(code, base, extra);
    } else {
      LenRowTableD(code, base, extra);
    }
  }

  lemma LenRowTableA(code: int, base: nat, extra: nat)
    requires 265 <= code < 285 && base == RfcLenBase[code - 257] && extra == RfcLenExtra[code - 257]
    requires 265 <= code <= 269
    ensures base + Pow2(extra) - 1 <= 258 && base >= 3
    ensures base == LenTable[code - 265] && extra == (code - 261) / 4
  {
    Pow2Values();
    if code == 265 { assert base == 11 == LenTable[0] && extra == 1;
    } else if code == 266 { assert base == 13 == LenTable[1] && extra == 1;
    } else if code == 267 { assert base == 15 == LenTable[2] && extra == 1;
    } else if code == 268 { assert base == 17 == LenTable[3] && extra == 1;
    } else if code == 269 { assert base == 19 == LenTable[4] && extra == 2;
    }
  }

  lemma LenRowTableB(code: int, base: nat, extra: nat)
    requires 265 <= code < 285 && base == RfcLenBase[code - 257] && extra == RfcLenExtra[code - 257]
    requires 270 <= code <= 274
    ensures base + Pow2(extra) - 1 <= 258 && base >= 3
    ensures base == LenTable[code - 265] && extra == (code - 261) / 4
  {
    Pow2Values();
    if code == 270 { assert base == 23 == LenTable[5] && extra == 2;
    } else if code == 271 { assert base == 27 == LenTable[6] && extra == 2;
    } else if code == 272 { assert base == 31 == LenTable[7] && extra == 2;
    } else if code == 273 { assert base == 35 == LenTable[8] && extra == 3;
    } else if code == 274 { assert base == 43 == LenTable[9] && extra == 3;
    }
  }

  lemma LenRowTableC(code: int, base: nat, extra: nat)
    requires 265 <= code < 285 && base == RfcLenBase[code - 257] && extra == RfcLenExtra[code - 257]
    requires 275 <= code <= 279
    ensures base + Pow2(extra) - 1 <= 258 && base >= 3
    ensures base == LenTable[code - 265] && extra == (code - 261) / 4
  {
    Pow2Values();
    if code == 275 { assert base == 51 == LenTable[10] && extra == 3;
    } else if code == 276 { assert base == 59 == LenTable[11] && extra == 3;
    } else if code == 277 { assert base == 67 == LenTable[12] && extra == 4;
    } else if code == 278 { assert base == 83 == LenTable[13] && extra == 4;
    } else if code == 279 { assert base == 99 == LenTable[14] && extra == 4;
    }
  }

  lemma LenRowTableD(code: int, base: nat, extra: nat)
    requires 265 <= code < 285 && base == RfcLenBase[code - 257] && extra == RfcLenExtra[code - 257]
    requires 280 <= code <= 284
    ensures base + Pow2(extra) - 1 <= 258 && base >= 3
    ensures base == LenTable[code - 265] && extra == (code - 261) / 4
  {
    Pow2Values();
    if code == 280 { assert base == 115 == LenTable[15] && extra == 4;
    } else if code == 281 { assert base == 131 == LenTable[16] && extra == 5;
    } else if code == 282 { assert base == 163 == LenTable[17] && extra == 5;
    } else if code == 283 { assert base == 195 == LenTable[18] && extra == 5;
    } else if code == 284 { assert base == 227 == LenTable[19] && extra == 5;
    }
  }

  lemma DistTableAgrees(code: int)
    ensures IsDistCode(code) ==>
      && RfcDistBase[code] + Pow2(RfcDistExtra[code]) - 1 <= 32768
      && RfcDistBase[code] >= 1
      && (code < 4 ==> RfcDistBase[code] == code + 1 && RfcDistExtra[code] == 0)
      && (4 <= code ==> RfcDistBase[code] == DistTable[code - 4] + 1 && RfcDistExtra[code] == (code - 2) / 2)
  {
    if IsDistCode(code) {
      DistRow(code, RfcDistBase[code], RfcDistExtra[code]);
    }
  }

  lemma DistRow(code: int, base: nat, extra: nat)
    requires IsDistCode(code) && base == RfcDistBase[code] && extra == RfcDistExtra[code]
    ensures base + Pow2(extra) - 1 <= 32768 && base >= 1
    ensures code < 4 ==> base == code + 1 && extra == 0
    ensures 4 <= code ==> base == DistTable[code - 4] + 1 && extra == (code - 2) / 2
  {
    if code < 5 {
      DistRowA(code, base, extra);
    } else if code < 10 {
      DistRowB(code, base, extra);
    } else if code < 15 {
      DistRowC(code, base, extra);
    } else if code < 20 {
      DistRowD(code, base, extra);
    } else if code < 25 {
      DistRowE(code, base, extra);
    } else {
      DistRowF(code, base, extra);
    }
  }

  lemma DistRowA(code: int, base: nat, extra: nat)
    requires IsDistCode(code) && base == RfcDistBase[code] && extra == RfcDistExtra[code]
    requires 0 <= code <= 4
    ensures base + Pow2(extra) - 1 <= 32768 && base >= 1
    ensures code < 4 ==> base == code + 1 && extra == 0
    ensures 4 <= code ==> base == DistTable[code - 4] + 1 && extra == (code - 2) / 2
  {
    Pow2Values();
    if code == 0 { assert base == 1 && extra == 0;
    } else if code == 1 { assert base == 2 && extra == 0;
    } else if code == 2 { assert base == 3 && extra == 0;
    } else if code == 3 { assert base == 4 && extra == 0;
    } else if code == 4 { assert base == 5 && extra == 1;
    }
  }

  lemma DistRowB(code: int, base: nat, extra: nat)
    requires IsDistCode(code) && base == RfcDistBase[code] && extra == RfcDistExtra[code]
    requires 5 <= code <= 9
    ensures base + Pow2(extra) - 1 <= 32768 && base >= 1
    ensures code < 4 ==> base == code + 1 && extra == 0
    ensures 4 <= code ==> base == DistTable[code - 4] + 1 && extra == (code - 2) / 2
  {
    Pow2Values();
    if code == 5 { assert base == 7 && extra == 1;
    } else if code == 6 { assert base == 9 && extra == 2;
    } else if code == 7 { assert base == 13 && extra == 2;
    } else if code == 8 { assert base == 17 && extra == 3;
    } else if code == 9 { assert base == 25 && extra == 3;
    }
  }

  lemma DistRowC(code: int, base: nat, extra: nat)
    requires IsDistCode(code) && base == RfcDistBase[code] && extra == RfcDistExtra[code]
    requires 10 <= code <= 14
    ensures base + Pow2(extra) - 1 <= 32768 && base >= 1
    ensures code < 4 ==> base == code + 1 && extra == 0
    ensures 4 <= code ==> base == DistTable[code - 4] + 1 && extra == (code - 2) / 2
  {
    Pow2Values();
    if code == 10 { assert base == 33 && extra == 4;
    } else if code == 11 { assert base == 49 && extra == 4;
    } else if code == 12 { assert base == 65 && extra == 5;
    } else if code == 13 { assert base == 97 && extra == 5;
    } else if code == 14 { assert base == 129 && extra == 6;
    }
  }

  lemma DistRowD(code: int, base: nat, extra: nat)
    requires IsDistCode(code) && base == RfcDistBase[code] && extra == RfcDistExtra[code]
    requires 15 <= code <= 19
    ensures base + Pow2(extra) - 1 <= 32768 && base >= 1
    ensures code < 4 ==> base == code + 1 && extra == 0
    ensures 4 <= code ==> base == DistTable[code - 4] + 1 && extra == (code - 2) / 2
  {
    Pow2Values();
    if code == 15 { assert base == 193 && extra == 6;
    } else if code == 16 { assert base == 257 && extra == 7;
    } else if code == 17 { assert base == 385 && extra == 7;
    } else if code == 18 { assert base == 513 && extra == 8;
    } else if code == 19 { assert base == 769 && extra == 8;
    }
  }

  lemma DistRowE(code: int, base: nat, extra: nat)
    requires IsDistCode(code) && base == RfcDistBase[code] && extra == RfcDistExtra[code]
    requires 20 <= code <= 24
    ensures base + Pow2(extra) - 1 <= 32768 && base >= 1
    ensures code < 4 ==> base == code + 1 && extra == 0
    ensures 4 <= code ==> base == DistTable[code - 4] + 1 && extra == (code - 2) / 2
  {
    Pow2Values();
    if code == 20 { assert base == 1025 && extra == 9;
    } else if code == 21 { assert base == 1537 && extra == 9;
    } else if code == 22 { assert base == 2049 && extra == 10;
    } else if code == 23 { assert base == 3073 && extra == 10;
    } else if code == 24 { assert base == 4097 && extra == 11;
    }
  }

  lemma DistRowF(code: int, base: nat, extra: nat)
    requires IsDistCode(code) && base == RfcDistBase[code] && extra == RfcDistExtra[code]
    requires 25 <= code <= 29
    ensures base + Pow2(extra) - 1 <= 32768 && base >= 1
    ensures code < 4 ==> base == code + 1 && extra == 0
    ensures 4 <= code ==> base == DistTable[code - 4] + 1 && extra == (code - 2) / 2
  {
    Pow2Values();
    if code == 25 { assert base == 6145 && extra == 11;
    } else if code == 26 { assert base == 8193 && extra == 12;
    } else if code == 27 { assert base == 12289 && extra == 12;
    } else if code == 28 { assert base == 16385 && extra == 13;
    } else if code == 29 { assert base == 24577 && extra == 13;
    }
  }

  // ---------------------------------------------------------------------------
  // The tables tile their ranges, so every length and distance has a code

  /** Each length code's range starts right after the previous one ends; the
      last extra-bit code, 284, reaches 258, which 285 also stands for. */
  lemma LenTiling(k: nat)
    requires k < 28
    ensures k < 27 ==> RfcLenBase[k + 1] == RfcLenBase[k] + Pow2(RfcLenExtra[k])
    ensures k == 27 ==> RfcLenBase[k] + Pow2(RfcLenExtra[k]) - 1 == 258 == RfcLenBase[k + 1]
  {
    if k < 5 {
      LenTilingA(k);
    } else if k < 10 {
      LenTilingB(k);
    } else if k < 15 {
      LenTilingC(k);
    } else if k < 20 {
      LenTilingD(k);
    } else if k < 25 {
      LenTilingE(k);
    } else {
      LenTilingF(k);
    }
  }

  lemma LenTilingA(k: nat)
    requires k < 28
    requires 0 <= k <= 4
    ensures k < 27 ==> RfcLenBase[k + 1] == RfcLenBase[k] + Pow2(RfcLenExtra[k])
    ensures k == 27 ==> RfcLenBase[k] + Pow2(RfcLenExtra[k]) - 1 == 258 == RfcLenBase[k + 1]
  {
    Pow2Values();
    if k == 0 { assert RfcLenBase[k] == 3 && RfcLenExtra[k] == 0 && RfcLenBase[k + 1] == 4;
    } else if k == 1 { assert RfcLenBase[k] == 4 && RfcLenExtra[k] == 0 && RfcLenBase[k + 1] == 5;
    } else if k == 2 { assert RfcLenBase[k] == 5 && RfcLenExtra[k] == 0 && RfcLenBase[k + 1] == 6;
    } else if k == 3 { assert RfcLenBase[k] == 6 && RfcLenExtra[k] == 0 && RfcLenBase[k + 1] == 7;
    } else if k == 4 { assert RfcLenBase[k] == 7 && RfcLenExtra[k] == 0 && RfcLenBase[k + 1] == 8;
    }
  }

  lemma LenTilingB(k: nat)
    requires k < 28
    requires 5 <= k <= 9
    ensures k < 27 ==> RfcLenBase[k + 1] == RfcLenBase[k] + Pow2(RfcLenExtra[k])
    ensures k == 27 ==> RfcLenBase[k] + Pow2(RfcLenExtra[k]) - 1 == 258 == RfcLenBase[k + 1]
  {
    Pow2Values();
    if k == 5 { assert RfcLenBase[k] == 8 && RfcLenExtra[k] == 0 && RfcLenBase[k + 1] == 9;
    } else if k == 6 { assert RfcLenBase[k] == 9 && RfcLenExtra[k] == 0 && RfcLenBase[k + 1] == 10;
    } else if k == 7 { assert RfcLenBase[k] == 10 && RfcLenExtra[k] == 0 && RfcLenBase[k + 1] == 11;
    } else if k == 8 { assert RfcLenBase[k] == 11 && RfcLenExtra[k] == 1 && RfcLenBase[k + 1] == 13;
    } else if k == 9 { assert RfcLenBase[k] == 13 && RfcLenExtra[k] == 1 && RfcLenBase[k + 1] == 15;
    }
  }

  lemma LenTilingC(k: nat)
    requires k < 28
    requires 10 <= k <= 14
    ensures k < 27 ==> RfcLenBase[k + 1] == RfcLenBase[k] + Pow2(RfcLenExtra[k])
    ensures k == 27 ==> RfcLenBase[k] + Pow2(RfcLenExtra[k]) - 1 == 258 == RfcLenBase[k + 1]
  {
    Pow2Values();
    if k == 10 { assert RfcLenBase[k] == 15 && RfcLenExtra[k] == 1 && RfcLenBase[k + 1] == 17;
    } else if k == 11 { assert RfcLenBase[k] == 17 && RfcLenExtra[k] == 1 && RfcLenBase[k + 1] == 19;
    } else if k == 12 { assert RfcLenBase[k] == 19 && RfcLenExtra[k] == 2 && RfcLenBase[k + 1] == 23;
    } else if k == 13 { assert RfcLenBase[k] == 23 && RfcLenExtra[k] == 2 && RfcLenBase[k + 1] == 27;
    } else if k == 14 { assert RfcLenBase[k] == 27 && RfcLenExtra[k] == 2 && RfcLenBase[k + 1] == 31;
    }
  }

  lemma LenTilingD(k: nat)
    requires k < 28
    requires 15 <= k <= 19
    ensures k < 27 ==> RfcLenBase[k + 1] == RfcLenBase[k] + Pow2(RfcLenExtra[k])
    ensures k == 27 ==> RfcLenBase[k] + Pow2(RfcLenExtra[k]) - 1 == 258 == RfcLenBase[k + 1]
  {
    Pow2Values();
    if k == 15 { assert RfcLenBase[k] == 31 && RfcLenExtra[k] == 2 && RfcLenBase[k + 1] == 35;
    } else if k == 16 { assert RfcLenBase[k] == 35 && RfcLenExtra[k] == 3 && RfcLenBase[k + 1] == 43;
    } else if k == 17 { assert RfcLenBase[k] == 43 && RfcLenExtra[k] == 3 && RfcLenBase[k + 1] == 51;
    } else if k == 18 { assert RfcLenBase[k] == 51 && RfcLenExtra[k] == 3 && RfcLenBase[k + 1] == 59;
    } else if k == 19 { assert RfcLenBase[k] == 59 && RfcLenExtra[k] == 3 && RfcLenBase[k + 1] == 67;
    }
  }

  lemma LenTilingE(k: nat)
    requires k < 28
    requires 20 <= k <= 24
    ensures k < 27 ==> RfcLenBase[k + 1] == RfcLenBase[k] + Pow2(RfcLenExtra[k])
    ensures k == 27 ==> RfcLenBase[k] + Pow2(RfcLenExtra[k]) - 1 == 258 == RfcLenBase[k + 1]
  {
    Pow2Values();
    if k == 20 { assert RfcLenBase[k] == 67 && RfcLenExtra[k] == 4 && RfcLenBase[k + 1] == 83;
    } else if k == 21 { assert RfcLenBase[k] == 83 && RfcLenExtra[k] == 4 && RfcLenBase[k + 1] == 99;
    } else if k == 22 { assert RfcLenBase[k] == 99 && RfcLenExtra[k] == 4 && RfcLenBase[k + 1] == 115;
    } else if k == 23 { assert RfcLenBase[k] == 115 && RfcLenExtra[k] == 4 && RfcLenBase[k + 1] == 131;
    } else if k == 24 { assert RfcLenBase[k] == 131 && RfcLenExtra[k] == 5 && RfcLenBase[k + 1] == 163;
    }
  }

  lemma LenTilingF(k: nat)
    requires k < 28
    requires 25 <= k <= 27
    ensures k < 27 ==> RfcLenBase[k + 1] == RfcLenBase[k] + Pow2(RfcLenExtra[k])
    ensures k == 27 ==> RfcLenBase[k] + Pow2(RfcLenExtra[k]) - 1 == 258 == RfcLenBase[k + 1]
  {
    Pow2Values();
    if k == 25 { assert RfcLenBase[k] == 163 && RfcLenExtra[k] == 5 && RfcLenBase[k + 1] == 195;
    } else if k == 26 { assert RfcLenBase[k] == 195 && RfcLenExtra[k] == 5 && RfcLenBase[k + 1] == 227;
    } else if k == 27 { assert RfcLenBase[k] == 227 && RfcLenExtra[k] == 5 && RfcLenBase[k + 1] == 258;
    }
  }

  /** Each distance code's range starts right after the previous one ends; the
      last ends at 32768, the window size. */
  lemma DistTiling(k: nat)
    requires k < 30
    ensures k < 29 ==> RfcDistBase[k + 1] == RfcDistBase[k] + Pow2(RfcDistExtra[k])
    ensures k == 29 ==> RfcDistBase[k] + Pow2(RfcDistExtra[k]) - 1 == 32768
  {
    if k < 5 {
      DistTilingA(k);
    } else if k < 10 {
      DistTilingB(k);
    } else if k < 15 {
      DistTilingC(k);
    } else if k < 20 {
      DistTilingD(k);
    } else if k < 25 {
      DistTilingE(k);
    } else {
      DistTilingF(k);
    }
  }

  lemma DistTilingA(k: nat)
    requires k < 30
    requires 0 <= k <= 4
    ensures k < 29 ==> RfcDistBase[k + 1] == RfcDistBase[k] + Pow2(RfcDistExtra[k])
    ensures k == 29 ==> RfcDistBase[k] + Pow2(RfcDistExtra[k]) - 1 == 32768
  {
    Pow2Values();
    if k == 0 { assert RfcDistBase[k] == 1 && RfcDistExtra[k] == 0 && RfcDistBase[k + 1] == 2;
    } else if k == 1 { assert RfcDistBase[k] == 2 && RfcDistExtra[k] == 0 && RfcDistBase[k + 1] == 3;
    } else if k == 2 { assert RfcDistBase[k] == 3 && RfcDistExtra[k] == 0 && RfcDistBase[k + 1] == 4;
    } else if k == 3 { assert RfcDistBase[k] == 4 && RfcDistExtra[k] == 0 && RfcDistBase[k + 1] == 5;
    } else if k == 4 { assert RfcDistBase[k] == 5 && RfcDistExtra[k] == 1 && RfcDistBase[k + 1] == 7;
    }
  }

  lemma DistTilingB(k: nat)
    requires k < 30
    requires 5 <= k <= 9
    ensures k < 29 ==> RfcDistBase[k + 1] == RfcDistBase[k] + Pow2(RfcDistExtra[k])
    ensures k == 29 ==> RfcDistBase[k] + Pow2(RfcDistExtra[k]) - 1 == 32768
  {
    Pow2Values();
    if k == 5 { assert RfcDistBase[k] == 7 && RfcDistExtra[k] == 1 && RfcDistBase[k + 1] == 9;
    } else if k == 6 { assert RfcDistBase[k] == 9 && RfcDistExtra[k] == 2 && RfcDistBase[k + 1] == 13;
    } else if k == 7 { assert RfcDistBase[k] == 13 && RfcDistExtra[k] == 2 && RfcDistBase[k + 1] == 17;
    } else if k == 8 { assert RfcDistBase[k] == 17 && RfcDistExtra[k] == 3 && RfcDistBase[k + 1] == 25;
    } else if k == 9 { assert RfcDistBase[k] == 25 && RfcDistExtra[k] == 3 && RfcDistBase[k + 1] == 33;
    }
  }

  lemma DistTilingC(k: nat)
    requires k < 30
    requires 10 <= k <= 14
    ensures k < 29 ==> RfcDistBase[k + 1] == RfcDistBase[k] + Pow2(RfcDistExtra[k])
    ensures k == 29 ==> RfcDistBase[k] + Pow2(RfcDistExtra[k]) - 1 == 32768
  {
    Pow2Values();
    if k == 10 { assert RfcDistBase[k] == 33 && RfcDistExtra[k] == 4 && RfcDistBase[k + 1] == 49;
    } else if k == 11 { assert RfcDistBase[k] == 49 && RfcDistExtra[k] == 4 && RfcDistBase[k + 1] == 65;
    } else if k == 12 { assert RfcDistBase[k] == 65 && RfcDistExtra[k] == 5 && RfcDistBase[k + 1] == 97;
    } else if k == 13 { assert RfcDistBase[k] == 97 && RfcDistExtra[k] == 5 && RfcDistBase[k + 1] == 129;
    } else if k == 14 { assert RfcDistBase[k] == 129 && RfcDistExtra[k] == 6 && RfcDistBase[k + 1] == 193;
    }
  }

  lemma DistTilingD(k: nat)
    requires k < 30
    requires 15 <= k <= 19
    ensures k < 29 ==> RfcDistBase[k + 1] == RfcDistBase[k] + Pow2(RfcDistExtra[k])
    ensures k == 29 ==> RfcDistBase[k] + Pow2(RfcDistExtra[k]) - 1 == 32768
  {
    Pow2Values();
    if k == 15 { assert RfcDistBase[k] == 193 && RfcDistExtra[k] == 6 && RfcDistBase[k + 1] == 257;
    } else if k == 16 { assert RfcDistBase[k] == 257 && RfcDistExtra[k] == 7 && RfcDistBase[k + 1] == 385;
    } else if k == 17 { assert RfcDistBase[k] == 385 && RfcDistExtra[k] == 7 && RfcDistBase[k + 1] == 513;
    } else if k == 18 { assert RfcDistBase[k] == 513 && RfcDistExtra[k] == 8 && RfcDistBase[k + 1] == 769;
    } else if k == 19 { assert RfcDistBase[k] == 769 && RfcDistExtra[k] == 8 && RfcDistBase[k + 1] == 1025;
    }
  }

  lemma DistTilingE(k: nat)
    requires k < 30
    requires 20 <= k <= 24
    ensures k < 29 ==> RfcDistBase[k + 1] == RfcDistBase[k] + Pow2(RfcDistExtra[k])
    ensures k == 29 ==> RfcDistBase[k] + Pow2(RfcDistExtra[k]) - 1 == 32768
  {
    Pow2Values();
    if k == 20 { assert RfcDistBase[k] == 1025 && RfcDistExtra[k] == 9 && RfcDistBase[k + 1] == 1537;
    } else if k == 21 { assert RfcDistBase[k] == 1537 && RfcDistExtra[k] == 9 && RfcDistBase[k + 1] == 2049;
    } else if k == 22 { assert RfcDistBase[k] == 2049 && RfcDistExtra[k] == 10 && RfcDistBase[k + 1] == 3073;
    } else if k == 23 { assert RfcDistBase[k] == 3073 && RfcDistExtra[k] == 10 && RfcDistBase[k + 1] == 4097;
    } else if k == 24 { assert RfcDistBase[k] == 4097 && RfcDistExtra[k] == 11 && RfcDistBase[k + 1] == 6145;
    }
  }

  lemma DistTilingF(k: nat)
    requires k < 30
    requires 25 <= k <= 29
    ensures k < 29 ==> RfcDistBase[k + 1] == RfcDistBase[k] + Pow2(RfcDistExtra[k])
    ensures k == 29 ==> RfcDistBase[k] + Pow2(RfcDistExtra[k]) - 1 == 32768
  {
    Pow2Values();
    if k == 25 { assert RfcDistBase[k] == 6145 && RfcDistExtra[k] == 11 && RfcDistBase[k + 1] == 8193;
    } else if k == 26 { assert RfcDistBase[k] == 8193 && RfcDistExtra[k] == 12 && RfcDistBase[k + 1] == 12289;
    } else if k == 27 { assert RfcDistBase[k] == 12289 && RfcDistExtra[k] == 12 && RfcDistBase[k + 1] == 16385;
    } else if k == 28 { assert RfcDistBase[k] == 16385 && RfcDistExtra[k] == 13 && RfcDistBase[k + 1] == 24577;
    } else if k == 29 { assert RfcDistBase[k] == 24577 && RfcDistExtra[k] == 13;
    }
  }

  /** The length code an encoder picks for `len` (285 for 258). */
  function LenSymbol(len: nat): (code: int)
    requires 3 <= len <= 258
    ensures IsLenCode(code)
    ensures RfcLenBase[code - 257] <= len < RfcLenBase[code - 257] + Pow2(RfcLenExtra[code - 257])
  {
    if len == 258 then
      Pow2Values();
      285
    else
      257 + LenRowOf(len, 27)
  }

  function LenRowOf(len: nat, k: nat): (j: nat)
    requires 3 <= len <= 257 && k < 28
    requires k < 27 ==> len < RfcLenBase[k + 1]
    ensures j <= k && RfcLenBase[j] <= len < RfcLenBase[j] + Pow2(RfcLenExtra[j])
    decreases len + k
  {
    LenTiling(k);
    if RfcLenBase[k] <= len || k == 0 then k else LenRowOf(len, k - 1)
  }

  /** The distance code an encoder picks for `dist`. */
  function DistSymbol(dist: nat): (code: int)
    requires 1 <= dist <= 32768
    ensures IsDistCode(code)
    ensures RfcDistBase[code] <= dist < RfcDistBase[code] + Pow2(RfcDistExtra[code])
  {
    DistRowOf(dist, 29)
  }

  function DistRowOf(dist: nat, k: nat): (j: nat)
    requires 1 <= dist <= 32768 && k < 30
    requires k < 29 ==> dist < RfcDistBase[k + 1]
    ensures j <= k && RfcDistBase[j] <= dist < RfcDistBase[j] + Pow2(RfcDistExtra[j])
    decreases dist + k
  {
    DistTiling(k);
    if RfcDistBase[k] <= dist || k == 0 then k else DistRowOf(dist, k - 1)
  }

  /** The extra bits an encoder writes after the code of `len`. */
  function LenExtraBits(len: nat): (p: seq<bit>)
    requires 3 <= len <= 258
    ensures |p| == RfcLenExtra[LenSymbol(len) - 257]
  {
    var code := LenSymbol(len);
    LsbBits(len - RfcLenBase[code - 257], RfcLenExtra[code - 257])
  }

  /** The extra bits an encoder writes after the code of `dist`. */
  function DistExtraBits(dist: nat): (p: seq<bit>)
    requires 1 <= dist <= 32768
    ensures |p| == RfcDistExtra[DistSymbol(dist)]
  {
    var code := DistSymbol(dist);
    LsbBits(dist - RfcDistBase[code], RfcDistExtra[code])
  }

  /** A length written as its code's extra bits is resolved back to itself. */
  lemma LenRoundTrip(len: nat, c: Cursor)
    requires 3 <= len <= 258 && c.Valid() && BitsAt(c, LenExtraBits(len))
    ensures GetLen(LenSymbol(len), c) == Resolved(len, c.(pos := c.pos + |LenExtraBits(len)|))
  {
    var code := LenSymbol(len);
    ReadBitsField(c, len - RfcLenBase[code - 257], RfcLenExtra[code - 257]);
  }

  /** A distance written as its code's extra bits is resolved back to itself. */
  lemma DistRoundTrip(dist: nat, c: Cursor)
    requires 1 <= dist <= 32768 && c.Valid() && BitsAt(c, DistExtraBits(dist))
    ensures GetDist(DistSymbol(dist), c) == Resolved(dist, c.(pos := c.pos + |DistExtraBits(dist)|))
  {
    var code := DistSymbol(dist);
    ReadBitsField(c, dist - RfcDistBase[code], RfcDistExtra[code]);
  }
}
