/** Canonical code assignment of `gz_buildht` (section 3.2.2 of RFC 1951) as the
    C performs it: the symbol counts per length include length 0, so every first
    code of a length carries an extra `blcount[0] * 2^len`, which only the low
    `len` bits used for insertion mask out. */
module Canonical {
  import opened Base

  /** The number of symbols in `cl[lo..hi)` whose length is `v`. */
  function CountIn(cl: seq<nat>, lo: nat, hi: nat, v: nat): nat
    requires lo <= hi <= |cl|
    decreases hi - lo
  {
    if lo == hi then 0 else (if cl[lo] == v then 1 else 0) + CountIn(cl, lo + 1, hi, v)
  }

  /** `blcount[v]` as the C fills it, the zero length included. */
  function BlCount(cl: seq<nat>, v: nat): nat {
    CountIn(cl, 0, |cl|, v)
  }

  /** The C's `code` variable after the iteration `bits = b`:
      `code = (code + blcount[bits-1]) << 1`, starting from 0. */
  function FirstCode(cl: seq<nat>, b: nat): nat
    decreases b
  {
    if b == 0 then 0 else (FirstCode(cl, b - 1) + BlCount(cl, b - 1)) * 2
  }

  /** `next_code[b]` of section 3.2.2 of RFC 1951, where `bl_count[0]` is set to 0. */
  function RfcNextCode(cl: seq<nat>, b: nat): nat
    decreases b
  {
    if b == 0 then 0
    else (RfcNextCode(cl, b - 1) + (if b - 1 == 0 then 0 else BlCount(cl, b - 1))) * 2
  }

  /** `nxtcode[0..maxblen]` after its set-up loop: lengths nobody uses stay 0. */
  function NextCodes(cl: seq<nat>, maxblen: nat): (next: seq<nat>)
    ensures |next| == maxblen + 1
    ensures forall b :: 1 <= b <= maxblen && BlCount(cl, b) > 0 ==> next[b] == FirstCode(cl, b)
  {
    seq(maxblen + 1, b => if b >= 1 && BlCount(cl, b) > 0 then FirstCode(cl, b) else 0)
  }

  /** The code-assignment loop of `gz_buildht`: walking symbols in index order,
      a symbol of nonzero length takes `nxtcode[len]`, which is then incremented;
      a symbol of length 0 keeps the zeroed `code`. */
  function AssignFrom(cl: seq<nat>, i: nat, next: seq<nat>): (codes: seq<nat>)
    requires i <= |cl|
    requires forall j :: 0 <= j < |cl| ==> cl[j] < |next|
    ensures |codes| == |cl| - i
    decreases |cl| - i
  {
    if i == |cl| then []
    else if cl[i] == 0 then [0] + AssignFrom(cl, i + 1, next)
    else [next[cl[i]]] + AssignFrom(cl, i + 1, next[cl[i] := next[cl[i]] + 1])
  }

  /** The code the C gives symbol `k`, in closed form. */
  function Code(cl: seq<nat>, k: nat): nat
    requires k < |cl|
  {
    FirstCode(cl, cl[k]) + CountIn(cl, 0, k, cl[k])
  }

  /** The code section 3.2.2 of RFC 1951 gives symbol `k`. */
  function RfcCode(cl: seq<nat>, k: nat): nat
    requires k < |cl|
  {
    RfcNextCode(cl, cl[k]) + CountIn(cl, 0, k, cl[k])
  }

  lemma {:induction false} CountInSplit(cl: seq<nat>, lo: nat, mid: nat, hi: nat, v: nat)
    requires lo <= mid <= hi <= |cl|
    ensures CountIn(cl, lo, hi, v) == CountIn(cl, lo, mid, v) + CountIn(cl, mid, hi, v)
    decreases mid - lo
  {
    if lo < mid {
      CountInSplit(cl, lo + 1, mid, hi, v);
    }
  }

  /** The loop's result in closed form: symbol `k` gets the counter of its length
      as it stood on entry, advanced once per earlier symbol of that length. */
  lemma {:induction false} AssignFromCodes(cl: seq<nat>, i: nat, next: seq<nat>, k: nat)
    requires i <= k < |cl| && cl[k] > 0
    requires forall j :: 0 <= j < |cl| ==> cl[j] < |next|
    ensures AssignFrom(cl, i, next)[k - i] == next[cl[k]] + CountIn(cl, i, k, cl[k])
    decreases k - i
  {
    if i < k {
      if cl[i] == 0 {
        AssignFromCodes(cl, i + 1, next, k);
      } else {
        var next2 := next[cl[i] := next[cl[i]] + 1];
        AssignFromCodes(cl, i + 1, next2, k);
      }
    }
  }

  /** The C's codes are the closed-form `Code`. */
  lemma AssignedCodes(cl: seq<nat>, maxblen: nat, k: nat)
    requires forall j :: 0 <= j < |cl| ==> cl[j] <= maxblen
    requires k < |cl| && cl[k] > 0
    ensures AssignFrom(cl, 0, NextCodes(cl, maxblen))[k] == Code(cl, k)
  {
    AssignFromCodes(cl, 0, NextCodes(cl, maxblen), k);
    CountInSplit(cl, 0, k, |cl|, cl[k]);
    assert CountIn(cl, k, |cl|, cl[k]) >= 1;
  }

  /** Symbols of one nonzero length get increasing codes in index order, and
      neighbours in that order get consecutive codes. */
  lemma CodesIncrease(cl: seq<nat>, i: nat, j: nat)
    requires i < j < |cl| && cl[i] == cl[j] > 0
    ensures Code(cl, i) < Code(cl, j)
    ensures (forall m :: i < m < j ==> cl[m] != cl[i]) ==> Code(cl, j) == Code(cl, i) + 1
  {
    CountInSplit(cl, 0, i, j, cl[i]);
    CountInSplit(cl, i, i + 1, j, cl[i]);
    if forall m :: i < m < j ==> cl[m] != cl[i] {
      NoneCounted(cl, i + 1, j, cl[i]);
    }
  }

  lemma {:induction false} NoneCounted(cl: seq<nat>, lo: nat, hi: nat, v: nat)
    requires lo <= hi <= |cl|
    requires forall m :: lo <= m < hi ==> cl[m] != v
    ensures CountIn(cl, lo, hi, v) == 0
    decreases hi - lo
  {
    if lo < hi {
      NoneCounted(cl, lo + 1, hi, v);
    }
  }

  /** The C's first codes exceed RFC 1951's `next_code` by exactly `blcount[0] * 2^b`. */
  lemma {:induction false} FirstCodeOffset(cl: seq<nat>, b: nat)
    requires b >= 1
    ensures FirstCode(cl, b) == RfcNextCode(cl, b) + BlCount(cl, 0) * Pow2(b)
    decreases b
  {
    var z := BlCount(cl, 0);
    var p := Pow2(b - 1);
    var zp := z * p;
    assert z * Pow2(b) == 2 * zp;
    if b == 1 {
      assert p == 1 && zp == z;
      assert FirstCode(cl, b) == z * 2;
      assert RfcNextCode(cl, b) == 0;
    } else {
      FirstCodeOffset(cl, b - 1);
      var f, r := FirstCode(cl, b - 1), RfcNextCode(cl, b - 1);
      assert f == r + zp;
      var c := BlCount(cl, b - 1);
      assert FirstCode(cl, b) == (f + c) * 2;
      assert RfcNextCode(cl, b) == (r + c) * 2;
    }
  }

  /** The `len` code bits, most significant first, as the insertion loop tests
      them: `code & (1 << (bits - 1))` for `bits = len` down to 1. */
  function Path(code: nat, len: nat): (p: seq<bit>)
    ensures |p| == len
    ensures forall k :: 0 <= k < len ==> p[k] == Digit(code, len - 1 - k)
    decreases len
  {
    if len == 0 then [] else [Digit(code, len - 1)] + Path(code, len - 1)
  }

  lemma PathMasks(v: nat, m: nat, n: nat)
    ensures Path(v + m * Pow2(n), n) == Path(v, n)
  {
    forall k | 0 <= k < n
      ensures Path(v + m * Pow2(n), n)[k] == Path(v, n)[k]
    {
      DigitsBelowUnchanged(v, m, n, n - 1 - k);
    }
  }

  /** The first `k` bits of a `len`-bit path are the path of the code's top
      `k` bits, `q`, where `r` holds the low `len - k` bits. */
  lemma PathPrefix(q: nat, r: nat, len: nat, k: nat)
    requires k <= len && r < Pow2(len - k)
    ensures Path(r + q * Pow2(len - k), len)[..k] == Path(q, k)
  {
    forall i | 0 <= i < k
      ensures Path(r + q * Pow2(len - k), len)[..k][i] == Path(q, k)[i]
    {
      DigitsAboveShift(r, q, len - k, len - 1 - i);
    }
  }

  /** Splitting a code into its top bits and its low `m` bits. */
  lemma {:induction false} SplitLow(v: nat, m: nat) returns (q: nat, r: nat)
    ensures r < Pow2(m) && v == r + q * Pow2(m)
    decreases m
  {
    if m == 0 {
      q, r := v, 0;
    } else {
      var q1, r1 := SplitLow(v / 2, m - 1);
      q, r := q1, v % 2 + 2 * r1;
      assert q1 * Pow2(m) == 2 * (q1 * Pow2(m - 1));
    }
  }

  /** Codes below `2^n` have distinct `n`-bit paths. */
  lemma PathInjective(a: nat, b: nat, n: nat)
    requires a < Pow2(n) && b < Pow2(n) && Path(a, n) == Path(b, n)
    ensures a == b
  {
    forall k | 0 <= k < n
      ensures Digit(a, k) == Digit(b, k)
    {
      assert Path(a, n)[n - 1 - k] == Path(b, n)[n - 1 - k];
    }
    DigitsDetermine(a, b, n);
  }

  /** The top `k` bits of a `len`-bit code form a `k`-bit code. */
  lemma TopBitsBelow(q: nat, r: nat, len: nat, k: nat)
    requires k <= len && r + q * Pow2(len - k) < Pow2(len)
    ensures q < Pow2(k)
  {
    var p := Pow2(len - k);
    Pow2Add(k, len - k);
    assert q * p < Pow2(k) * p;
    MulCancel(q, Pow2(k), p);
  }

  lemma MulCancel(a: nat, b: nat, p: nat)
    requires p >= 1 && a * p < b * p
    ensures a < b
  {
  }

  /** When the `lj`-bit path of `cj` starts the `lk`-bit path of `ck`, `cj`
      is the top `lj` bits of `ck`: `ck` lies in the block of `2^(lk - lj)`
      codes that begins at `cj * 2^(lk - lj)`. */
  lemma PrefixBlockIf(cj: nat, lj: nat, ck: nat, lk: nat)
    requires lj <= lk && cj < Pow2(lj) && ck < Pow2(lk)
    ensures Path(cj, lj) <= Path(ck, lk) ==> cj * Pow2(lk - lj) <= ck < (cj + 1) * Pow2(lk - lj)
  {
    if Path(cj, lj) <= Path(ck, lk) {
      PrefixBlock(cj, lj, ck, lk);
    }
  }

  lemma PrefixBlock(cj: nat, lj: nat, ck: nat, lk: nat)
    requires lj <= lk && cj < Pow2(lj) && ck < Pow2(lk)
    requires Path(cj, lj) <= Path(ck, lk)
    ensures cj * Pow2(lk - lj) <= ck < (cj + 1) * Pow2(lk - lj)
  {
    var q, r := SplitLow(ck, lk - lj);
    PathPrefix(q, r, lk, lj);
    TopBitsBelow(q, r, lk, lj);
    PathInjective(cj, q, lj);
    assert (cj + 1) * Pow2(lk - lj) == cj * Pow2(lk - lj) + Pow2(lk - lj);
  }

  /** The first `k` bits of a `len`-bit code are the path of its top bits
      `q`, which lie below `2^k` and scale back to the code's block. */
  lemma TopBits(c: nat, len: nat, k: nat) returns (q: nat)
    requires k <= len && c < Pow2(len)
    ensures Path(c, len)[..k] == Path(q, k) && q < Pow2(k)
    ensures q * Pow2(len - k) <= c < (q + 1) * Pow2(len - k)
  {
    var r;
    q, r := SplitLow(c, len - k);
    PathPrefix(q, r, len, k);
    TopBitsBelow(q, r, len, k);
    assert (q + 1) * Pow2(len - k) == q * Pow2(len - k) + Pow2(len - k);
  }

  /** The `d`-bit paths of the codes in `[lo, hi)`. */
  ghost function Level(d: nat, lo: nat, hi: nat): set<seq<bit>> {
    set v | lo <= v < hi :: Path(v, d)
  }

  /** Distinct codes below `2^d` have distinct paths, so a level holds one
      path per code. */
  lemma {:induction false} LevelCard(d: nat, lo: nat, hi: nat)
    requires lo <= hi <= Pow2(d)
    ensures |Level(d, lo, hi)| == hi - lo
    decreases hi - lo
  {
    if lo < hi {
      LevelCard(d, lo, hi - 1);
      assert Level(d, lo, hi) == Level(d, lo, hi - 1) + {Path(hi - 1, d)};
      if Path(hi - 1, d) in Level(d, lo, hi - 1) {
        var v :| lo <= v < hi - 1 && Path(v, d) == Path(hi - 1, d);
        PathInjective(v, hi - 1, d);
      }
    }
  }

  /** The empty path and, at each depth `d` from 1 to `n`, the paths of the
      `d`-bit codes from `lows[d - 1]` up: the bit strings a trie may need
      nodes for when its depth-`d` nodes all lie at or above `lows[d - 1]`. */
  ghost function Tiers(lows: seq<nat>, n: nat): set<seq<bit>>
    requires n <= |lows|
  {
    if n == 0 then {[]}
    else Tiers(lows, n - 1) + Level(n, lows[n - 1], Pow2(n))
  }

  /** One node for the root plus `2^d - lows[d - 1]` per depth. */
  function TierRoom(lows: seq<nat>, n: nat): int
    requires n <= |lows|
  {
    if n == 0 then 1
    else TierRoom(lows, n - 1) + (Pow2(n) - lows[n - 1])
  }

  /** Each depth adds its own level, disjoint from the shorter paths before
      it, so the tiers hold exactly `TierRoom` paths. */
  lemma {:induction false} TiersCard(lows: seq<nat>, n: nat)
    requires n <= |lows|
    requires forall d :: 0 <= d < |lows| ==> lows[d] <= Pow2(d + 1)
    ensures |Tiers(lows, n)| == TierRoom(lows, n)
  {
    if n > 0 {
      TiersCard(lows, n - 1);
      LevelCard(n, lows[n - 1], Pow2(n));
      TiersLevelDisjoint(lows, n);
    }
  }

  /** The `n`-bit level shares no path with the shorter tiers. */
  lemma TiersLevelDisjoint(lows: seq<nat>, n: nat)
    requires 0 < n <= |lows|
    ensures Tiers(lows, n - 1) * Level(n, lows[n - 1], Pow2(n)) == {}
  {
    TiersShorter(lows, n - 1);
    forall u | u in Level(n, lows[n - 1], Pow2(n))
      ensures |u| == n
    {
      var v :| lows[n - 1] <= v < Pow2(n) && u == Path(v, n);
    }
  }

  /** Tier paths are at most `n` bits long. */
  lemma {:induction false} TiersShorter(lows: seq<nat>, n: nat)
    requires n <= |lows|
    ensures forall u :: u in Tiers(lows, n) ==> |u| <= n
  {
    if n > 0 {
      TiersShorter(lows, n - 1);
    }
  }

  /** A nonempty tier path is the `d`-bit path of a code at or above the
      depth's low bound. */
  lemma {:induction false} TierOf(lows: seq<nat>, n: nat, u: seq<bit>) returns (d: nat, v: nat)
    requires n <= |lows| && u in Tiers(lows, n) && u != []
    ensures 1 <= d <= n && lows[d - 1] <= v < Pow2(d) && u == Path(v, d)
  {
    if u in Tiers(lows, n - 1) {
      d, v := TierOf(lows, n - 1, u);
    } else {
      d := n;
      v :| lows[n - 1] <= v < Pow2(n) && u == Path(v, n);
    }
  }

  /** A `d`-bit path of a code at or above the depth's low bound is a tier path. */
  lemma {:induction false} InTiers(lows: seq<nat>, n: nat, v: nat, d: nat)
    requires 1 <= d <= n <= |lows| && lows[d - 1] <= v < Pow2(d)
    ensures Path(v, d) in Tiers(lows, n)
  {
    if d < n {
      InTiers(lows, n - 1, v, d);
    } else {
      assert Path(v, d) in Level(n, lows[n - 1], Pow2(n));
    }
  }

  /** Because insertion uses only `len` bits, every symbol is inserted under the
      code RFC 1951 assigns it, whatever the count of unused symbols. */
  lemma CodePathIsRfc(cl: seq<nat>, k: nat)
    requires k < |cl|
    ensures Path(Code(cl, k), cl[k]) == Path(RfcCode(cl, k), cl[k])
  {
    var len := cl[k];
    if len == 0 {
      return;
    }
    FirstCodeOffset(cl, len);
    var base := RfcNextCode(cl, len) + CountIn(cl, 0, k, len);
    assert Code(cl, k) == base + BlCount(cl, 0) * Pow2(len);
    PathMasks(base, BlCount(cl, 0), len);
  }
}
