/** `gz_buildht`: from an array of code lengths to a filled node array. The runs
    of `gz_torange` bound the lengths, the canonical codes of `Canonical` are
    assigned in symbol order, and each used symbol is inserted into the trie
    under its low `len` code bits, most significant first. */
module HuffTable {
  import opened Base
  import opened Runs
  import opened Canonical
  import opened Trie

  /** `GZ_LL_MAX`: the most symbols a length array may have. */
  const LL_MAX: nat := 288

  /** `GZ_BL_COUNT_MAX` (and `GZ_NXTCODE_MAX`): lengths must stay below it. */
  const BL_COUNT_MAX: nat := 30

  /** `GZ_TREE_MAX`: the size of the `tree` scratch array. */
  const TREE_MAX: nat := 288

  /** The `maxblen` loop: the largest length of any run (0 if all are 0). */
  function MaxBlen(rs: seq<Range>): (m: nat)
    ensures forall a :: 0 <= a < |rs| ==> rs[a].blen <= m
    ensures m == 0 || exists a :: 0 <= a < |rs| && rs[a].blen == m
  {
    if rs == [] then 0
    else
      var m := MaxBlen(rs[..|rs| - 1]);
      assert forall a :: 0 <= a < |rs| - 1 ==> rs[..|rs| - 1][a] == rs[a];
      if rs[|rs| - 1].blen > m then rs[|rs| - 1].blen else m
  }

  /** The largest length of the runs is the largest length of the array. */
  lemma MaxBlenBoundsLengths(cl: seq<nat>, rs: seq<Range>)
    requires IsRunsOf(cl, rs)
    ensures forall j :: 0 <= j < |cl| ==> cl[j] <= MaxBlen(rs)
    ensures MaxBlen(rs) == 0 || exists j :: 0 <= j < |cl| && cl[j] == MaxBlen(rs)
  {
    forall j | 0 <= j < |cl|
      ensures cl[j] <= MaxBlen(rs)
    {
      var a := RunOf(cl, rs, j);
    }
    if MaxBlen(rs) != 0 {
      var a :| 0 <= a < |rs| && rs[a].blen == MaxBlen(rs);
      assert RunStart(rs, a) <= rs[a].end by {
        if a > 0 {
          assert rs[a - 1].end < rs[a].end;
        }
      }
      assert cl[rs[a].end] == MaxBlen(rs);
    }
  }

  // ---------------------------------------------------------------------------
  // The intermediate arrays the C fills from the runs

  /** The `blcount` loop: `blcount[blen] += end - previous end` over the runs
      from `a` on, counting only runs of length `v`. */
  function RunCount(rs: seq<Range>, a: nat, v: nat): int
    requires a <= |rs|
    decreases |rs| - a
  {
    if a == |rs| then 0
    else
      (if rs[a].blen == v then rs[a].end as int - (if a > 0 then rs[a - 1].end as int else -1) else 0)
      + RunCount(rs, a + 1, v)
  }

  /** Counting per run gives the number of symbols of each length. */
  lemma RunCountIsBlCount(cl: seq<nat>, rs: seq<Range>, v: nat)
    requires IsRunsOf(cl, rs)
    ensures RunCount(rs, 0, v) == BlCount(cl, v)
  {
    RunCountFrom(cl, rs, 0, v);
  }

  lemma {:induction false} RunCountFrom(cl: seq<nat>, rs: seq<Range>, a: nat, v: nat)
    requires IsRunsOf(cl, rs) && a <= |rs|
    ensures RunCount(rs, a, v) == CountIn(cl, if a == |rs| then |cl| else RunStart(rs, a), |cl|, v)
    decreases |rs| - a
  {
    if a < |rs| {
      var lo, hi := RunStart(rs, a), rs[a].end + 1;
      assert lo < hi by {
        if a > 0 {
          assert rs[a - 1].end < rs[a].end;
        }
      }
      RunCountFrom(cl, rs, a + 1, v);
      assert (if a + 1 == |rs| then |cl| else RunStart(rs, a + 1)) == hi;
      CountInSplit(cl, lo, hi, |cl|, v);
      ConstantCount(cl, lo, hi, rs[a].blen, v);
    }
  }

  /** In a stretch of one length `w`, the count of `v` is the stretch length or 0. */
  lemma {:induction false} ConstantCount(cl: seq<nat>, lo: nat, hi: nat, w: nat, v: nat)
    requires lo <= hi <= |cl|
    requires forall i :: lo <= i < hi ==> cl[i] == w
    ensures CountIn(cl, lo, hi, v) == if w == v then hi - lo else 0
    decreases hi - lo
  {
    if lo < hi {
      ConstantCount(cl, lo + 1, hi, w, v);
    }
  }

  /** The `tree[i].blen` loop: symbol `i` takes the length of run `actrange`,
      moving to the next run once `i` passes the current run's end. */
  function TreeLengths(rs: seq<Range>, i: nat, act: nat): (lens: seq<nat>)
    requires act < |rs| && i <= rs[act].end + 1 && i <= rs[|rs| - 1].end + 1
    requires forall a :: 0 <= a < |rs| - 1 ==> rs[a].end < rs[a + 1].end
    ensures |lens| == rs[|rs| - 1].end + 1 - i
    decreases rs[|rs| - 1].end + 1 - i, |rs| - act
  {
    if i > rs[|rs| - 1].end then []
    else
      var act2 := if i > rs[act].end then act + 1 else act;
      [rs[act2].blen] + TreeLengths(rs, i + 1, act2)
  }

  /** The C re-derives each symbol's length from the runs, and gets it right. */
  lemma TreeLengthsAreLengths(cl: seq<nat>, rs: seq<Range>)
    requires IsRunsOf(cl, rs)
    ensures TreeLengths(rs, 0, 0) == cl
  {
    TreeLengthsFrom(cl, rs, 0, 0);
  }

  lemma {:induction false} TreeLengthsFrom(cl: seq<nat>, rs: seq<Range>, i: nat, act: nat)
    requires IsRunsOf(cl, rs)
    requires act < |rs| && RunStart(rs, act) <= i <= rs[act].end + 1
    ensures TreeLengths(rs, i, act) == cl[i..]
    decreases |cl| - i
  {
    var last := |rs| - 1;
    assert rs[act].end <= rs[last].end by {
      if act < last {
        assert rs[act].end < rs[last].end;
      }
    }
    if i <= rs[last].end {
      var act2 := NextRun(cl, rs, i, act);
      TreeLengthsFrom(cl, rs, i + 1, act2);
      assert cl[i..] == [cl[i]] + cl[i + 1..];
    }
  }

  /** The run the `actrange` step moves to holds symbol `i`. */
  lemma NextRun(cl: seq<nat>, rs: seq<Range>, i: nat, act: nat) returns (act2: nat)
    requires IsRunsOf(cl, rs)
    requires act < |rs| && RunStart(rs, act) <= i <= rs[act].end + 1 && i <= rs[|rs| - 1].end
    ensures act2 == if i > rs[act].end then act + 1 else act
    ensures act2 < |rs| && RunStart(rs, act2) <= i <= rs[act2].end && cl[i] == rs[act2].blen
  {
    if i > rs[act].end {
      act2 := act + 1;
      assert rs[act].end < rs[act2].end;
    } else {
      act2 := act;
    }
  }

  // ---------------------------------------------------------------------------
  // Filling the trie

  /** The insertion loop of `gz_buildht` from symbol `i` on: symbols of length 0
      are skipped, every other one is inserted from the root under its code. */
  function InsertAll(a: Arena, cl: seq<nat>, codes: seq<nat>, i: nat): (r: Option<Arena>)
    requires Good(a) && |codes| == |cl| && i <= |cl|
    ensures r.Some? ==> Good(r.value) && |r.value.ht| == |a.ht|
    decreases |cl| - i
  {
    if i == |cl| then Some(a)
    else if cl[i] == 0 then InsertAll(a, cl, codes, i + 1)
    else
      match InsertPath(a, 0, Path(codes[i], cl[i]), i)
      case None => None
      case Some(a2) => InsertAll(a2, cl, codes, i + 1)
  }

  /** The entries symbols `0..i-1` contribute: one per symbol of nonzero length. */
  ghost function Inserted(cl: seq<nat>, codes: seq<nat>, i: nat): set<Entry>
    requires |codes| == |cl| && i <= |cl|
  {
    set j | 0 <= j < i && cl[j] > 0 :: Entry(Path(codes[j], cl[j]), j)
  }

  /** The code book of a length array: every used symbol under its RFC 1951 code. */
  ghost function CodeBook(cl: seq<nat>): set<Entry> {
    set j | 0 <= j < |cl| && cl[j] > 0 :: Entry(Path(RfcCode(cl, j), cl[j]), j)
  }

  /** An entry of the code book is a used symbol under its RFC 1951 code. */
  lemma CodeBookEntry(cl: seq<nat>, e: Entry)
    requires e in CodeBook(cl)
    ensures e.sym < |cl| && cl[e.sym] > 0 && e.path == Path(RfcCode(cl, e.sym), cl[e.sym])
  {
  }

  /** Every used symbol is in the code book under its RFC 1951 code, so each
      prefix of that code is a path the trie needs. */
  lemma CodeBookHas(cl: seq<nat>, j: nat, k: nat)
    requires j < |cl| && cl[j] > 0 && k <= cl[j]
    ensures Entry(Path(RfcCode(cl, j), cl[j]), j) in CodeBook(cl)
    ensures Path(RfcCode(cl, j), cl[j])[..k] in Prefixes(CodeBook(cl))
  {
    var e := Entry(Path(RfcCode(cl, j), cl[j]), j);
    assert e in CodeBook(cl);
    PrefixIn(CodeBook(cl), e, k);
  }

  /** The `d`-bit path of `v` starts the code of any used symbol whose
      `l`-bit code `c` has `v` as its top `d` bits. */
  lemma CodeBookPrefix(cl: seq<nat>, j: nat, l: nat, c: nat, v: nat, d: nat)
    requires j < |cl| && cl[j] == l && 0 < l && d <= l
    requires RfcCode(cl, j) == c && c == v * Pow2(l - d)
    ensures Path(v, d) in Prefixes(CodeBook(cl))
  {
    PathPrefix(v, 0, l, d);
    assert 0 + v * Pow2(l - d) == c;
    CodeBookHas(cl, j, d);
  }

  lemma InsertedStep(cl: seq<nat>, codes: seq<nat>, i: nat)
    requires |codes| == |cl| && i < |cl|
    ensures Inserted(cl, codes, i + 1) ==
      if cl[i] == 0 then Inserted(cl, codes, i)
      else Inserted(cl, codes, i) + {Entry(Path(codes[i], cl[i]), i)}
  {
  }

  /** A successful run of the loop leaves a trie holding exactly the entries of
      all symbols. */
  lemma {:induction false} InsertAllDecodes(a: Arena, cl: seq<nat>, codes: seq<nat>, i: nat)
    requires Good(a) && |codes| == |cl| && i <= |cl|
    requires Decodes(a.ht, Inserted(cl, codes, i))
    requires InsertAll(a, cl, codes, i).Some?
    ensures Decodes(InsertAll(a, cl, codes, i).value.ht, Inserted(cl, codes, |cl|))
    decreases |cl| - i
  {
    if i < |cl| {
      InsertedStep(cl, codes, i);
      if cl[i] == 0 {
        InsertAllDecodes(a, cl, codes, i + 1);
      } else {
        var path := Path(codes[i], cl[i]);
        InsertAddsEntry(a, Inserted(cl, codes, i), path, i);
        var a2 := InsertPath(a, 0, path, i).value;
        InsertAllDecodes(a2, cl, codes, i + 1);
      }
    }
  }

  /** `gz_buildht(cl, count, ht, htmax)`: `None` is the C's 0. The length array
      is refused when it is longer than `GZ_LL_MAX` or holds a length of 30 or
      more; the insertion fails when the array runs out of nodes or a code ends
      on a node that already holds a symbol. */
  function BuildHt(cl: seq<nat>, htmax: nat): (r: Option<seq<Node>>)
    requires 0 < |cl| && 0 < htmax
    ensures |cl| > LL_MAX ==> r.None?
    ensures (exists j :: 0 <= j < |cl| && cl[j] >= BL_COUNT_MAX) ==> r.None?
    ensures r.Some? ==> |r.value| == htmax && Decodes(r.value, CodeBook(cl))
  {
    if |cl| > LL_MAX then None
    else
      ChangesBound(cl);
      var ranges := ToRange(cl, |cl|).value;
      MaxBlenBoundsLengths(cl, ranges);
      var maxblen := MaxBlen(ranges);
      if maxblen + 1 > BL_COUNT_MAX then None
      else if ranges[|ranges| - 1].end + 1 > TREE_MAX then None
      else
        var codes := AssignFrom(cl, 0, NextCodes(cl, maxblen));
        match InsertAll(NewArena(htmax), cl, codes, 0)
        case None => None
        case Some(a) =>
          EmptyDecodesNothing(htmax);
          assert Inserted(cl, codes, 0) == {};
          InsertAllDecodes(NewArena(htmax), cl, codes, 0);
          CodesAreRfc(cl, maxblen, codes);
          Some(a.ht)
  }

  // ---------------------------------------------------------------------------
  // When the table builds

  /** No two used symbols share a code. */
  ghost predicate DistinctCodes(cl: seq<nat>, codes: seq<nat>)
    requires |codes| == |cl|
  {
    forall j, k :: 0 <= j < k < |cl| && cl[j] > 0 && cl[k] > 0 ==>
      Path(codes[j], cl[j]) != Path(codes[k], cl[k])
  }

  lemma PrefixesMonotone(es: set<Entry>, es2: set<Entry>)
    requires es <= es2
    ensures |Prefixes(es)| <= |Prefixes(es2)|
  {
    assert es2 == es + (es2 - es);
    forall u | u in Prefixes(es)
      ensures u in Prefixes(es2)
    {
      if u != [] {
        var e, k :| e in es && 0 <= k <= |e.path| && u == e.path[..k];
        PrefixIn(es2, e, k);
      }
    }
    SubsetCard(Prefixes(es), Prefixes(es2));
  }

  /** The symbols before `i` have codes other than symbol `i`'s. */
  lemma NotYetInserted(cl: seq<nat>, codes: seq<nat>, i: nat)
    requires |codes| == |cl| && i < |cl| && cl[i] > 0 && DistinctCodes(cl, codes)
    ensures forall e :: e in Inserted(cl, codes, i) ==> e.path != Path(codes[i], cl[i])
  {
  }

  /** The insertion loop succeeds from symbol `i` on when the node array has
      room for every prefix of every code, the nodes so far cover the
      prefixes of the codes inserted so far, and no two symbols share a code. */
  lemma {:induction false} InsertAllSucceeds(a: Arena, cl: seq<nat>, codes: seq<nat>, i: nat)
    requires Good(a) && |codes| == |cl| && i <= |cl| && DistinctCodes(cl, codes)
    requires Decodes(a.ht, Inserted(cl, codes, i)) && NoStrayCodes(a.ht)
    requires forall u :: u in Prefixes(Inserted(cl, codes, i)) ==> Walk(a.ht, 0, u).Some?
    requires a.hc <= |Prefixes(Inserted(cl, codes, i))|
    requires |Prefixes(Inserted(cl, codes, |cl|))| <= |a.ht|
    ensures InsertAll(a, cl, codes, i).Some?
    decreases |cl| - i
  {
    if i < |cl| {
      InsertedStep(cl, codes, i);
      if cl[i] == 0 {
        InsertAllSucceeds(a, cl, codes, i + 1);
      } else {
        var es := Inserted(cl, codes, i);
        var path := Path(codes[i], cl[i]);
        PrefixesMonotone(Inserted(cl, codes, i + 1), Inserted(cl, codes, |cl|));
        NotYetInserted(cl, codes, i);
        InsertCovers(a, es, path, i);
        InsertAddsEntry(a, es, path, i);
        InsertAllSucceeds(InsertPath(a, 0, path, i).value, cl, codes, i + 1);
      }
    }
  }

  /** Codes whose entries form a prefix-free book are distinct. */
  lemma PrefixFreeDistinct(cl: seq<nat>, codes: seq<nat>)
    requires |codes| == |cl| && PrefixFree(Inserted(cl, codes, |cl|))
    ensures DistinctCodes(cl, codes)
  {
    forall j, k | 0 <= j < k < |cl| && cl[j] > 0 && cl[k] > 0
      ensures Path(codes[j], cl[j]) != Path(codes[k], cl[k])
    {
      assert Entry(Path(codes[j], cl[j]), j) in Inserted(cl, codes, |cl|);
      assert Entry(Path(codes[k], cl[k]), k) in Inserted(cl, codes, |cl|);
    }
  }

  /** The empty table covers the one prefix of no codes, the root. */
  lemma NewArenaCovers(cl: seq<nat>, codes: seq<nat>, htmax: nat)
    requires |codes| == |cl| && 0 < htmax
    ensures var a := NewArena(htmax);
      && Decodes(a.ht, Inserted(cl, codes, 0)) && NoStrayCodes(a.ht)
      && (forall u :: u in Prefixes(Inserted(cl, codes, 0)) ==> Walk(a.ht, 0, u).Some?)
      && a.hc <= |Prefixes(Inserted(cl, codes, 0))|
  {
    EmptyDecodesNothing(htmax);
    assert Inserted(cl, codes, 0) == {};
    assert Prefixes({}) == {[]};
  }

  /** A length array within the limits builds when its code book is
      prefix-free and the node array has room for every prefix of every code:
      the C's insertion loop then never runs out of nodes and never meets a
      node that already holds a symbol. */
  lemma BuildHtSucceeds(cl: seq<nat>, htmax: nat)
    requires 0 < |cl| <= LL_MAX && 0 < htmax
    requires forall j :: 0 <= j < |cl| ==> cl[j] < BL_COUNT_MAX
    requires PrefixFree(CodeBook(cl)) && |Prefixes(CodeBook(cl))| <= htmax
    ensures BuildHt(cl, htmax).Some?
  {
    ChangesBound(cl);
    var ranges := ToRange(cl, |cl|).value;
    MaxBlenBoundsLengths(cl, ranges);
    var maxblen := MaxBlen(ranges);
    var codes := AssignFrom(cl, 0, NextCodes(cl, maxblen));
    CodesAreRfc(cl, maxblen, codes);
    CodeBookInserts(cl, codes, htmax);
  }

  /** The insertion loop, started on an empty array, succeeds on codes that
      spell a prefix-free book whose prefixes fit. */
  lemma CodeBookInserts(cl: seq<nat>, codes: seq<nat>, htmax: nat)
    requires |codes| == |cl| && 0 < htmax && Inserted(cl, codes, |cl|) == CodeBook(cl)
    requires PrefixFree(CodeBook(cl)) && |Prefixes(CodeBook(cl))| <= htmax
    ensures InsertAll(NewArena(htmax), cl, codes, 0).Some?
  {
    PrefixFreeDistinct(cl, codes);
    NewArenaCovers(cl, codes, htmax);
    InsertAllSucceeds(NewArena(htmax), cl, codes, 0);
  }

  /** The entries the loop inserts are the code book. */
  lemma CodesAreRfc(cl: seq<nat>, maxblen: nat, codes: seq<nat>)
    requires forall j :: 0 <= j < |cl| ==> cl[j] <= maxblen
    requires codes == AssignFrom(cl, 0, NextCodes(cl, maxblen))
    ensures Inserted(cl, codes, |cl|) == CodeBook(cl)
  {
    forall j | 0 <= j < |cl| && cl[j] > 0
      ensures Path(codes[j], cl[j]) == Path(RfcCode(cl, j), cl[j])
    {
      AssignedCodes(cl, maxblen, j);
      CodePathIsRfc(cl, j);
    }
  }
}
