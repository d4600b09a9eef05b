/** The run compressor `gz_torange`: a code-length array is cut into maximal runs
    of equal lengths, each run recorded by its last symbol index and its length. */
module Runs {
  import opened Base

  /** `gz_range`: the last symbol of a run and the code length shared by the run. */
  datatype Range = Range(end: nat, blen: nat)

  /** The first symbol of run `a`. */
  function RunStart(rs: seq<Range>, a: nat): nat
    requires a < |rs|
  {
    if a == 0 then 0 else rs[a - 1].end + 1
  }

  /** `rs` is the run decomposition of `cl`: the ends strictly increase, the last
      one is the last symbol, each symbol carries the length of the run it falls
      in (the first run whose end is at or past it), and neighbouring runs differ. */
  ghost predicate IsRunsOf(cl: seq<nat>, rs: seq<Range>) {
    && |rs| >= 1
    && rs[|rs| - 1].end + 1 == |cl|
    && (forall a, b :: 0 <= a < b < |rs| ==> rs[a].end < rs[b].end)
    && (forall a :: 0 <= a < |rs| - 1 ==> rs[a].blen != rs[a + 1].blen)
    && (forall a, i {:trigger RunStart(rs, a), cl[i]} :: 0 <= a < |rs| && RunStart(rs, a) <= i <= rs[a].end ==> cl[i] == rs[a].blen)
  }

  /** The number of positions where the length changes from its predecessor. */
  function Changes(cl: seq<nat>): nat
    decreases |cl|
  {
    if |cl| <= 1 then 0
    else Changes(cl[..|cl| - 1]) + (if cl[|cl| - 1] != cl[|cl| - 2] then 1 else 0)
  }

  /** The number of maximal runs of a nonempty array. */
  function NumRuns(cl: seq<nat>): nat {
    Changes(cl) + 1
  }

  lemma {:induction false} ChangesBound(cl: seq<nat>)
    ensures |cl| > 0 ==> Changes(cl) < |cl|
    decreases |cl|
  {
    if |cl| > 1 {
      ChangesBound(cl[..|cl| - 1]);
    }
  }

  lemma {:induction false} ChangesMonotone(cl: seq<nat>, i: nat, j: nat)
    requires i <= j <= |cl|
    ensures Changes(cl[..i]) <= Changes(cl[..j])
    decreases j - i
  {
    if i < j {
      ChangesMonotone(cl, i, j - 1);
      if j > 1 {
        assert cl[..j][..j - 1] == cl[..j - 1];
      }
    }
  }

  /** `gz_torange(cl, count, ranges, rmax)`: `None` is the C's -1. */
  function ToRange(cl: seq<nat>, rmax: nat): (r: Option<seq<Range>>)
    requires |cl| > 0
    ensures r.Some? <==> NumRuns(cl) <= rmax
    ensures r.Some? ==> IsRunsOf(cl, r.value) && |r.value| == NumRuns(cl)
  {
    if rmax == 0 then
      None
    else
      assert cl[..1] == [cl[0]];
      assert IsRunsOf(cl[..1], [Range(0, cl[0])]);
      ToRangeFromRuns(cl, rmax, 1, [Range(0, cl[0])]);
      ToRangeFrom(cl, rmax, 1, [Range(0, cl[0])])
  }

  /** The loop of `gz_torange` from symbol `i` on; `rs` holds `ranges[0..j]`:
      a symbol whose length differs from its predecessor's opens a new run,
      refused once `rmax` runs are in use; any other extends the last run. */
  function ToRangeFrom(cl: seq<nat>, rmax: nat, i: nat, rs: seq<Range>): Option<seq<Range>>
    requires 1 <= i <= |cl| && |rs| > 0
    decreases |cl| - i
  {
    if i == |cl| then Some(rs)
    else if cl[i] != cl[i - 1] then
      if |rs| >= rmax then None
      else ToRangeFrom(cl, rmax, i + 1, rs + [Range(i, cl[i])])
    else ToRangeFrom(cl, rmax, i + 1, rs[|rs| - 1 := Range(i, cl[i])])
  }

  /** The loop keeps `rs` the run decomposition of the symbols seen so far, so it
      ends with that of the whole array, unless that needs more than `rmax` runs. */
  lemma {:induction false} ToRangeFromRuns(cl: seq<nat>, rmax: nat, i: nat, rs: seq<Range>)
    requires 1 <= i <= |cl|
    requires IsRunsOf(cl[..i], rs) && |rs| == NumRuns(cl[..i]) && |rs| <= rmax
    ensures ToRangeFrom(cl, rmax, i, rs).Some? <==> NumRuns(cl) <= rmax
    ensures ToRangeFrom(cl, rmax, i, rs).Some? ==>
      IsRunsOf(cl, ToRangeFrom(cl, rmax, i, rs).value) && |ToRangeFrom(cl, rmax, i, rs).value| == NumRuns(cl)
    decreases |cl| - i
  {
    if i == |cl| {
      assert cl[..i] == cl;
      assert ToRangeFrom(cl, rmax, i, rs) == Some(rs);
    } else {
      StepChanges(cl, i);
      if cl[i] != cl[i - 1] {
        if |rs| >= rmax {
          ChangesMonotone(cl, i + 1, |cl|);
          assert cl[..|cl|] == cl;
          assert NumRuns(cl) > rmax;
          assert ToRangeFrom(cl, rmax, i, rs) == None;
        } else {
          var rs2 := rs + [Range(i, cl[i])];
          ExtendNewRun(cl, i, rs);
          assert |rs2| == NumRuns(cl[..i + 1]) <= rmax;
          ToRangeFromRuns(cl, rmax, i + 1, rs2);
          assert ToRangeFrom(cl, rmax, i, rs) == ToRangeFrom(cl, rmax, i + 1, rs2);
        }
      } else {
        var rs2 := rs[|rs| - 1 := Range(i, cl[i])];
        ExtendLastRun(cl, i, rs);
        assert |rs2| == NumRuns(cl[..i + 1]) <= rmax;
        ToRangeFromRuns(cl, rmax, i + 1, rs2);
        assert ToRangeFrom(cl, rmax, i, rs) == ToRangeFrom(cl, rmax, i + 1, rs2);
      }
    }
  }

  lemma StepChanges(cl: seq<nat>, i: nat)
    requires 1 <= i < |cl|
    ensures Changes(cl[..i + 1]) == Changes(cl[..i]) + (if cl[i] != cl[i - 1] then 1 else 0)
  {
    assert cl[..i + 1][..i] == cl[..i];
  }

  lemma ExtendNewRun(cl: seq<nat>, i: nat, rs: seq<Range>)
    requires 1 <= i < |cl|
    requires IsRunsOf(cl[..i], rs)
    requires cl[i] != cl[i - 1]
    ensures IsRunsOf(cl[..i + 1], rs + [Range(i, cl[i])])
  {
    var rs2 := rs + [Range(i, cl[i])];
    var p := cl[..i + 1];
    var q := cl[..i];
    var n := |rs|;
    assert rs[n - 1].blen == cl[i - 1] by {
      assert RunStart(rs, n - 1) <= i - 1 <= rs[n - 1].end;
      assert q[i - 1] == rs[n - 1].blen;
    }
    assert forall a, b :: 0 <= a < b < |rs2| ==> rs2[a].end < rs2[b].end by {
      forall a, b | 0 <= a < b < |rs2|
        ensures rs2[a].end < rs2[b].end
      {
        if b < n {
          assert rs2[a] == rs[a] && rs2[b] == rs[b];
        } else {
          assert rs[a].end <= rs[n - 1].end;
        }
      }
    }
    assert forall a :: 0 <= a < |rs2| - 1 ==> rs2[a].blen != rs2[a + 1].blen by {
      forall a | 0 <= a < |rs2| - 1
        ensures rs2[a].blen != rs2[a + 1].blen
      {
        if a + 1 < n {
          assert rs2[a] == rs[a] && rs2[a + 1] == rs[a + 1];
        }
      }
    }
    forall a, k | 0 <= a < |rs2| && RunStart(rs2, a) <= k <= rs2[a].end
      ensures p[k] == rs2[a].blen
    {
      if a < n {
        assert rs2[a] == rs[a];
        assert RunStart(rs2, a) == RunStart(rs, a);
        assert q[k] == rs[a].blen;
        assert p[k] == q[k];
      } else {
        assert RunStart(rs2, a) == i;
      }
    }
  }

  lemma ExtendLastRun(cl: seq<nat>, i: nat, rs: seq<Range>)
    requires 1 <= i < |cl|
    requires IsRunsOf(cl[..i], rs)
    requires cl[i] == cl[i - 1]
    ensures IsRunsOf(cl[..i + 1], rs[|rs| - 1 := Range(i, cl[i])])
  {
    var last := |rs| - 1;
    var rs2 := rs[last := Range(i, cl[i])];
    var p := cl[..i + 1];
    assert rs[last].blen == cl[i - 1] by {
      assert RunStart(rs, last) <= i - 1;
      assert cl[..i][i - 1] == cl[i - 1];
    }
    forall a, k | 0 <= a < |rs2| && RunStart(rs2, a) <= k <= rs2[a].end
      ensures p[k] == rs2[a].blen
    {
      assert RunStart(rs2, a) == RunStart(rs, a);
      if a < last || k < i {
        assert cl[..i][k] == rs[a].blen;
      }
    }
  }

  /** Every symbol lies in exactly one run. */
  lemma RunOf(cl: seq<nat>, rs: seq<Range>, i: nat) returns (a: nat)
    requires IsRunsOf(cl, rs) && i < |cl|
    ensures a < |rs| && RunStart(rs, a) <= i <= rs[a].end && cl[i] == rs[a].blen
  {
    a := 0;
    while rs[a].end < i
      invariant a < |rs| && RunStart(rs, a) <= i
      decreases |rs| - a
    {
      a := a + 1;
    }
  }
}
