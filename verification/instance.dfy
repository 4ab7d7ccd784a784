/** A single-machine scheduling instance: job j has processing time p[j] and
    release date r[j]; `number_of_jobs` is |p|. */
module Scheduling {

  datatype Instance = Instance(p: seq<int>, r: seq<int>)
  {
    function Jobs(): nat { |p| }

    /** The instances the model covers: at least one job (the precedence
        builder loops up to n - 1 on a size_t), non-negative release dates
        (a release date becomes a row length) and, as a modelling
        convenience rather than a demand of the source, positive processing
        times. */
    predicate Valid()
    {
      && |p| == |r|
      && |p| >= 1
      && (forall j :: 0 <= j < |p| ==> p[j] >= 1)
      && (forall j :: 0 <= j < |r| ==> r[j] >= 0)
    }
  }

  function Sum(s: seq<int>): int
  {
    if |s| == 0 then 0 else Sum(s[..|s| - 1]) + s[|s| - 1]
  }

  /** The running maximum the builders compute: it starts at 0 and is raised
      by every larger release date, so it is max(0, max r). */
  function MaxRelease(r: seq<int>): (m: int)
    ensures m >= 0
    ensures forall j :: 0 <= j < |r| ==> r[j] <= m
    ensures m == 0 || exists j :: 0 <= j < |r| && r[j] == m
  {
    if |r| == 0 then 0
    else
      var m := MaxRelease(r[..|r| - 1]);
      assert forall j :: 0 <= j < |r| - 1 ==> r[j] == r[..|r| - 1][j];
      if r[|r| - 1] > m then r[|r| - 1] else m
  }

  /** The big-M of the precedence builder and the horizon T of the
      time-indexed builder: the same loop, sum p_j + max(0, max r_j). */
  function Horizon(inst: Instance): int
  {
    Sum(inst.p) + MaxRelease(inst.r)
  }

  lemma {:induction false} SumAtLeastEach(s: seq<int>, j: int)
    requires forall k :: 0 <= k < |s| ==> s[k] >= 0
    requires 0 <= j < |s|
    ensures Sum(s) >= s[j]
    ensures Sum(s) >= 0
  {
    var init := s[..|s| - 1];
    assert forall k :: 0 <= k < |init| ==> init[k] == s[k];
    if j < |s| - 1 {
      SumAtLeastEach(init, j);
    } else if |init| > 0 {
      SumAtLeastEach(init, 0);
    }
  }

  /** Every job can be released and processed by the horizon: p_j + r_j <= T,
      so in particular p_j <= T, r_j < T and the per-job time-indexed block
      T - p_j + 1 has room for every pinned index 0 .. r_j - 1. */
  lemma HorizonBounds(inst: Instance, j: int)
    requires inst.Valid()
    requires 0 <= j < inst.Jobs()
    ensures inst.p[j] + inst.r[j] <= Horizon(inst)
    ensures inst.r[j] < Horizon(inst) - inst.p[j] + 1
    ensures 1 <= inst.p[j] <= Horizon(inst)
  {
    SumAtLeastEach(inst.p, j);
  }
}
