/** The time-indexed formulation of model.c. With horizon T = sum p + max(0,
    max r), job j owns a block of T - p_j + 1 binary variables; local index
    t of that block stands for "job j completes at time t + p_j", so it
    processes during the unit slots t, t+1, .., t + p_j - 1. Blocks are laid
    out one after the other; the builder tracks the start of the current
    block in a running offset. */
module TimeIndexed {
  import opened Milp
  import opened Scheduling

  /* ---------------- blocks ---------------- */

  function BlockSize(inst: Instance, j: nat): nat
    requires inst.Valid() && j < inst.Jobs()
  {
    HorizonBounds(inst, j);
    Horizon(inst) - inst.p[j] + 1
  }

  /** Where job j's block starts: the closed form of the running offset,
      sum over k < j of (T - p_k + 1). */
  function Offset(inst: Instance, j: nat): nat
    requires inst.Valid() && j <= inst.Jobs()
  {
    if j == 0 then 0 else Offset(inst, j - 1) + BlockSize(inst, j - 1)
  }

  function VarCount(inst: Instance): nat
    requires inst.Valid()
  {
    Offset(inst, inst.Jobs())
  }

  lemma {:induction false} OffsetMonotone(inst: Instance, j: nat, j': nat)
    requires inst.Valid() && j <= j' <= inst.Jobs()
    ensures Offset(inst, j) <= Offset(inst, j')
    ensures j < j' ==> Offset(inst, j) + BlockSize(inst, j) <= Offset(inst, j')
    decreases j' - j
  {
    if j < j' {
      OffsetMonotone(inst, j, j' - 1);
    }
  }

  /** Every block holds at least one variable, so there are at least as
      many variables as jobs before any block start. */
  lemma {:induction false} OffsetAtLeastIndex(inst: Instance, j: nat)
    requires inst.Valid() && j <= inst.Jobs()
    ensures Offset(inst, j) >= j
  {
    if j > 0 {
      OffsetAtLeastIndex(inst, j - 1);
      HorizonBounds(inst, j - 1);
    }
  }

  /** Local index t of job j's block is a column of the model. */
  predicate InBlock(inst: Instance, j: nat, t: int)
    requires inst.Valid() && j < inst.Jobs()
  {
    0 <= t < BlockSize(inst, j)
  }

  /** Blocks are disjoint: distinct (job, local index) pairs are distinct
      columns, and every such column is below the variable count. */
  lemma BlocksDisjoint(inst: Instance, j1: nat, t1: int, j2: nat, t2: int)
    requires inst.Valid() && j1 < inst.Jobs() && j2 < inst.Jobs()
    requires InBlock(inst, j1, t1) && InBlock(inst, j2, t2)
    ensures Offset(inst, j1) + t1 < VarCount(inst)
    ensures Offset(inst, j1) + t1 == Offset(inst, j2) + t2 <==> j1 == j2 && t1 == t2
  {
    OffsetMonotone(inst, j1, inst.Jobs());
    if j1 < j2 {
      OffsetMonotone(inst, j1, j2);
    } else if j2 < j1 {
      OffsetMonotone(inst, j2, j1);
    }
  }

  /* ---------------- variables ---------------- */

  /** Local index t has objective coefficient t + p_j, the completion time it stands for. */
  function BlockVars(inst: Instance, j: nat): seq<Var>
    requires inst.Valid() && j < inst.Jobs()
  {
    seq(BlockSize(inst, j), t requires 0 <= t < BlockSize(inst, j) => Var(t + inst.p[j], Binary))
  }

  /** The variable loop, one block per job from job j on. */
  function VarsFrom(inst: Instance, j: nat): seq<Var>
    requires inst.Valid() && j <= inst.Jobs()
    decreases inst.Jobs() - j
  {
    if j == inst.Jobs() then [] else BlockVars(inst, j) + VarsFrom(inst, j + 1)
  }

  lemma {:induction false} VarsFromLayout(inst: Instance, j: nat)
    requires inst.Valid() && j <= inst.Jobs()
    ensures |VarsFrom(inst, j)| == VarCount(inst) - Offset(inst, j)
    ensures forall j', t :: j <= j' < inst.Jobs() && InBlock(inst, j', t) ==>
      Offset(inst, j) <= Offset(inst, j') + t < VarCount(inst)
      && VarsFrom(inst, j)[Offset(inst, j') + t - Offset(inst, j)] == Var(t + inst.p[j'], Binary)
    ensures forall k :: 0 <= k < |VarsFrom(inst, j)| ==> VarsFrom(inst, j)[k].vtype == Binary
    decreases inst.Jobs() - j
  {
    OffsetMonotone(inst, j, inst.Jobs());
    if j < inst.Jobs() {
      VarsFromLayout(inst, j + 1);
      var head := BlockVars(inst, j);
      var tail := VarsFrom(inst, j + 1);
      forall j', t | j <= j' < inst.Jobs() && InBlock(inst, j', t)
        ensures Offset(inst, j) <= Offset(inst, j') + t < VarCount(inst)
        ensures VarsFrom(inst, j)[Offset(inst, j') + t - Offset(inst, j)] == Var(t + inst.p[j'], Binary)
      {
        OffsetMonotone(inst, j, j');
        OffsetMonotone(inst, j', inst.Jobs());
        if j' > j {
          OffsetMonotone(inst, j + 1, j');
          assert VarsFrom(inst, j)[Offset(inst, j') + t - Offset(inst, j)]
              == tail[Offset(inst, j') + t - Offset(inst, j + 1)];
        }
      }
      forall k | 0 <= k < |VarsFrom(inst, j)|
        ensures VarsFrom(inst, j)[k].vtype == Binary
      {
        if k >= |head| {
          assert VarsFrom(inst, j)[k] == tail[k - |head|];
        }
      }
    }
  }

  /** The variables: sum_j (T - p_j + 1) binaries, and local index t of job
      j's block, at column Offset(j) + t, carries objective t + p_j, a
      completion time in [p_j, T]. */
  lemma VarsLayout(inst: Instance)
    requires inst.Valid()
    ensures |VarsFrom(inst, 0)| == VarCount(inst)
    ensures forall k :: 0 <= k < VarCount(inst) ==> VarsFrom(inst, 0)[k].vtype == Binary
    ensures forall j, t :: 0 <= j < inst.Jobs() && InBlock(inst, j, t) ==>
      Offset(inst, j) + t < VarCount(inst)
      && VarsFrom(inst, 0)[Offset(inst, j) + t] == Var(t + inst.p[j], Binary)
      && inst.p[j] <= t + inst.p[j] <= Horizon(inst)
  {
    VarsFromLayout(inst, 0);
  }

  /* ---------------- exactly-one rows (one per job) ---------------- */

  /** All of job j's block with coefficient 1, starting at `offset`. */
  function BlockTerms(inst: Instance, j: nat, offset: nat): seq<Term>
    requires inst.Valid() && j < inst.Jobs()
  {
    seq(BlockSize(inst, j), t requires 0 <= t < BlockSize(inst, j) => Term(offset + t, 1))
  }

  /** sum_t x_(j,t) = 1 over the block at its closed-form offset. */
  function ExactlyOneRow(inst: Instance, j: nat): Constr
    requires inst.Valid() && j < inst.Jobs()
  {
    Constr(BlockTerms(inst, j, Offset(inst, j)), Equal, 1)
  }

  /** The loop of lines 541-573: one row per job, the running offset
      advanced by the block size after each. Started at the closed-form
      offset of job j, it emits exactly the closed-form rows. */
  function ExactlyOneRows(inst: Instance, j: nat, offset: nat): (rows: seq<Constr>)
    requires inst.Valid() && j <= inst.Jobs() && offset == Offset(inst, j)
    ensures |rows| == inst.Jobs() - j
    ensures forall k :: 0 <= k < |rows| ==> rows[k] == ExactlyOneRow(inst, j + k)
    decreases inst.Jobs() - j
  {
    if j == inst.Jobs() then []
    else
      var row := Constr(BlockTerms(inst, j, offset), Equal, 1);
      [row] + ExactlyOneRows(inst, j + 1, offset + BlockSize(inst, j))
  }

  /** The values job j's block reads from x. */
  function BlockValues(inst: Instance, x: seq<int>, j: nat): (vals: seq<int>)
    requires inst.Valid() && j < inst.Jobs() && |x| == VarCount(inst)
    ensures |vals| == BlockSize(inst, j)
    ensures forall t :: 0 <= t < |vals| ==> Offset(inst, j) + t < |x| && vals[t] == x[Offset(inst, j) + t]
  {
    OffsetMonotone(inst, j, inst.Jobs());
    x[Offset(inst, j)..Offset(inst, j) + BlockSize(inst, j)]
  }

  lemma ExactlyOneRowColumns(inst: Instance, j: nat)
    requires inst.Valid() && j < inst.Jobs()
    ensures ColumnsBelow(ExactlyOneRow(inst, j), VarCount(inst))
  {
    OffsetMonotone(inst, j, inst.Jobs());
  }

  /** On 0/1 values the exactly-one row of job j holds exactly when one
      completion time of job j is chosen. */
  lemma ExactlyOneRowMeaning(inst: Instance, x: seq<int>, j: nat)
    requires inst.Valid() && j < inst.Jobs() && |x| == VarCount(inst)
    requires forall k :: 0 <= k < |x| ==> 0 <= x[k] <= 1
    ensures ColumnsBelow(ExactlyOneRow(inst, j), |x|)
    ensures Holds(ExactlyOneRow(inst, j), x) <==> ExactlyOne(BlockValues(inst, x, j))
  {
    ExactlyOneRowColumns(inst, j);
    var terms := ExactlyOneRow(inst, j).terms;
    var vals := BlockValues(inst, x, j);
    assert Picked(terms, x) == vals by {
      forall k | 0 <= k < |vals| ensures Picked(terms, x)[k] == vals[k] {
        assert terms[k].col == Offset(inst, j) + k;
      }
    }
    assert Lhs(terms, x) == 1 <==> ExactlyOne(vals) by {
      UnitRowCounts(terms, x);
    }
  }

  /* ---------------- non-overlap rows (one per time slot) ---------------- */

  /** Job j completing at local index t (time t + p_j) processes during
      slot tau. */
  predicate Occupies(inst: Instance, j: nat, t: int, tau: int)
    requires inst.Valid() && j < inst.Jobs()
  {
    t <= tau <= t + inst.p[j] - 1
  }

  /** How the slot rows treat a job whose block ends before slot tau.
      SkipLateJobs is the loop as written: it leaves job j out of the row
      of every slot tau with T - tau < p_j. ClampToBlock keeps the job and
      only cuts the range at the block's last index T - p_j. */
  datatype SlotRule = SkipLateJobs | ClampToBlock

  /** The first local index of job j that can occupy slot tau: max(0, tau - p_j + 1). */
  function SlotLow(inst: Instance, j: nat, tau: int): int
    requires inst.Valid() && j < inst.Jobs()
  {
    if tau - inst.p[j] + 1 < 0 then 0 else tau - inst.p[j] + 1
  }

  /** The last local index of job j in the row of slot tau; below SlotLow
      when the job contributes nothing. */
  function SlotHigh(inst: Instance, rule: SlotRule, j: nat, tau: int): int
    requires inst.Valid() && j < inst.Jobs()
  {
    match rule
    case SkipLateJobs => if Horizon(inst) - tau < inst.p[j] then -1 else tau
    case ClampToBlock => if tau <= Horizon(inst) - inst.p[j] then tau else Horizon(inst) - inst.p[j]
  }

  /** Job j's entries in the row of slot tau, its block starting at `offset`. */
  function JobSlotTerms(inst: Instance, rule: SlotRule, tau: int, j: nat, offset: nat): seq<Term>
    requires inst.Valid() && j < inst.Jobs()
  {
    var lo := SlotLow(inst, j, tau);
    var hi := SlotHigh(inst, rule, j, tau);
    if hi < lo then []
    else seq(hi - lo + 1, k requires 0 <= k < hi - lo + 1 => Term(offset + lo + k, 1))
  }

  /** The inner job loop of lines 580-596, from job j on. */
  function SlotTerms(inst: Instance, rule: SlotRule, tau: int, j: nat, offset: nat): seq<Term>
    requires inst.Valid() && j <= inst.Jobs()
    decreases inst.Jobs() - j
  {
    if j == inst.Jobs() then []
    else JobSlotTerms(inst, rule, tau, j, offset) + SlotTerms(inst, rule, tau, j + 1, offset + BlockSize(inst, j))
  }

  /** Which (job, local index) pairs the row of slot tau mentions under each rule. */
  predicate Covered(inst: Instance, rule: SlotRule, j: nat, t: int, tau: int)
    requires inst.Valid() && j < inst.Jobs()
  {
    Occupies(inst, j, t, tau) && (rule == SkipLateJobs ==> tau <= Horizon(inst) - inst.p[j])
  }

  /** Some entry of the row names column c. */
  predicate HasCol(terms: seq<Term>, c: int)
  {
    exists k :: 0 <= k < |terms| && terms[k].col == c
  }

  lemma JobSlotTermsMeaning(inst: Instance, rule: SlotRule, tau: int, j: nat, offset: nat)
    requires inst.Valid() && j < inst.Jobs() && 0 <= tau < Horizon(inst)
    ensures UnitCoefficients(JobSlotTerms(inst, rule, tau, j, offset))
    ensures forall k :: 0 <= k < |JobSlotTerms(inst, rule, tau, j, offset)| ==>
      offset <= JobSlotTerms(inst, rule, tau, j, offset)[k].col < offset + BlockSize(inst, j)
    ensures forall t :: InBlock(inst, j, t) ==>
      (HasCol(JobSlotTerms(inst, rule, tau, j, offset), offset + t) <==> Covered(inst, rule, j, t, tau))
  {
    var ts := JobSlotTerms(inst, rule, tau, j, offset);
    var lo := SlotLow(inst, j, tau);
    var hi := SlotHigh(inst, rule, j, tau);
    HorizonBounds(inst, j);
    forall k | 0 <= k < |ts|
      ensures offset <= ts[k].col < offset + BlockSize(inst, j)
    {
      assert ts[k].col == offset + (lo + k);
    }
    forall t | InBlock(inst, j, t)
      ensures HasCol(ts, offset + t) <==> Covered(inst, rule, j, t, tau)
    {
      if Covered(inst, rule, j, t, tau) {
        assert ts[t - lo].col == offset + t;
      }
    }
  }

  /** The entries the job loop collects from job j on, for its block at the
      closed-form offset: unit coefficients and columns within the blocks
      of jobs j... */
  lemma {:induction false} SlotTermsColumns(inst: Instance, rule: SlotRule, tau: int, j: nat)
    requires inst.Valid() && j <= inst.Jobs() && 0 <= tau < Horizon(inst)
    ensures UnitCoefficients(SlotTerms(inst, rule, tau, j, Offset(inst, j)))
    ensures forall k :: 0 <= k < |SlotTerms(inst, rule, tau, j, Offset(inst, j))| ==>
      Offset(inst, j) <= SlotTerms(inst, rule, tau, j, Offset(inst, j))[k].col < VarCount(inst)
    decreases inst.Jobs() - j
  {
    if j < inst.Jobs() {
      var offset := Offset(inst, j);
      var head := JobSlotTerms(inst, rule, tau, j, offset);
      var tail := SlotTerms(inst, rule, tau, j + 1, Offset(inst, j + 1));
      var ts := SlotTerms(inst, rule, tau, j, offset);
      assert ts == head + tail;
      JobSlotTermsMeaning(inst, rule, tau, j, offset);
      SlotTermsColumns(inst, rule, tau, j + 1);
      OffsetMonotone(inst, j + 1, inst.Jobs());
      forall k | 0 <= k < |ts|
        ensures Offset(inst, j) <= ts[k].col < VarCount(inst)
      {
        if k >= |head| {
          assert ts[k] == tail[k - |head|];
        }
      }
    }
  }

  lemma HasColAppend(a: seq<Term>, b: seq<Term>, c: int)
    ensures HasCol(a + b, c) <==> HasCol(a, c) || HasCol(b, c)
  {
    if HasCol(a + b, c) {
      var k :| 0 <= k < |a + b| && (a + b)[k].col == c;
      if k >= |a| { assert b[k - |a|].col == c; }
    }
    if HasCol(a, c) {
      var k :| 0 <= k < |a| && a[k].col == c;
      assert (a + b)[k].col == c;
    }
    if HasCol(b, c) {
      var k :| 0 <= k < |b| && b[k].col == c;
      assert (a + b)[k + |a|].col == c;
    }
  }

  /** A column of job j' >= j is among the entries the job loop collects
      from job j on exactly when the rule covers it. */
  lemma {:induction false} SlotTermsCover(inst: Instance, rule: SlotRule, tau: int, j: nat, j': nat, t: int)
    requires inst.Valid() && j <= j' < inst.Jobs() && 0 <= tau < Horizon(inst)
    requires InBlock(inst, j', t)
    ensures HasCol(SlotTerms(inst, rule, tau, j, Offset(inst, j)), Offset(inst, j') + t)
      <==> Covered(inst, rule, j', t, tau)
    decreases inst.Jobs() - j
  {
    var c := Offset(inst, j') + t;
    var covered := Covered(inst, rule, j', t, tau);
    var inHead := HasCol(JobSlotTerms(inst, rule, tau, j, Offset(inst, j)), c);
    var inTail := HasCol(SlotTerms(inst, rule, tau, j + 1, Offset(inst, j + 1)), c);
    assert HasCol(SlotTerms(inst, rule, tau, j, Offset(inst, j)), c) <==> inHead || inTail by {
      SlotTermsSplit(inst, rule, tau, j, c);
    }
    assert inHead <==> j' == j && covered by {
      HeadCover(inst, rule, tau, j, j', t);
    }
    assert inTail <==> j' != j && covered by {
      if j' == j {
        TailMisses(inst, rule, tau, j, t);
      } else {
        SlotTermsCover(inst, rule, tau, j + 1, j', t);
      }
    }
  }

  /** The entries from job j on are job j's entries followed by those from
      job j + 1 on. */
  lemma SlotTermsSplit(inst: Instance, rule: SlotRule, tau: int, j: nat, c: int)
    requires inst.Valid() && j < inst.Jobs()
    ensures HasCol(SlotTerms(inst, rule, tau, j, Offset(inst, j)), c) <==>
      HasCol(JobSlotTerms(inst, rule, tau, j, Offset(inst, j)), c)
      || HasCol(SlotTerms(inst, rule, tau, j + 1, Offset(inst, j + 1)), c)
  {
    var head := JobSlotTerms(inst, rule, tau, j, Offset(inst, j));
    var tail := SlotTerms(inst, rule, tau, j + 1, Offset(inst, j + 1));
    assert SlotTerms(inst, rule, tau, j, Offset(inst, j)) == head + tail;
    HasColAppend(head, tail, c);
  }

  /** Job j's own entries name a column of job j' exactly when j' = j and
      the rule covers it. */
  lemma HeadCover(inst: Instance, rule: SlotRule, tau: int, j: nat, j': nat, t: int)
    requires inst.Valid() && j <= j' < inst.Jobs() && 0 <= tau < Horizon(inst)
    requires InBlock(inst, j', t)
    ensures HasCol(JobSlotTerms(inst, rule, tau, j, Offset(inst, j)), Offset(inst, j') + t)
      <==> j' == j && Covered(inst, rule, j', t, tau)
  {
    JobSlotTermsMeaning(inst, rule, tau, j, Offset(inst, j));
    if j' > j {
      OffsetMonotone(inst, j + 1, j');
      var head := JobSlotTerms(inst, rule, tau, j, Offset(inst, j));
      assert forall k :: 0 <= k < |head| ==> head[k].col < Offset(inst, j') + t;
    }
  }

  /** The entries from job j + 1 on never name a column of job j. */
  lemma TailMisses(inst: Instance, rule: SlotRule, tau: int, j: nat, t: int)
    requires inst.Valid() && j < inst.Jobs() && 0 <= tau < Horizon(inst)
    requires InBlock(inst, j, t)
    ensures !HasCol(SlotTerms(inst, rule, tau, j + 1, Offset(inst, j + 1)), Offset(inst, j) + t)
  {
    SlotTermsColumns(inst, rule, tau, j + 1);
    var tail := SlotTerms(inst, rule, tau, j + 1, Offset(inst, j + 1));
    assert forall k :: 0 <= k < |tail| ==> tail[k].col > Offset(inst, j) + t;
  }

  /** The row of slot tau: unit coefficients, columns below the variable
      count, and the column of (j, t) present exactly when the rule covers
      it. Since every column is some (j, t) (the blocks tile the columns),
      this fixes the row's entries as a set. */
  lemma SlotTermsMeaning(inst: Instance, rule: SlotRule, tau: int)
    requires inst.Valid() && 0 <= tau < Horizon(inst)
    ensures UnitCoefficients(SlotTerms(inst, rule, tau, 0, 0))
    ensures forall k :: 0 <= k < |SlotTerms(inst, rule, tau, 0, 0)| ==>
      SlotTerms(inst, rule, tau, 0, 0)[k].col < VarCount(inst)
    ensures forall j, t :: 0 <= j < inst.Jobs() && InBlock(inst, j, t) ==>
      (HasCol(SlotTerms(inst, rule, tau, 0, 0), Offset(inst, j) + t) <==> Covered(inst, rule, j, t, tau))
  {
    SlotTermsColumns(inst, rule, tau, 0);
    forall j, t | 0 <= j < inst.Jobs() && InBlock(inst, j, t)
      ensures HasCol(SlotTerms(inst, rule, tau, 0, 0), Offset(inst, j) + t) <==> Covered(inst, rule, j, t, tau)
    {
      SlotTermsCover(inst, rule, tau, 0, j, t);
    }
  }

  /** The row of slot tau, before the empty-row test. */
  function SlotRow(inst: Instance, rule: SlotRule, tau: int): Constr
    requires inst.Valid()
  {
    Constr(SlotTerms(inst, rule, tau, 0, 0), LessEqual, 1)
  }

  /** The outer slot loop of lines 576-616: the row of each slot, kept
      when its entry list is not empty. */
  function SlotRows(inst: Instance, rule: SlotRule): seq<Constr>
    requires inst.Valid()
  {
    NonEmptyRows(AllSlotRows(inst, rule))
  }

  /** The row of every slot of the horizon, empty or not. */
  function AllSlotRows(inst: Instance, rule: SlotRule): (rows: seq<Constr>)
    requires inst.Valid()
    ensures |rows| == Horizon(inst)
    ensures forall s :: 0 <= s < |rows| ==> rows[s] == SlotRow(inst, rule, s)
  {
    HorizonBounds(inst, 0);
    seq(Horizon(inst), s requires 0 <= s < Horizon(inst) => SlotRow(inst, rule, s))
  }

  /** The shortest processing time. */
  function MinProcessing(p: seq<int>): (m: int)
    requires |p| >= 1
    ensures forall j :: 0 <= j < |p| ==> m <= p[j]
    ensures exists j :: 0 <= j < |p| && p[j] == m
  {
    if |p| == 1 then p[0]
    else
      var m := MinProcessing(p[..|p| - 1]);
      assert forall j :: 0 <= j < |p| - 1 ==> p[j] == p[..|p| - 1][j];
      if p[|p| - 1] < m then p[|p| - 1] else m
  }

  /** The last slot whose row is emitted: with the skip, slots after
      T - min p collect nothing and their rows are dropped. */
  function LastSlot(inst: Instance, rule: SlotRule): int
    requires inst.Valid()
  {
    match rule
    case SkipLateJobs => Horizon(inst) - MinProcessing(inst.p)
    case ClampToBlock => Horizon(inst) - 1
  }

  lemma {:induction false} SkippedSlotEmpty(inst: Instance, tau: int, j: nat, offset: nat)
    requires inst.Valid() && j <= inst.Jobs()
    requires Horizon(inst) - tau < MinProcessing(inst.p)
    ensures SlotTerms(inst, SkipLateJobs, tau, j, offset) == []
    decreases inst.Jobs() - j
  {
    if j < inst.Jobs() {
      SkippedSlotEmpty(inst, tau, j + 1, offset + BlockSize(inst, j));
    }
  }

  /** The empty-row test: the row of slot tau has entries exactly when tau
      is at most the last slot of the rule. */
  lemma SlotRowNonEmpty(inst: Instance, rule: SlotRule, tau: int)
    requires inst.Valid() && 0 <= tau < Horizon(inst)
    ensures |SlotRow(inst, rule, tau).terms| > 0 <==> tau <= LastSlot(inst, rule)
  {
    SlotTermsMeaning(inst, rule, tau);
    var ts := SlotTerms(inst, rule, tau, 0, 0);
    var pmin := MinProcessing(inst.p);
    match rule
    case SkipLateJobs =>
      if tau <= LastSlot(inst, rule) {
        var j :| 0 <= j < inst.Jobs() && inst.p[j] == pmin;
        assert InBlock(inst, j, tau) && Covered(inst, rule, j, tau, tau);
        assert HasCol(ts, Offset(inst, j) + tau);
      } else {
        SkippedSlotEmpty(inst, tau, 0, 0);
      }
    case ClampToBlock =>
      HorizonBounds(inst, 0);
      var t := if tau <= Horizon(inst) - inst.p[0] then tau else Horizon(inst) - inst.p[0];
      assert InBlock(inst, 0, t) && Covered(inst, rule, 0, t, tau);
      assert HasCol(ts, Offset(inst, 0) + t);
  }

  /** The emitted slot rows: the rows of slots tau .. LastSlot, in order. */
  lemma SlotRowsLayout(inst: Instance, rule: SlotRule)
    requires inst.Valid()
    ensures 0 <= LastSlot(inst, rule) < Horizon(inst)
    ensures |SlotRows(inst, rule)| == LastSlot(inst, rule) + 1
    ensures forall s :: 0 <= s < |SlotRows(inst, rule)| ==> SlotRows(inst, rule)[s] == SlotRow(inst, rule, s)
  {
    HorizonBounds(inst, 0);
    var all := AllSlotRows(inst, rule);
    var n := LastSlot(inst, rule) + 1;
    forall s | 0 <= s < |all| ensures |all[s].terms| > 0 <==> s < n {
      SlotRowNonEmpty(inst, rule, s);
    }
    NonEmptyPrefix(all, n);
  }

  /* ---------------- release rows ---------------- */

  /** The jobs from job j on with a nonzero release date, in increasing
      order: each such job is listed, and nothing else is. */
  function ReleasedJobs(inst: Instance, j: nat): (jobs: seq<nat>)
    requires inst.Valid() && j <= inst.Jobs()
    ensures forall k :: 0 <= k < |jobs| ==> j <= jobs[k] < inst.Jobs() && inst.r[jobs[k]] != 0
    ensures forall k, k' :: 0 <= k < k' < |jobs| ==> jobs[k] < jobs[k']
    decreases inst.Jobs() - j
  {
    if j == inst.Jobs() then []
    else if inst.r[j] == 0 then ReleasedJobs(inst, j + 1)
    else [j] + ReleasedJobs(inst, j + 1)
  }

  /** No job with a nonzero release date is missed. */
  lemma {:induction false} ReleasedJobsComplete(inst: Instance, j: nat, j': nat)
    requires inst.Valid() && j <= j' < inst.Jobs() && inst.r[j'] != 0
    ensures j' in ReleasedJobs(inst, j)
    decreases inst.Jobs() - j
  {
    if j < j' {
      ReleasedJobsComplete(inst, j + 1, j');
    }
  }

  /** sum_(t < r_j) x_(j,t) = 0: job j cannot complete before r_j + p_j. */
  function PinRow(inst: Instance, j: nat): Constr
    requires inst.Valid() && j < inst.Jobs()
  {
    Constr(PinTerms(inst, j, Offset(inst, j)), Equal, 0)
  }

  /** The first r_j entries of job j's block, starting at `offset`. */
  function PinTerms(inst: Instance, j: nat, offset: nat): seq<Term>
    requires inst.Valid() && j < inst.Jobs()
  {
    seq(inst.r[j], t requires 0 <= t < inst.r[j] => Term(offset + t, 1))
  }

  /** The release loop of lines 619-642 from job j on: the pinning rows of
      the released jobs, in job order, and no row for the others. */
  function ReleaseRows(inst: Instance, j: nat, offset: nat): (rows: seq<Constr>)
    requires inst.Valid() && j <= inst.Jobs() && offset == Offset(inst, j)
    ensures |rows| == |ReleasedJobs(inst, j)|
    ensures forall k :: 0 <= k < |rows| ==> rows[k] == PinRow(inst, ReleasedJobs(inst, j)[k])
    decreases inst.Jobs() - j
  {
    if j == inst.Jobs() then []
    else
      var rest := ReleaseRows(inst, j + 1, offset + BlockSize(inst, j));
      var later := ReleasedJobs(inst, j + 1);
      if inst.r[j] == 0 then
        assert ReleasedJobs(inst, j) == later;
        rest
      else
        var rows := [Constr(PinTerms(inst, j, offset), Equal, 0)] + rest;
        assert ReleasedJobs(inst, j) == [j] + later;
        assert rows[0] == PinRow(inst, j);
        assert forall k :: 1 <= k < |rows| ==> rows[k] == rest[k - 1];
        rows
  }

  lemma PinRowColumns(inst: Instance, j: nat)
    requires inst.Valid() && j < inst.Jobs()
    ensures ColumnsBelow(PinRow(inst, j), VarCount(inst))
  {
    HorizonBounds(inst, j);
    OffsetMonotone(inst, j, inst.Jobs());
  }

  /** The values of job j's completion times before r_j + p_j. */
  function EarlyValues(inst: Instance, x: seq<int>, j: nat): (vals: seq<int>)
    requires inst.Valid() && j < inst.Jobs() && |x| == VarCount(inst)
    ensures |vals| == inst.r[j] < |BlockValues(inst, x, j)|
    ensures vals == BlockValues(inst, x, j)[..|vals|]
  {
    HorizonBounds(inst, j);
    BlockValues(inst, x, j)[..inst.r[j]]
  }

  /** On 0/1 values the pinning row of job j holds exactly when none of
      job j's completion times before r_j + p_j is chosen. */
  lemma PinRowMeaning(inst: Instance, x: seq<int>, j: nat)
    requires inst.Valid() && j < inst.Jobs() && |x| == VarCount(inst)
    requires forall k :: 0 <= k < |x| ==> 0 <= x[k] <= 1
    ensures ColumnsBelow(PinRow(inst, j), |x|)
    ensures Holds(PinRow(inst, j), x) <==>
      forall t :: 0 <= t < |EarlyValues(inst, x, j)| ==> EarlyValues(inst, x, j)[t] == 0
  {
    PinRowColumns(inst, j);
    var terms := PinRow(inst, j).terms;
    var early := EarlyValues(inst, x, j);
    forall t | 0 <= t < |terms| ensures x[terms[t].col] == early[t] {
      assert early[t] == BlockValues(inst, x, j)[t];
    }
    if Holds(PinRow(inst, j), x) {
      UnitRowZero(terms, x);
    }
    if forall t :: 0 <= t < |early| ==> early[t] == 0 {
      UnitRowZeroBack(terms, x);
    }
  }

  /* ---------------- the builder ---------------- */

  /** model_time_indexed_create (lines 459-660): the exactly-one rows, then
      the emitted slot rows, then the release rows. The rule picks the
      loop as written (SkipLateJobs) or the corrected one (ClampToBlock).
      There are sum_j (T - p_j + 1) binaries, one row per job, one per
      slot up to the rule's last slot and one per released job, and every
      row only names declared columns. */
  function TimeIndexedCreate(inst: Instance, rule: SlotRule): (m: ModelSpec)
    requires inst.Valid()
    ensures |m.vars| == VarCount(inst)
    ensures forall k :: 0 <= k < |m.vars| ==> m.vars[k].vtype == Binary
    ensures 0 <= LastSlot(inst, rule) < Horizon(inst)
    ensures |m.constrs| == inst.Jobs() + (LastSlot(inst, rule) + 1) + |ReleasedJobs(inst, 0)|
    ensures WellFormed(m)
  {
    var vars := VarsFrom(inst, 0);
    assert |vars| == VarCount(inst) && forall k :: 0 <= k < |vars| ==> vars[k].vtype == Binary by {
      VarsLayout(inst);
    }
    var once := ExactlyOneRows(inst, 0, 0);
    var slots := SlotRows(inst, rule);
    var pins := ReleaseRows(inst, 0, 0);
    assert 0 <= LastSlot(inst, rule) < Horizon(inst) && |slots| == LastSlot(inst, rule) + 1 by {
      HorizonBounds(inst, 0);
      SlotRowsLayout(inst, rule);
    }
    OnceRowsBelow(inst);
    SlotRowsBelow(inst, rule);
    PinRowsBelow(inst);
    RowsBelowAppend(once, slots, VarCount(inst));
    RowsBelowAppend(once + slots, pins, VarCount(inst));
    ModelSpec(vars, once + slots + pins)
  }

  lemma OnceRowsBelow(inst: Instance)
    requires inst.Valid()
    ensures RowsBelow(ExactlyOneRows(inst, 0, 0), VarCount(inst))
  {
    var once := ExactlyOneRows(inst, 0, 0);
    forall i | 0 <= i < |once| ensures ColumnsBelow(once[i], VarCount(inst)) {
      ExactlyOneRowColumns(inst, i);
    }
  }

  lemma SlotRowsBelow(inst: Instance, rule: SlotRule)
    requires inst.Valid()
    ensures RowsBelow(SlotRows(inst, rule), VarCount(inst))
  {
    var slots := SlotRows(inst, rule);
    HorizonBounds(inst, 0);
    SlotRowsLayout(inst, rule);
    forall i | 0 <= i < |slots| ensures ColumnsBelow(slots[i], VarCount(inst)) {
      assert slots[i] == SlotRow(inst, rule, i);
      SlotTermsMeaning(inst, rule, i);
    }
  }

  lemma PinRowsBelow(inst: Instance)
    requires inst.Valid()
    ensures RowsBelow(ReleaseRows(inst, 0, 0), VarCount(inst))
  {
    var pins := ReleaseRows(inst, 0, 0);
    forall i | 0 <= i < |pins| ensures ColumnsBelow(pins[i], VarCount(inst)) {
      PinRowColumns(inst, ReleasedJobs(inst, 0)[i]);
    }
  }

  /** Row j of the model is job j's exactly-one row. */
  lemma RowOfJob(inst: Instance, rule: SlotRule, j: nat)
    requires inst.Valid() && j < inst.Jobs()
    ensures j < |TimeIndexedCreate(inst, rule).constrs|
    ensures TimeIndexedCreate(inst, rule).constrs[j] == ExactlyOneRow(inst, j)
  {
    var m := TimeIndexedCreate(inst, rule);
    var once := ExactlyOneRows(inst, 0, 0);
    assert m.constrs == once + SlotRows(inst, rule) + ReleaseRows(inst, 0, 0);
    assert m.constrs[j] == once[j];
  }

  /** Row n + tau of the model is the row of slot tau, for every slot up
      to the rule's last one. */
  lemma RowOfSlot(inst: Instance, rule: SlotRule, tau: nat)
    requires inst.Valid() && tau <= LastSlot(inst, rule)
    ensures inst.Jobs() + tau < |TimeIndexedCreate(inst, rule).constrs|
    ensures TimeIndexedCreate(inst, rule).constrs[inst.Jobs() + tau] == SlotRow(inst, rule, tau)
  {
    var m := TimeIndexedCreate(inst, rule);
    var once := ExactlyOneRows(inst, 0, 0);
    var slots := SlotRows(inst, rule);
    assert m.constrs == once + slots + ReleaseRows(inst, 0, 0);
    assert |slots| == LastSlot(inst, rule) + 1 && slots[tau] == SlotRow(inst, rule, tau) by {
      SlotRowsLayout(inst, rule);
    }
    assert m.constrs[|once| + tau] == slots[tau];
  }

  /** After the slot rows come the pinning rows of the released jobs, in
      job order. */
  lemma RowOfRelease(inst: Instance, rule: SlotRule, k: nat)
    requires inst.Valid() && k < |ReleasedJobs(inst, 0)|
    ensures inst.Jobs() + LastSlot(inst, rule) + 1 + k < |TimeIndexedCreate(inst, rule).constrs|
    ensures TimeIndexedCreate(inst, rule).constrs[inst.Jobs() + LastSlot(inst, rule) + 1 + k]
      == PinRow(inst, ReleasedJobs(inst, 0)[k])
  {
    var m := TimeIndexedCreate(inst, rule);
    var once := ExactlyOneRows(inst, 0, 0);
    var slots := SlotRows(inst, rule);
    var pins := ReleaseRows(inst, 0, 0);
    assert m.constrs == once + slots + pins;
    assert |slots| == LastSlot(inst, rule) + 1 by {
      SlotRowsLayout(inst, rule);
    }
    assert m.constrs[|once| + |slots| + k] == pins[k];
  }

  /* ---------------- what a feasible assignment means ---------------- */

  /** Whichever rule is used, a feasible assignment picks exactly one
      completion time per job. */
  lemma FeasibleOneCompletion(inst: Instance, rule: SlotRule, x: seq<int>, j: nat)
    requires inst.Valid() && j < inst.Jobs() && |x| == VarCount(inst)
    requires Feasible(TimeIndexedCreate(inst, rule), x)
    ensures ExactlyOne(BlockValues(inst, x, j))
  {
    var m := TimeIndexedCreate(inst, rule);
    FeasibleRow(m, x, j);
    FeasibleBinary(m, x);
    RowOfJob(inst, rule, j);
    ExactlyOneRowMeaning(inst, x, j);
  }

  /** Whichever rule is used, a feasible assignment picks no completion
      time of job j before r_j + p_j. */
  lemma FeasibleRelease(inst: Instance, rule: SlotRule, x: seq<int>, j: nat)
    requires inst.Valid() && j < inst.Jobs() && |x| == VarCount(inst)
    requires Feasible(TimeIndexedCreate(inst, rule), x)
    ensures forall t :: 0 <= t < |EarlyValues(inst, x, j)| ==> EarlyValues(inst, x, j)[t] == 0
  {
    if inst.r[j] != 0 {
      var m := TimeIndexedCreate(inst, rule);
      ReleasedJobsComplete(inst, 0, j);
      var k :| 0 <= k < |ReleasedJobs(inst, 0)| && ReleasedJobs(inst, 0)[k] == j;
      var c := inst.Jobs() + LastSlot(inst, rule) + 1 + k;
      RowOfRelease(inst, rule, k);
      FeasibleRow(m, x, c);
      FeasibleBinary(m, x);
      PinRowMeaning(inst, x, j);
    }
  }

  /** A slot row that holds on 0/1 values never reads 1 from two different columns. */
  lemma SlotRowExclusive(inst: Instance, rule: SlotRule, x: seq<int>, tau: int, c1: int, c2: int)
    requires inst.Valid() && |x| == VarCount(inst) && 0 <= tau < Horizon(inst)
    requires forall k :: 0 <= k < |x| ==> 0 <= x[k] <= 1
    requires ColumnsBelow(SlotRow(inst, rule, tau), |x|) && Holds(SlotRow(inst, rule, tau), x)
    requires HasCol(SlotRow(inst, rule, tau).terms, c1) && HasCol(SlotRow(inst, rule, tau).terms, c2)
    requires 0 <= c1 < |x| && 0 <= c2 < |x| && x[c1] == 1 && x[c2] == 1
    ensures c1 == c2
  {
    var ts := SlotRow(inst, rule, tau).terms;
    SlotTermsMeaning(inst, rule, tau);
    var k1 :| 0 <= k1 < |ts| && ts[k1].col == c1;
    var k2 :| 0 <= k2 < |ts| && ts[k2].col == c2;
    UnitRowCounts(ts, x);
    var vals := Picked(ts, x);
    assert vals[k1] == 1 && vals[k2] == 1;
    assert k1 == k2;
  }

  /** With the clamped rule every slot of the horizon has its row, so a
      feasible assignment satisfies the row of slot tau. */
  lemma ClampedSlotRowHolds(inst: Instance, x: seq<int>, tau: int)
    requires inst.Valid() && |x| == VarCount(inst)
    requires Feasible(TimeIndexedCreate(inst, ClampToBlock), x)
    requires 0 <= tau < Horizon(inst)
    ensures forall k :: 0 <= k < |x| ==> 0 <= x[k] <= 1
    ensures ColumnsBelow(SlotRow(inst, ClampToBlock, tau), |x|) && Holds(SlotRow(inst, ClampToBlock, tau), x)
  {
    var m := TimeIndexedCreate(inst, ClampToBlock);
    RowOfSlot(inst, ClampToBlock, tau);
    FeasibleRow(m, x, inst.Jobs() + tau);
    FeasibleBinary(m, x);
  }

  /** With the clamped slot rows, a feasible assignment never runs two
      jobs, or two completion times of one job, in the same slot. */
  lemma ClampedNoOverlap(inst: Instance, x: seq<int>, tau: int, j1: nat, t1: nat, j2: nat, t2: nat)
    requires inst.Valid() && |x| == VarCount(inst)
    requires Feasible(TimeIndexedCreate(inst, ClampToBlock), x)
    requires j1 < inst.Jobs() && t1 < BlockSize(inst, j1) && BlockValues(inst, x, j1)[t1] == 1
    requires j2 < inst.Jobs() && t2 < BlockSize(inst, j2) && BlockValues(inst, x, j2)[t2] == 1
    requires Occupies(inst, j1, t1, tau) && Occupies(inst, j2, t2, tau)
    ensures j1 == j2 && t1 == t2
  {
    assert 0 <= tau < Horizon(inst);
    ClampedSlotRowHolds(inst, x, tau);
    ClampedRowNoOverlap(inst, x, tau, j1, t1, j2, t2);
  }

  /** The step of ClampedNoOverlap once the row of slot tau is known to
      hold on 0/1 values. */
  lemma ClampedRowNoOverlap(inst: Instance, x: seq<int>, tau: int, j1: nat, t1: nat, j2: nat, t2: nat)
    requires inst.Valid() && |x| == VarCount(inst) && 0 <= tau < Horizon(inst)
    requires forall k :: 0 <= k < |x| ==> 0 <= x[k] <= 1
    requires ColumnsBelow(SlotRow(inst, ClampToBlock, tau), |x|) && Holds(SlotRow(inst, ClampToBlock, tau), x)
    requires j1 < inst.Jobs() && t1 < BlockSize(inst, j1) && BlockValues(inst, x, j1)[t1] == 1
    requires j2 < inst.Jobs() && t2 < BlockSize(inst, j2) && BlockValues(inst, x, j2)[t2] == 1
    requires Occupies(inst, j1, t1, tau) && Occupies(inst, j2, t2, tau)
    ensures j1 == j2 && t1 == t2
  {
    ClampedCoveringColumn(inst, tau, j1, t1);
    ClampedCoveringColumn(inst, tau, j2, t2);
    ChosenColumn(inst, x, j1, t1);
    ChosenColumn(inst, x, j2, t2);
    BlocksDisjoint(inst, j1, t1, j2, t2);
    SlotRowExclusive(inst, ClampToBlock, x, tau, Offset(inst, j1) + t1, Offset(inst, j2) + t2);
  }

  /** A chosen completion time whose processing covers slot tau is a
      column of the clamped row of tau. */
  lemma ClampedCoveringColumn(inst: Instance, tau: int, j: nat, t: nat)
    requires inst.Valid() && 0 <= tau < Horizon(inst)
    requires j < inst.Jobs() && t < BlockSize(inst, j) && Occupies(inst, j, t, tau)
    ensures HasCol(SlotRow(inst, ClampToBlock, tau).terms, Offset(inst, j) + t)
  {
    SlotTermsMeaning(inst, ClampToBlock, tau);
    assert InBlock(inst, j, t) && Covered(inst, ClampToBlock, j, t, tau);
  }

  /** A chosen completion time reads 1 in its column of x. */
  lemma ChosenColumn(inst: Instance, x: seq<int>, j: nat, t: nat)
    requires inst.Valid() && |x| == VarCount(inst)
    requires j < inst.Jobs() && t < BlockSize(inst, j) && BlockValues(inst, x, j)[t] == 1
    ensures 0 <= Offset(inst, j) + t < |x| && x[Offset(inst, j) + t] == 1
  {
  }

  /* ---------------- the skipped jobs ---------------- */

  /** The two-job instance p = (3, 1), r = (0, 0): T = 4, job 0's block
      is columns 0..1 and job 1's block columns 2..5. */
  predicate IsSkipExample(inst: Instance)
  {
    inst.p == [3, 1] && inst.r == [0, 0]
  }

  lemma SkipExampleShape(inst: Instance)
    requires IsSkipExample(inst)
    ensures inst.Valid()
    ensures Horizon(inst) == 4 && MinProcessing(inst.p) == 1
    ensures BlockSize(inst, 0) == 2 && BlockSize(inst, 1) == 4
    ensures Offset(inst, 1) == 2 && VarCount(inst) == 6
    ensures ReleasedJobs(inst, 0) == []
  {
    assert inst.p[..1] == [3] && inst.p[..1][..0] == [];
    assert inst.r[..1] == [0] && inst.r[..1][..0] == [];
    assert Sum(inst.p[..1]) == 3;
    assert Sum(inst.p) == 4;
    assert ReleasedJobs(inst, 2) == [];
    assert ReleasedJobs(inst, 1) == [];
  }

  /** The entries of the slot rows as written: job 0 drops out of the
      rows of slots 2 and 3. */
  lemma SkipExampleSlot(inst: Instance, tau: nat)
    requires IsSkipExample(inst) && tau < 4
    ensures inst.Valid()
    ensures tau == 0 ==> SlotTerms(inst, SkipLateJobs, tau, 0, 0) == [Term(0, 1), Term(2, 1)]
    ensures tau == 1 ==> SlotTerms(inst, SkipLateJobs, tau, 0, 0) == [Term(0, 1), Term(1, 1), Term(3, 1)]
    ensures tau == 2 ==> SlotTerms(inst, SkipLateJobs, tau, 0, 0) == [Term(4, 1)]
    ensures tau == 3 ==> SlotTerms(inst, SkipLateJobs, tau, 0, 0) == [Term(5, 1)]
  {
    SkipExampleShape(inst);
    assert SlotTerms(inst, SkipLateJobs, tau, 2, 6) == [];
    assert SlotTerms(inst, SkipLateJobs, tau, 1, 2) == JobSlotTerms(inst, SkipLateJobs, tau, 1, 2);
    assert SlotTerms(inst, SkipLateJobs, tau, 0, 0)
        == JobSlotTerms(inst, SkipLateJobs, tau, 0, 0) + JobSlotTerms(inst, SkipLateJobs, tau, 1, 2);
    if tau == 0 {
      assert SlotLow(inst, 0, 0) == 0 && SlotHigh(inst, SkipLateJobs, 0, 0) == 0;
      assert JobSlotTerms(inst, SkipLateJobs, 0, 0, 0) == [Term(0, 1)];
      assert SlotLow(inst, 1, 0) == 0 && SlotHigh(inst, SkipLateJobs, 1, 0) == 0;
      assert JobSlotTerms(inst, SkipLateJobs, 0, 1, 2) == [Term(2, 1)];
    }
    if tau == 1 {
      assert SlotLow(inst, 0, 1) == 0 && SlotHigh(inst, SkipLateJobs, 0, 1) == 1;
      assert JobSlotTerms(inst, SkipLateJobs, 1, 0, 0) == [Term(0, 1), Term(1, 1)];
      assert SlotLow(inst, 1, 1) == 1 && SlotHigh(inst, SkipLateJobs, 1, 1) == 1;
      assert JobSlotTerms(inst, SkipLateJobs, 1, 1, 2) == [Term(3, 1)];
    }
    if tau == 2 {
      assert SlotLow(inst, 0, 2) == 0 && SlotHigh(inst, SkipLateJobs, 0, 2) == -1;
      assert JobSlotTerms(inst, SkipLateJobs, 2, 0, 0) == [];
      assert SlotLow(inst, 1, 2) == 2 && SlotHigh(inst, SkipLateJobs, 1, 2) == 2;
      assert JobSlotTerms(inst, SkipLateJobs, 2, 1, 2) == [Term(4, 1)];
    }
    if tau == 3 {
      assert SlotLow(inst, 0, 3) == 1 && SlotHigh(inst, SkipLateJobs, 0, 3) == -1;
      assert JobSlotTerms(inst, SkipLateJobs, 3, 0, 0) == [];
      assert SlotLow(inst, 1, 3) == 3 && SlotHigh(inst, SkipLateJobs, 1, 3) == 3;
      assert JobSlotTerms(inst, SkipLateJobs, 3, 1, 2) == [Term(5, 1)];
    }
  }

  lemma SkipExampleJobRows(inst: Instance, x: seq<int>)
    requires IsSkipExample(inst) && x == [1, 0, 0, 0, 1, 0]
    ensures inst.Valid() && VarCount(inst) == |x|
    ensures |TimeIndexedCreate(inst, SkipLateJobs).constrs| == 6
    ensures Holds(TimeIndexedCreate(inst, SkipLateJobs).constrs[0], x)
    ensures Holds(TimeIndexedCreate(inst, SkipLateJobs).constrs[1], x)
  {
    SkipExampleShape(inst);
    RowOfJob(inst, SkipLateJobs, 0);
    RowOfJob(inst, SkipLateJobs, 1);
    assert BlockValues(inst, x, 0) == [1, 0];
    assert BlockValues(inst, x, 1) == [0, 0, 1, 0];
    ExactlyOneRowMeaning(inst, x, 0);
    ExactlyOneRowMeaning(inst, x, 1);
    assert ExactlyOne(BlockValues(inst, x, 0)) by { assert BlockValues(inst, x, 0)[0] == 1; }
    assert ExactlyOne(BlockValues(inst, x, 1)) by { assert BlockValues(inst, x, 1)[2] == 1; }
  }

  lemma SkipExampleSlotRow(inst: Instance, x: seq<int>, tau: nat)
    requires IsSkipExample(inst) && x == [1, 0, 0, 0, 1, 0] && tau < 4
    ensures inst.Valid() && VarCount(inst) == |x|
    ensures |TimeIndexedCreate(inst, SkipLateJobs).constrs| == 6
    ensures Holds(TimeIndexedCreate(inst, SkipLateJobs).constrs[2 + tau], x)
  {
    SkipExampleShape(inst);
    RowOfSlot(inst, SkipLateJobs, tau);
    var row := TimeIndexedCreate(inst, SkipLateJobs).constrs[2 + tau];
    assert row == SlotRow(inst, SkipLateJobs, tau);
    SkipExampleSlot(inst, tau);
    if tau == 0 {
      var ts := [Term(0, 1), Term(2, 1)];
      assert row.terms == ts;
      assert ts[1..] == [Term(2, 1)] && [Term(2, 1)][1..] == [];
      assert Lhs([Term(2, 1)], x) == 0;
      assert Lhs(ts, x) == 1;
    } else if tau == 1 {
      LhsThree(Term(0, 1), Term(1, 1), Term(3, 1), x);
    } else {
      assert [Term(4, 1)][1..] == [] && [Term(5, 1)][1..] == [];
    }
  }

  /** Choosing job 0 to complete at 3 (local index 0, slots 0..2) and job 1
      to complete at 3 (local index 2, slot 2) satisfies every row of the
      model as written, although both jobs then run in slot 2. */
  lemma SkipAdmitsOverlap(inst: Instance, x: seq<int>)
    requires IsSkipExample(inst) && x == [1, 0, 0, 0, 1, 0]
    ensures inst.Valid() && VarCount(inst) == |x| && BlockSize(inst, 0) == 2 && BlockSize(inst, 1) == 4
    ensures Feasible(TimeIndexedCreate(inst, SkipLateJobs), x)
    ensures BlockValues(inst, x, 0)[0] == 1 && Occupies(inst, 0, 0, 2)
    ensures BlockValues(inst, x, 1)[2] == 1 && Occupies(inst, 1, 2, 2)
  {
    SkipExampleShape(inst);
    var m := TimeIndexedCreate(inst, SkipLateJobs);
    SkipExampleJobRows(inst, x);
    forall i | 0 <= i < |m.constrs| ensures Holds(m.constrs[i], x) {
      if i >= 2 {
        SkipExampleSlotRow(inst, x, i - 2);
      }
    }
  }

  /** The clamped rows reject the same choice: slot 2's row now also
      holds job 0's local indices 0..1. */
  lemma ClampRejectsOverlap(inst: Instance, x: seq<int>)
    requires IsSkipExample(inst) && x == [1, 0, 0, 0, 1, 0]
    ensures inst.Valid() && VarCount(inst) == |x|
    ensures !Feasible(TimeIndexedCreate(inst, ClampToBlock), x)
  {
    SkipAdmitsOverlap(inst, x);
    if Feasible(TimeIndexedCreate(inst, ClampToBlock), x) {
      ClampedNoOverlap(inst, x, 2, 0, 0, 1, 2);
    }
  }

  /* ---------------- the schedules the clamped rows admit ---------------- */

  /** The job whose block holds column c, searching from job j on. */
  function OwnerFrom(inst: Instance, c: int, j: nat): (o: nat)
    requires inst.Valid() && j < inst.Jobs() && Offset(inst, j) <= c < VarCount(inst)
    ensures j <= o < inst.Jobs() && InBlock(inst, o, c - Offset(inst, o))
    decreases inst.Jobs() - j
  {
    if c < Offset(inst, j) + BlockSize(inst, j) then j
    else
      OffsetMonotone(inst, j + 1, inst.Jobs());
      OwnerFrom(inst, c, j + 1)
  }

  /** Entries whose columns strictly increase: no column is named twice. */
  predicate Increasing(terms: seq<Term>)
  {
    forall k, k' :: 0 <= k < k' < |terms| ==> terms[k].col < terms[k'].col
  }

  lemma JobSlotTermsIncreasing(inst: Instance, rule: SlotRule, tau: int, j: nat, offset: nat)
    requires inst.Valid() && j < inst.Jobs()
    ensures Increasing(JobSlotTerms(inst, rule, tau, j, offset))
  {
    var ts := JobSlotTerms(inst, rule, tau, j, offset);
    if |ts| > 0 {
      assert forall k :: 0 <= k < |ts| ==> ts[k].col == offset + SlotLow(inst, j, tau) + k;
    }
  }

  /** The row of a slot names each column at most once: the job loop
      walks the blocks in column order. */
  lemma {:induction false} SlotTermsIncreasing(inst: Instance, rule: SlotRule, tau: int, j: nat)
    requires inst.Valid() && j <= inst.Jobs() && 0 <= tau < Horizon(inst)
    ensures Increasing(SlotTerms(inst, rule, tau, j, Offset(inst, j)))
    decreases inst.Jobs() - j
  {
    if j < inst.Jobs() {
      var head := JobSlotTerms(inst, rule, tau, j, Offset(inst, j));
      var tail := SlotTerms(inst, rule, tau, j + 1, Offset(inst, j + 1));
      var ts := SlotTerms(inst, rule, tau, j, Offset(inst, j));
      assert ts == head + tail;
      JobSlotTermsMeaning(inst, rule, tau, j, Offset(inst, j));
      JobSlotTermsIncreasing(inst, rule, tau, j, Offset(inst, j));
      SlotTermsColumns(inst, rule, tau, j + 1);
      SlotTermsIncreasing(inst, rule, tau, j + 1);
      forall k, k' | 0 <= k < k' < |ts| ensures ts[k].col < ts[k'].col {
        if k' < |head| {
          assert ts[k] == head[k] && ts[k'] == head[k'];
        } else if k < |head| {
          assert ts[k] == head[k] && ts[k'] == tail[k' - |head|];
        } else {
          assert ts[k] == tail[k - |head|] && ts[k'] == tail[k' - |head|];
        }
      }
    }
  }

  /** No two chosen completion times occupy a common slot. */
  ghost predicate NoOverlap(inst: Instance, x: seq<int>)
    requires inst.Valid() && |x| == VarCount(inst)
  {
    forall j1: nat, t1: int, j2: nat, t2: int, tau: int ::
      j1 < inst.Jobs() && InBlock(inst, j1, t1) && j2 < inst.Jobs() && InBlock(inst, j2, t2)
      && BlockValues(inst, x, j1)[t1] == 1 && BlockValues(inst, x, j2)[t2] == 1
      && Occupies(inst, j1, t1, tau) && Occupies(inst, j2, t2, tau)
      ==> j1 == j2 && t1 == t2
  }

  /** A single-machine schedule written as a 0/1 point: one completion
      time per job, none before its release date plus its processing
      time, and no two jobs processed in the same slot. */
  ghost predicate IsSchedule(inst: Instance, x: seq<int>)
    requires inst.Valid() && |x| == VarCount(inst)
  {
    && ZeroOne(x)
    && (forall j :: 0 <= j < inst.Jobs() ==> ExactlyOne(BlockValues(inst, x, j)))
    && (forall j :: 0 <= j < inst.Jobs() ==>
          forall t :: 0 <= t < |EarlyValues(inst, x, j)| ==> EarlyValues(inst, x, j)[t] == 0)
    && NoOverlap(inst, x)
  }

  /** An entry of the clamped row of slot tau is a completion time that
      occupies slot tau. */
  lemma ClampedEntryOwner(inst: Instance, tau: int, k: nat) returns (j: nat, t: int)
    requires inst.Valid() && 0 <= tau < Horizon(inst)
    requires k < |SlotRow(inst, ClampToBlock, tau).terms|
    ensures j < inst.Jobs() && InBlock(inst, j, t)
    ensures SlotRow(inst, ClampToBlock, tau).terms[k].col == Offset(inst, j) + t
    ensures Occupies(inst, j, t, tau)
  {
    var ts := SlotRow(inst, ClampToBlock, tau).terms;
    SlotTermsMeaning(inst, ClampToBlock, tau);
    var c := ts[k].col;
    j := OwnerFrom(inst, c, 0);
    t := c - Offset(inst, j);
    assert HasCol(ts, Offset(inst, j) + t);
  }

  /** When no two chosen completion times share a slot, the clamped row
      of every slot holds. */
  lemma ClampedSlotRowAdmits(inst: Instance, x: seq<int>, tau: int)
    requires inst.Valid() && |x| == VarCount(inst) && 0 <= tau < Horizon(inst)
    requires ZeroOne(x) && NoOverlap(inst, x)
    ensures ColumnsBelow(SlotRow(inst, ClampToBlock, tau), |x|) && Holds(SlotRow(inst, ClampToBlock, tau), x)
  {
    var ts := SlotRow(inst, ClampToBlock, tau).terms;
    SlotTermsMeaning(inst, ClampToBlock, tau);
    SlotTermsIncreasing(inst, ClampToBlock, tau, 0);
    var vals := Picked(ts, x);
    forall k, k' | 0 <= k < k' < |vals| ensures vals[k] == 0 || vals[k'] == 0 {
      var j1, t1 := ClampedEntryOwner(inst, tau, k);
      var j2, t2 := ClampedEntryOwner(inst, tau, k');
      assert BlockValues(inst, x, j1)[t1] == vals[k] && BlockValues(inst, x, j2)[t2] == vals[k'];
      assert ts[k].col < ts[k'].col;
    }
    UnitRowCounts(ts, x);
  }

  /** Every schedule is a feasible point of the clamped model. */
  lemma ScheduleFeasible(inst: Instance, x: seq<int>)
    requires inst.Valid() && |x| == VarCount(inst) && IsSchedule(inst, x)
    ensures Feasible(TimeIndexedCreate(inst, ClampToBlock), x)
  {
    var m := TimeIndexedCreate(inst, ClampToBlock);
    var n := inst.Jobs();
    var last := LastSlot(inst, ClampToBlock);
    forall i | 0 <= i < |m.constrs| ensures Holds(m.constrs[i], x) {
      if i < n {
        RowOfJob(inst, ClampToBlock, i);
        ExactlyOneRowMeaning(inst, x, i);
      } else if i <= n + last {
        RowOfSlot(inst, ClampToBlock, i - n);
        ClampedSlotRowAdmits(inst, x, i - n);
      } else {
        var k := i - n - last - 1;
        RowOfRelease(inst, ClampToBlock, k);
        PinRowMeaning(inst, x, ReleasedJobs(inst, 0)[k]);
      }
    }
  }

  /** The clamped model's feasible points are exactly the schedules. */
  lemma ClampedFeasibleIff(inst: Instance, x: seq<int>)
    requires inst.Valid() && |x| == VarCount(inst)
    ensures Feasible(TimeIndexedCreate(inst, ClampToBlock), x) <==> IsSchedule(inst, x)
  {
    var m := TimeIndexedCreate(inst, ClampToBlock);
    if Feasible(m, x) {
      FeasibleBinary(m, x);
      forall j | 0 <= j < inst.Jobs() ensures ExactlyOne(BlockValues(inst, x, j)) {
        FeasibleOneCompletion(inst, ClampToBlock, x, j);
      }
      forall j | 0 <= j < inst.Jobs()
        ensures forall t :: 0 <= t < |EarlyValues(inst, x, j)| ==> EarlyValues(inst, x, j)[t] == 0
      {
        FeasibleRelease(inst, ClampToBlock, x, j);
      }
      forall j1: nat, t1: int, j2: nat, t2: int, tau: int |
        j1 < inst.Jobs() && InBlock(inst, j1, t1) && j2 < inst.Jobs() && InBlock(inst, j2, t2)
        && BlockValues(inst, x, j1)[t1] == 1 && BlockValues(inst, x, j2)[t2] == 1
        && Occupies(inst, j1, t1, tau) && Occupies(inst, j2, t2, tau)
        ensures j1 == j2 && t1 == t2
      {
        ClampedNoOverlap(inst, x, tau, j1, t1, j2, t2);
      }
    }
    if IsSchedule(inst, x) {
      ScheduleFeasible(inst, x);
    }
  }

  /* ---------------- the horizon leaves room ---------------- */

  /** The back-to-back schedule: every job waits for the last release
      date, then the jobs run in index order without gaps, so job j
      starts at max r + sum_{k<j} p_k. */
  function BackToBackStart(inst: Instance, j: nat): int
    requires inst.Valid() && j <= inst.Jobs()
  {
    MaxRelease(inst.r) + Sum(inst.p[..j])
  }

  lemma PrefixSumStep(p: seq<int>, j: nat)
    requires j < |p|
    ensures Sum(p[..j + 1]) == Sum(p[..j]) + p[j]
  {
    assert p[..j + 1][..j] == p[..j];
  }

  /** Prefix sums of non-negative values grow with the prefix. */
  lemma {:induction false} PrefixSumMonotone(p: seq<int>, j: nat, j': nat)
    requires j <= j' <= |p| && forall k :: 0 <= k < |p| ==> p[k] >= 0
    ensures 0 <= Sum(p[..j]) <= Sum(p[..j'])
    decreases j'
  {
    if j' == 0 {
      assert p[..0] == [];
    } else if j == j' {
      PrefixSumMonotone(p, j - 1, j - 1);
      PrefixSumStep(p, j - 1);
    } else {
      PrefixSumMonotone(p, j, j' - 1);
      PrefixSumStep(p, j' - 1);
    }
  }

  /** Each job of the back-to-back schedule starts at or after its release
      date, completes by T, and is done before any later job starts. */
  lemma BackToBackTimes(inst: Instance, j: nat, j': nat)
    requires inst.Valid() && j < inst.Jobs() && j' < inst.Jobs()
    ensures inst.r[j] <= BackToBackStart(inst, j)
    ensures BackToBackStart(inst, j) + inst.p[j] <= Horizon(inst)
    ensures j < j' ==> BackToBackStart(inst, j) + inst.p[j] <= BackToBackStart(inst, j')
  {
    var p := inst.p;
    PrefixSumStep(p, j);
    PrefixSumMonotone(p, 0, j);
    PrefixSumMonotone(p, j + 1, |p|);
    assert p[..|p|] == p;
    if j < j' {
      PrefixSumMonotone(p, j + 1, j');
    }
  }

  /** The back-to-back schedule as a 0/1 point of the time-indexed model:
      column offset_j + t is 1 exactly when t is job j's start. */
  function BackToBack(inst: Instance): (x: seq<int>)
    requires inst.Valid()
    ensures |x| == VarCount(inst)
  {
    seq(VarCount(inst), c requires 0 <= c < VarCount(inst) =>
      var j := OwnerFrom(inst, c, 0);
      if c - Offset(inst, j) == BackToBackStart(inst, j) then 1 else 0)
  }

  lemma BackToBackBlock(inst: Instance, j: nat, t: int)
    requires inst.Valid() && j < inst.Jobs() && InBlock(inst, j, t)
    ensures BlockValues(inst, BackToBack(inst), j)[t] == if t == BackToBackStart(inst, j) then 1 else 0
  {
    var c := Offset(inst, j) + t;
    BlocksDisjoint(inst, j, t, j, t);
    var o := OwnerFrom(inst, c, 0);
    BlocksDisjoint(inst, o, c - Offset(inst, o), j, t);
  }

  /** In the back-to-back point, job j's block reads 1 at its start only,
      which lies in the block, and nothing before its release date. */
  lemma BackToBackJob(inst: Instance, j: nat)
    requires inst.Valid() && j < inst.Jobs()
    ensures InBlock(inst, j, BackToBackStart(inst, j))
    ensures BlockValues(inst, BackToBack(inst), j)[BackToBackStart(inst, j)] == 1
    ensures ExactlyOne(BlockValues(inst, BackToBack(inst), j))
    ensures forall t :: 0 <= t < |EarlyValues(inst, BackToBack(inst), j)| ==>
      EarlyValues(inst, BackToBack(inst), j)[t] == 0
  {
    var s := BackToBackStart(inst, j);
    BackToBackTimes(inst, j, j);
    var vals := BlockValues(inst, BackToBack(inst), j);
    forall t | 0 <= t < |vals| ensures vals[t] == if t == s then 1 else 0 {
      BackToBackBlock(inst, j, t);
    }
  }

  /** In the back-to-back point no two jobs share a slot. */
  lemma BackToBackNoOverlap(inst: Instance)
    requires inst.Valid()
    ensures NoOverlap(inst, BackToBack(inst))
  {
    var x := BackToBack(inst);
    forall j1: nat, t1: int, j2: nat, t2: int, tau: int |
      j1 < inst.Jobs() && InBlock(inst, j1, t1) && j2 < inst.Jobs() && InBlock(inst, j2, t2)
      && BlockValues(inst, x, j1)[t1] == 1 && BlockValues(inst, x, j2)[t2] == 1
      && Occupies(inst, j1, t1, tau) && Occupies(inst, j2, t2, tau)
      ensures j1 == j2 && t1 == t2
    {
      BackToBackBlock(inst, j1, t1);
      BackToBackBlock(inst, j2, t2);
      BackToBackTimes(inst, j1, j2);
      BackToBackTimes(inst, j2, j1);
    }
  }

  /** The back-to-back point is a schedule. */
  lemma BackToBackSchedule(inst: Instance)
    requires inst.Valid()
    ensures IsSchedule(inst, BackToBack(inst))
  {
    var x := BackToBack(inst);
    forall j | 0 <= j < inst.Jobs()
      ensures ExactlyOne(BlockValues(inst, x, j))
      ensures forall t :: 0 <= t < |EarlyValues(inst, x, j)| ==> EarlyValues(inst, x, j)[t] == 0
    {
      BackToBackJob(inst, j);
    }
    BackToBackNoOverlap(inst);
  }

  /** T = sum p + max r already leaves room for every job: the
      back-to-back schedule completes each job j at start_j + p_j <= T and
      is a feasible point of the clamped model, so the horizon needs no +1. */
  lemma BackToBackFeasible(inst: Instance)
    requires inst.Valid()
    ensures forall j :: 0 <= j < inst.Jobs() ==>
      InBlock(inst, j, BackToBackStart(inst, j))
      && BackToBackStart(inst, j) + inst.p[j] <= Horizon(inst)
      && BlockValues(inst, BackToBack(inst), j)[BackToBackStart(inst, j)] == 1
    ensures IsSchedule(inst, BackToBack(inst))
    ensures Feasible(TimeIndexedCreate(inst, ClampToBlock), BackToBack(inst))
  {
    forall j | 0 <= j < inst.Jobs()
      ensures InBlock(inst, j, BackToBackStart(inst, j))
      ensures BackToBackStart(inst, j) + inst.p[j] <= Horizon(inst)
      ensures BlockValues(inst, BackToBack(inst), j)[BackToBackStart(inst, j)] == 1
    {
      BackToBackJob(inst, j);
      BackToBackTimes(inst, j, j);
    }
    BackToBackSchedule(inst);
    ScheduleFeasible(inst, BackToBack(inst));
  }
}
