/** model_init's dispatch over the three formulations, and the part of
    model_optimize that does not depend on the solver: the solution has
    one value per job, read from the first n columns. */
module Driver {
  import opened Milp
  import opened Scheduling
  import Precedence
  import Positional
  import TimeIndexed

  /** solver_t without the heuristic, which has no builder. */
  datatype Solver = PrecedenceModel | PositionalModel | TimeIndexedModel

  /** model_init as written: each solver's builder, precedence returning
      before its rows and time-indexed skipping late jobs in its slot rows. */
  function ModelInit(inst: Instance, solver: Solver): (m: ModelSpec)
    requires inst.Valid()
    ensures WellFormed(m)
    ensures |m.vars| >= inst.Jobs()
    ensures solver == PrecedenceModel ==> |m.constrs| == 0
    ensures solver != TimeIndexedModel ==> forall k :: 0 <= k < inst.Jobs() ==> m.vars[k] == Var(1, Integer)
    ensures solver == TimeIndexedModel ==> forall k :: 0 <= k < |m.vars| ==> m.vars[k].vtype == Binary
  {
    match solver
    case PrecedenceModel => Precedence.PrecedenceCreate(inst)
    case PositionalModel => Positional.PositionalCreate(inst)
    case TimeIndexedModel =>
      TimeIndexed.OffsetAtLeastIndex(inst, inst.Jobs());
      TimeIndexed.TimeIndexedCreate(inst, TimeIndexed.SkipLateJobs)
  }

  /** The dispatch over the corrected builders: the precedence rows
      reached with triangular pair slots, and the time-indexed slot rows
      clamped to each block. */
  function ModelInitCorrected(inst: Instance, solver: Solver): (m: ModelSpec)
    requires inst.Valid()
    ensures WellFormed(m)
    ensures |m.vars| >= inst.Jobs()
    ensures solver == PrecedenceModel ==> |m.constrs| == inst.Jobs() + 2 * Precedence.PairCount(inst.Jobs())
    ensures solver == PositionalModel ==> m == ModelInit(inst, solver)
  {
    match solver
    case PrecedenceModel => Precedence.PrecedenceCorrected(inst)
    case PositionalModel => Positional.PositionalCreate(inst)
    case TimeIndexedModel =>
      TimeIndexed.OffsetAtLeastIndex(inst, inst.Jobs());
      TimeIndexed.TimeIndexedCreate(inst, TimeIndexed.ClampToBlock)
  }

  /** The solver-independent fields of solution_t. */
  datatype Solution = Solution(solver: Solver, size: nat, values: seq<int>)

  /** model_optimize after the solve: `size` is the number of jobs and the
      values are the first n entries of the solver's point x. */
  function ModelOptimize(inst: Instance, solver: Solver, x: seq<int>): (s: Solution)
    requires inst.Valid() && |x| == |ModelInit(inst, solver).vars|
    ensures s.solver == solver && s.size == inst.Jobs() && |s.values| == s.size
    ensures forall k :: 0 <= k < s.size ==> s.values[k] == x[k]
  {
    Solution(solver, inst.Jobs(), x[..inst.Jobs()])
  }

  /* ---------------- the runner's instance ---------------- */

  /** The three-job instance p = (3, 1, 4), r = (5, 0, 2). */
  predicate IsRunnerInstance(inst: Instance)
  {
    inst.p == [3, 1, 4] && inst.r == [5, 0, 2]
  }

  lemma RunnerShape(inst: Instance)
    requires IsRunnerInstance(inst)
    ensures inst.Valid() && inst.Jobs() == 3
    ensures Horizon(inst) == 13
    ensures TimeIndexed.MinProcessing(inst.p) == 1
    ensures TimeIndexed.VarCount(inst) == 34
    ensures TimeIndexed.ReleasedJobs(inst, 0) == [0, 2]
  {
    assert inst.p[..2] == [3, 1] && inst.p[..2][..1] == [3] && inst.p[..2][..1][..0] == [];
    assert inst.r[..2] == [5, 0] && inst.r[..2][..1] == [5] && inst.r[..2][..1][..0] == [];
    assert Sum(inst.p[..2][..1]) == 3;
    assert Sum(inst.p[..2]) == 4;
    assert Sum(inst.p) == 8;
    assert MaxRelease(inst.r[..2][..1]) == 5;
    assert MaxRelease(inst.r[..2]) == 5;
    assert MaxRelease(inst.r) == 5;
    assert TimeIndexed.MinProcessing(inst.p[..2]) == 1;
    assert TimeIndexed.BlockSize(inst, 0) == 11;
    assert TimeIndexed.BlockSize(inst, 1) == 13;
    assert TimeIndexed.BlockSize(inst, 2) == 10;
    assert TimeIndexed.Offset(inst, 1) == 11;
    assert TimeIndexed.Offset(inst, 2) == 24;
    assert TimeIndexed.ReleasedJobs(inst, 3) == [];
    assert TimeIndexed.ReleasedJobs(inst, 2) == [2];
    assert TimeIndexed.ReleasedJobs(inst, 1) == [2];
  }

  /** The counts on the runner's instance: precedence 6 variables and no
      rows, positional 12 and 15, time-indexed (T = 13) 34 and 3 + 13 + 2. */
  lemma RunnerCounts(inst: Instance)
    requires IsRunnerInstance(inst)
    ensures inst.Valid()
    ensures |ModelInit(inst, PrecedenceModel).vars| == 6 && |ModelInit(inst, PrecedenceModel).constrs| == 0
    ensures |ModelInit(inst, PositionalModel).vars| == 12 && |ModelInit(inst, PositionalModel).constrs| == 15
    ensures |ModelInit(inst, TimeIndexedModel).vars| == 34 && |ModelInit(inst, TimeIndexedModel).constrs| == 18
  {
    RunnerShape(inst);
    Precedence.PairsLayout(3);
    assert Precedence.PairCount(3) == 3;
  }
}
