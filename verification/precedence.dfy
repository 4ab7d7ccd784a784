/** The precedence (disjunctive) formulation of model.c: completion-time
    variables C_j followed by one ordering variable x_(i,j) per pair i < j. */
module Precedence {
  import opened Milp
  import opened Scheduling

  /* ---------------- pairs and their slots ---------------- */

  /** The number of unordered pairs of n jobs, n(n-1)/2. */
  function PairCount(n: nat): nat
  {
    n * (n - 1) / 2
  }

  /** The variable count the builder declares: n completion times and one
      ordering variable per unordered pair. */
  function VarCount(n: nat): nat
  {
    n + PairCount(n)
  }

  /** The pairs in the order the builder's nested loops visit them:
      i = 0 .. n-2, then j = i+1 .. n-1. */
  function PairsFrom(n: nat, i: nat): seq<(nat, nat)>
    decreases n - i
  {
    if i >= n then []
    else seq(n - 1 - i, k requires 0 <= k < n - 1 - i => (i, i + 1 + k)) + PairsFrom(n, i + 1)
  }

  function Pairs(n: nat): seq<(nat, nat)>
  {
    PairsFrom(n, 0)
  }

  /** How many pairs come before the first pair whose smaller job is i. */
  function RowStart(n: nat, i: nat): nat
  {
    if i == 0 then 0 else RowStart(n, i - 1) + (if n >= i then n - i else 0)
  }

  /** Position of pair (i, j) in visiting order: the triangular index. */
  function PairIndex(n: nat, i: nat, j: nat): int
  {
    RowStart(n, i) + (j - i - 1)
  }

  lemma {:induction false} RowStartClosedForm(n: nat, i: nat)
    requires i <= n
    ensures 2 * RowStart(n, i) == i * (2 * n - i - 1)
  {
    if i > 0 {
      RowStartClosedForm(n, i - 1);
      assert 2 * RowStart(n, i) == (i - 1) * (2 * n - i) + 2 * (n - i);
      assert (i - 1) * (2 * n - i) + 2 * (n - i) == i * (2 * n - i - 1);
    }
  }

  lemma PairCountIsRowStart(n: nat)
    ensures RowStart(n, n) == PairCount(n)
  {
    RowStartClosedForm(n, n);
    assert 2 * RowStart(n, n) == n * (n - 1);
  }

  lemma {:induction false} PairsFromLength(n: nat, i: nat)
    requires i <= n
    ensures |PairsFrom(n, i)| == RowStart(n, n) - RowStart(n, i)
    decreases n - i
  {
    RowStartMonotone(n, i, n);
    if i < n {
      PairsFromLength(n, i + 1);
    }
  }

  lemma {:induction false} PairsFromForward(n: nat, i: nat)
    requires i <= n
    ensures forall k :: 0 <= k < |PairsFrom(n, i)| ==>
      var (a, b) := PairsFrom(n, i)[k];
      i <= a < b < n && PairIndex(n, a, b) == RowStart(n, i) + k
    decreases n - i
  {
    if i < n {
      PairsFromForward(n, i + 1);
      var head := seq(n - 1 - i, k requires 0 <= k < n - 1 - i => (i, i + 1 + k));
      var tail := PairsFrom(n, i + 1);
      assert PairsFrom(n, i) == head + tail;
      assert RowStart(n, i + 1) == RowStart(n, i) + (n - 1 - i);
      forall k | 0 <= k < |PairsFrom(n, i)|
        ensures var (a, b) := PairsFrom(n, i)[k];
          i <= a < b < n && PairIndex(n, a, b) == RowStart(n, i) + k
      {
        if k >= |head| {
          assert PairsFrom(n, i)[k] == tail[k - |head|];
        }
      }
    }
  }

  lemma {:induction false} PairsFromBackward(n: nat, i: nat)
    requires i <= n
    ensures forall a, b :: i <= a < b < n ==>
      0 <= PairIndex(n, a, b) - RowStart(n, i) < |PairsFrom(n, i)|
      && PairsFrom(n, i)[PairIndex(n, a, b) - RowStart(n, i)] == (a, b)
    decreases n - i
  {
    if i < n {
      PairsFromBackward(n, i + 1);
      PairsFromLength(n, i + 1);
      RowStartMonotone(n, i + 1, n);
      var head := seq(n - 1 - i, k requires 0 <= k < n - 1 - i => (i, i + 1 + k));
      var tail := PairsFrom(n, i + 1);
      assert PairsFrom(n, i) == head + tail;
      assert RowStart(n, i + 1) == RowStart(n, i) + (n - 1 - i);
      forall a, b | i <= a < b < n
        ensures 0 <= PairIndex(n, a, b) - RowStart(n, i) < |PairsFrom(n, i)|
        ensures PairsFrom(n, i)[PairIndex(n, a, b) - RowStart(n, i)] == (a, b)
      {
        if a > i {
          assert PairsFrom(n, i)[PairIndex(n, a, b) - RowStart(n, i)]
              == tail[PairIndex(n, a, b) - RowStart(n, i + 1)];
        }
      }
    }
  }

  lemma {:induction false} RowStartMonotone(n: nat, i: nat, i': nat)
    requires i <= i'
    ensures RowStart(n, i) <= RowStart(n, i')
    decreases i' - i
  {
    if i < i' {
      RowStartMonotone(n, i, i' - 1);
    }
  }

  /** The loop order visits every pair i < j < n exactly once and
      PairIndex is its position: a bijection between the pairs and
      [0, n(n-1)/2), so the ordering variables fill [n, VarCount(n)). */
  lemma PairsLayout(n: nat)
    ensures |Pairs(n)| == PairCount(n)
    ensures forall k :: 0 <= k < |Pairs(n)| ==>
      var (a, b) := Pairs(n)[k];
      a < b < n && PairIndex(n, a, b) == k
    ensures forall a, b :: 0 <= a < b < n ==>
      0 <= PairIndex(n, a, b) < PairCount(n) && Pairs(n)[PairIndex(n, a, b)] == (a, b)
  {
    PairsFromLength(n, 0);
    PairsFromForward(n, 0);
    PairsFromBackward(n, 0);
    PairCountIsRowStart(n);
  }

  /* ---------------- the two layouts of the ordering variables ---------------- */

  /** AsWritten is the index arithmetic of model.c (name slot n+i+j-1 and
      row column i+j+2); Triangular is the slot the loop order implies. */
  datatype PairLayout = AsWritten | Triangular

  function NameSlot(layout: PairLayout, n: nat, i: nat, j: nat): int
  {
    match layout
    case AsWritten => n + i + j - 1
    case Triangular => n + PairIndex(n, i, j)
  }

  function XColumn(layout: PairLayout, n: nat, i: nat, j: nat): nat
  {
    match layout
    case AsWritten => i + j + 2
    case Triangular => n + RowStart(n, i) + (if j > i then j - i - 1 else 0)
  }

  /** Each pair gets its own name slot among the ordering variables. */
  ghost predicate SlotsSound(layout: PairLayout, n: nat)
  {
    && (forall i, j :: 0 <= i < j < n ==> n <= NameSlot(layout, n, i, j) < VarCount(n))
    && (forall i, j, i', j' :: 0 <= i < j < n && 0 <= i' < j' < n && (i, j) != (i', j') ==>
          NameSlot(layout, n, i, j) != NameSlot(layout, n, i', j'))
  }

  /** The triangular slot is sound for every n, and every ordering slot
      receives a name. */
  lemma TriangularSlotsSound(n: nat)
    ensures SlotsSound(Triangular, n)
    ensures |Pairs(n)| == VarCount(n) - n
    ensures forall k :: 0 <= k < |Pairs(n)| ==>
      var (a, b) := Pairs(n)[k];
      a < b < n && NameSlot(Triangular, n, a, b) == n + k
  {
    PairsLayout(n);
    forall i, j, i', j' | 0 <= i < j < n && 0 <= i' < j' < n && (i, j) != (i', j')
      ensures NameSlot(Triangular, n, i, j) != NameSlot(Triangular, n, i', j')
    {
      assert Pairs(n)[PairIndex(n, i, j)] == (i, j);
      assert Pairs(n)[PairIndex(n, i', j')] == (i', j');
    }
  }

  /** The name slot as written, n + i + j - 1, is in range and collision-free
      exactly when n <= 3. */
  lemma AsWrittenSlotsSoundIff(n: nat)
    ensures SlotsSound(AsWritten, n) <==> n <= 3
  {
    if n <= 3 {
      assert PairCount(n) == if n == 3 then 3 else if n == 2 then 1 else 0;
    } else {
      assert NameSlot(AsWritten, n, 0, 3) == NameSlot(AsWritten, n, 1, 2);
    }
  }

  /** With four jobs, pairs (0,3) and (1,2) both write slot 6, and the last
      slot 9 is never named (it keeps whatever the allocation held). */
  lemma AsWrittenSlotsFourJobs()
    ensures NameSlot(AsWritten, 4, 0, 3) == 6 == NameSlot(AsWritten, 4, 1, 2)
    ensures VarCount(4) == 10
    ensures forall i, j :: 0 <= i < j < 4 ==> NameSlot(AsWritten, 4, i, j) != 9
  {
  }

  /** The column used in the disjunctive rows, i + j + 2, is the slot where
      x_(i,j) was named only for n == 3 (and vacuously for n == 1). */
  lemma AsWrittenColumnMatchesNameIff(n: nat)
    requires n >= 1
    ensures (forall i, j :: 0 <= i < j < n ==> XColumn(AsWritten, n, i, j) == NameSlot(AsWritten, n, i, j))
      <==> (n == 1 || n == 3)
  {
    if n != 1 && n != 3 {
      assert XColumn(AsWritten, n, 0, 1) != NameSlot(AsWritten, n, 0, 1);
    }
  }

  /** With four jobs, the row for pair (0,1) addresses column 3, which is
      the completion time C_4, not an ordering variable. */
  lemma AsWrittenColumnFourJobs()
    ensures XColumn(AsWritten, 4, 0, 1) == 3 < 4
  {
  }

  lemma TriangularColumnIsSlot(n: nat, i: nat, j: nat)
    requires i < j < n
    ensures XColumn(Triangular, n, i, j) == NameSlot(Triangular, n, i, j)
    ensures n <= XColumn(Triangular, n, i, j) < VarCount(n)
  {
    PairsLayout(n);
  }

  /* ---------------- the builder ---------------- */

  /** Objective 1 and integer type for C_j, objective 0 and binary for x_(i,j). */
  function Vars(n: nat): seq<Var>
  {
    seq(VarCount(n), k requires 0 <= k < VarCount(n) => if k < n then Var(1, Integer) else Var(0, Binary))
  }

  /** model_precedence_create as written: it declares the variables and
      returns before any row is added. */
  function PrecedenceCreate(inst: Instance): (m: ModelSpec)
    requires inst.Valid()
    ensures |m.vars| == inst.Jobs() + PairCount(inst.Jobs())
    ensures forall k :: 0 <= k < inst.Jobs() ==> m.vars[k] == Var(1, Integer)
    ensures forall k :: inst.Jobs() <= k < |m.vars| ==> m.vars[k] == Var(0, Binary)
    ensures |m.constrs| == 0
  {
    PairsLayout(inst.Jobs());
    ModelSpec(Vars(inst.Jobs()), [])
  }

  /* ---------------- the constraint section after the return ---------------- */

  /** C_j >= p_j + r_j. */
  function ReleaseRow(inst: Instance, j: nat): Constr
    requires inst.Valid() && j < inst.Jobs()
  {
    Constr([Term(j, 1)], GreaterEqual, inst.p[j] + inst.r[j])
  }

  /** C_i - C_j + M x_(i,j) <= M - p_j, i.e. C_i <= C_j - p_j + M (1 - x_(i,j)). */
  function BeforeRow(inst: Instance, layout: PairLayout, i: nat, j: nat): Constr
    requires inst.Valid() && i < j < inst.Jobs()
  {
    var bigM := Horizon(inst);
    Constr([Term(i, 1), Term(j, -1), Term(XColumn(layout, inst.Jobs(), i, j), bigM)],
           LessEqual, bigM - inst.p[j])
  }

  /** C_j - C_i - M x_(i,j) <= -p_i, i.e. C_j <= C_i - p_i + M x_(i,j). */
  function AfterRow(inst: Instance, layout: PairLayout, i: nat, j: nat): Constr
    requires inst.Valid() && i < j < inst.Jobs()
  {
    var bigM := Horizon(inst);
    Constr([Term(j, 1), Term(i, -1), Term(XColumn(layout, inst.Jobs(), i, j), -bigM)],
           LessEqual, -inst.p[i])
  }

  /** The rows of lines 144-234 in emission order: n release rows, then one
      "before" row per pair, then one "after" row per pair. */
  function PrecedenceRows(inst: Instance, layout: PairLayout): (rows: seq<Constr>)
    requires inst.Valid()
  {
    var n := inst.Jobs();
    var pairs := Pairs(n);
    PairsLayout(n);
    seq(n, j requires 0 <= j < n => ReleaseRow(inst, j))
    + seq(|pairs|, k requires 0 <= k < |pairs| => BeforeRow(inst, layout, pairs[k].0, pairs[k].1))
    + seq(|pairs|, k requires 0 <= k < |pairs| => AfterRow(inst, layout, pairs[k].0, pairs[k].1))
  }

  /** The intended builder: the same variables, the constraint section
      reached, and the ordering variable addressed at its triangular slot. */
  function PrecedenceCorrected(inst: Instance): (m: ModelSpec)
    requires inst.Valid()
    ensures |m.vars| == VarCount(inst.Jobs())
    ensures |m.constrs| == inst.Jobs() + 2 * PairCount(inst.Jobs())
    ensures WellFormed(m)
  {
    var n := inst.Jobs();
    var m := ModelSpec(Vars(n), PrecedenceRows(inst, Triangular));
    PairsLayout(n);
    forall c | 0 <= c < |m.constrs|
      ensures ColumnsBelow(m.constrs[c], |m.vars|)
    {
      if n <= c < n + PairCount(n) {
        var (a, b) := Pairs(n)[c - n];
        TriangularColumnIsSlot(n, a, b);
      } else if c >= n + PairCount(n) {
        var (a, b) := Pairs(n)[c - n - PairCount(n)];
        TriangularColumnIsSlot(n, a, b);
      }
    }
    m
  }

  /** Every row the constraint section emits has the documented shape:
      the release rows C_j >= p_j + r_j first, then the three-term "before"
      row of every pair (the k-th pair (i, j) at n + k, rhs M - p_j), then
      the three-term "after" row of every pair (at n + n(n-1)/2 + k,
      rhs -p_i), M being the horizon sum p + max(0, max r). */
  lemma PrecedenceRowsShape(inst: Instance, layout: PairLayout)
    requires inst.Valid()
    ensures |PrecedenceRows(inst, layout)| == inst.Jobs() + 2 * PairCount(inst.Jobs())
    ensures forall j :: 0 <= j < inst.Jobs() ==>
      PrecedenceRows(inst, layout)[j] == Constr([Term(j, 1)], GreaterEqual, inst.p[j] + inst.r[j])
    ensures forall i, j :: 0 <= i < j < inst.Jobs() ==>
      var k := PairIndex(inst.Jobs(), i, j);
      0 <= k < PairCount(inst.Jobs())
      && PrecedenceRows(inst, layout)[inst.Jobs() + k] == BeforeRow(inst, layout, i, j)
      && PrecedenceRows(inst, layout)[inst.Jobs() + PairCount(inst.Jobs()) + k] == AfterRow(inst, layout, i, j)
      && |BeforeRow(inst, layout, i, j).terms| == 3 && BeforeRow(inst, layout, i, j).rhs == Horizon(inst) - inst.p[j]
      && |AfterRow(inst, layout, i, j).terms| == 3 && AfterRow(inst, layout, i, j).rhs == -inst.p[i]
  {
    PairsLayout(inst.Jobs());
  }

  /** What a disjunctive pair means: for completion times between p and M,
      both rows of pair (i, j) hold exactly when x_(i,j) = 1 and j finishes
      at least p_j after i, or x_(i,j) = 0 and i finishes at least p_i after
      j. So M equal to (not above) sum p + max r already deactivates the
      relaxed row. */
  lemma DisjunctionMeaning(inst: Instance, i: nat, j: nat, x: seq<int>)
    requires inst.Valid() && i < j < inst.Jobs()
    requires |x| == VarCount(inst.Jobs())
    requires inst.p[i] <= x[i] <= Horizon(inst) && inst.p[j] <= x[j] <= Horizon(inst)
    requires var s := XColumn(Triangular, inst.Jobs(), i, j); s < |x| && 0 <= x[s] <= 1
    ensures var s := XColumn(Triangular, inst.Jobs(), i, j);
      Holds(BeforeRow(inst, Triangular, i, j), x) && Holds(AfterRow(inst, Triangular, i, j), x)
      <==> (x[s] == 1 && x[i] + inst.p[j] <= x[j]) || (x[s] == 0 && x[j] + inst.p[i] <= x[i])
  {
    TriangularColumnIsSlot(inst.Jobs(), i, j);
    var s := XColumn(Triangular, inst.Jobs(), i, j);
    var bigM := Horizon(inst);
    LhsThree(Term(i, 1), Term(j, -1), Term(s, bigM), x);
    LhsThree(Term(j, 1), Term(i, -1), Term(s, -bigM), x);
  }
}
