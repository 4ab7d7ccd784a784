/** The positional (assignment) formulation of model.c: completion times
    C_[h] of the job in position h, followed by one binary x_(j,h) per job j
    and position h, stored densely at column n + j*n + h. */
module Positional {
  import opened Milp
  import opened Scheduling

  function VarCount(n: nat): nat
  {
    n + n * n
  }

  /** The column of x_(j,h). */
  function XCol(n: nat, j: nat, h: nat): nat
  {
    n + j * n + h
  }

  /** The job and position stored at an assignment column. */
  function JobOf(n: nat, c: int): int
    requires n > 0
  {
    (c - n) / n
  }

  function PositionOf(n: nat, c: int): int
    requires n > 0
  {
    (c - n) % n
  }

  /** (j, h) |-> n + j*n + h maps [0,n)^2 one-to-one onto [n, n + n^2),
      with JobOf/PositionOf as its inverse. */
  lemma XColBijection(n: nat)
    requires n > 0
    ensures forall j, h :: 0 <= j < n && 0 <= h < n ==>
      n <= XCol(n, j, h) < VarCount(n)
      && JobOf(n, XCol(n, j, h)) == j && PositionOf(n, XCol(n, j, h)) == h
    ensures forall c :: n <= c < VarCount(n) ==>
      0 <= JobOf(n, c) < n && 0 <= PositionOf(n, c) < n
      && XCol(n, JobOf(n, c), PositionOf(n, c)) == c
  {
    forall j, h | 0 <= j < n && 0 <= h < n
      ensures n <= XCol(n, j, h) < VarCount(n)
      ensures JobOf(n, XCol(n, j, h)) == j && PositionOf(n, XCol(n, j, h)) == h
    {
      ColumnInRange(n, j, h);
      DivModUnique(n, j, h);
    }
    forall c | n <= c < VarCount(n)
      ensures 0 <= JobOf(n, c) < n && 0 <= PositionOf(n, c) < n
      ensures XCol(n, JobOf(n, c), PositionOf(n, c)) == c
    {
      var q, s := (c - n) / n, (c - n) % n;
      assert c - n == q * n + s;
      if q >= n {
        MulMono(n, n, q);
      }
    }
  }

  lemma ColumnInRange(n: nat, j: nat, h: nat)
    requires j < n && h < n
    ensures n <= XCol(n, j, h) < VarCount(n)
  {
    MulMono(n, j + 1, n);
  }

  lemma MulMono(n: nat, a: nat, b: nat)
    requires a <= b
    ensures a * n <= b * n
  {
  }

  lemma DivModUnique(n: nat, q: nat, s: nat)
    requires 0 <= s < n
    ensures (q * n + s) / n == q && (q * n + s) % n == s
  {
    var c := q * n + s;
    var d := c / n - q;
    assert d * n == s - c % n by {
      assert c == (c / n) * n + c % n;
      assert (c / n) * n == (d + q) * n == d * n + q * n;
    }
    if d >= 1 {
      MulMono(n, 1, d);
    }
  }

  /* ---------------- the builder ---------------- */

  function Vars(n: nat): seq<Var>
  {
    seq(VarCount(n), k requires 0 <= k < VarCount(n) => if k < n then Var(1, Integer) else Var(0, Binary))
  }

  /** The assignment terms of position h weighted per job: sum_j w_j x_(j,h). */
  function PositionTerms(n: nat, h: nat, w: seq<int>): (ts: seq<Term>)
    requires |w| == n
  {
    seq(n, j requires 0 <= j < n => Term(XCol(n, j, h), w[j]))
  }

  function Ones(n: nat): seq<int>
  {
    seq(n, j => 1)
  }

  function Negated(s: seq<int>): seq<int>
  {
    seq(|s|, k requires 0 <= k < |s| => -s[k])
  }

  function Completion(inst: Instance): seq<int>
    requires |inst.p| == |inst.r|
  {
    seq(|inst.p|, j requires 0 <= j < |inst.p| => inst.p[j] + inst.r[j])
  }

  /** sum_h x_(j,h) = 1. */
  function JobRow(n: nat, j: nat): Constr
  {
    Constr(seq(n, h requires 0 <= h < n => Term(XCol(n, j, h), 1)), Equal, 1)
  }

  /** sum_j x_(j,h) = 1. */
  function PositionRow(n: nat, h: nat): Constr
  {
    Constr(PositionTerms(n, h, Ones(n)), Equal, 1)
  }

  /** C_[1] - sum_j p_j x_(j,1) >= 0. */
  function FirstRow(inst: Instance): Constr
    requires inst.Valid()
  {
    Constr([Term(0, 1)] + PositionTerms(inst.Jobs(), 0, Negated(inst.p)), GreaterEqual, 0)
  }

  /** C_[h] - C_[h-1] - sum_j p_j x_(j,h) >= 0, for h = 1 .. n-1 (0-based). */
  function RecursionRow(inst: Instance, h: nat): Constr
    requires inst.Valid() && 1 <= h
  {
    Constr([Term(h, 1), Term(h - 1, -1)] + PositionTerms(inst.Jobs(), h, Negated(inst.p)), GreaterEqual, 0)
  }

  /** C_[h] - sum_j (p_j + r_j) x_(j,h) >= 0. */
  function ReleaseRow(inst: Instance, h: nat): Constr
    requires inst.Valid()
  {
    Constr([Term(h, 1)] + PositionTerms(inst.Jobs(), h, Negated(Completion(inst))), GreaterEqual, 0)
  }

  /** C_[h] >= 0. */
  function NonNegRow(h: nat): Constr
  {
    Constr([Term(h, 1)], GreaterEqual, 0)
  }

  function JobRows(n: nat): (rows: seq<Constr>)
    ensures |rows| == n && forall j :: 0 <= j < n ==> rows[j] == JobRow(n, j)
  {
    seq(n, j requires 0 <= j < n => JobRow(n, j))
  }

  function PositionRows(n: nat): (rows: seq<Constr>)
    ensures |rows| == n && forall h :: 0 <= h < n ==> rows[h] == PositionRow(n, h)
  {
    seq(n, h requires 0 <= h < n => PositionRow(n, h))
  }

  /** The recursion rows of positions 1 .. n-1. */
  function RecursionRows(inst: Instance): (rows: seq<Constr>)
    requires inst.Valid()
    ensures |rows| == inst.Jobs() - 1
    ensures forall k :: 0 <= k < |rows| ==> rows[k] == RecursionRow(inst, k + 1)
  {
    seq(inst.Jobs() - 1, k requires 0 <= k < inst.Jobs() - 1 => RecursionRow(inst, k + 1))
  }

  function ReleaseRows(inst: Instance): (rows: seq<Constr>)
    requires inst.Valid()
    ensures |rows| == inst.Jobs() && forall h :: 0 <= h < |rows| ==> rows[h] == ReleaseRow(inst, h)
  {
    seq(inst.Jobs(), h requires 0 <= h < inst.Jobs() => ReleaseRow(inst, h))
  }

  function NonNegRows(n: nat): (rows: seq<Constr>)
    ensures |rows| == n && forall h :: 0 <= h < n ==> rows[h] == NonNegRow(h)
  {
    seq(n, h requires 0 <= h < n => NonNegRow(h))
  }

  function Rows(inst: Instance): seq<Constr>
    requires inst.Valid()
  {
    var n := inst.Jobs();
    JobRows(n) + PositionRows(n) + [FirstRow(inst)] + RecursionRows(inst) + ReleaseRows(inst) + NonNegRows(n)
  }

  /** Every assignment column lies below n + n^2. */
  lemma AssignmentColumns(n: nat)
    ensures forall j, h :: 0 <= j < n && 0 <= h < n ==> XCol(n, j, h) < VarCount(n)
  {
    forall j, h | 0 <= j < n && 0 <= h < n ensures XCol(n, j, h) < VarCount(n) {
      ColumnInRange(n, j, h);
    }
  }

  /** Each family of rows names only declared columns. */
  lemma RowsColumns(inst: Instance)
    requires inst.Valid()
    ensures var n := inst.Jobs();
      && RowsBelow(JobRows(n), VarCount(n)) && RowsBelow(PositionRows(n), VarCount(n))
      && RowsBelow([FirstRow(inst)], VarCount(n)) && RowsBelow(RecursionRows(inst), VarCount(n))
      && RowsBelow(ReleaseRows(inst), VarCount(n)) && RowsBelow(NonNegRows(n), VarCount(n))
  {
    AssignmentColumns(inst.Jobs());
  }

  /** model_positional_create: n + n^2 variables (C_[h] integer with
      objective 1, x_(j,h) binary with objective 0), exactly 5n rows, and
      every row only references declared columns. */
  function PositionalCreate(inst: Instance): (m: ModelSpec)
    requires inst.Valid()
    ensures |m.vars| == inst.Jobs() + inst.Jobs() * inst.Jobs()
    ensures forall k :: 0 <= k < inst.Jobs() ==> m.vars[k] == Var(1, Integer)
    ensures forall k :: inst.Jobs() <= k < |m.vars| ==> m.vars[k] == Var(0, Binary)
    ensures |m.constrs| == 5 * inst.Jobs()
    ensures WellFormed(m)
  {
    var n := inst.Jobs();
    var size := VarCount(n);
    RowsColumns(inst);
    RowsBelowAppend(JobRows(n), PositionRows(n), size);
    RowsBelowAppend(JobRows(n) + PositionRows(n), [FirstRow(inst)], size);
    RowsBelowAppend(JobRows(n) + PositionRows(n) + [FirstRow(inst)], RecursionRows(inst), size);
    RowsBelowAppend(JobRows(n) + PositionRows(n) + [FirstRow(inst)] + RecursionRows(inst), ReleaseRows(inst), size);
    RowsBelowAppend(JobRows(n) + PositionRows(n) + [FirstRow(inst)] + RecursionRows(inst) + ReleaseRows(inst),
      NonNegRows(n), size);
    ModelSpec(Vars(n), Rows(inst))
  }

  /** The emission order, row c of the model by family: job rows, position
      rows, the C_[1] row, the n-1 recursion rows, the release rows, the
      non-negativity rows. */
  lemma RowAt(inst: Instance, c: nat)
    requires inst.Valid() && c < 5 * inst.Jobs()
    ensures var n := inst.Jobs();
      PositionalCreate(inst).constrs[c] ==
        if c < n then JobRow(n, c)
        else if c < 2 * n then PositionRow(n, c - n)
        else if c == 2 * n then FirstRow(inst)
        else if c < 3 * n then RecursionRow(inst, c - 2 * n)
        else if c < 4 * n then ReleaseRow(inst, c - 3 * n)
        else NonNegRow(c - 4 * n)
  {
    var n := inst.Jobs();
    var a := JobRows(n) + PositionRows(n);
    var b := a + [FirstRow(inst)];
    var c' := b + RecursionRows(inst);
    var d := c' + ReleaseRows(inst);
    var rows := d + NonNegRows(n);
    assert PositionalCreate(inst).constrs == rows;
    if c < 4 * n {
      assert rows[c] == d[c];
      if c < 3 * n {
        assert d[c] == c'[c];
        if c < 2 * n + 1 {
          assert c'[c] == b[c];
          if c < 2 * n {
            assert b[c] == a[c];
          }
        }
      }
    }
  }

  /* ---------------- what the rows mean ---------------- */

  function Row(n: nat, x: seq<int>, j: nat): seq<int>
    requires |x| == VarCount(n) && j < n
  {
    seq(n, h requires 0 <= h < n => (ColumnInRange(n, j, h); x[XCol(n, j, h)]))
  }

  function Column(n: nat, x: seq<int>, h: nat): seq<int>
    requires |x| == VarCount(n) && h < n
  {
    seq(n, j requires 0 <= j < n => (ColumnInRange(n, j, h); x[XCol(n, j, h)]))
  }

  ghost predicate BinaryAssignment(n: nat, x: seq<int>)
  {
    |x| == VarCount(n) && forall c :: n <= c < |x| ==> 0 <= x[c] <= 1
  }

  /** The x part is a permutation matrix: every job in exactly one position,
      every position holding exactly one job. */
  ghost predicate PermutationMatrix(n: nat, x: seq<int>)
    requires |x| == VarCount(n)
  {
    && (forall j :: 0 <= j < n ==> ExactlyOne(Row(n, x, j)))
    && (forall h :: 0 <= h < n ==> ExactlyOne(Column(n, x, h)))
  }

  lemma JobRowMeaning(n: nat, j: nat, x: seq<int>)
    requires j < n && BinaryAssignment(n, x)
    ensures ColumnsBelow(JobRow(n, j), |x|)
    ensures Holds(JobRow(n, j), x) <==> ExactlyOne(Row(n, x, j))
  {
    var terms := JobRow(n, j).terms;
    forall h | 0 <= h < n ensures n <= terms[h].col < VarCount(n) { ColumnInRange(n, j, h); }
    UnitRowCounts(terms, x);
    assert Picked(terms, x) == Row(n, x, j);
  }

  lemma PositionRowMeaning(n: nat, h: nat, x: seq<int>)
    requires h < n && BinaryAssignment(n, x)
    ensures ColumnsBelow(PositionRow(n, h), |x|)
    ensures Holds(PositionRow(n, h), x) <==> ExactlyOne(Column(n, x, h))
  {
    var terms := PositionRow(n, h).terms;
    forall j | 0 <= j < n ensures n <= terms[j].col < VarCount(n) { ColumnInRange(n, j, h); }
    UnitRowCounts(terms, x);
    assert Picked(terms, x) == Column(n, x, h);
  }

  /** The first 2n rows hold on a 0/1 assignment exactly when it is a
      permutation matrix. */
  lemma AssignmentRowsMeaning(inst: Instance, x: seq<int>)
    requires inst.Valid()
    requires BinaryAssignment(inst.Jobs(), x)
    ensures var n := inst.Jobs(); var m := PositionalCreate(inst);
      (forall c :: 0 <= c < 2 * n ==> Holds(m.constrs[c], x)) <==> PermutationMatrix(n, x)
  {
    var n := inst.Jobs();
    var m := PositionalCreate(inst);
    forall c | 0 <= c < 2 * n
      ensures Holds(m.constrs[c], x) <==>
        if c < n then ExactlyOne(Row(n, x, c)) else ExactlyOne(Column(n, x, c - n))
    {
      RowAt(inst, c);
      if c < n {
        JobRowMeaning(n, c, x);
      } else {
        assert m.constrs[c] == PositionRow(n, c - n);
        PositionRowMeaning(n, c - n, x);
      }
    }
    if forall c :: 0 <= c < 2 * n ==> Holds(m.constrs[c], x) {
      forall h | 0 <= h < n ensures ExactlyOne(Column(n, x, h)) {
        assert Holds(m.constrs[n + h], x);
      }
    }
  }

  /** With job j0 the one job in position h, the weighted assignment terms
      of position h read w[j0]. */
  lemma PositionTermsPick(n: nat, h: nat, w: seq<int>, x: seq<int>, j0: nat)
    requires |w| == n && |x| == VarCount(n) && h < n && j0 < n
    requires Column(n, x, h)[j0] == 1
    requires forall j :: 0 <= j < n && j != j0 ==> Column(n, x, h)[j] == 0
    ensures forall k :: 0 <= k < n ==> PositionTerms(n, h, w)[k].col < |x|
    ensures Lhs(PositionTerms(n, h, w), x) == w[j0]
  {
    var ts := PositionTerms(n, h, w);
    var col := Column(n, x, h);
    forall k | 0 <= k < n ensures ts[k].col < |x| && x[ts[k].col] == col[k] {
      ColumnInRange(n, k, h);
    }
    LhsSingleActive(ts, x, j0);
  }

  lemma FirstRowMeaning(inst: Instance, x: seq<int>, j0: nat)
    requires inst.Valid()
    requires |x| == VarCount(inst.Jobs()) && j0 < inst.Jobs()
    requires Column(inst.Jobs(), x, 0)[j0] == 1
    requires forall j :: 0 <= j < inst.Jobs() && j != j0 ==> Column(inst.Jobs(), x, 0)[j] == 0
    ensures ColumnsBelow(FirstRow(inst), |x|)
    ensures Holds(FirstRow(inst), x) <==> x[0] >= inst.p[j0]
  {
    var n := inst.Jobs();
    PositionTermsPick(n, 0, Negated(inst.p), x, j0);
    LhsAppend([Term(0, 1)], PositionTerms(n, 0, Negated(inst.p)), x);
  }

  lemma RecursionRowMeaning(inst: Instance, x: seq<int>, h: nat, j0: nat)
    requires inst.Valid()
    requires |x| == VarCount(inst.Jobs()) && 1 <= h < inst.Jobs() && j0 < inst.Jobs()
    requires Column(inst.Jobs(), x, h)[j0] == 1
    requires forall j :: 0 <= j < inst.Jobs() && j != j0 ==> Column(inst.Jobs(), x, h)[j] == 0
    ensures ColumnsBelow(RecursionRow(inst, h), |x|)
    ensures Holds(RecursionRow(inst, h), x) <==> x[h] >= x[h - 1] + inst.p[j0]
  {
    var n := inst.Jobs();
    PositionTermsPick(n, h, Negated(inst.p), x, j0);
    var head := [Term(h, 1), Term(h - 1, -1)];
    LhsAppend(head, PositionTerms(n, h, Negated(inst.p)), x);
    assert head[1..] == [Term(h - 1, -1)];
    assert Lhs(head, x) == x[h] - x[h - 1];
  }

  lemma ReleaseRowMeaning(inst: Instance, x: seq<int>, h: nat, j0: nat)
    requires inst.Valid()
    requires |x| == VarCount(inst.Jobs()) && h < inst.Jobs() && j0 < inst.Jobs()
    requires Column(inst.Jobs(), x, h)[j0] == 1
    requires forall j :: 0 <= j < inst.Jobs() && j != j0 ==> Column(inst.Jobs(), x, h)[j] == 0
    ensures ColumnsBelow(ReleaseRow(inst, h), |x|)
    ensures Holds(ReleaseRow(inst, h), x) <==> x[h] >= inst.p[j0] + inst.r[j0]
  {
    var n := inst.Jobs();
    PositionTermsPick(n, h, Negated(Completion(inst)), x, j0);
    LhsAppend([Term(h, 1)], PositionTerms(n, h, Negated(Completion(inst))), x);
  }
}
