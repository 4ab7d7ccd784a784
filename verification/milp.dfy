/** The solver-independent shape of a mixed-integer linear program, as the
    formulation builders hand it to the solver backend: an ordered list of
    variables (objective coefficient and type) and an ordered list of sparse
    rows. Every coefficient and right-hand side the builders produce is an
    integer, so they are modelled as `int`. */
module Milp {

  datatype VarType = Binary | Integer

  datatype Var = Var(obj: int, vtype: VarType)

  datatype Sense = LessEqual | Equal | GreaterEqual

  /** One nonzero entry of a sparse row: column index and coefficient. */
  datatype Term = Term(col: nat, coeff: int)

  datatype Constr = Constr(terms: seq<Term>, sense: Sense, rhs: int)

  datatype ModelSpec = ModelSpec(vars: seq<Var>, constrs: seq<Constr>)

  /** Every column a row mentions exists among `size` variables. */
  predicate ColumnsBelow(c: Constr, size: nat)
  {
    forall k :: 0 <= k < |c.terms| ==> c.terms[k].col < size
  }

  /** Rows that each name only declared columns. */
  predicate RowsBelow(rows: seq<Constr>, size: nat)
  {
    forall i :: 0 <= i < |rows| ==> ColumnsBelow(rows[i], size)
  }

  /** The backend's requirement on a model: rows only reference declared variables. */
  predicate WellFormed(m: ModelSpec)
  {
    RowsBelow(m.constrs, |m.vars|)
  }

  /** The left-hand side of a row under the assignment `x`. */
  function Lhs(terms: seq<Term>, x: seq<int>): int
    requires forall k :: 0 <= k < |terms| ==> terms[k].col < |x|
  {
    if |terms| == 0 then 0
    else terms[0].coeff * x[terms[0].col] + Lhs(terms[1..], x)
  }

  predicate Holds(c: Constr, x: seq<int>)
    requires ColumnsBelow(c, |x|)
  {
    var lhs := Lhs(c.terms, x);
    match c.sense
    case LessEqual => lhs <= c.rhs
    case Equal => lhs == c.rhs
    case GreaterEqual => lhs >= c.rhs
  }

  /** `x` gives every binary variable a 0/1 value and satisfies every row.
      Integer columns carry no bound of their own; the solver's default
      lower bound 0 is not part of the model. */
  predicate Feasible(m: ModelSpec, x: seq<int>)
    requires WellFormed(m)
  {
    && |x| == |m.vars|
    && (forall i :: 0 <= i < |x| && m.vars[i].vtype == Binary ==> 0 <= x[i] <= 1)
    && (forall i :: 0 <= i < |m.constrs| ==> Holds(m.constrs[i], x))
  }

  lemma LhsThree(t0: Term, t1: Term, t2: Term, x: seq<int>)
    requires t0.col < |x| && t1.col < |x| && t2.col < |x|
    ensures Lhs([t0, t1, t2], x) == t0.coeff * x[t0.col] + t1.coeff * x[t1.col] + t2.coeff * x[t2.col]
  {
    assert [t0, t1, t2][1..] == [t1, t2];
    assert [t1, t2][1..] == [t2];
    assert [t2][1..] == [];
    assert Lhs([t2], x) == t2.coeff * x[t2.col] + Lhs([], x);
    assert Lhs([t1, t2], x) == t1.coeff * x[t1.col] + Lhs([t2], x);
  }

  lemma {:induction false} LhsAppend(a: seq<Term>, b: seq<Term>, x: seq<int>)
    requires forall k :: 0 <= k < |a| ==> a[k].col < |x|
    requires forall k :: 0 <= k < |b| ==> b[k].col < |x|
    ensures forall k :: 0 <= k < |a + b| ==> (a + b)[k].col < |x|
    ensures Lhs(a + b, x) == Lhs(a, x) + Lhs(b, x)
  {
    if |a| > 0 {
      assert (a + b)[1..] == a[1..] + b;
      LhsAppend(a[1..], b, x);
    } else {
      assert a + b == b;
    }
  }

  /** When only the entry at position k0 reads a 1 and every other entry
      reads 0, the row's left-hand side is that entry's coefficient. */
  lemma {:induction false} LhsSingleActive(terms: seq<Term>, x: seq<int>, k0: nat)
    requires forall k :: 0 <= k < |terms| ==> terms[k].col < |x|
    requires k0 < |terms|
    requires x[terms[k0].col] == 1
    requires forall k :: 0 <= k < |terms| && k != k0 ==> x[terms[k].col] == 0
    ensures Lhs(terms, x) == terms[k0].coeff
  {
    var rest := terms[1..];
    if k0 == 0 {
      UnitRowZeroBack(rest, x);
    } else {
      LhsSingleActive(rest, x, k0 - 1);
    }
  }

  /** Exactly one of the values `vals` is 1 and all the others are 0. */
  ghost predicate ExactlyOne(vals: seq<int>)
  {
    exists k :: 0 <= k < |vals| && vals[k] == 1
      && forall k' :: 0 <= k' < |vals| && k' != k ==> vals[k'] == 0
  }

  /** At most one of the values `vals` is nonzero. */
  ghost predicate AtMostOne(vals: seq<int>)
  {
    forall k, k' :: 0 <= k < k' < |vals| ==> vals[k] == 0 || vals[k'] == 0
  }

  /** The values a row with only unit coefficients reads from `x`. */
  function Picked(terms: seq<Term>, x: seq<int>): (vals: seq<int>)
    requires forall k :: 0 <= k < |terms| ==> terms[k].col < |x|
    ensures |vals| == |terms|
    ensures forall k :: 0 <= k < |terms| ==> vals[k] == x[terms[k].col]
  {
    seq(|terms|, k requires 0 <= k < |terms| => x[terms[k].col])
  }

  predicate UnitCoefficients(terms: seq<Term>)
  {
    forall k :: 0 <= k < |terms| ==> terms[k].coeff == 1
  }

  /** A row of unit coefficients over 0/1 values sums to 1 exactly when one
      of its entries is 1, and to at most 1 exactly when no two are. */
  lemma {:induction false} UnitRowCounts(terms: seq<Term>, x: seq<int>)
    requires forall k :: 0 <= k < |terms| ==> terms[k].col < |x|
    requires UnitCoefficients(terms)
    requires forall k :: 0 <= k < |terms| ==> 0 <= x[terms[k].col] <= 1
    ensures Lhs(terms, x) == 1 <==> ExactlyOne(Picked(terms, x))
    ensures Lhs(terms, x) <= 1 <==> AtMostOne(Picked(terms, x))
  {
    LhsIsTotal(terms, x);
    TotalOne(Picked(terms, x));
    TotalAtMostOne(Picked(terms, x));
  }

  /** The sum of a list of values. */
  function Total(vals: seq<int>): int
  {
    if |vals| == 0 then 0 else vals[0] + Total(vals[1..])
  }

  predicate ZeroOne(vals: seq<int>)
  {
    forall k :: 0 <= k < |vals| ==> 0 <= vals[k] <= 1
  }

  /** With unit coefficients a row's left-hand side is the sum of the
      values it picks. */
  lemma {:induction false} LhsIsTotal(terms: seq<Term>, x: seq<int>)
    requires forall k :: 0 <= k < |terms| ==> terms[k].col < |x|
    requires UnitCoefficients(terms)
    ensures Lhs(terms, x) == Total(Picked(terms, x))
  {
    if |terms| > 0 {
      LhsIsTotal(terms[1..], x);
      assert Picked(terms, x)[1..] == Picked(terms[1..], x);
    }
  }

  /** A sum of 0/1 values is never negative, and is 0 exactly when every value is. */
  lemma {:induction false} TotalZero(vals: seq<int>)
    requires ZeroOne(vals)
    ensures Total(vals) >= 0
    ensures Total(vals) == 0 <==> forall k :: 0 <= k < |vals| ==> vals[k] == 0
  {
    if |vals| > 0 {
      var tail := vals[1..];
      TotalZero(tail);
      assert forall k :: 0 <= k < |tail| ==> tail[k] == vals[k + 1];
      if Total(vals) == 0 {
        forall k | 0 <= k < |vals| ensures vals[k] == 0 {
          if k > 0 { assert vals[k] == tail[k - 1]; }
        }
      }
    }
  }

  /** A sum of 0/1 values is 1 exactly when one value is 1 and the rest 0. */
  lemma {:induction false} TotalOne(vals: seq<int>)
    requires ZeroOne(vals)
    ensures Total(vals) == 1 <==> ExactlyOne(vals)
  {
    if |vals| == 0 {
      assert !ExactlyOne(vals);
    } else {
      var tail := vals[1..];
      assert ZeroOne(tail);
      TotalZero(tail);
      if vals[0] == 1 {
        OneAtHead(vals);
      } else {
        TotalOne(tail);
        ZeroAtHead(vals);
      }
    }
  }

  /** With a 1 in front, exactly one 1 means nothing but zeros behind it. */
  lemma OneAtHead(vals: seq<int>)
    requires |vals| > 0 && vals[0] == 1
    ensures ExactlyOne(vals) <==> forall k :: 0 <= k < |vals[1..]| ==> vals[1..][k] == 0
  {
    var tail := vals[1..];
    if forall k :: 0 <= k < |tail| ==> tail[k] == 0 {
      forall k' | 0 <= k' < |vals| && k' != 0 ensures vals[k'] == 0 {
        assert vals[k'] == tail[k' - 1];
      }
    }
    if ExactlyOne(vals) {
      var k :| 0 <= k < |vals| && vals[k] == 1
        && forall k' :: 0 <= k' < |vals| && k' != k ==> vals[k'] == 0;
      assert k == 0;
      forall k' | 0 <= k' < |tail| ensures tail[k'] == 0 {
        assert tail[k'] == vals[k' + 1];
      }
    }
  }

  /** A leading 0 changes neither the sum nor whether exactly one value is 1. */
  lemma ZeroAtHead(vals: seq<int>)
    requires |vals| > 0 && vals[0] == 0
    ensures Total(vals) == Total(vals[1..])
    ensures ExactlyOne(vals) <==> ExactlyOne(vals[1..])
  {
    var tail := vals[1..];
    if ExactlyOne(vals) {
      var k :| 0 <= k < |vals| && vals[k] == 1
        && forall k' :: 0 <= k' < |vals| && k' != k ==> vals[k'] == 0;
      assert k > 0 && tail[k - 1] == 1;
      forall k' | 0 <= k' < |tail| && k' != k - 1 ensures tail[k'] == 0 {
        assert tail[k'] == vals[k' + 1];
      }
    }
    if ExactlyOne(tail) {
      var k :| 0 <= k < |tail| && tail[k] == 1
        && forall k' :: 0 <= k' < |tail| && k' != k ==> tail[k'] == 0;
      assert vals[k + 1] == 1;
      forall k' | 0 <= k' < |vals| && k' != k + 1 ensures vals[k'] == 0 {
        if k' > 0 { assert vals[k'] == tail[k' - 1]; }
      }
    }
  }

  /** A sum of 0/1 values is at most 1 exactly when no two values are 1. */
  lemma {:induction false} TotalAtMostOne(vals: seq<int>)
    requires ZeroOne(vals)
    ensures Total(vals) <= 1 <==> AtMostOne(vals)
  {
    if |vals| > 0 {
      var tail := vals[1..];
      assert ZeroOne(tail);
      TotalZero(tail);
      TotalAtMostOne(tail);
      AtMostOneHead(vals);
      if vals[0] == 1 {
        TotalPositive(tail);
      }
    }
  }

  /** Some value 1 when the sum of 0/1 values is not 0. */
  lemma {:induction false} TotalPositive(vals: seq<int>)
    requires ZeroOne(vals)
    ensures Total(vals) > 0 <==> exists k :: 0 <= k < |vals| && vals[k] == 1
  {
    TotalZero(vals);
    if exists k :: 0 <= k < |vals| && vals[k] == 1 {
      var k :| 0 <= k < |vals| && vals[k] == 1;
      assert vals[k] != 0;
    }
  }

  /** No two 1s in vals: none in the tail, and no 1 behind a leading 1. */
  lemma AtMostOneHead(vals: seq<int>)
    requires |vals| > 0
    ensures AtMostOne(vals) <==>
      AtMostOne(vals[1..]) && (vals[0] == 0 || forall k :: 0 <= k < |vals[1..]| ==> vals[1..][k] == 0)
  {
    var tail := vals[1..];
    if AtMostOne(vals) {
      forall k, k' | 0 <= k < k' < |tail| ensures tail[k] == 0 || tail[k'] == 0 {
        assert vals[k + 1] == tail[k] && vals[k' + 1] == tail[k'];
      }
      if vals[0] != 0 {
        forall k | 0 <= k < |tail| ensures tail[k] == 0 {
          assert vals[k + 1] == tail[k];
        }
      }
    }
    if AtMostOne(tail) && (vals[0] == 0 || forall k :: 0 <= k < |tail| ==> tail[k] == 0) {
      forall k, k' | 0 <= k < k' < |vals| ensures vals[k] == 0 || vals[k'] == 0 {
        assert vals[k'] == tail[k' - 1];
        if k > 0 { assert vals[k] == tail[k - 1]; }
      }
    }
  }

  lemma {:induction false} UnitRowNonNegative(terms: seq<Term>, x: seq<int>)
    requires forall k :: 0 <= k < |terms| ==> terms[k].col < |x|
    requires UnitCoefficients(terms)
    requires forall k :: 0 <= k < |terms| ==> 0 <= x[terms[k].col] <= 1
    ensures Lhs(terms, x) >= 0
  {
    if |terms| > 0 {
      UnitRowNonNegative(terms[1..], x);
    }
  }

  lemma {:induction false} UnitRowZero(terms: seq<Term>, x: seq<int>)
    requires forall k :: 0 <= k < |terms| ==> terms[k].col < |x|
    requires UnitCoefficients(terms)
    requires forall k :: 0 <= k < |terms| ==> 0 <= x[terms[k].col] <= 1
    requires Lhs(terms, x) == 0
    ensures forall k :: 0 <= k < |terms| ==> x[terms[k].col] == 0
  {
    if |terms| > 0 {
      UnitRowNonNegative(terms[1..], x);
      UnitRowZero(terms[1..], x);
      assert forall k :: 1 <= k < |terms| ==> terms[k] == terms[1..][k - 1];
    }
  }

  lemma {:induction false} UnitRowZeroBack(terms: seq<Term>, x: seq<int>)
    requires forall k :: 0 <= k < |terms| ==> terms[k].col < |x|
    requires forall k :: 0 <= k < |terms| ==> x[terms[k].col] == 0
    ensures Lhs(terms, x) == 0
  {
    if |terms| > 0 {
      UnitRowZeroBack(terms[1..], x);
    }
  }

  /** Appending rows that name only declared columns keeps that property. */
  lemma RowsBelowAppend(a: seq<Constr>, b: seq<Constr>, size: nat)
    requires RowsBelow(a, size) && RowsBelow(b, size)
    ensures RowsBelow(a + b, size)
  {
    forall i | 0 <= i < |a + b| ensures ColumnsBelow((a + b)[i], size) {
      if i < |a| {
        assert (a + b)[i] == a[i];
      } else {
        assert (a + b)[i] == b[i - |a|];
      }
    }
  }

  /** The rows of `rows` that have at least one entry, in order: a builder
      adds a row to the model only when its entry list is not empty. */
  function NonEmptyRows(rows: seq<Constr>): seq<Constr>
  {
    if |rows| == 0 then []
    else (if |rows[0].terms| == 0 then [] else [rows[0]]) + NonEmptyRows(rows[1..])
  }

  /** When the first n rows have entries and the later ones have none, the
      kept rows are exactly the first n. */
  lemma {:induction false} NonEmptyPrefix(rows: seq<Constr>, n: nat)
    requires n <= |rows|
    requires forall k :: 0 <= k < n ==> |rows[k].terms| > 0
    requires forall k :: n <= k < |rows| ==> |rows[k].terms| == 0
    ensures NonEmptyRows(rows) == rows[..n]
  {
    if |rows| > 0 {
      var rest := rows[1..];
      if n > 0 {
        NonEmptyPrefix(rest, n - 1);
        assert rows[..n] == [rows[0]] + rest[..n - 1];
      } else {
        NonEmptyPrefix(rest, 0);
      }
    }
  }

  /** A feasible assignment satisfies each row of the model... */
  lemma FeasibleRow(m: ModelSpec, x: seq<int>, i: nat)
    requires WellFormed(m) && Feasible(m, x) && i < |m.constrs|
    ensures ColumnsBelow(m.constrs[i], |x|) && Holds(m.constrs[i], x)
  {
  }

  /** ...and reads 0/1 from every column when all variables are binary. */
  lemma FeasibleBinary(m: ModelSpec, x: seq<int>)
    requires WellFormed(m) && Feasible(m, x)
    requires forall k :: 0 <= k < |m.vars| ==> m.vars[k].vtype == Binary
    ensures forall k :: 0 <= k < |x| ==> 0 <= x[k] <= 1
  {
  }
}
