/** The row-grouping loop of load_csv (csv.c), over rows already parsed
    into (instance, p_j, r_j) triples after the header line. Rows are
    buffered per instance number and each finished buffer becomes an
    instance pushed onto the vector of instances. */
module Csv {
  import opened Scheduling

  datatype Row = Row(instance: int, p: int, r: int)

  /** The size of the first release-date buffer, NUMBER_OF_JOBS_UL[2],
      taken as the size of every load buffer. */
  const BufferSize: int := 50

  /** The loop state: `old_instance_number`, the rows buffered so far (the
      prefixes of p_js and r_js, with number_of_jobs as their length) and
      the instances emitted. */
  datatype Loader = Loader(last: int, buf: seq<Row>, out: seq<seq<Row>>)

  /** The instance an emitted buffer becomes. */
  function ToInstance(g: seq<Row>): (inst: Instance)
    ensures |inst.p| == |inst.r| == |g|
    ensures forall k :: 0 <= k < |g| ==> inst.p[k] == g[k].p && inst.r[k] == g[k].r
  {
    Instance(seq(|g|, k requires 0 <= k < |g| => g[k].p), seq(|g|, k requires 0 <= k < |g| => g[k].r))
  }

  /** The groups laid end to end. */
  function Concat(gs: seq<seq<Row>>): seq<Row>
  {
    if |gs| == 0 then [] else Concat(gs[..|gs| - 1]) + gs[|gs| - 1]
  }

  lemma ConcatAppend(gs: seq<seq<Row>>, g: seq<Row>)
    ensures Concat(gs + [g]) == Concat(gs) + g
  {
    assert (gs + [g])[..|gs|] == gs;
  }

  /** The number of rows over all groups. */
  function TotalRows(gs: seq<seq<Row>>): nat
  {
    if |gs| == 0 then 0 else TotalRows(gs[..|gs| - 1]) + |gs[|gs| - 1]|
  }

  lemma {:induction false} TotalRowsIsLength(gs: seq<seq<Row>>)
    ensures TotalRows(gs) == |Concat(gs)|
  {
    if |gs| > 0 {
      TotalRowsIsLength(gs[..|gs| - 1]);
    }
  }

  /* ---------------- the loop as written ---------------- */

  /** The instance number held in `old_instance_number` when row k is
      read: 1 before the first row, and afterwards always the number of
      the row just read (an unchanged number needs no update, a changed
      one is copied at line 66). */
  function OldBefore(rows: seq<Row>, k: int): int
    requires 0 <= k <= |rows|
  {
    if k == 0 then 1 else rows[k - 1].instance
  }

  /** Row k carries a number other than the one before it. */
  predicate ChangeAt(rows: seq<Row>, k: int)
    requires 0 <= k < |rows|
  {
    rows[k].instance != OldBefore(rows, k)
  }

  /** How many rows change the instance number. */
  function Changes(rows: seq<Row>): nat
  {
    if |rows| == 0 then 0
    else Changes(rows[..|rows| - 1]) + (if ChangeAt(rows, |rows| - 1) then 1 else 0)
  }

  /** One pass of the while loop: the row is written into the buffer and
      counted first, and only then compared; on a change the buffer,
      new row included, is emitted and a fresh one started. */
  function Step(s: Loader, row: Row): (s': Loader)
    ensures Concat(s'.out) + s'.buf == Concat(s.out) + s.buf + [row]
    ensures s'.last == row.instance
    ensures |s'.out| == |s.out| + (if s.last != row.instance then 1 else 0)
    ensures s'.out[..|s.out|] == s.out
  {
    var buf := s.buf + [row];
    ConcatAppend(s.out, buf);
    if s.last != row.instance then Loader(row.instance, [], s.out + [buf])
    else Loader(s.last, buf, s.out)
  }

  /** The loop state after reading `rows`: `old_instance_number` is the
      number last read (1 before any row), and one buffer has been emitted
      per change of number. */
  function Run(rows: seq<Row>): (s: Loader)
    ensures s.last == OldBefore(rows, |rows|)
    ensures |s.out| == Changes(rows)
  {
    if |rows| == 0 then Loader(1, [], [])
    else
      var n := |rows| - 1;
      assert OldBefore(rows[..n], n) == OldBefore(rows, n);
      Step(Run(rows[..n]), rows[n])
  }

  /** Every write `p_js[number_of_jobs]`, `r_js[number_of_jobs]` lands
      inside a buffer of BufferSize entries. Only the first `r_js` has that
      size in the source (`NUMBER_OF_JOBS_UL[2]`, csv.c:28); every other
      buffer is sized by `NUMBER_OF_JOBS_UL[ARRAY_SIZE]` (csv.c:22, 56, 61),
      whose size the model takes to be 50 as well. */
  predicate WritesInBounds(rows: seq<Row>)
  {
    forall k :: 0 <= k < |rows| ==> |Run(rows[..k]).buf| < BufferSize
  }

  /** The buffers emitted, the last one (possibly empty) included. */
  function GroupsAsWritten(rows: seq<Row>): seq<seq<Row>>
  {
    Run(rows).out + [Run(rows).buf]
  }

  /** load_csv as written: every emitted buffer becomes an instance whose
      number_of_jobs is the number of rows buffered. */
  function LoadAsWritten(rows: seq<Row>): (insts: seq<Instance>)
    requires WritesInBounds(rows)
    ensures |insts| == |GroupsAsWritten(rows)| == Changes(rows) + 1
    ensures forall i :: 0 <= i < |insts| ==> insts[i] == ToInstance(GroupsAsWritten(rows)[i])
  {
    var gs := GroupsAsWritten(rows);
    RunInvariant(rows);
    seq(|gs|, i requires 0 <= i < |gs| => ToInstance(gs[i]))
  }

  /** The loop invariant: the emitted buffers and the open one hold the
      rows in order, `old_instance_number` is the number last read, and
      one buffer has been emitted per change. */
  lemma {:induction false} RunInvariant(rows: seq<Row>)
    ensures Concat(Run(rows).out) + Run(rows).buf == rows
    ensures Run(rows).last == OldBefore(rows, |rows|)
    ensures |Run(rows).out| == Changes(rows)
  {
    if |rows| > 0 {
      var n := |rows| - 1;
      var prefix := rows[..n];
      var s := Run(prefix);
      RunInvariant(prefix);
      assert OldBefore(prefix, n) == OldBefore(rows, n);
      ConcatAppend(s.out, s.buf + [rows[n]]);
      assert prefix + [rows[n]] == rows;
    }
  }

  /** As written, load_csv emits one instance per change of the instance
      number plus one, and the instances hold all rows, in order. */
  lemma AsWrittenCountAndRows(rows: seq<Row>)
    ensures |GroupsAsWritten(rows)| == Changes(rows) + 1
    ensures Concat(GroupsAsWritten(rows)) == rows
    ensures TotalRows(GroupsAsWritten(rows)) == |rows|
  {
    RunInvariant(rows);
    ConcatAppend(Run(rows).out, Run(rows).buf);
    TotalRowsIsLength(GroupsAsWritten(rows));
  }

  /** Where the writes stay in bounds, no instance holds more than 50 jobs. */
  lemma {:induction false} AsWrittenGroupsBounded(rows: seq<Row>)
    requires WritesInBounds(rows)
    ensures forall i :: 0 <= i < |GroupsAsWritten(rows)| ==> |GroupsAsWritten(rows)[i]| <= BufferSize
  {
    if |rows| > 0 {
      var n := |rows| - 1;
      assert WritesInBounds(rows[..n]) by {
        forall k | 0 <= k < n ensures |Run(rows[..n][..k]).buf| < BufferSize {
          assert rows[..n][..k] == rows[..k];
        }
      }
      AsWrittenGroupsBounded(rows[..n]);
      var s := Run(rows[..n]);
      assert |s.buf| < BufferSize;
      var gs := GroupsAsWritten(rows);
      assert forall i :: 0 <= i < |s.out| ==> |s.out[i]| <= BufferSize by {
        forall i | 0 <= i < |s.out| ensures |s.out[i]| <= BufferSize {
          assert GroupsAsWritten(rows[..n])[i] == s.out[i];
        }
      }
      assert forall i :: 0 <= i < |s.out| ==> gs[i] == s.out[i];
    }
  }

  /** The off-by-one: two rows of instances 1 and 2 give two instances,
      the first holding both rows and the second none. */
  lemma AsWrittenMisgroups()
    ensures WritesInBounds([Row(1, 3, 5), Row(2, 1, 0)])
    ensures LoadAsWritten([Row(1, 3, 5), Row(2, 1, 0)]) == [Instance([3, 1], [5, 0]), Instance([], [])]
  {
    var rows := [Row(1, 3, 5), Row(2, 1, 0)];
    assert rows[..1] == [Row(1, 3, 5)];
    assert rows[..1][..0] == [];
    assert Run(rows[..1][..0]) == Loader(1, [], []);
    assert [] + [Row(1, 3, 5)] == [Row(1, 3, 5)];
    assert Run(rows[..1]) == Loader(1, [Row(1, 3, 5)], []);
    assert [Row(1, 3, 5)] + [Row(2, 1, 0)] == [Row(1, 3, 5), Row(2, 1, 0)];
    assert [] + [[Row(1, 3, 5), Row(2, 1, 0)]] == [[Row(1, 3, 5), Row(2, 1, 0)]];
    assert Run(rows) == Loader(2, [], [[Row(1, 3, 5), Row(2, 1, 0)]]);
    var first := ToInstance([Row(1, 3, 5), Row(2, 1, 0)]);
    assert first.p == [3, 1] && first.r == [5, 0];
    var last := ToInstance([]);
    assert last.p == [] && last.r == [];
  }

  /* ---------------- grouping by instance number ---------------- */

  /** All rows of the group carry one instance number. */
  predicate Homogeneous(g: seq<Row>)
  {
    forall i :: 0 <= i < |g| ==> g[i].instance == g[0].instance
  }

  /** The groups are the maximal runs of one instance number: none empty,
      each homogeneous, neighbours with different numbers. */
  predicate MaximalRuns(gs: seq<seq<Row>>)
  {
    && (forall i :: 0 <= i < |gs| ==> |gs[i]| > 0 && Homogeneous(gs[i]))
    && (forall i :: 0 < i < |gs| ==> gs[i - 1][0].instance != gs[i][0].instance)
  }

  /** The state of the intended loop: `done` are the emitted groups and
      `open` the run being read. */
  datatype Grouper = Grouper(done: seq<seq<Row>>, open: seq<Row>)

  /** The intended loop: compare first, emit the buffer on a change, then
      buffer the row. */
  function GroupRun(rows: seq<Row>): Grouper
  {
    if |rows| == 0 then Grouper([], [])
    else GroupStep(GroupRun(rows[..|rows| - 1]), rows[|rows| - 1])
  }

  function GroupStep(g: Grouper, row: Row): Grouper
  {
    if |g.open| > 0 && g.open[0].instance != row.instance then Grouper(g.done + [g.open], [row])
    else Grouper(g.done, g.open + [row])
  }

  /** The intended load: every run of one instance number becomes exactly
      one instance. */
  function GroupsCorrected(rows: seq<Row>): seq<seq<Row>>
  {
    var g := GroupRun(rows);
    if |g.open| == 0 then g.done else g.done + [g.open]
  }

  /** The number of maximal runs of one instance number: row k starts a
      run when it is the first row or its number differs from row k - 1's. */
  function RunStarts(rows: seq<Row>): nat
  {
    if |rows| == 0 then 0
    else
      var n := |rows| - 1;
      RunStarts(rows[..n]) + (if n == 0 || rows[n].instance != rows[n - 1].instance then 1 else 0)
  }

  /** The intended load: one non-empty instance per run of one instance
      number, holding that run's rows. */
  function LoadCorrected(rows: seq<Row>): (insts: seq<Instance>)
    ensures |insts| == |GroupsCorrected(rows)| == RunStarts(rows)
    ensures forall i :: 0 <= i < |insts| ==> insts[i] == ToInstance(GroupsCorrected(rows)[i])
    ensures forall i :: 0 <= i < |insts| ==> insts[i].Jobs() > 0
  {
    var gs := GroupsCorrected(rows);
    GroupRunCount(rows);
    CorrectedGroups(rows);
    seq(|gs|, i requires 0 <= i < |gs| => ToInstance(gs[i]))
  }

  /** The intended loop keeps the rows in order. */
  lemma {:induction false} GroupRunConcat(rows: seq<Row>)
    ensures Concat(GroupRun(rows).done) + GroupRun(rows).open == rows
  {
    if |rows| > 0 {
      var n := |rows| - 1;
      GroupRunConcat(rows[..n]);
      var g := GroupRun(rows[..n]);
      assert rows[..n] + [rows[n]] == rows;
      if |g.open| > 0 && g.open[0].instance != rows[n].instance {
        ConcatAppend(g.done, g.open);
      }
    }
  }

  /** The open run is one instance number, that of the last row read, and
      it differs from the number of the last emitted group. */
  predicate OpenRunOk(g: Grouper, rows: seq<Row>)
  {
    && Homogeneous(g.open)
    && (|rows| > 0 ==> |g.open| > 0 && g.open[0].instance == rows[|rows| - 1].instance)
    && (|g.done| > 0 && |g.open| > 0 && |g.done[|g.done| - 1]| > 0 ==>
          g.done[|g.done| - 1][0].instance != g.open[0].instance)
  }

  /** The intended loop emits maximal runs only. */
  lemma {:induction false} GroupRunRuns(rows: seq<Row>)
    ensures MaximalRuns(GroupRun(rows).done)
    ensures OpenRunOk(GroupRun(rows), rows)
  {
    if |rows| > 0 {
      var n := |rows| - 1;
      GroupRunRuns(rows[..n]);
      var g := GroupRun(rows[..n]);
      var row := rows[n];
      if |g.open| > 0 && g.open[0].instance != row.instance {
        var done := g.done + [g.open];
        assert forall i :: 0 <= i < |g.done| ==> done[i] == g.done[i];
        assert MaximalRuns(done);
      } else {
        var open := g.open + [row];
        assert forall i :: 0 <= i < |g.open| ==> open[i] == g.open[i];
        assert Homogeneous(open);
      }
    }
  }

  /** The intended loop emits one group per run start, and its open run is
      non-empty once a row has been read. */
  lemma {:induction false} GroupRunCount(rows: seq<Row>)
    ensures |GroupRun(rows).done| + (if |GroupRun(rows).open| > 0 then 1 else 0) == RunStarts(rows)
    ensures |rows| > 0 ==> |GroupRun(rows).open| > 0
  {
    if |rows| > 0 {
      var n := |rows| - 1;
      GroupRunCount(rows[..n]);
      GroupRunRuns(rows[..n]);
      if n > 0 {
        assert rows[..n][n - 1] == rows[n - 1];
      }
    }
  }

  /** The intended grouping keeps every row, in order, and its groups are
      exactly the maximal runs of one instance number. */
  lemma CorrectedGroups(rows: seq<Row>)
    ensures Concat(GroupsCorrected(rows)) == rows
    ensures MaximalRuns(GroupsCorrected(rows))
    ensures TotalRows(GroupsCorrected(rows)) == |rows|
  {
    GroupRunConcat(rows);
    GroupRunRuns(rows);
    var g := GroupRun(rows);
    if |g.open| > 0 {
      ConcatAppend(g.done, g.open);
      var gs := g.done + [g.open];
      assert forall i :: 0 <= i < |g.done| ==> gs[i] == g.done[i];
    }
    TotalRowsIsLength(GroupsCorrected(rows));
  }

  /** On the two rows that the loop as written misgroups, the intended
      grouping gives one instance per number. */
  lemma CorrectedSeparates()
    ensures LoadCorrected([Row(1, 3, 5), Row(2, 1, 0)]) == [Instance([3], [5]), Instance([1], [0])]
  {
    var rows := [Row(1, 3, 5), Row(2, 1, 0)];
    assert rows[..1] == [Row(1, 3, 5)];
    assert rows[..1][..0] == [];
    assert GroupRun(rows[..1][..0]) == Grouper([], []);
    assert [] + [Row(1, 3, 5)] == [Row(1, 3, 5)];
    assert GroupRun(rows[..1]) == Grouper([], [Row(1, 3, 5)]);
    assert [] + [[Row(1, 3, 5)]] == [[Row(1, 3, 5)]];
    assert GroupRun(rows) == Grouper([[Row(1, 3, 5)]], [Row(2, 1, 0)]);
    var a := ToInstance([Row(1, 3, 5)]);
    assert a.p == [3] && a.r == [5];
    var b := ToInstance([Row(2, 1, 0)]);
    assert b.p == [1] && b.r == [0];
  }
}
