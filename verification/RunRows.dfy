/** The collector tables (`start_run`, `finish_run`, `record_collector_error`,
    `recover_interrupted_runs`, repository.py). A run's id is its position in the table; every method
    is one transaction, which changes nothing when it raises. */
module RunRows {
  import opened Options

  datatype Status = Running | Succeeded | Partial | Failed | Cancelled
  datatype Category = Timeout | Authentication | Transport | CollectorError | CollectorFailure | Reported | Interrupted
  datatype Row = Row(collector: nat, target: nat, status: Status, startedAt: int, finishedAt: Option<int>, items: nat)
  datatype Issue = Issue(run: nat, category: Category, retryable: bool, source: nat, observedAt: int)
  datatype Tables = Tables(runs: seq<Row>, issues: seq<Issue>)

  function StartRun(t: Tables, collector: nat, target: nat, now: int): Tables {
    t.(runs := t.runs + [Row(collector, target, Running, now, None, 0)])
  }

  predicate CanFinish(t: Tables, run: nat, status: Status) {
    status != Running && run < |t.runs| && t.runs[run].status == Running
  }

  function FinishRun(t: Tables, run: nat, status: Status, now: int, items: nat): Tables {
    if CanFinish(t, run, status) then
      t.(runs := t.runs[run := t.runs[run].(status := status, finishedAt := Some(now), items := items)])
    else t
  }

  function Record(t: Tables, i: Issue): Tables {
    t.(issues := t.issues + [i])
  }

  function Recovered(r: Row, now: int): Row {
    if r.status == Running then r.(status := Failed, finishedAt := Some(now)) else r
  }

  function RecoveredRows(rows: seq<Row>, now: int): seq<Row> {
    if rows == [] then [] else RecoveredRows(rows[..|rows| - 1], now) + [Recovered(rows[|rows| - 1], now)]
  }

  /** One interruption issue for each unfinished run, in the order of ids. */
  function Interruptions(rows: seq<Row>, now: int): seq<Issue> {
    if rows == [] then [] else
      var n := |rows| - 1;
      Interruptions(rows[..n], now)
      + if rows[n].status == Running then [Issue(n, Interrupted, true, rows[n].collector, now)] else []
  }

  function Recover(t: Tables, now: int): Tables {
    Tables(RecoveredRows(t.runs, now), t.issues + Interruptions(t.runs, now))
  }

  class Repository {
    var tables: Tables

    constructor ()
      ensures tables == Tables([], [])
    {
      tables := Tables([], []);
    }

    method StartCollectorRun(collector: nat, target: nat, now: int) returns (run: nat)
      modifies this
      ensures tables == StartRun(old(tables), collector, target, now)
      ensures run == |old(tables).runs|
    {
      run := |tables.runs|;
      tables := tables.(runs := tables.runs + [Row(collector, target, Running, now, None, 0)]);
    }

    /** False when the source raises: the status is not final, or the run is missing or final. */
    method FinishCollectorRun(run: nat, status: Status, now: int, items: nat) returns (ok: bool)
      modifies this
      ensures ok == CanFinish(old(tables), run, status)
      ensures tables == FinishRun(old(tables), run, status, now, items)
    {
      if status == Running || run >= |tables.runs| || tables.runs[run].status != Running {
        return false;
      }
      var row := tables.runs[run].(status := status, finishedAt := Some(now), items := items);
      tables := tables.(runs := tables.runs[run := row]);
      ok := true;
    }

    method RecordIssue(i: Issue)
      modifies this
      ensures tables == Record(old(tables), i)
    {
      tables := tables.(issues := tables.issues + [i]);
    }

    /** First an issue for every unfinished run, then one update of all of them. */
    method RecoverInterruptedRuns(now: int) returns (count: nat)
      modifies this
      ensures tables == Recover(old(tables), now)
      ensures count == |Interruptions(old(tables).runs, now)|
    {
      var rows := tables.runs;
      var added: seq<Issue> := [];
      assert rows[..0] == [];
      for i := 0 to |rows|
        invariant added == Interruptions(rows[..i], now)
      {
        assert rows[..i + 1][..i] == rows[..i];
        if rows[i].status == Running {
          added := added + [Issue(i, Interrupted, true, rows[i].collector, now)];
        }
      }
      assert rows[..|rows|] == rows;
      var updated: seq<Row> := [];
      for i := 0 to |rows|
        invariant updated == RecoveredRows(rows[..i], now)
      {
        assert rows[..i + 1][..i] == rows[..i];
        updated := updated + [Recovered(rows[i], now)];
      }
      tables := Tables(updated, tables.issues + added);
      count := |added|;
    }
  }

  // ----- recovery

  /** The number of issues stored for a run. */
  function IssueCount(issues: seq<Issue>, run: nat): nat {
    if issues == [] then 0 else
      IssueCount(issues[..|issues| - 1], run) + if issues[|issues| - 1].run == run then 1 else 0
  }

  lemma {:induction false} IssueCountAppend(a: seq<Issue>, b: seq<Issue>, run: nat)
    ensures IssueCount(a + b, run) == IssueCount(a, run) + IssueCount(b, run)
  {
    if b == [] {
      assert a + b == a;
    } else {
      assert (a + b)[..|a + b| - 1] == a + b[..|b| - 1];
      IssueCountAppend(a, b[..|b| - 1], run);
    }
  }

  lemma {:induction false} RecoveredRowsAt(rows: seq<Row>, now: int, i: nat)
    ensures |RecoveredRows(rows, now)| == |rows|
    ensures i < |rows| ==> RecoveredRows(rows, now)[i] == Recovered(rows[i], now)
  {
    if rows != [] {
      RecoveredRowsAt(rows[..|rows| - 1], now, i);
    }
  }

  lemma {:induction false} InterruptionsCount(rows: seq<Row>, now: int, run: nat)
    ensures IssueCount(Interruptions(rows, now), run)
         == if run < |rows| && rows[run].status == Running then 1 else 0
  {
    if rows != [] {
      var n := |rows| - 1;
      var one := if rows[n].status == Running then [Issue(n, Interrupted, true, rows[n].collector, now)] else [];
      InterruptionsCount(rows[..n], now, run);
      IssueCountAppend(Interruptions(rows[..n], now), one, run);
      if one != [] {
        assert one[..0] == [];
      }
    }
  }

  /** Recovery fails every unfinished run, now, with exactly one further issue, and leaves the rows and issues of
      finished runs as they are. */
  lemma RecoveryIsExact(t: Tables, now: int, run: nat)
    requires run < |t.runs|
    ensures var u := Recover(t, now);
            && |u.runs| == |t.runs|
            && (t.runs[run].status == Running ==>
                  && u.runs[run] == t.runs[run].(status := Failed, finishedAt := Some(now))
                  && IssueCount(u.issues, run) == IssueCount(t.issues, run) + 1)
            && (t.runs[run].status != Running ==>
                  u.runs[run] == t.runs[run] && IssueCount(u.issues, run) == IssueCount(t.issues, run))
  {
    RecoveredRowsAt(t.runs, now, run);
    InterruptionsCount(t.runs, now, run);
    IssueCountAppend(t.issues, Interruptions(t.runs, now), run);
  }

  /** An issue that tells of the interruption of an unfinished run. */
  ghost predicate TellsInterruption(rows: seq<Row>, now: int, i: Issue) {
    i.run < |rows| && rows[i.run].status == Running && i == Issue(i.run, Interrupted, true, rows[i.run].collector, now)
  }

  /** Issues that tell of interruptions, in the order of run ids. */
  ghost predicate TellInterruptions(rows: seq<Row>, now: int, told: seq<Issue>) {
    && (forall k :: 0 <= k < |told| ==> TellsInterruption(rows, now, told[k]))
    && forall j, k :: 0 <= j < k < |told| ==> told[j].run < told[k].run
  }

  lemma {:induction false} InterruptionsAre(rows: seq<Row>, now: int)
    ensures TellInterruptions(rows, now, Interruptions(rows, now))
  {
    if rows != [] {
      var n := |rows| - 1;
      InterruptionsAre(rows[..n], now);
      var before := Interruptions(rows[..n], now);
      forall k | 0 <= k < |before| ensures TellsInterruption(rows, now, before[k]) && before[k].run < n {
        assert TellsInterruption(rows[..n], now, before[k]);
      }
    }
  }

  /** What recovery adds to the issues: nothing but the interruptions, in the order of run ids, behind what was
      there. */
  lemma RecoveryTellsInterruptions(t: Tables, now: int)
    ensures var u, n := Recover(t, now), |t.issues|;
            n <= |u.issues| && u.issues[..n] == t.issues && TellInterruptions(t.runs, now, u.issues[n..])
  {
    InterruptionsAre(t.runs, now);
  }

  // ----- single rows

  /** A finished run keeps what it was started with. */
  lemma StartThenFinish(t: Tables, collector: nat, target: nat, started: int, status: Status, ended: int, items: nat)
    requires status != Running
    ensures var run, u := |t.runs|, StartRun(t, collector, target, started);
            var v := FinishRun(u, run, status, ended, items);
            && u.runs == t.runs + [Row(collector, target, Running, started, None, 0)] && u.issues == t.issues
            && v.runs == t.runs + [Row(collector, target, status, started, Some(ended), items)] && v.issues == t.issues
            && forall s, at, n :: FinishRun(v, run, s, at, n) == v
  {
    var u := StartRun(t, collector, target, started);
    assert u.runs[|t.runs| := Row(collector, target, status, started, Some(ended), items)]
        == t.runs + [Row(collector, target, status, started, Some(ended), items)];
  }

  ghost predicate AllFinal(rows: seq<Row>) {
    forall i :: 0 <= i < |rows| ==> rows[i].status != Running
  }

  lemma {:induction false} NothingToRecover(rows: seq<Row>, now: int)
    requires AllFinal(rows)
    ensures RecoveredRows(rows, now) == rows && Interruptions(rows, now) == []
  {
    if rows != [] {
      var front, last := rows[..|rows| - 1], rows[|rows| - 1];
      assert rows == front + [last] && last.status != Running;
      assert AllFinal(front);
      hide AllFinal;
      NothingToRecover(front, now);
    }
  }

  /** Recovering twice is recovering once, whenever the second time is. */
  lemma RecoveryIsIdempotent(t: Tables, now: int, later: int)
    ensures Recover(Recover(t, now), later) == Recover(t, now)
  {
    hide RecoveredRows, Interruptions, AllFinal;
    var u := Recover(t, now);
    RecoveryLeavesNothing(t, now);
    NothingToRecover(u.runs, later);
    assert u.issues + [] == u.issues;
  }

  lemma RecoveryLeavesNothing(t: Tables, now: int)
    ensures AllFinal(Recover(t, now).runs)
  {
    RecoveredRowsAt(t.runs, now, 0);
    forall i | 0 <= i < |t.runs| ensures Recover(t, now).runs[i].status != Running {
      RecoveryIsExact(t, now, i);
    }
  }
}
