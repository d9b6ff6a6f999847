/** What every interleaving of a collector cycle keeps: bounded concurrency and attempts, exact error
    accounting, and every started run finished exactly once. */
module CollectorGuarantees {
  import opened Ipv4
  import opened RunRows
  import opened CollectorCycle

  // ----- refusal

  /** An IPv4 address, or one with a prefix length. */
  predicate IsIpv4(t: Target) {
    match t
    case Host(address) => address < 0x1_0000_0000
    case Cidr(address, prefix) => address < 0x1_0000_0000 && prefix <= 32
    case Unreadable => false
  }

  /** The addresses a target asks for: one, or all that agree with one in the first bits. */
  ghost predicate AsksFor(t: Target, x: nat) {
    match t
    case Host(address) => x == address
    case Cidr(address, prefix) => prefix <= 32 && Power(32 - prefix) > 0 && x / Power(32 - prefix) == address / Power(32 - prefix)
    case Unreadable => false
  }

  /** Every address a target asks for lies in one approved range. */
  ghost predicate InsideOneRange(t: Target, ranges: seq<Network>) {
    exists i :: 0 <= i < |ranges| && Inside(t, ranges[i])
  }

  ghost predicate Inside(t: Target, range: Network) {
    forall x: nat :: AsksFor(t, x) ==> Contains(range, x)
  }

  lemma BlockOf(x: nat, a: nat, s: nat)
    requires s >= 1
    ensures Floor(a, s) <= x < Floor(a, s) + s <==> x / s == a / s
  {
    var q, r := a / s, x / s;
    FloorFacts(x, s);
    FloorIs(a, s, q);
    FloorIs(x, s, r);
    if r < q {
      Times(r, q, s);
    } else if q < r {
      Times(q, r, s);
    }
  }

  lemma RequestedIs(t: Target, x: nat)
    requires IsIpv4(t)
    ensures Contains(Requested(t), x) <==> AsksFor(t, x)
  {
    match t
    case Host(address) =>
      assert Size(32) == 1;
      BlockOf(x, address, 1);
    case Cidr(address, prefix) =>
      PowerPositive(32 - prefix);
      BlockOf(x, address, Power(32 - prefix));
  }

  lemma InsideIsSubnet(t: Target, range: Network)
    requires IsIpv4(t)
    ensures SubnetOf(Requested(t), range) <==> Inside(t, range)
  {
    SubnetIsInclusion(Requested(t), range);
    forall x: nat ensures Contains(Requested(t), x) <==> AsksFor(t, x) {
      RequestedIs(t, x);
    }
    hide AsksFor, Contains, SubnetOf, Requested;
  }

  /** A target is approved if and only if it is an IPv4 address or network and one approved range has all the
      addresses it asks for. */
  lemma ApprovalIsContainment(t: Target, ranges: seq<Network>)
    ensures Approved(t, ranges) <==> IsIpv4(t) && InsideOneRange(t, ranges)
  {
    if IsIpv4(t) {
      forall i | 0 <= i < |ranges| ensures SubnetOf(Requested(t), ranges[i]) <==> Inside(t, ranges[i]) {
        InsideIsSubnet(t, ranges[i]);
      }
      hide Inside, SubnetOf, Requested;
      if Approved(t, ranges) {
        var i :| 0 <= i < |ranges| && SubnetOf(Requested(t), ranges[i]);
        assert Inside(t, ranges[i]);
      }
      if InsideOneRange(t, ranges) {
        var i :| 0 <= i < |ranges| && Inside(t, ranges[i]);
        assert SubnetOf(Requested(t), ranges[i]);
      }
    }
  }

  lemma {:induction false} TasksAreUnstarted(requests: seq<Request>)
    ensures |Tasks(requests)| == |requests| && Holders(Tasks(requests)) == 0
    ensures forall i :: 0 <= i < |requests| ==> Fresh(Tasks(requests)[i])
  {
    if requests != [] {
      TasksAreUnstarted(requests[..|requests| - 1]);
      var n := |requests| - 1;
      assert Tasks(requests)[..n] == Tasks(requests[..n]);
      forall i | 0 <= i < |requests| ensures Fresh(Tasks(requests)[i]) {
        assert i < n ==> Tasks(requests)[i] == Tasks(requests[..n])[i];
      }
    }
  }

  predicate Fresh(t: Task) {
    t.phase == Unstarted && t.attempts == 0 && t.errors == 0 && t.reported == 0 && t.items == 0
  }

  // ----- the invariant

  predicate Started(t: Task) {
    t.phase != Unstarted && t.phase != Dropped
  }

  predicate Over(t: Task) {
    t.phase == Ended || t.phase == Dropped
  }

  /** The error accounting of an ended task. */
  predicate Accounted(cfg: Config, t: Task) {
    && t.attempts <= cfg.retries + 1
    && (t.status != Partial ==> t.reported == 0)
    && (t.status != Partial && t.status != Succeeded ==> t.items == 0)
    && match t.status
       case Running => false
       case Succeeded => t.attempts >= 1 && t.errors == t.attempts - 1
       case Partial => t.attempts >= 1 && t.reported >= 1 && t.errors == t.attempts - 1 + t.reported
       case Failed => t.attempts >= 1 && t.errors == t.attempts
       case Cancelled => t.errors == t.attempts || (t.attempts >= 1 && t.errors == t.attempts - 1)
  }

  predicate PhaseOk(cfg: Config, t: Task) {
    && (t.phase != Ended ==> t.items == 0 && t.reported == 0)
    && match t.phase
       case Unstarted => t.attempts == 0 && t.errors == 0
       case Dropped => t.attempts == 0 && t.errors == 0
       case Waiting => t.attempts == 0 && t.errors == 0
       case Collecting => 1 <= t.attempts <= cfg.retries + 1 && t.errors == t.attempts - 1
       case Sleeping => 1 <= t.attempts <= cfg.retries && t.errors == t.attempts
       case Ended => Accounted(cfg, t)
  }

  /** The row of a started task: its own, with all its issues, final exactly when the task has ended. */
  predicate RowOk(tables: Tables, base: nat, t: Task) {
    Started(t) ==>
      && base <= t.run < |tables.runs| && IssueCount(tables.issues, t.run) == t.errors
      && (if t.phase == Ended then tables.runs[t.run].status == t.status && tables.runs[t.run].items == t.items
          else tables.runs[t.run].status == Running)
  }

  ghost predicate TasksOk(cfg: Config, s: State, base: nat) {
    forall i :: 0 <= i < |s.tasks| ==> PhaseOk(cfg, s.tasks[i]) && RowOk(s.tables, base, s.tasks[i])
  }

  ghost predicate DistinctRuns(tasks: seq<Task>) {
    forall i, j :: 0 <= i < j < |tasks| && Started(tasks[i]) && Started(tasks[j]) ==> tasks[i].run != tasks[j].run
  }

  ghost predicate IssuesKnown(tables: Tables) {
    forall k :: 0 <= k < |tables.issues| ==> tables.issues[k].run < |tables.runs|
  }

  ghost predicate Owned(tasks: seq<Task>, run: nat) {
    exists i :: 0 <= i < |tasks| && Started(tasks[i]) && tasks[i].run == run
  }

  ghost predicate AllOwned(s: State, base: nat) {
    base <= |s.tables.runs| && forall run :: base <= run < |s.tables.runs| ==> Owned(s.tasks, run)
  }

  ghost predicate Inv(cfg: Config, s: State, base: nat) {
    && TasksOk(cfg, s, base) && DistinctRuns(s.tasks) && IssuesKnown(s.tables) && AllOwned(s, base)
    && Holders(s.tasks) <= cfg.concurrency
  }

  // ----- pieces of a step

  lemma {:induction false} HoldersUpdate(tasks: seq<Task>, i: nat, u: Task)
    requires i < |tasks|
    ensures Holders(tasks[i := u]) + (if Holds(tasks[i]) then 1 else 0)
         == Holders(tasks) + (if Holds(u) then 1 else 0)
  {
    var n := |tasks| - 1;
    if i == n {
      assert tasks[i := u][..n] == tasks[..n];
    } else {
      HoldersUpdate(tasks[..n], i, u);
      assert tasks[i := u][..n] == tasks[..n][i := u];
    }
  }

  lemma {:induction false} ReportedCount(t: Task, issues: seq<bool>, now: int)
    ensures |ReportedIssues(t, issues, now)| == |issues|
    ensures forall k :: 0 <= k < |issues| ==> ReportedIssues(t, issues, now)[k].run == t.run
  {
    if issues != [] {
      ReportedCount(t, issues[..|issues| - 1], now);
    }
  }

  lemma IssuesAreOwn(t: Task, o: Outcome, now: int)
    ensures forall k :: 0 <= k < |IssuesOf(t, o, now)| ==> IssuesOf(t, o, now)[k].run == t.run
    ensures o.Returned? ==> |IssuesOf(t, o, now)| == |o.issues|
    ensures !o.Returned? ==> |IssuesOf(t, o, now)| == if o.Interrupted? then 0 else 1
  {
    if o.Returned? {
      ReportedCount(t, o.issues, now);
    }
  }

  lemma {:induction false} CountOwn(issues: seq<Issue>, run: nat, other: nat)
    requires forall k :: 0 <= k < |issues| ==> issues[k].run == run
    ensures IssueCount(issues, other) == if other == run then |issues| else 0
  {
    if issues != [] {
      CountOwn(issues[..|issues| - 1], run, other);
    }
  }

  lemma {:induction false} CountNone(issues: seq<Issue>, run: nat)
    requires forall k :: 0 <= k < |issues| ==> issues[k].run < run
    ensures IssueCount(issues, run) == 0
  {
    if issues != [] {
      CountNone(issues[..|issues| - 1], run);
    }
  }

  /** The task's own accounts after its event. */
  lemma PhaseStep(cfg: Config, s: State, e: Event, t: Task)
    requires PhaseOk(cfg, t) && !e.SetStop? && Ready(cfg, s, e, t.phase)
    ensures PhaseOk(cfg, NewTask(cfg, s, e, t))
  {
    if e.Collected? {
      IssuesAreOwn(t, e.outcome, e.now);
    }
    hide IssuesOf;
  }

  lemma NewIssuesAreOwn(cfg: Config, s: State, e: Event, t: Task)
    ensures forall k :: 0 <= k < |NewIssues(e, t)| ==> NewIssues(e, t)[k].run == t.run
    ensures NewTask(cfg, s, e, t).errors == t.errors + |NewIssues(e, t)|
  {
    if e.Collected? {
      IssuesAreOwn(t, e.outcome, e.now);
    }
    hide IssuesOf;
  }

  /** The counts of issues after an event: more only for the task's own run. */
  lemma CountStep(s: State, e: Event, t: Task, u: Task, run: nat)
    requires forall k :: 0 <= k < |NewIssues(e, t)| ==> NewIssues(e, t)[k].run == t.run
    requires e.Start? ==> NewIssues(e, t) == []
    ensures IssueCount(NewTables(s, e, t, u).issues, run)
         == IssueCount(s.tables.issues, run) + if run == t.run then |NewIssues(e, t)| else 0
  {
    hide NewIssues;
    var added := NewIssues(e, t);
    CountOwn(added, t.run, run);
    IssueCountAppend(s.tables.issues, added, run);
    assert s.tables.issues + [] == s.tables.issues;
  }

  /** The rows after an event: a new last one, or the task's own finished, or none changed. */
  lemma RowsStep(cfg: Config, s: State, e: Event, base: nat, run: nat)
    requires !e.SetStop? && e.i < |s.tasks| && Ready(cfg, s, e, s.tasks[e.i].phase)
    requires RowOk(s.tables, base, s.tasks[e.i]) && PhaseOk(cfg, s.tasks[e.i])
    ensures var t := s.tasks[e.i];
            var u := NewTask(cfg, s, e, t);
            var rows := NewTables(s, e, t, u).runs;
            && |rows| == |s.tables.runs| + (if e.Start? then 1 else 0)
            && (run < |s.tables.runs| && !(Started(t) && run == t.run && u.phase == Ended) ==> rows[run] == s.tables.runs[run])
            && (e.Start? ==> rows[|s.tables.runs|].status == Running)
            && (u.phase == Ended ==> CanFinish(s.tables, t.run, u.status) && rows[t.run].status == u.status && rows[t.run].items == u.items)
  {
    PhaseStep(cfg, s, e, s.tasks[e.i]);
    hide IssuesOf, NewIssues;
  }

  lemma OwnRow(cfg: Config, s: State, e: Event, base: nat)
    requires Enabled(cfg, s, e) && !e.SetStop? && Inv(cfg, s, base)
    ensures var u := NewTask(cfg, s, e, s.tasks[e.i]); RowOk(NewTables(s, e, s.tasks[e.i], u), base, u)
  {
    var t := s.tasks[e.i];
    var u := NewTask(cfg, s, e, t);
    RowsStep(cfg, s, e, base, t.run);
    NewIssuesAreOwn(cfg, s, e, t);
    CountStep(s, e, t, u, u.run);
    CountNone(s.tables.issues, |s.tables.runs|);
    StartedStays(cfg, s, e, t);
    hide NewTables, PhaseOk, NewIssues, IssuesOf, Inv;
  }

  lemma StartedStays(cfg: Config, s: State, e: Event, t: Task)
    requires !e.SetStop? && Ready(cfg, s, e, t.phase)
    ensures var u := NewTask(cfg, s, e, t);
            && (Started(u) <==> Started(t) || e.Start?) && u.run == (if e.Start? then |s.tables.runs| else t.run)
            && u.phase != Unstarted && t.phase != Ended && (e.Start? ==> u.phase == Waiting && t.errors == u.errors)
  {
    hide IssuesOf;
  }

  lemma OtherRow(cfg: Config, s: State, e: Event, base: nat, j: nat)
    requires Enabled(cfg, s, e) && !e.SetStop? && Inv(cfg, s, base)
    requires j < |s.tasks| && j != e.i
    ensures RowOk(NewTables(s, e, s.tasks[e.i], NewTask(cfg, s, e, s.tasks[e.i])), base, s.tasks[j])
  {
    var t, o := s.tasks[e.i], s.tasks[j];
    var u := NewTask(cfg, s, e, t);
    if Started(o) {
      RowsStep(cfg, s, e, base, o.run);
      NewIssuesAreOwn(cfg, s, e, t);
      CountStep(s, e, t, u, o.run);
      IssuesNeedStart(cfg, s, e, t);
      hide NewTables, NewTask, NewIssues, PhaseOk, IssuesOf;
      assert Started(t) ==> o.run != t.run;
    }
  }

  /** Only a started task records issues. */
  lemma IssuesNeedStart(cfg: Config, s: State, e: Event, t: Task)
    requires !e.SetStop? && Ready(cfg, s, e, t.phase)
    ensures NewIssues(e, t) != [] ==> Started(t)
  {
  }

  lemma StepKeepsTasks(cfg: Config, s: State, e: Event, base: nat)
    requires Enabled(cfg, s, e) && !e.SetStop? && Inv(cfg, s, base)
    ensures TasksOk(cfg, Next(cfg, s, e), base)
  {
    var t := s.tasks[e.i];
    var n := Next(cfg, s, e);
    PhaseStep(cfg, s, e, t);
    OwnRow(cfg, s, e, base);
    forall j | 0 <= j < |n.tasks| ensures PhaseOk(cfg, n.tasks[j]) && RowOk(n.tables, base, n.tasks[j]) {
      if j != e.i {
        OtherRow(cfg, s, e, base, j);
      }
      hide PhaseOk, RowOk, NewTask, NewTables;
    }
  }

  lemma StepKeepsRuns(cfg: Config, s: State, e: Event, base: nat)
    requires Enabled(cfg, s, e) && !e.SetStop? && Inv(cfg, s, base)
    ensures DistinctRuns(Next(cfg, s, e).tasks)
  {
    var t := s.tasks[e.i];
    var u := NewTask(cfg, s, e, t);
    var n := Next(cfg, s, e);
    StartedStays(cfg, s, e, t);
    hide NewTask, NewTables, PhaseOk;
    forall i, j | 0 <= i < j < |n.tasks| && Started(n.tasks[i]) && Started(n.tasks[j])
      ensures n.tasks[i].run != n.tasks[j].run
    {
      assert RowOk(s.tables, base, s.tasks[i]) && RowOk(s.tables, base, s.tasks[j]);
    }
  }

  lemma StepKeepsOwners(cfg: Config, s: State, e: Event, base: nat)
    requires Enabled(cfg, s, e) && !e.SetStop? && Inv(cfg, s, base)
    ensures AllOwned(Next(cfg, s, e), base)
  {
    var t := s.tasks[e.i];
    var n := Next(cfg, s, e);
    StartedStays(cfg, s, e, t);
    assert RowOk(s.tables, base, t);
    RowsStep(cfg, s, e, base, 0);
    hide NewTask, NewTables, PhaseOk, RowOk;
    forall run | base <= run < |n.tables.runs| ensures Owned(n.tasks, run) {
      if run == |s.tables.runs| {
        assert Started(n.tasks[e.i]) && n.tasks[e.i].run == run;
      } else {
        assert Owned(s.tasks, run);
        var i :| 0 <= i < |s.tasks| && Started(s.tasks[i]) && s.tasks[i].run == run;
        assert Started(n.tasks[i]) && n.tasks[i].run == run;
      }
    }
  }

  lemma StepKeepsIssues(cfg: Config, s: State, e: Event, base: nat)
    requires Enabled(cfg, s, e) && !e.SetStop? && Inv(cfg, s, base)
    ensures IssuesKnown(Next(cfg, s, e).tables) && Holders(Next(cfg, s, e).tasks) <= cfg.concurrency
  {
    var t := s.tasks[e.i];
    var u := NewTask(cfg, s, e, t);
    NewIssuesAreOwn(cfg, s, e, t);
    IssuesNeedStart(cfg, s, e, t);
    RowsStep(cfg, s, e, base, 0);
    assert RowOk(s.tables, base, t);
    HoldersUpdate(s.tasks, e.i, u);
    hide NewIssues, PhaseOk, IssuesOf;
  }

  lemma StepKeeps(cfg: Config, s: State, e: Event, base: nat)
    requires Enabled(cfg, s, e) && Inv(cfg, s, base)
    ensures Inv(cfg, Next(cfg, s, e), base)
  {
    if !e.SetStop? {
      StepKeepsTasks(cfg, s, e, base);
      StepKeepsRuns(cfg, s, e, base);
      StepKeepsOwners(cfg, s, e, base);
      StepKeepsIssues(cfg, s, e, base);
    }
    hide TasksOk, DistinctRuns, IssuesKnown, AllOwned, NewTask, NewTables;
  }

  // ----- runs

  function After(cfg: Config, s: State, events: seq<Event>): State {
    if events == [] then s else Next(cfg, After(cfg, s, events[..|events| - 1]), events[|events| - 1])
  }

  predicate Possible(cfg: Config, s: State, events: seq<Event>) {
    events == [] || (Possible(cfg, s, events[..|events| - 1])
                     && Enabled(cfg, After(cfg, s, events[..|events| - 1]), events[|events| - 1]))
  }

  lemma {:induction false} CycleInvariant(cfg: Config, s: State, base: nat, events: seq<Event>)
    requires Inv(cfg, s, base) && Possible(cfg, s, events)
    ensures Inv(cfg, After(cfg, s, events), base)
    decreases |events|
  {
    if events != [] {
      var before := events[..|events| - 1];
      hide Inv, Next, Enabled;
      CycleInvariant(cfg, s, base, before);
      StepKeeps(cfg, After(cfg, s, before), events[|events| - 1], base);
    }
  }

  lemma LaunchIsOk(cfg: Config, requests: seq<Request>, ranges: seq<Network>, collectors: set<nat>, tables: Tables)
    requires Launch(requests, ranges, collectors, tables).Some? && IssuesKnown(tables)
    ensures Inv(cfg, Launch(requests, ranges, collectors, tables).value, |tables.runs|)
  {
    TasksAreUnstarted(requests);
    var s := Launch(requests, ranges, collectors, tables).value;
    forall i | 0 <= i < |s.tasks| ensures PhaseOk(cfg, s.tasks[i]) && !Started(s.tasks[i]) {
      assert Fresh(s.tasks[i]);
    }
  }

  /** A cycle starts a run only if every request names a registered collector and a target whose
      addresses all lie in one approved range; otherwise no task exists at all. */
  lemma RefusalIsTotal(requests: seq<Request>, ranges: seq<Network>, collectors: set<nat>, tables: Tables)
    ensures Launch(requests, ranges, collectors, tables).None? <==>
              exists i :: 0 <= i < |requests|
                && (!(IsIpv4(requests[i].target) && InsideOneRange(requests[i].target, ranges))
                    || requests[i].collector !in collectors)
    ensures var launched := Launch(requests, ranges, collectors, tables);
            launched.Some? ==> launched.value.tables == tables
  {
    forall i | 0 <= i < |requests|
      ensures Approved(requests[i].target, ranges)
         <==> IsIpv4(requests[i].target) && InsideOneRange(requests[i].target, ranges)
    {
      ApprovalIsContainment(requests[i].target, ranges);
    }
    hide Approved, InsideOneRange, IsIpv4;
  }

  /** In every reachable state of a cycle at most `concurrency` calls of `collect` are in flight, and
      every task's errors and attempts are as `PhaseOk` says and as its row and issues record. */
  lemma CycleIsAccounted(
    cfg: Config, requests: seq<Request>, ranges: seq<Network>, collectors: set<nat>, tables: Tables,
    events: seq<Event>, i: nat)
    requires Launch(requests, ranges, collectors, tables).Some? && IssuesKnown(tables)
    requires Possible(cfg, Launch(requests, ranges, collectors, tables).value, events)
    ensures var s := After(cfg, Launch(requests, ranges, collectors, tables).value, events);
            && Holders(s.tasks) <= cfg.concurrency
            && (i < |s.tasks| ==> PhaseOk(cfg, s.tasks[i]) && RowOk(s.tables, |tables.runs|, s.tasks[i]))
  {
    LaunchIsOk(cfg, requests, ranges, collectors, tables);
    CycleInvariant(cfg, Launch(requests, ranges, collectors, tables).value, |tables.runs|, events);
    hide PhaseOk, RowOk, After, Launch;
  }

  // ----- each started run is finished once

  /** An event that calls `finish_run` for a run. */
  predicate Finishes(cfg: Config, s: State, e: Event, run: nat) {
    && !e.SetStop? && e.i < |s.tasks| && Started(s.tasks[e.i]) && s.tasks[e.i].run == run
    && NewTask(cfg, s, e, s.tasks[e.i]).phase == Ended
  }

  predicate IsFinal(tables: Tables, run: nat) {
    run < |tables.runs| && tables.runs[run].status != Running
  }

  /** One event: it finishes a run only where that cannot raise, the row is final from then on, and no
      other event writes to it. */
  lemma FinishStep(cfg: Config, s: State, e: Event, base: nat, run: nat)
    requires Inv(cfg, s, base) && Enabled(cfg, s, e)
    ensures Finishes(cfg, s, e, run) ==>
              base <= run && !IsFinal(s.tables, run)
              && CanFinish(s.tables, run, NewTask(cfg, s, e, s.tasks[e.i]).status)
    ensures run < |s.tables.runs| && !Finishes(cfg, s, e, run) ==>
              |s.tables.runs| <= |Next(cfg, s, e).tables.runs| && Next(cfg, s, e).tables.runs[run] == s.tables.runs[run]
    ensures IsFinal(Next(cfg, s, e).tables, run) <==> IsFinal(s.tables, run) || Finishes(cfg, s, e, run)
  {
    if !e.SetStop? {
      assert RowOk(s.tables, base, s.tasks[e.i]) && PhaseOk(cfg, s.tasks[e.i]);
      RowsStep(cfg, s, e, base, run);
      StartedStays(cfg, s, e, s.tasks[e.i]);
      hide PhaseOk, NewTask, NewTables, Inv;
    }
  }

  /** How often a run is finished. */
  function Finishings(cfg: Config, s: State, events: seq<Event>, run: nat): nat {
    if events == [] then 0 else
      var before, e := events[..|events| - 1], events[|events| - 1];
      Finishings(cfg, s, before, run) + if Finishes(cfg, After(cfg, s, before), e, run) then 1 else 0
  }

  /** `finish_run` never raises for a run. */
  predicate NeverRaises(cfg: Config, s: State, events: seq<Event>, run: nat) {
    events == [] ||
      var before, e := events[..|events| - 1], events[|events| - 1];
      var b := After(cfg, s, before);
      && NeverRaises(cfg, s, before, run)
      && (Finishes(cfg, b, e, run) ==> CanFinish(b.tables, run, NewTask(cfg, b, e, b.tasks[e.i]).status))
  }

  lemma {:induction false} FinishingsAreCounted(cfg: Config, s: State, base: nat, events: seq<Event>, run: nat)
    requires Inv(cfg, s, base) && Possible(cfg, s, events) && !IsFinal(s.tables, run)
    ensures Finishings(cfg, s, events, run) == if IsFinal(After(cfg, s, events).tables, run) then 1 else 0
    ensures NeverRaises(cfg, s, events, run)
    decreases |events|
  {
    hide Inv, Enabled, Next, Finishes, IsFinal, NewTask;
    if events != [] {
      var before := events[..|events| - 1];
      FinishingsAreCounted(cfg, s, base, before, run);
      CycleInvariant(cfg, s, base, before);
      FinishStep(cfg, After(cfg, s, before), events[|events| - 1], base, run);
    }
  }

  /** In every run of a cycle from its launch `finish_run` never raises, and each run it starts is finished
      exactly once by the time its row is final, and not at all before. */
  lemma FinishedExactlyOnce(
    cfg: Config, requests: seq<Request>, ranges: seq<Network>, collectors: set<nat>, tables: Tables,
    events: seq<Event>, run: nat)
    requires Launch(requests, ranges, collectors, tables).Some? && IssuesKnown(tables) && |tables.runs| <= run
    requires Possible(cfg, Launch(requests, ranges, collectors, tables).value, events)
    ensures var s := Launch(requests, ranges, collectors, tables).value;
            && Finishings(cfg, s, events, run) == (if IsFinal(After(cfg, s, events).tables, run) then 1 else 0)
            && NeverRaises(cfg, s, events, run)
  {
    RefusalIsTotal(requests, ranges, collectors, tables);
    LaunchIsOk(cfg, requests, ranges, collectors, tables);
    hide Launch, Possible, Inv;
    FinishingsAreCounted(cfg, Launch(requests, ranges, collectors, tables).value, |tables.runs|, events, run);
  }

  lemma {:induction false} EarlierRowsStay(cfg: Config, s: State, base: nat, events: seq<Event>, run: nat)
    requires Inv(cfg, s, base) && Possible(cfg, s, events) && run < base && run < |s.tables.runs|
    ensures run < |After(cfg, s, events).tables.runs|
    ensures After(cfg, s, events).tables.runs[run] == s.tables.runs[run] && Finishings(cfg, s, events, run) == 0
    decreases |events|
  {
    hide Inv, Enabled, Next, Finishes, IsFinal;
    if events != [] {
      var before := events[..|events| - 1];
      EarlierRowsStay(cfg, s, base, before, run);
      CycleInvariant(cfg, s, base, before);
      FinishStep(cfg, After(cfg, s, before), events[|events| - 1], base, run);
    }
  }

  /** A cycle never writes to a row that was there before it. */
  lemma EarlierRunsAreUntouched(
    cfg: Config, requests: seq<Request>, ranges: seq<Network>, collectors: set<nat>, tables: Tables,
    events: seq<Event>, run: nat)
    requires Launch(requests, ranges, collectors, tables).Some? && IssuesKnown(tables) && run < |tables.runs|
    requires Possible(cfg, Launch(requests, ranges, collectors, tables).value, events)
    ensures var rows := After(cfg, Launch(requests, ranges, collectors, tables).value, events).tables.runs;
            run < |rows| && rows[run] == tables.runs[run]
  {
    RefusalIsTotal(requests, ranges, collectors, tables);
    LaunchIsOk(cfg, requests, ranges, collectors, tables);
    hide Launch, Possible, Inv;
    EarlierRowsStay(cfg, Launch(requests, ranges, collectors, tables).value, |tables.runs|, events, run);
  }

  lemma OverMeansFinal(cfg: Config, s: State, base: nat, run: nat)
    requires Inv(cfg, s, base) && base <= run < |s.tables.runs|
    requires forall i :: 0 <= i < |s.tasks| ==> Over(s.tasks[i])
    ensures IsFinal(s.tables, run)
  {
    assert Owned(s.tasks, run);
    var i :| 0 <= i < |s.tasks| && Started(s.tasks[i]) && s.tasks[i].run == run;
    assert PhaseOk(cfg, s.tasks[i]) && RowOk(s.tables, base, s.tasks[i]);
  }

  /** When no task of a launched cycle can go on any more, every row that the cycle started is final and was
      finished exactly once. */
  lemma NothingIsLeftRunning(
    cfg: Config, requests: seq<Request>, ranges: seq<Network>, collectors: set<nat>, tables: Tables,
    events: seq<Event>, run: nat)
    requires Launch(requests, ranges, collectors, tables).Some? && IssuesKnown(tables)
    requires Possible(cfg, Launch(requests, ranges, collectors, tables).value, events)
    requires var s := After(cfg, Launch(requests, ranges, collectors, tables).value, events);
             |tables.runs| <= run < |s.tables.runs| && forall i :: 0 <= i < |s.tasks| ==> Over(s.tasks[i])
    ensures var s := Launch(requests, ranges, collectors, tables).value;
            IsFinal(After(cfg, s, events).tables, run) && Finishings(cfg, s, events, run) == 1
  {
    FinishedExactlyOnce(cfg, requests, ranges, collectors, tables, events, run);
    LaunchIsOk(cfg, requests, ranges, collectors, tables);
    CycleInvariant(cfg, Launch(requests, ranges, collectors, tables).value, |tables.runs|, events);
    hide Launch, Possible, Inv, After, Finishings, Over;
    OverMeansFinal(cfg, After(cfg, Launch(requests, ranges, collectors, tables).value, events), |tables.runs|, run);
  }

  // ----- every cycle ends

  /** What a task can still do at most. */
  function Rank(cfg: Config, t: Task): nat {
    var left := if t.attempts <= cfg.retries + 1 then cfg.retries + 1 - t.attempts else 0;
    match t.phase
    case Unstarted => 2 * (cfg.retries + 1) + 2
    case Waiting => 2 * (cfg.retries + 1) + 1
    case Collecting => 2 * left + 2
    case Sleeping => 2 * left + 1
    case _ => 0
  }

  lemma RankFalls(cfg: Config, s: State, e: Event, t: Task)
    requires PhaseOk(cfg, t) && !e.SetStop? && Ready(cfg, s, e, t.phase)
    ensures Rank(cfg, NewTask(cfg, s, e, t)) < Rank(cfg, t)
  {
    hide IssuesOf;
  }

  function TotalRank(cfg: Config, tasks: seq<Task>): nat {
    if tasks == [] then 0 else TotalRank(cfg, tasks[..|tasks| - 1]) + Rank(cfg, tasks[|tasks| - 1])
  }

  lemma {:induction false} TotalRankUpdate(cfg: Config, tasks: seq<Task>, i: nat, u: Task)
    requires i < |tasks|
    ensures TotalRank(cfg, tasks[i := u]) + Rank(cfg, tasks[i]) == TotalRank(cfg, tasks) + Rank(cfg, u)
  {
    hide Rank;
    var n := |tasks| - 1;
    if i == n {
      assert tasks[i := u][..n] == tasks[..n];
    } else {
      TotalRankUpdate(cfg, tasks[..n], i, u);
      assert tasks[i := u][..n] == tasks[..n][i := u];
    }
  }

  /** The events in which some task moves. */
  function Moves(events: seq<Event>): nat {
    if events == [] then 0 else
      Moves(events[..|events| - 1]) + if events[|events| - 1].SetStop? then 0 else 1
  }

  /** Every cycle ends: its tasks can make no more moves than the total rank they begin with. */
  lemma {:induction false} MovesAreBounded(cfg: Config, s: State, base: nat, events: seq<Event>)
    requires Inv(cfg, s, base) && Possible(cfg, s, events)
    ensures Moves(events) + TotalRank(cfg, After(cfg, s, events).tasks) <= TotalRank(cfg, s.tasks)
    decreases |events|
  {
    if events != [] {
      var before, e := events[..|events| - 1], events[|events| - 1];
      var b := After(cfg, s, before);
      hide NewTask, NewTables, Rank, PhaseOk, RowOk;
      MovesAreBounded(cfg, s, base, before);
      if !e.SetStop? {
        CycleInvariant(cfg, s, base, before);
        assert PhaseOk(cfg, b.tasks[e.i]);
        RankFalls(cfg, b, e, b.tasks[e.i]);
        TotalRankUpdate(cfg, b.tasks, e.i, NewTask(cfg, b, e, b.tasks[e.i]));
      }
    }
  }

  lemma {:induction false} LaunchRank(cfg: Config, requests: seq<Request>)
    ensures TotalRank(cfg, Tasks(requests)) == |requests| * (2 * cfg.retries + 4)
  {
    hide Rank;
    if requests != [] {
      var before, n: nat := requests[..|requests| - 1], |requests| - 1;
      LaunchRank(cfg, before);
      var task := LastTask(cfg, requests);
      OneMore(n, 2 * cfg.retries + 4);
      assert |requests| == n + 1;
    } else {
      assert 0 * (2 * cfg.retries + 4) == 0;
    }
  }

  lemma LastTask(cfg: Config, requests: seq<Request>) returns (t: Task)
    requires requests != []
    ensures TotalRank(cfg, Tasks(requests)) == TotalRank(cfg, Tasks(requests[..|requests| - 1])) + Rank(cfg, t)
    ensures Rank(cfg, t) == 2 * cfg.retries + 4
  {
    var tasks := Tasks(requests);
    t := tasks[|tasks| - 1];
    assert Rank(cfg, t) == 2 * cfg.retries + 4;
    hide Rank;
    assert tasks[..|tasks| - 1] == Tasks(requests[..|requests| - 1]);
  }

  lemma OneMore(n: nat, m: nat)
    ensures (n + 1) * m == n * m + m
  {
  }

  /** A launched cycle makes at most 2 * retries + 4 moves for each request. */
  lemma CycleEnds(
    cfg: Config, requests: seq<Request>, ranges: seq<Network>, collectors: set<nat>, tables: Tables, events: seq<Event>)
    requires Launch(requests, ranges, collectors, tables).Some? && IssuesKnown(tables)
    requires Possible(cfg, Launch(requests, ranges, collectors, tables).value, events)
    ensures Moves(events) <= |requests| * (2 * cfg.retries + 4)
  {
    var s := Launch(requests, ranges, collectors, tables).value;
    hide Inv, Possible;
    LaunchIsOk(cfg, requests, ranges, collectors, tables);
    MovesAreBounded(cfg, s, |tables.runs|, events);
    LaunchRank(cfg, requests);
  }
}
