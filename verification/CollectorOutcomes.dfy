/** What the outcomes of a task's attempts decide, told over every run of events from a launch: whether it tries
    again, with which status it ends, and what its row and its issues say. */
module CollectorOutcomes {
  import opened Options
  import opened Ipv4
  import opened RunRows
  import opened CollectorCycle
  import opened CollectorGuarantees

  /** An outcome that another attempt may better. */
  predicate Transient(o: Outcome) { o == TimedOut || o == Retryable }

  /** How the calls of `collect` of task `i` ended, in order, and when. */
  datatype Ending = Ending(outcome: Outcome, at: int)

  function Endings(events: seq<Event>, i: nat): seq<Ending> {
    if events == [] then [] else
      var before, e := Endings(events[..|events| - 1], i), events[|events| - 1];
      if e.Collected? && e.i == i then before + [Ending(e.outcome, e.now)] else before
  }

  ghost predicate AllTransient(es: seq<Ending>) {
    forall k :: 0 <= k < |es| ==> Transient(es[k].outcome)
  }

  /** The status with which a task ends. */
  ghost predicate EndsAs(cfg: Config, t: Task, es: seq<Ending>) {
    var n := |es|;
    match t.status
    case Running => false
    case Succeeded => n > 0 && es[n - 1].outcome == Returned(t.items, [])
    case Partial => n > 0 && es[n - 1].outcome.Returned? && es[n - 1].outcome.items == t.items
                    && es[n - 1].outcome.issues != []
    case Failed =>
      n > 0 && var o := es[n - 1].outcome;
        o == Unauthorized || o == Refused || o == Crashed || (Transient(o) && n == cfg.retries + 1)
    case Cancelled =>
      n == 0 || es[n - 1].outcome == Outcome.Interrupted || (Transient(es[n - 1].outcome) && n <= cfg.retries)
  }

  /** A task after its outcomes: all but the last were transient and left room for another attempt. */
  ghost predicate Follows(cfg: Config, t: Task, es: seq<Ending>) {
    var n := |es|;
    && (n > 0 ==> AllTransient(es[..n - 1]) && n <= cfg.retries + 1)
    && match t.phase
       case Unstarted => n == 0
       case Dropped => n == 0
       case Waiting => n == 0
       case Collecting => t.attempts == n + 1 && AllTransient(es) && n <= cfg.retries
       case Sleeping => t.attempts == n && n > 0 && AllTransient(es) && n <= cfg.retries
       case Ended => t.attempts == n && EndsAs(cfg, t, es)
  }

  lemma FollowsStep(cfg: Config, s: State, e: Event, t: Task, es: seq<Ending>)
    requires Follows(cfg, t, es) && PhaseOk(cfg, t) && !e.SetStop? && Ready(cfg, s, e, t.phase)
    ensures Follows(cfg, NewTask(cfg, s, e, t), if e.Collected? then es + [Ending(e.outcome, e.now)] else es)
  {
    hide IssuesOf;
    if e.Collected? {
      assert (es + [Ending(e.outcome, e.now)])[..|es|] == es;
    } else if es != [] {
      assert es[..|es|] == es;
    }
  }

  // ----- over runs

  /** Before any event: nothing is started and nothing stops. */
  ghost predicate AtLaunch(s: State) {
    !s.stop && forall i :: 0 <= i < |s.tasks| ==> s.tasks[i].phase == Unstarted && s.tasks[i].attempts == 0
  }

  lemma LaunchIsAtLaunch(
    cfg: Config, requests: seq<Request>, ranges: seq<Network>, collectors: set<nat>, tables: Tables)
    requires Launch(requests, ranges, collectors, tables).Some?
    ensures AtLaunch(Launch(requests, ranges, collectors, tables).value)
    ensures |Launch(requests, ranges, collectors, tables).value.tasks| == |requests|
  {
    TasksAreUnstarted(requests);
    var s := Launch(requests, ranges, collectors, tables).value;
    forall i | 0 <= i < |s.tasks| ensures s.tasks[i].phase == Unstarted && s.tasks[i].attempts == 0 {
      assert Fresh(s.tasks[i]);
    }
  }

  lemma {:induction false} OutcomesDecideFrom(cfg: Config, s: State, base: nat, events: seq<Event>, i: nat)
    requires Inv(cfg, s, base) && AtLaunch(s) && Possible(cfg, s, events) && i < |s.tasks|
    ensures |After(cfg, s, events).tasks| == |s.tasks|
    ensures Follows(cfg, After(cfg, s, events).tasks[i], Endings(events, i))
    decreases |events|
  {
    hide Follows, NewTask, NewTables, PhaseOk, RowOk;
    if events == [] {
      UnstartedFollows(cfg, s.tasks[i]);
    } else {
      var before, e := events[..|events| - 1], events[|events| - 1];
      var b := After(cfg, s, before);
      OutcomesDecideFrom(cfg, s, base, before, i);
      CycleInvariant(cfg, s, base, before);
      if !e.SetStop? && e.i == i {
        assert PhaseOk(cfg, b.tasks[i]);
        FollowsStep(cfg, b, e, b.tasks[i], Endings(before, i));
      }
    }
  }

  lemma UnstartedFollows(cfg: Config, t: Task)
    requires t.phase == Unstarted
    ensures Follows(cfg, t, [])
  {
  }

  /** In every run of events from a launch, the outcomes of a task are transient but for the last, and at most
      retries + 1; it sleeps only after a transient outcome that leaves room; it ends succeeded or partial with
      its last result; failed only after a rejected credential, a refusal or a crash, or after a transient
      outcome of its last possible attempt; and cancelled otherwise. */
  lemma OutcomesDecide(
    cfg: Config, requests: seq<Request>, ranges: seq<Network>, collectors: set<nat>, tables: Tables,
    events: seq<Event>, i: nat)
    requires Launch(requests, ranges, collectors, tables).Some? && IssuesKnown(tables) && i < |requests|
    requires Possible(cfg, Launch(requests, ranges, collectors, tables).value, events)
    ensures var tasks := After(cfg, Launch(requests, ranges, collectors, tables).value, events).tasks;
            |tasks| == |requests| && Follows(cfg, tasks[i], Endings(events, i))
  {
    LaunchIsOk(cfg, requests, ranges, collectors, tables);
    LaunchIsAtLaunch(cfg, requests, ranges, collectors, tables);
    hide Launch, Possible, Inv, AtLaunch, Follows;
    OutcomesDecideFrom(cfg, Launch(requests, ranges, collectors, tables).value, |tables.runs|, events, i);
  }

  /** What the task of the last event is after it. */
  lemma {:induction false} TasksStay(cfg: Config, s: State, events: seq<Event>)
    ensures |After(cfg, s, events).tasks| == |s.tasks|
  {
    hide NewTask, NewTables;
    if events != [] {
      TasksStay(cfg, s, events[..|events| - 1]);
    }
  }

  /** Right after an outcome the task sleeps, and so will try again, if and only if the outcome is transient and
      not that of the last possible attempt; else it has ended, with the status the outcome says. */
  lemma OutcomeIsHeeded(
    cfg: Config, requests: seq<Request>, ranges: seq<Network>, collectors: set<nat>, tables: Tables,
    events: seq<Event>)
    requires Launch(requests, ranges, collectors, tables).Some? && IssuesKnown(tables)
    requires Possible(cfg, Launch(requests, ranges, collectors, tables).value, events)
    requires events != [] && events[|events| - 1].Collected?
    ensures var i, o := events[|events| - 1].i, events[|events| - 1].outcome;
            var tasks := After(cfg, Launch(requests, ranges, collectors, tables).value, events).tasks;
            && i < |tasks|
            && (if Transient(o) && |Endings(events, i)| <= cfg.retries then tasks[i].phase == Sleeping
                else tasks[i].phase == Ended
                     && tasks[i].status == (match o
                                            case Returned(_, issues) => if issues == [] then Succeeded else Partial
                                            case Interrupted => Cancelled
                                            case _ => Failed))
  {
    var s := Launch(requests, ranges, collectors, tables).value;
    var before, e := events[..|events| - 1], events[|events| - 1];
    var b := After(cfg, s, before);
    LaunchIsOk(cfg, requests, ranges, collectors, tables);
    LaunchIsAtLaunch(cfg, requests, ranges, collectors, tables);
    TasksStay(cfg, s, before);
    hide Launch, Inv, AtLaunch;
    OutcomesDecideFrom(cfg, s, |tables.runs|, before, e.i);
    assert Endings(events, e.i) == Endings(before, e.i) + [Ending(e.outcome, e.now)];
    assert b.tasks[e.i].attempts == |Endings(before, e.i)| + 1;
    hide IssuesOf, NewTables, Follows, Endings;
  }

  /** A task that acquires the semaphore or wakes tries again, unless the cycle is being stopped: then it is
      cancelled without a further attempt. */
  lemma AttemptUnlessStopped(cfg: Config, s: State, events: seq<Event>)
    requires Possible(cfg, s, events) && events != []
    requires events[|events| - 1].Acquire? || events[|events| - 1].Wake?
    ensures var i, b := events[|events| - 1].i, After(cfg, s, events[..|events| - 1]);
            var tasks := After(cfg, s, events).tasks;
            && i < |b.tasks| == |tasks|
            && (!b.stop ==> tasks[i].phase == Collecting && tasks[i].attempts == b.tasks[i].attempts + 1)
            && (b.stop ==> tasks[i].phase == Ended && tasks[i].status == Cancelled
                           && tasks[i].attempts == b.tasks[i].attempts)
  {
    hide NewTables;
  }

  ghost predicate SomeoneCancelled(tasks: seq<Task>) {
    exists i :: 0 <= i < |tasks| && tasks[i].phase == Ended && tasks[i].status == Cancelled
  }

  lemma StopStep(cfg: Config, s: State, e: Event)
    requires Enabled(cfg, s, e)
    ensures var n := Next(cfg, s, e);
            var cancels := !e.SetStop? && Cancels(n.tasks[e.i]);
            && (SomeoneCancelled(n.tasks) <==> SomeoneCancelled(s.tasks) || cancels)
            && (n.stop <==> s.stop || e.SetStop? || cancels)
  {
    var n := Next(cfg, s, e);
    if !e.SetStop? {
      EndedStays(cfg, s, e);
      hide NewTask, Next, Enabled;
      if i :| 0 <= i < |s.tasks| && s.tasks[i].phase == Ended && s.tasks[i].status == Cancelled {
        assert n.tasks[i] == s.tasks[i];
      }
      if i :| 0 <= i < |n.tasks| && n.tasks[i].phase == Ended && n.tasks[i].status == Cancelled {
        assert i == e.i || s.tasks[i] == n.tasks[i];
      }
    }
  }

  predicate Cancels(t: Task) { t.phase == Ended && t.status == Cancelled }

  lemma EndedStays(cfg: Config, s: State, e: Event)
    requires Enabled(cfg, s, e) && !e.SetStop?
    ensures s.tasks[e.i].phase != Ended
    ensures Next(cfg, s, e).tasks == s.tasks[e.i := NewTask(cfg, s, e, s.tasks[e.i])]
    ensures Next(cfg, s, e).stop == (s.stop || Cancels(NewTask(cfg, s, e, s.tasks[e.i])))
  {
    hide NewTables, NewTask;
  }

  /** The cycle is being stopped from the moment it is asked to stop, or a task of it is cancelled. */
  lemma {:induction false} StopIsKnown(cfg: Config, s: State, events: seq<Event>)
    requires AtLaunch(s) && Possible(cfg, s, events)
    ensures After(cfg, s, events).stop <==> SetStop in events || SomeoneCancelled(After(cfg, s, events).tasks)
  {
    hide Next, Enabled, Cancels;
    if events == [] {
      NobodyCancelledAtFirst(s);
    } else {
      var before, e := events[..|events| - 1], events[|events| - 1];
      assert events == before + [e];
      StopIsKnown(cfg, s, before);
      StopStep(cfg, After(cfg, s, before), e);
    }
  }

  lemma NobodyCancelledAtFirst(s: State)
    requires AtLaunch(s)
    ensures !SomeoneCancelled(s.tasks)
  {
  }

  // ----- what the tables tell of a task

  /** The issues of a run, in the order in which they were stored. */
  function IssuesFor(issues: seq<Issue>, run: nat): seq<Issue> {
    if issues == [] then [] else
      IssuesFor(issues[..|issues| - 1], run)
      + if issues[|issues| - 1].run == run then [issues[|issues| - 1]] else []
  }

  /** What one outcome leaves in the issue table: an error one issue, a result those it reports. */
  ghost predicate Tells(run: nat, source: nat, e: Ending, told: seq<Issue>) {
    match e.outcome
    case Returned(_, flags) =>
      |told| == |flags|
      && forall k :: 0 <= k < |flags| ==> told[k] == Issue(run, Reported, flags[k], source, e.at)
    case TimedOut => told == [Issue(run, Timeout, true, source, e.at)]
    case Unauthorized => told == [Issue(run, Authentication, false, source, e.at)]
    case Retryable => told == [Issue(run, Transport, true, source, e.at)]
    case Refused => told == [Issue(run, Category.CollectorError, false, source, e.at)]
    case Crashed => told == [Issue(run, CollectorFailure, false, source, e.at)]
    case Interrupted => told == []
  }

  /** The issues of a run tell its outcomes one after the other. */
  ghost predicate TellAll(run: nat, source: nat, es: seq<Ending>, told: seq<Issue>) {
    if es == [] then told == [] else
      exists k :: 0 <= k <= |told| && TellAll(run, source, es[..|es| - 1], told[..k])
                  && Tells(run, source, es[|es| - 1], told[k..])
  }

  lemma {:induction false} ReportedAre(t: Task, flags: seq<bool>, now: int)
    ensures |ReportedIssues(t, flags, now)| == |flags|
    ensures forall k :: 0 <= k < |flags| ==>
              ReportedIssues(t, flags, now)[k] == Issue(t.run, Reported, flags[k], t.collector, now)
  {
    if flags != [] {
      ReportedAre(t, flags[..|flags| - 1], now);
    }
  }

  lemma OutcomeIsTold(t: Task, o: Outcome, now: int)
    ensures Tells(t.run, t.collector, Ending(o, now), IssuesOf(t, o, now))
  {
    if o.Returned? {
      ReportedAre(t, o.issues, now);
    }
  }

  lemma TellOneMore(run: nat, source: nat, es: seq<Ending>, told: seq<Issue>, e: Ending, more: seq<Issue>)
    requires TellAll(run, source, es, told) && Tells(run, source, e, more)
    ensures TellAll(run, source, es + [e], told + more)
  {
    assert (es + [e])[..|es|] == es && (told + more)[..|told|] == told && (told + more)[|told|..] == more;
  }

  lemma {:induction false} IssuesForAppend(a: seq<Issue>, b: seq<Issue>, run: nat)
    ensures IssuesFor(a + b, run) == IssuesFor(a, run) + IssuesFor(b, run)
  {
    if b == [] {
      assert a + b == a;
    } else {
      assert (a + b)[..|a + b| - 1] == a + b[..|b| - 1];
      IssuesForAppend(a, b[..|b| - 1], run);
    }
  }

  lemma {:induction false} IssuesForOwn(issues: seq<Issue>, run: nat, other: nat)
    requires forall k :: 0 <= k < |issues| ==> issues[k].run == run
    ensures IssuesFor(issues, other) == if other == run then issues else []
  {
    if issues != [] {
      IssuesForOwn(issues[..|issues| - 1], run, other);
      assert issues == issues[..|issues| - 1] + [issues[|issues| - 1]];
    }
  }

  lemma {:induction false} NoIssuesFor(issues: seq<Issue>, run: nat)
    requires forall k :: 0 <= k < |issues| ==> issues[k].run < run
    ensures IssuesFor(issues, run) == []
  {
    if issues != [] {
      NoIssuesFor(issues[..|issues| - 1], run);
    }
  }

  lemma IssuesGrow(cfg: Config, s: State, e: Event)
    requires Enabled(cfg, s, e) && !e.SetStop?
    ensures Next(cfg, s, e).tables.issues == s.tables.issues + NewIssues(e, s.tasks[e.i])
  {
    hide IssuesOf, NewTask;
    assert s.tables.issues + [] == s.tables.issues;
  }

  /** What an event adds to the issues of a run. */
  lemma IssuesStep(cfg: Config, s: State, e: Event, run: nat)
    requires Enabled(cfg, s, e) && !e.SetStop?
    ensures IssuesFor(Next(cfg, s, e).tables.issues, run)
         == IssuesFor(s.tables.issues, run)
            + if e.Collected? && s.tasks[e.i].run == run then IssuesOf(s.tasks[e.i], e.outcome, e.now) else []
  {
    hide IssuesOf, NewTask, IssuesFor, Next, Ready;
    var t := s.tasks[e.i];
    IssuesGrow(cfg, s, e);
    NewIssuesAreOwn(cfg, s, e, t);
    IssuesForOwn(NewIssues(e, t), t.run, run);
    IssuesForAppend(s.tables.issues, NewIssues(e, t), run);
  }

  /** The target and the time with which a task was started, and the time of the last event of a task. */
  datatype Beginning = Beginning(target: nat, at: int)

  function BeginningOf(events: seq<Event>, i: nat): Option<Beginning> {
    if events == [] then None else
      var e := events[|events| - 1];
      if e.Start? && e.i == i then Some(Beginning(e.target, e.now)) else BeginningOf(events[..|events| - 1], i)
  }

  function LastTime(events: seq<Event>, i: nat): Option<int> {
    if events == [] then None else
      var e := events[|events| - 1];
      if !e.SetStop? && !e.Drop? && e.i == i then Some(e.now) else LastTime(events[..|events| - 1], i)
  }

  /** The row of a task that was started has its collector, the target and time of its start, and, once it has
      ended, the time of its last event. */
  ghost predicate RowTells(row: Row, t: Task, events: seq<Event>, i: nat) {
    && row.collector == t.collector && BeginningOf(events, i) == Some(Beginning(row.target, row.startedAt))
    && row.finishedAt == if t.phase == Ended then LastTime(events, i) else None
  }

  ghost predicate Recorded(s: State, i: nat, events: seq<Event>) {
    i < |s.tasks| && Started(s.tasks[i]) ==>
      var t := s.tasks[i];
      && t.run < |s.tables.runs| && RowTells(s.tables.runs[t.run], t, events, i)
      && TellAll(t.run, t.collector, Endings(events, i), IssuesFor(s.tables.issues, t.run))
  }

  /** The row of the task that moves. */
  lemma OwnRowIs(cfg: Config, s: State, e: Event, base: nat)
    requires Inv(cfg, s, base) && Enabled(cfg, s, e) && !e.SetStop?
    ensures var t, n := s.tasks[e.i], Next(cfg, s, e);
            var u := NewTask(cfg, s, e, t);
            && n.tasks[e.i] == u && u.collector == t.collector
            && (e.Start? ==> u.run == |s.tables.runs| < |n.tables.runs|
                             && n.tables.runs[u.run] == Row(t.collector, e.target, Running, e.now, None, 0))
            && (!e.Start? && Started(u) ==>
                  && Started(t) && u.run == t.run < |s.tables.runs| <= |n.tables.runs|
                  && n.tables.runs[t.run] == if u.phase == Ended
                     then s.tables.runs[t.run].(status := u.status, finishedAt := Some(Time(e)), items := u.items)
                     else s.tables.runs[t.run])
  {
    assert RowOk(s.tables, base, s.tasks[e.i]) && PhaseOk(cfg, s.tasks[e.i]);
    RowsStep(cfg, s, e, base, s.tasks[e.i].run);
    StartedStays(cfg, s, e, s.tasks[e.i]);
    CollectorStays(cfg, s, e, s.tasks[e.i]);
    hide NewTask, PhaseOk, Inv, IssuesOf;
  }

  lemma CollectorStays(cfg: Config, s: State, e: Event, t: Task)
    ensures NewTask(cfg, s, e, t).collector == t.collector
  {
    hide IssuesOf;
  }

  /** The row of a task that does not move. */
  lemma OtherRowStays(cfg: Config, s: State, e: Event, base: nat, i: nat)
    requires Inv(cfg, s, base) && Enabled(cfg, s, e) && !e.SetStop? && i < |s.tasks| && i != e.i && Started(s.tasks[i])
    ensures var t, n := s.tasks[i], Next(cfg, s, e);
            && n.tasks[i] == t && t.run < |s.tables.runs| <= |n.tables.runs| && n.tables.runs[t.run] == s.tables.runs[t.run]
            && (e.Collected? ==> s.tasks[e.i].run != t.run)
  {
    assert RowOk(s.tables, base, s.tasks[e.i]) && PhaseOk(cfg, s.tasks[e.i]) && RowOk(s.tables, base, s.tasks[i]);
    RowsStep(cfg, s, e, base, s.tasks[i].run);
    hide NewTask, PhaseOk, NewTables;
  }

  lemma RecordedElsewhere(cfg: Config, s: State, e: Event, base: nat, i: nat, events: seq<Event>)
    requires Inv(cfg, s, base) && Enabled(cfg, s, e) && Recorded(s, i, events)
    requires e.SetStop? || (e.i != i && i < |s.tasks|)
    ensures Recorded(Next(cfg, s, e), i, events + [e])
  {
    assert (events + [e])[..|events|] == events;
    if !e.SetStop? && Started(s.tasks[i]) {
      OtherRowStays(cfg, s, e, base, i);
      IssuesStep(cfg, s, e, s.tasks[i].run);
      assert IssuesFor(s.tables.issues, s.tasks[i].run) + [] == IssuesFor(s.tables.issues, s.tasks[i].run);
    }
    hide NewTask, NewTables, IssuesFor, TellAll, Inv;
  }

  lemma HistoryStep(events: seq<Event>, e: Event)
    requires !e.SetStop? && !e.Drop?
    ensures LastTime(events + [e], e.i) == Some(e.now)
    ensures BeginningOf(events + [e], e.i) == if e.Start? then Some(Beginning(e.target, e.now)) else BeginningOf(events, e.i)
    ensures Endings(events + [e], e.i)
         == if e.Collected? then Endings(events, e.i) + [Ending(e.outcome, e.now)] else Endings(events, e.i)
  {
    assert (events + [e])[..|events|] == events;
  }

  lemma StartIsRecorded(cfg: Config, s: State, e: Event, base: nat, events: seq<Event>)
    requires Inv(cfg, s, base) && Enabled(cfg, s, e) && e.Start? && Endings(events, e.i) == []
    ensures Recorded(Next(cfg, s, e), e.i, events + [e])
  {
    OwnRowIs(cfg, s, e, base);
    NoIssuesFor(s.tables.issues, |s.tables.runs|);
    IssuesStep(cfg, s, e, |s.tables.runs|);
    hide Next, NewTask, Inv, Enabled, Endings, LastTime, BeginningOf, IssuesFor, Started;
    HistoryStep(events, e);
    var none: seq<Issue> := [];
    assert none + none == none;
  }

  lemma IssuesAreTold(cfg: Config, s: State, e: Event, events: seq<Event>)
    requires Enabled(cfg, s, e) && !e.SetStop?
    requires var t := s.tasks[e.i]; TellAll(t.run, t.collector, Endings(events, e.i), IssuesFor(s.tables.issues, t.run))
    ensures var t := s.tasks[e.i];
            TellAll(t.run, t.collector, Endings(events + [e], e.i), IssuesFor(Next(cfg, s, e).tables.issues, t.run))
  {
    var t := s.tasks[e.i];
    IssuesStep(cfg, s, e, t.run);
    hide Next, NewTask, Enabled, IssuesFor, IssuesOf, Tells, TellAll;
    var told := IssuesFor(s.tables.issues, t.run);
    assert told + [] == told;
    assert (events + [e])[..|events|] == events;
    if e.Collected? {
      OutcomeIsTold(t, e.outcome, e.now);
      TellOneMore(t.run, t.collector, Endings(events, e.i), told, Ending(e.outcome, e.now), IssuesOf(t, e.outcome, e.now));
    }
  }

  lemma MoveIsRecorded(cfg: Config, s: State, e: Event, base: nat, events: seq<Event>)
    requires Inv(cfg, s, base) && Enabled(cfg, s, e) && !e.SetStop? && !e.Start? && !e.Drop?
    requires Recorded(s, e.i, events) && Started(s.tasks[e.i])
    ensures Recorded(Next(cfg, s, e), e.i, events + [e])
  {
    EndedStays(cfg, s, e);
    OwnRowIs(cfg, s, e, base);
    IssuesAreTold(cfg, s, e, events);
    HistoryStep(events, e);
    StartedStays(cfg, s, e, s.tasks[e.i]);
    hide Next, NewTask, Inv, Endings, LastTime, BeginningOf, IssuesFor, TellAll;
  }

  lemma {:induction false} TasksAreRecordedFrom(cfg: Config, s: State, base: nat, events: seq<Event>, i: nat)
    requires Inv(cfg, s, base) && AtLaunch(s) && Possible(cfg, s, events) && i < |s.tasks|
    ensures Recorded(After(cfg, s, events), i, events)
    decreases |events|
  {
    hide Inv, NewTask, NewTables, Next, Enabled, Recorded;
    if events == [] {
      NothingRecordedAtFirst(s, i);
    } else {
      var before, e := events[..|events| - 1], events[|events| - 1];
      assert events == before + [e];
      TasksAreRecordedFrom(cfg, s, base, before, i);
      CycleInvariant(cfg, s, base, before);
      OutcomesDecideFrom(cfg, s, base, before, i);
      RecordedStep(cfg, After(cfg, s, before), e, base, i, before);
    }
  }

  lemma NothingRecordedAtFirst(s: State, i: nat)
    requires AtLaunch(s)
    ensures Recorded(s, i, [])
  {
  }

  lemma RecordedStep(cfg: Config, s: State, e: Event, base: nat, i: nat, events: seq<Event>)
    requires Inv(cfg, s, base) && Enabled(cfg, s, e) && Recorded(s, i, events) && i < |s.tasks|
    requires Follows(cfg, s.tasks[i], Endings(events, i))
    ensures Recorded(Next(cfg, s, e), i, events + [e])
  {
    hide Inv, Recorded;
    if e.SetStop? || e.i != i {
      RecordedElsewhere(cfg, s, e, base, i, events);
    } else if e.Start? {
      StartIsRecorded(cfg, s, e, base, events);
    } else if e.Drop? {
      DroppedIsNotRecorded(cfg, s, e, events);
    } else {
      MoveIsRecorded(cfg, s, e, base, events);
    }
  }

  lemma DroppedIsNotRecorded(cfg: Config, s: State, e: Event, events: seq<Event>)
    requires Enabled(cfg, s, e) && e.Drop?
    ensures Recorded(Next(cfg, s, e), e.i, events + [e])
  {
    hide NewTables;
  }

  lemma {:induction false} CollectorsStay(cfg: Config, s: State, events: seq<Event>, i: nat)
    requires i < |s.tasks|
    ensures |After(cfg, s, events).tasks| == |s.tasks| && After(cfg, s, events).tasks[i].collector == s.tasks[i].collector
  {
    hide NewTask, NewTables;
    if events != [] {
      var b, e := After(cfg, s, events[..|events| - 1]), events[|events| - 1];
      CollectorsStay(cfg, s, events[..|events| - 1], i);
      if !e.SetStop? && e.i < |b.tasks| {
        CollectorStays(cfg, b, e, b.tasks[e.i]);
      }
    }
  }

  lemma {:induction false} TaskOfRequest(requests: seq<Request>, i: nat)
    requires i < |requests|
    ensures |Tasks(requests)| == |requests| && Tasks(requests)[i].collector == requests[i].collector
  {
    TasksAreUnstarted(requests);
    var n := |requests| - 1;
    if i < n {
      TasksAreUnstarted(requests[..n]);
      TaskOfRequest(requests[..n], i);
      assert Tasks(requests)[i] == Tasks(requests[..n])[i];
    }
  }

  /** In every run of events from a launch, the row of each task that was started names the collector of its
      request, the target and time of its start and, once it has ended, the time of its last event; and its
      issues tell its outcomes, in order, with category, retryability, source and time. */
  lemma TablesTellOutcomes(
    cfg: Config, requests: seq<Request>, ranges: seq<Network>, collectors: set<nat>, tables: Tables,
    events: seq<Event>, i: nat)
    requires Launch(requests, ranges, collectors, tables).Some? && IssuesKnown(tables) && i < |requests|
    requires Possible(cfg, Launch(requests, ranges, collectors, tables).value, events)
    ensures var s := After(cfg, Launch(requests, ranges, collectors, tables).value, events);
            i < |s.tasks| && s.tasks[i].collector == requests[i].collector && Recorded(s, i, events)
  {
    var s := Launch(requests, ranges, collectors, tables).value;
    LaunchIsOk(cfg, requests, ranges, collectors, tables);
    LaunchIsAtLaunch(cfg, requests, ranges, collectors, tables);
    TaskOfRequest(requests, i);
    CollectorsStay(cfg, s, events, i);
    assert s.tasks == Tasks(requests);
    hide Launch, Possible, Inv, AtLaunch, Recorded, After, Tasks;
    TasksAreRecordedFrom(cfg, s, |tables.runs|, events, i);
  }
}
