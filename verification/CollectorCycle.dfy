/** One cycle of the collector orchestrator (`run`, `_run_one`, collectors.py) as a transition system:
    every request is a task, and an event is one stretch of a task between two awaits, in any order
    the scheduler likes. The repository's calls succeed; the run rows are those of RunRows. */
module CollectorCycle {
  import opened Options
  import opened Ipv4
  import opened RunRows

  datatype Config = Config(concurrency: nat, retries: nat)

  // ----- requests

  /** A target as text gives it: a host, or an address with a prefix, or neither (not IPv4). */
  datatype Target = Host(address: nat) | Cidr(address: nat, prefix: nat) | Unreadable
  datatype Request = Request(collector: nat, target: Target)

  function Requested(t: Target): Network {
    match t
    case Host(address) => Enclosing(address, 32)
    case Cidr(address, prefix) => Enclosing(address, prefix)
    case Unreadable => Network(0, 0)
  }

  predicate Readable(t: Target) {
    match t
    case Host(address) => address < ADDRESSES
    case Cidr(address, prefix) => address < ADDRESSES && prefix <= 32
    case Unreadable => false
  }

  /** `approve_target`, without rendering the approved network. */
  predicate Approved(t: Target, ranges: seq<Network>) {
    Readable(t) && exists i :: 0 <= i < |ranges| && SubnetOf(Requested(t), ranges[i])
  }

  predicate Acceptable(requests: seq<Request>, ranges: seq<Network>, collectors: set<nat>) {
    forall i :: 0 <= i < |requests| ==>
      Approved(requests[i].target, ranges) && requests[i].collector in collectors
  }

  // ----- tasks

  datatype Phase = Unstarted | Dropped | Waiting | Collecting | Sleeping | Ended
  datatype Task = Task(
    collector: nat, phase: Phase, run: nat, attempts: nat, errors: nat, reported: nat, items: nat, status: Status)

  /** How one call of `collect` under its timeout ends. */
  datatype Outcome =
    | Returned(items: nat, issues: seq<bool>)
    | TimedOut
    | Unauthorized
    | Retryable
    | Refused
    | Crashed
    | Interrupted

  datatype State = State(tasks: seq<Task>, stop: bool, tables: Tables)

  datatype Event =
    | Start(i: nat, target: nat, now: int)
    | Drop(i: nat)
    | Acquire(i: nat, now: int)
    | Collected(i: nat, outcome: Outcome, now: int)
    | Wake(i: nat, now: int)
    | Cancel(i: nat, now: int)
    | SetStop

  predicate Holds(t: Task) {
    t.phase == Collecting || t.phase == Sleeping
  }

  /** How many tasks hold the semaphore. */
  function Holders(tasks: seq<Task>): nat {
    if tasks == [] then 0 else
      Holders(tasks[..|tasks| - 1]) + if Holds(tasks[|tasks| - 1]) then 1 else 0
  }

  predicate Enabled(cfg: Config, s: State, e: Event) {
    e.SetStop? || (e.i < |s.tasks| && Ready(cfg, s, e, s.tasks[e.i].phase))
  }

  predicate Ready(cfg: Config, s: State, e: Event, p: Phase) {
    match e
    case Start(_, _, _) => p == Unstarted
    case Drop(_) => p == Unstarted
    case Acquire(_, _) => p == Waiting && Holders(s.tasks) < cfg.concurrency
    case Collected(_, _, _) => p == Collecting
    case Wake(_, _) => p == Sleeping
    case Cancel(_, _) => p == Waiting || p == Sleeping
    case SetStop => true
  }

  // ----- what an event does to one task, to the stop flag, and to the tables

  function NewIssue(t: Task, category: Category, retryable: bool, now: int): Issue {
    Issue(t.run, category, retryable, t.collector, now)
  }

  /** The issues a result carries, each with its own word on whether retrying may help. */
  function ReportedIssues(t: Task, issues: seq<bool>, now: int): seq<Issue> {
    if issues == [] then [] else
      ReportedIssues(t, issues[..|issues| - 1], now) + [NewIssue(t, Reported, issues[|issues| - 1], now)]
  }

  /** The issues an outcome records. */
  function IssuesOf(t: Task, o: Outcome, now: int): seq<Issue> {
    match o
    case Returned(_, issues) => ReportedIssues(t, issues, now)
    case TimedOut => [NewIssue(t, Timeout, true, now)]
    case Unauthorized => [NewIssue(t, Authentication, false, now)]
    case Retryable => [NewIssue(t, Transport, true, now)]
    case Refused => [NewIssue(t, Category.CollectorError, false, now)]
    case Crashed => [NewIssue(t, CollectorFailure, false, now)]
    case Interrupted => []
  }

  predicate Retries(cfg: Config, t: Task, o: Outcome) {
    (o.TimedOut? || o.Retryable?) && t.attempts <= cfg.retries
  }

  /** The status with which a task ends after an outcome that is not retried. */
  function FinalStatus(o: Outcome): Status {
    match o
    case Returned(_, issues) => if issues == [] then Succeeded else Partial
    case Interrupted => Cancelled
    case _ => Failed
  }

  /** The next attempt, unless the cycle is being stopped. */
  function Attempt(s: State, t: Task): Task {
    if s.stop then t.(phase := Ended, status := Cancelled) else t.(phase := Collecting, attempts := t.attempts + 1)
  }

  function NewTask(cfg: Config, s: State, e: Event, t: Task): Task {
    match e
    case Start(_, _, _) => t.(phase := Waiting, run := |s.tables.runs|)
    case Drop(_) => t.(phase := Dropped)
    case Acquire(_, _) => Attempt(s, t)
    case Wake(_, _) => Attempt(s, t)
    case Cancel(_, _) => t.(phase := Ended, status := Cancelled)
    case Collected(_, o, now) =>
      var u := t.(errors := t.errors + |IssuesOf(t, o, now)|);
      if Retries(cfg, t, o) then u.(phase := Sleeping)
      else if o.Returned? then u.(phase := Ended, status := FinalStatus(o), items := o.items, reported := |o.issues|)
      else u.(phase := Ended, status := FinalStatus(o))
    case SetStop => t
  }

  function Time(e: Event): int {
    if e.Drop? || e.SetStop? then 0 else e.now
  }

  function NewIssues(e: Event, t: Task): seq<Issue> {
    if e.Collected? then IssuesOf(t, e.outcome, e.now) else []
  }

  function NewTables(s: State, e: Event, t: Task, u: Task): Tables {
    if e.Start? then StartRun(s.tables, t.collector, e.target, e.now)
    else
      var recorded := s.tables.(issues := s.tables.issues + NewIssues(e, t));
      if u.phase == Ended then FinishRun(recorded, t.run, u.status, Time(e), u.items) else recorded
  }

  /** A task that is cancelled stops the others too. */
  function Next(cfg: Config, s: State, e: Event): State {
    if e.SetStop? || e.i >= |s.tasks| then s.(stop := s.stop || e.SetStop?) else
      var t := s.tasks[e.i];
      var u := NewTask(cfg, s, e, t);
      State(s.tasks[e.i := u], s.stop || (u.phase == Ended && u.status == Cancelled), NewTables(s, e, t, u))
  }

  /** The start of a cycle: refused as a whole, or one unstarted task for each request. */
  function Tasks(requests: seq<Request>): seq<Task> {
    if requests == [] then [] else
      Tasks(requests[..|requests| - 1]) + [Task(requests[|requests| - 1].collector, Unstarted, 0, 0, 0, 0, 0, Failed)]
  }

  function Launch(requests: seq<Request>, ranges: seq<Network>, collectors: set<nat>, tables: Tables): Option<State> {
    if Acceptable(requests, ranges, collectors) then Some(State(Tasks(requests), false, tables)) else None
  }
}
