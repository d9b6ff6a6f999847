/** The passive ingest pipeline (passive.py) as a transition system. One event is what runs between
    two awaits of one task; the scheduler picks any enabled event. `running` names the worker that
    is between two awaits, while no other task can move. */
module PassivePipeline {
  import opened Options
  import opened DedupeWindow

  datatype Config = Config(
    queueSize: nat, workerCount: nat, maxFrameBytes: nat, parsers: map<nat, nat>, dedupe: DedupeWindow.Config)
  datatype Frame = Frame(protocol: nat, size: nat, content: nat)

  /** One element of a parser's output: refused by normalisation, or a fact with its fingerprint. */
  datatype Item = Malformed | Fact(fingerprint: nat)

  /** A frame in a worker: parsers still to call, and output of the last one still to treat. */
  datatype Work = Work(frame: Frame, parsersLeft: nat, items: seq<Item>)
  datatype Worker = Idle | Handling(work: Work) | AtSink(work: Work) | Dead

  datatype Phase = Open | AwaitSubmitters | Joining | Cancelling | Stopped

  /** The counters of the pipeline (`_Counters`). */
  datatype Counters = Counters(
    submitted: nat, processed: nat, emitted: nat, duplicates: nat, parserFailures: nat, sinkFailures: nat,
    oversized: nat, unsupported: nat, rejected: nat, incomplete: int, queuePeak: nat)

  /** What the code does not record: which frames came in, and what became of them; how many items
      parsers produced, how many were malformed and how many were lost with an aborted frame. */
  datatype History = History(
    submitted: multiset<Frame>, processed: multiset<Frame>, abortedBySink: multiset<Frame>,
    abortedByStop: multiset<Frame>, discarded: multiset<Frame>, produced: nat, malformed: nat, lost: nat)

  datatype State = State(
    phase: Phase, accepting: bool, queue: seq<Frame>, unfinished: int,
    waiting: seq<Frame>, activeSubmitters: int, submissionsDone: bool,
    workers: seq<Worker>, running: Option<nat>, inFlight: int,
    dedupe: Window, counters: Counters, history: History)

  datatype Event =
    | Start
    | Submit(frame: Frame)
    | Put(k: nat)
    | GiveUp(k: nat)
    | SubmitNowait(frame: Frame)
    | Take(i: nat)
    | ParserFails(i: nat)
    | ParserYields(i: nat, items: seq<Item>)
    | RefuseItem(i: nat)
    | Classify(i: nat, now: int)
    | SinkReturns(i: nat)
    | SinkFails(i: nat)
    | SinkCancels(i: nat)
    | Finish(i: nat)
    | StopBegins
    | SubmittersSettled
    | Drained
    | TimedOut
    | CancelDelivered(i: nat)
    | Release

  const ZERO := Counters(0, 0, 0, 0, 0, 0, 0, 0, 0, 0, 0)
  const NOTHING := History(multiset{}, multiset{}, multiset{}, multiset{}, multiset{}, 0, 0, 0)

  function Initial(): State {
    State(Open, false, [], 0, [], 0, true, [], None, 0, Window([], 0), ZERO, NOTHING)
  }

  // ----- submission

  /** `_prepare_frame`: the counters after its checks, and whether a frame comes of it. */
  function Prepare(cfg: Config, c: Counters, f: Frame): (Counters, bool) {
    if f.protocol !in cfg.parsers then (c.(unsupported := c.unsupported + 1), false)
    else if f.size > cfg.maxFrameBytes then (c.(oversized := c.oversized + 1), false)
    else (c, true)
  }

  /** `put_nowait` followed by `_record_submission`. */
  function Enqueue(s: State, f: Frame): State {
    var depth := |s.queue| + 1;
    s.(queue := s.queue + [f],
       unfinished := s.unfinished + 1,
       counters := s.counters.(
         submitted := s.counters.submitted + 1,
         queuePeak := if depth > s.counters.queuePeak then depth else s.counters.queuePeak),
       history := s.history.(submitted := s.history.submitted + multiset{f}))
  }

  /** The `finally` of `submit`: one submitter fewer. */
  function Leave(s: State, k: nat): State
    requires k < |s.waiting|
  {
    s.(waiting := s.waiting[..k] + s.waiting[k + 1..],
       activeSubmitters := s.activeSubmitters - 1,
       submissionsDone := s.submissionsDone || s.activeSubmitters - 1 == 0)
  }

  // ----- workers

  function Set(s: State, i: nat, w: Worker): State
    requires i < |s.workers|
  {
    s.(workers := s.workers[i := w])
  }

  /** The `finally` of `_worker`: a frame leaves the worker. */
  function Done(s: State, i: nat, w: Worker): State
    requires i < |s.workers|
  {
    Set(s, i, w).(running := None, inFlight := s.inFlight - 1, unfinished := s.unfinished - 1)
  }

  predicate Active(s: State, i: nat) {
    i < |s.workers| && s.running == Some(i) && s.workers[i].Handling?
  }

  predicate Waiting(s: State, i: nat) {
    s.running.None? && i < |s.workers| && s.workers[i].AtSink?
  }

  /** The observation at the sink plus those still behind it. */
  function ItemsHeld(w: Worker): nat {
    match w
    case Idle => 0
    case Handling(work) => |work.items|
    case AtSink(work) => 1 + |work.items|
    case Dead => 0
  }

  /** A frame dies at its sink; the worker ends, and what it still held is lost. */
  function Abort(s: State, i: nat, byStop: bool): State
    requires i < |s.workers| && s.workers[i].AtSink?
  {
    var w := s.workers[i];
    var h := s.history.(lost := s.history.lost + ItemsHeld(w));
    Done(s, i, Dead)
      .(history := if byStop then h.(abortedByStop := h.abortedByStop + multiset{w.work.frame})
                   else h.(abortedBySink := h.abortedBySink + multiset{w.work.frame}))
  }

  // ----- the step relation

  predicate Enabled(cfg: Config, s: State, e: Event) {
    match e
    case Start => s.running.None? && s.phase != Stopped && (s.phase == Open || s.workers != [])
    case Submit(_) => s.running.None?
    case Put(k) => s.running.None? && k < |s.waiting| && |s.queue| < cfg.queueSize
    case GiveUp(k) => s.running.None? && k < |s.waiting|
    case SubmitNowait(_) => s.running.None?
    case Take(i) =>
      s.running.None? && s.phase != Cancelling && i < |s.workers| && s.workers[i].Idle? && s.queue != []
    case ParserFails(i) => Active(s, i) && s.workers[i].work.items == [] && s.workers[i].work.parsersLeft > 0
    case ParserYields(i, _) => Active(s, i) && s.workers[i].work.items == [] && s.workers[i].work.parsersLeft > 0
    case RefuseItem(i) => Active(s, i) && s.workers[i].work.items != [] && s.workers[i].work.items[0].Malformed?
    case Classify(i, _) => Active(s, i) && s.workers[i].work.items != [] && s.workers[i].work.items[0].Fact?
    case SinkReturns(i) => Waiting(s, i) && s.phase != Cancelling
    case SinkFails(i) => Waiting(s, i) && s.phase != Cancelling
    case SinkCancels(i) => Waiting(s, i) && s.phase != Cancelling
    case Finish(i) => Active(s, i) && s.workers[i].work.items == [] && s.workers[i].work.parsersLeft == 0
    case StopBegins => s.running.None? && s.phase == Open
    case SubmittersSettled => s.running.None? && s.phase == AwaitSubmitters && s.submissionsDone
    case Drained => s.running.None? && s.phase == Joining && s.unfinished == 0
    case TimedOut => s.running.None? && s.phase == Joining
    case CancelDelivered(i) =>
      s.running.None? && s.phase == Cancelling && i < |s.workers| && (s.workers[i].Idle? || s.workers[i].AtSink?)
    case Release => s.running.None? && s.phase == Cancelling && forall i :: 0 <= i < |s.workers| ==> s.workers[i].Dead?
  }

  function OnStart(cfg: Config, s: State): State {
    if s.workers != [] then s else
      s.(accepting := true, workers := seq(cfg.workerCount, _ => Idle))
  }

  /** `submit` up to its await: refused, or counted as an active submitter. */
  function OnSubmit(cfg: Config, s: State, f: Frame): State {
    if s.workers == [] || !s.accepting then s else
      var (counters, ok) := Prepare(cfg, s.counters, f);
      if !ok then s.(counters := counters) else
        s.(waiting := s.waiting + [f], activeSubmitters := s.activeSubmitters + 1, submissionsDone := false)
  }

  function OnPut(s: State, k: nat): State
    requires k < |s.waiting|
  {
    Enqueue(Leave(s, k), s.waiting[k])
  }

  function OnSubmitNowait(cfg: Config, s: State, f: Frame): State {
    if s.workers == [] || !s.accepting then s else
      var (counters, ok) := Prepare(cfg, s.counters, f);
      if !ok then s.(counters := counters)
      else if |s.queue| >= cfg.queueSize then s.(counters := counters.(rejected := counters.rejected + 1))
      else Enqueue(s, f)
  }

  function OnTake(cfg: Config, s: State, i: nat): State
    requires i < |s.workers| && s.queue != []
  {
    var f := s.queue[0];
    var parsers := if f.protocol in cfg.parsers then cfg.parsers[f.protocol] else 0;
    Set(s, i, Handling(Work(f, parsers, [])))
      .(queue := s.queue[1..], inFlight := s.inFlight + 1, running := Some(i))
  }

  function OnParserFails(s: State, i: nat): State
    requires Active(s, i) && s.workers[i].work.parsersLeft > 0
  {
    var w := s.workers[i].work;
    Set(s, i, Handling(w.(parsersLeft := w.parsersLeft - 1)))
      .(counters := s.counters.(parserFailures := s.counters.parserFailures + 1))
  }

  function OnParserYields(s: State, i: nat, items: seq<Item>): State
    requires Active(s, i) && s.workers[i].work.parsersLeft > 0
  {
    var w := s.workers[i].work;
    Set(s, i, Handling(w.(parsersLeft := w.parsersLeft - 1, items := items)))
      .(history := s.history.(produced := s.history.produced + |items|))
  }

  function OnRefuseItem(s: State, i: nat): State
    requires Active(s, i) && s.workers[i].work.items != []
  {
    var w := s.workers[i].work;
    Set(s, i, Handling(w.(items := w.items[1..])))
      .(counters := s.counters.(parserFailures := s.counters.parserFailures + 1),
        history := s.history.(malformed := s.history.malformed + 1))
  }

  /** The question put to the duplicate window about the first item of a worker. */
  function CallOf(s: State, i: nat, now: int): Call
    requires Active(s, i) && s.workers[i].work.items != [] && s.workers[i].work.items[0].Fact?
  {
    Call(now, s.workers[i].work.items[0].fingerprint)
  }

  function OnSuppress(s: State, i: nat): State
    requires Active(s, i) && s.workers[i].work.items != []
  {
    var w := s.workers[i].work;
    Set(s, i, Handling(w.(items := w.items[1..])))
      .(counters := s.counters.(duplicates := s.counters.duplicates + 1))
  }

  function OnOffer(s: State, i: nat): State
    requires Active(s, i) && s.workers[i].work.items != []
  {
    var w := s.workers[i].work;
    Set(s, i, AtSink(w.(items := w.items[1..]))).(running := None)
  }

  function OnClassify(cfg: Config, s: State, i: nat, now: int): State
    requires Active(s, i) && s.workers[i].work.items != [] && s.workers[i].work.items[0].Fact?
  {
    var call := CallOf(s, i, now);
    var t := if Answered(cfg.dedupe, s.dedupe, call) then OnSuppress(s, i) else OnOffer(s, i);
    t.(dedupe := Step(cfg.dedupe, s.dedupe, call))
  }

  function OnSinkReturns(s: State, i: nat): State
    requires i < |s.workers| && s.workers[i].AtSink?
  {
    Set(s, i, Handling(s.workers[i].work))
      .(running := Some(i), counters := s.counters.(emitted := s.counters.emitted + 1))
  }

  function OnSinkFails(s: State, i: nat): State
    requires i < |s.workers| && s.workers[i].AtSink?
  {
    Set(s, i, Handling(s.workers[i].work))
      .(running := Some(i), counters := s.counters.(sinkFailures := s.counters.sinkFailures + 1))
  }

  function OnFinish(s: State, i: nat): State
    requires Active(s, i)
  {
    Done(s, i, Idle)
      .(counters := s.counters.(processed := s.counters.processed + 1),
        history := s.history.(processed := s.history.processed + multiset{s.workers[i].work.frame}))
  }

  function OnCancelDelivered(s: State, i: nat): State
    requires i < |s.workers| && (s.workers[i].Idle? || s.workers[i].AtSink?)
  {
    if s.workers[i].Idle? then Set(s, i, Dead) else Abort(s, i, true)
  }

  function OnStopBegins(s: State): State { s.(phase := AwaitSubmitters, accepting := false) }

  function OnSettled(s: State): State { s.(phase := Joining) }

  function OnDrained(s: State): State { s.(phase := Cancelling) }

  function OnTimedOut(s: State): State {
    s.(phase := Cancelling,
       counters := s.counters.(incomplete := s.counters.incomplete + |s.queue| + s.inFlight))
  }

  function OnRelease(s: State): State {
    s.(phase := Stopped, workers := [], queue := [], unfinished := s.unfinished - |s.queue|,
       history := s.history.(discarded := s.history.discarded + multiset(s.queue)))
  }

  function Next(cfg: Config, s: State, e: Event): State
    requires Enabled(cfg, s, e)
  {
    match e
    case Start => OnStart(cfg, s)
    case Submit(f) => OnSubmit(cfg, s, f)
    case Put(k) => OnPut(s, k)
    case GiveUp(k) => Leave(s, k)
    case SubmitNowait(f) => OnSubmitNowait(cfg, s, f)
    case Take(i) => OnTake(cfg, s, i)
    case ParserFails(i) => OnParserFails(s, i)
    case ParserYields(i, items) => OnParserYields(s, i, items)
    case RefuseItem(i) => OnRefuseItem(s, i)
    case Classify(i, now) => OnClassify(cfg, s, i, now)
    case SinkReturns(i) => OnSinkReturns(s, i)
    case SinkFails(i) => OnSinkFails(s, i)
    case SinkCancels(i) => Abort(s, i, false)
    case Finish(i) => OnFinish(s, i)
    case StopBegins => OnStopBegins(s)
    case SubmittersSettled => OnSettled(s)
    case Drained => OnDrained(s)
    case TimedOut => OnTimedOut(s)
    case CancelDelivered(i) => OnCancelDelivered(s, i)
    case Release => OnRelease(s)
  }

  /** A run: every event is enabled where it happens. */
  ghost predicate IsRun(cfg: Config, states: seq<State>, events: seq<Event>) {
    && |states| == |events| + 1 && states[0] == Initial()
    && forall n :: 0 <= n < |events| ==>
         Enabled(cfg, states[n], events[n]) && states[n + 1] == Next(cfg, states[n], events[n])
  }

  // ----- sums over the workers

  ghost function Sum(weight: Worker -> nat, workers: seq<Worker>): nat {
    if workers == [] then 0 else
      Sum(weight, workers[..|workers| - 1]) + weight(workers[|workers| - 1])
  }

  predicate HasFrame(w: Worker) { w.Handling? || w.AtSink? }

  /** One for a worker with a frame. */
  function Load(w: Worker): nat { if HasFrame(w) then 1 else 0 }

  /** How many workers have this frame. */
  ghost function Holding(f: Frame, workers: seq<Worker>): nat {
    if workers == [] then 0 else
      Holding(f, workers[..|workers| - 1]) + Holds(f, workers[|workers| - 1])
  }

  function Holds(f: Frame, w: Worker): nat {
    if HasFrame(w) && w.work.frame == f then 1 else 0
  }

  lemma {:induction false} UpdateSum(weight: Worker -> nat, ws: seq<Worker>, i: nat, w: Worker)
    requires i < |ws|
    ensures Sum(weight, ws[i := w]) == Sum(weight, ws) - weight(ws[i]) + weight(w)
  {
    var n := |ws| - 1;
    if i == n {
      assert ws[i := w][..n] == ws[..n];
    } else {
      assert ws[i := w][..n] == ws[..n][i := w];
      UpdateSum(weight, ws[..n], i, w);
    }
  }

  lemma {:induction false} UpdateHolding(f: Frame, ws: seq<Worker>, i: nat, w: Worker)
    requires i < |ws|
    ensures Holding(f, ws[i := w]) == Holding(f, ws) - Holds(f, ws[i]) + Holds(f, w)
  {
    var n := |ws| - 1;
    if i == n {
      assert ws[i := w][..n] == ws[..n];
    } else {
      assert ws[i := w][..n] == ws[..n][i := w];
      UpdateHolding(f, ws[..n], i, w);
    }
  }

  lemma {:induction false} NoneHeld(f: Frame, ws: seq<Worker>)
    requires forall i :: 0 <= i < |ws| ==> ws[i].Idle? || ws[i].Dead?
    ensures Holding(f, ws) == 0
  {
    if ws != [] {
      NoneHeld(f, ws[..|ws| - 1]);
    }
  }

  lemma {:induction false} ZeroSum(weight: Worker -> nat, ws: seq<Worker>)
    requires forall i :: 0 <= i < |ws| ==> weight(ws[i]) == 0
    ensures Sum(weight, ws) == 0
  {
    if ws != [] {
      ZeroSum(weight, ws[..|ws| - 1]);
    }
  }

  lemma {:induction false} LoadBound(ws: seq<Worker>)
    ensures Sum(Load, ws) <= |ws|
  {
    if ws != [] {
      LoadBound(ws[..|ws| - 1]);
    }
  }

  // ----- the invariant

  /** Queue, gauges and flags agree, and only the running worker is between two awaits. */
  ghost predicate Consistent(cfg: Config, s: State) {
    && s.inFlight == Sum(Load, s.workers)
    && s.unfinished == |s.queue| + s.inFlight
    && |s.queue| <= s.counters.queuePeak <= cfg.queueSize
    && s.activeSubmitters == |s.waiting|
    && (s.submissionsDone <==> s.waiting == [])
    && (|s.workers| == cfg.workerCount || s.workers == [])
    && (s.running.Some? ==> s.running.value < |s.workers| && s.workers[s.running.value].Handling?)
    && (forall i :: 0 <= i < |s.workers| && s.workers[i].Handling? ==> s.running == Some(i))
  }

  /** Every submitted copy of a frame is in exactly one place. */
  ghost predicate FrameConserved(s: State, f: Frame) {
    s.history.submitted[f] == s.history.processed[f] + multiset(s.queue)[f] + Holding(f, s.workers)
      + s.history.abortedBySink[f] + s.history.abortedByStop[f] + s.history.discarded[f]
  }

  ghost predicate FramesConserved(s: State) {
    forall f :: FrameConserved(s, f)
  }

  /** The counters count what they say, and every item a parser produced is accounted for. */
  ghost predicate Counted(s: State) {
    && s.counters.submitted == |s.history.submitted|
    && s.counters.processed == |s.history.processed|
    && s.counters.submitted == s.counters.processed + |s.queue| + s.inFlight
         + |s.history.abortedBySink| + |s.history.abortedByStop| + |s.history.discarded|
    && s.history.produced == s.counters.emitted + s.counters.duplicates + s.counters.sinkFailures
         + s.history.malformed + s.history.lost + Sum(ItemsHeld, s.workers)
  }

  /** `stop` is past its wait for submitters. */
  predicate Settled(s: State) { s.phase == Joining || s.phase == Cancelling || s.phase == Stopped }

  /** The stop protocol: what each phase has already settled. */
  ghost predicate Protocol(s: State) {
    && (s.phase != Open ==> !s.accepting)
    && (Settled(s) ==> s.waiting == [])
    && (s.phase == Cancelling || s.phase == Stopped ==> s.running.None?)
    && (s.phase == Open || s.phase == AwaitSubmitters || s.phase == Joining ==>
          s.counters.incomplete == 0 && |s.history.abortedByStop| == 0)
    && (s.phase != Stopped ==> |s.history.discarded| == 0)
    && (s.phase == Cancelling ==> s.counters.incomplete == |s.queue| + s.inFlight + |s.history.abortedByStop|)
    && (s.phase == Stopped ==>
          s.queue == [] && s.workers == [] &&
          s.counters.incomplete == |s.history.abortedByStop| + |s.history.discarded|)
  }

  ghost predicate Invariant(cfg: Config, s: State) {
    Consistent(cfg, s) && FramesConserved(s) && Counted(s) && Protocol(s)
  }

  lemma InitialInvariant(cfg: Config)
    ensures Invariant(cfg, Initial())
  {
  }

  // ----- every event keeps the invariant

  /** The sums after one worker changed. */
  lemma WorkerChange(ws: seq<Worker>, i: nat, w: Worker)
    requires i < |ws|
    ensures Sum(Load, ws[i := w]) == Sum(Load, ws) - Load(ws[i]) + Load(w)
    ensures Sum(ItemsHeld, ws[i := w]) == Sum(ItemsHeld, ws) - ItemsHeld(ws[i]) + ItemsHeld(w)
  {
    UpdateSum(Load, ws, i, w);
    UpdateSum(ItemsHeld, ws, i, w);
  }

  lemma StartKeeps(cfg: Config, s: State)
    requires Invariant(cfg, s) && Enabled(cfg, s, Start)
    ensures Invariant(cfg, OnStart(cfg, s))
  {
    if s.workers == [] {
      var t := OnStart(cfg, s);
      ZeroSum(Load, t.workers);
      ZeroSum(ItemsHeld, t.workers);
      forall f ensures FrameConserved(t, f) {
        assert FrameConserved(s, f);
        NoneHeld(f, t.workers);
      }
    }
  }

  lemma SubmitKeeps(cfg: Config, s: State, f: Frame)
    requires Invariant(cfg, s)
    ensures Invariant(cfg, OnSubmit(cfg, s, f))
  {
    var t := OnSubmit(cfg, s, f);
    forall g ensures FrameConserved(t, g) {
      assert FrameConserved(s, g);
    }
    hide FrameConserved;
  }

  lemma EnqueueKeeps(cfg: Config, s: State, f: Frame)
    requires Invariant(cfg, s) && |s.queue| < cfg.queueSize && !Settled(s)
    ensures Invariant(cfg, Enqueue(s, f))
  {
    var t := Enqueue(s, f);
    forall g ensures FrameConserved(t, g) {
      assert FrameConserved(s, g);
    }
    hide FrameConserved;
  }

  lemma LeaveKeeps(cfg: Config, s: State, k: nat)
    requires Invariant(cfg, s) && k < |s.waiting|
    ensures Invariant(cfg, Leave(s, k))
  {
    forall g ensures FrameConserved(Leave(s, k), g) {
      assert FrameConserved(s, g);
    }
    hide FrameConserved;
  }

  lemma PutKeeps(cfg: Config, s: State, k: nat)
    requires Invariant(cfg, s) && k < |s.waiting| && |s.queue| < cfg.queueSize
    ensures Invariant(cfg, OnPut(s, k))
  {
    assert !Settled(s);
    hide Invariant;
    LeaveKeeps(cfg, s, k);
    EnqueueKeeps(cfg, Leave(s, k), s.waiting[k]);
  }

  lemma CountersOnlyKeeps(cfg: Config, s: State, c: Counters)
    requires Invariant(cfg, s)
    requires c == s.counters.(unsupported := c.unsupported, oversized := c.oversized, rejected := c.rejected)
    ensures Invariant(cfg, s.(counters := c))
  {
    forall g ensures FrameConserved(s.(counters := c), g) {
      assert FrameConserved(s, g);
    }
    hide FrameConserved;
  }

  lemma SubmitNowaitKeeps(cfg: Config, s: State, f: Frame)
    requires Invariant(cfg, s)
    ensures Invariant(cfg, OnSubmitNowait(cfg, s, f))
  {
    assert s.accepting ==> !Settled(s);
    hide Invariant, Enqueue;
    if s.workers != [] && s.accepting {
      if Prepare(cfg, s.counters, f).1 && |s.queue| < cfg.queueSize {
        EnqueueKeeps(cfg, s, f);
      } else {
        CountersOnlyKeeps(cfg, s, OnSubmitNowait(cfg, s, f).counters);
      }
    }
  }

  lemma TakeConserves(cfg: Config, s: State, i: nat)
    requires FramesConserved(s) && Enabled(cfg, s, Take(i))
    ensures FramesConserved(OnTake(cfg, s, i))
  {
    var t := OnTake(cfg, s, i);
    forall f ensures FrameConserved(t, f) {
      assert FrameConserved(s, f);
      UpdateHolding(f, s.workers, i, t.workers[i]);
      assert s.queue == [s.queue[0]] + s.queue[1..];
    }
  }

  lemma TakeKeeps(cfg: Config, s: State, i: nat)
    requires Invariant(cfg, s) && Enabled(cfg, s, Take(i))
    ensures Invariant(cfg, OnTake(cfg, s, i))
  {
    TakeConserves(cfg, s, i);
    WorkerChange(s.workers, i, OnTake(cfg, s, i).workers[i]);
    hide FramesConserved, Sum;
  }

  /** A worker goes on with its frame: what it holds and what is counted change together. */
  predicate CarriesOn(s: State, t: State, i: nat) {
    && i < |s.workers| == |t.workers| && HasFrame(s.workers[i]) && HasFrame(t.workers[i])
    && s.workers[i].work.frame == t.workers[i].work.frame
    && t == s.(workers := s.workers[i := t.workers[i]], running := t.running, counters := t.counters,
               history := s.history.(produced := t.history.produced, malformed := t.history.malformed))
    && t.counters == s.counters.(
         emitted := t.counters.emitted, duplicates := t.counters.duplicates,
         parserFailures := t.counters.parserFailures, sinkFailures := t.counters.sinkFailures)
    && t.history.produced - Treated(t) - ItemsHeld(t.workers[i])
       == s.history.produced - Treated(s) - ItemsHeld(s.workers[i])
  }

  /** The items whose treatment has ended. */
  function Treated(s: State): nat {
    s.counters.emitted + s.counters.duplicates + s.counters.sinkFailures + s.history.malformed
  }

  lemma CarryingOnConserves(s: State, t: State, i: nat)
    requires FramesConserved(s) && CarriesOn(s, t, i)
    ensures FramesConserved(t)
  {
    forall f ensures FrameConserved(t, f) {
      assert FrameConserved(s, f);
      UpdateHolding(f, s.workers, i, t.workers[i]);
    }
  }

  lemma CarryingOnKeeps(cfg: Config, s: State, t: State, i: nat)
    requires Invariant(cfg, s) && CarriesOn(s, t, i)
    requires s.phase != Cancelling && (s.running.None? || s.running == Some(i))
    requires t.running == if t.workers[i].Handling? then Some(i) else None
    ensures Invariant(cfg, t)
  {
    CarryingOnConserves(s, t, i);
    WorkerChange(s.workers, i, t.workers[i]);
    hide FramesConserved, Sum;
  }

  /** The steps of a worker between taking its frame and leaving it, but for the duplicate window. */
  lemma WorkKeeps(cfg: Config, s: State, e: Event)
    requires e.ParserFails? || e.ParserYields? || e.RefuseItem? || e.SinkReturns? || e.SinkFails?
    requires Invariant(cfg, s) && Enabled(cfg, s, e)
    ensures Invariant(cfg, Next(cfg, s, e))
  {
    assert s.running.Some? ==> s.phase != Cancelling;
    hide Invariant;
    CarryingOnKeeps(cfg, s, Next(cfg, s, e), e.i);
  }

  lemma DedupeOnlyKeeps(cfg: Config, s: State, w: Window)
    requires Invariant(cfg, s)
    ensures Invariant(cfg, s.(dedupe := w))
  {
    forall f ensures FrameConserved(s.(dedupe := w), f) {
      assert FrameConserved(s, f);
    }
    hide FrameConserved;
  }

  lemma ClassifyKeeps(cfg: Config, s: State, i: nat, now: int)
    requires Invariant(cfg, s) && Enabled(cfg, s, Classify(i, now))
    ensures Invariant(cfg, OnClassify(cfg, s, i, now))
  {
    assert s.phase != Cancelling;
    hide Invariant, Step, Answered;
    var call := CallOf(s, i, now);
    var t := if Answered(cfg.dedupe, s.dedupe, call) then OnSuppress(s, i) else OnOffer(s, i);
    CarryingOnKeeps(cfg, s, t, i);
    DedupeOnlyKeeps(cfg, t, Step(cfg.dedupe, s.dedupe, call));
  }

  lemma AbortConserves(s: State, i: nat, byStop: bool)
    requires FramesConserved(s) && i < |s.workers| && s.workers[i].AtSink?
    ensures FramesConserved(Abort(s, i, byStop))
  {
    var t := Abort(s, i, byStop);
    forall f ensures FrameConserved(t, f) {
      assert FrameConserved(s, f);
      UpdateHolding(f, s.workers, i, Dead);
      hide Holding;
    }
  }

  lemma SinkCancelsKeeps(cfg: Config, s: State, i: nat)
    requires Invariant(cfg, s) && Enabled(cfg, s, SinkCancels(i))
    ensures Invariant(cfg, Abort(s, i, false))
  {
    AbortConserves(s, i, false);
    WorkerChange(s.workers, i, Dead);
    hide FramesConserved, Sum;
  }

  lemma StopAbortKeeps(cfg: Config, s: State, i: nat)
    requires Invariant(cfg, s) && s.phase == Cancelling && i < |s.workers| && s.workers[i].AtSink?
    ensures Invariant(cfg, Abort(s, i, true))
  {
    AbortConserves(s, i, true);
    WorkerChange(s.workers, i, Dead);
    hide FramesConserved, Sum;
  }

  lemma IdleCancelKeeps(cfg: Config, s: State, i: nat)
    requires Invariant(cfg, s) && s.phase == Cancelling && i < |s.workers| && s.workers[i].Idle?
    ensures Invariant(cfg, Set(s, i, Dead))
  {
    var t := Set(s, i, Dead);
    forall f ensures FrameConserved(t, f) {
      assert FrameConserved(s, f);
      UpdateHolding(f, s.workers, i, Dead);
    }
    WorkerChange(s.workers, i, Dead);
    hide FrameConserved, Sum;
  }

  lemma CancelDeliveredKeeps(cfg: Config, s: State, i: nat)
    requires Invariant(cfg, s) && Enabled(cfg, s, CancelDelivered(i))
    ensures Invariant(cfg, OnCancelDelivered(s, i))
  {
    hide Invariant, Abort;
    if s.workers[i].Idle? {
      IdleCancelKeeps(cfg, s, i);
    } else {
      StopAbortKeeps(cfg, s, i);
    }
  }

  lemma FinishConserves(cfg: Config, s: State, i: nat)
    requires FramesConserved(s) && Enabled(cfg, s, Finish(i))
    ensures FramesConserved(OnFinish(s, i))
  {
    var t := OnFinish(s, i);
    forall f ensures FrameConserved(t, f) {
      assert FrameConserved(s, f);
      UpdateHolding(f, s.workers, i, t.workers[i]);
    }
  }

  lemma FinishKeeps(cfg: Config, s: State, i: nat)
    requires Invariant(cfg, s) && Enabled(cfg, s, Finish(i))
    ensures Invariant(cfg, OnFinish(s, i))
  {
    FinishConserves(cfg, s, i);
    WorkerChange(s.workers, i, OnFinish(s, i).workers[i]);
    hide FramesConserved, Sum;
  }

  lemma ReleaseKeeps(cfg: Config, s: State)
    requires Invariant(cfg, s) && Enabled(cfg, s, Release)
    ensures Invariant(cfg, OnRelease(s))
  {
    ZeroSum(Load, s.workers);
    ZeroSum(ItemsHeld, s.workers);
    forall f ensures FrameConserved(OnRelease(s), f) {
      assert FrameConserved(s, f);
      NoneHeld(f, s.workers);
    }
  }

  lemma StopKeeps(cfg: Config, s: State, e: Event)
    requires Invariant(cfg, s) && Enabled(cfg, s, e)
    requires e.StopBegins? || e.SubmittersSettled? || e.Drained? || e.TimedOut?
    ensures Invariant(cfg, Next(cfg, s, e))
  {
    var t := Next(cfg, s, e);
    forall f ensures FrameConserved(t, f) {
      assert FrameConserved(s, f);
    }
    hide FrameConserved;
  }

  lemma StepKeeps(cfg: Config, s: State, e: Event)
    requires Invariant(cfg, s) && Enabled(cfg, s, e)
    ensures Invariant(cfg, Next(cfg, s, e))
  {
    hide Invariant, OnStart, OnSubmit, OnPut, Leave, OnSubmitNowait, OnTake, OnParserFails, OnParserYields,
      OnRefuseItem, OnClassify, OnSinkReturns, OnSinkFails, Abort, OnFinish, OnCancelDelivered,
      OnTimedOut, OnRelease;
    match e {
      case Start => StartKeeps(cfg, s);
      case Submit(f) => SubmitKeeps(cfg, s, f);
      case Put(k) => PutKeeps(cfg, s, k);
      case GiveUp(k) => LeaveKeeps(cfg, s, k);
      case SubmitNowait(f) => SubmitNowaitKeeps(cfg, s, f);
      case Take(i) => TakeKeeps(cfg, s, i);
      case ParserFails(_) => WorkKeeps(cfg, s, e);
      case ParserYields(_, _) => WorkKeeps(cfg, s, e);
      case RefuseItem(_) => WorkKeeps(cfg, s, e);
      case Classify(i, now) => ClassifyKeeps(cfg, s, i, now);
      case SinkReturns(_) => WorkKeeps(cfg, s, e);
      case SinkFails(_) => WorkKeeps(cfg, s, e);
      case SinkCancels(i) => SinkCancelsKeeps(cfg, s, i);
      case Finish(i) => FinishKeeps(cfg, s, i);
      case CancelDelivered(i) => CancelDeliveredKeeps(cfg, s, i);
      case StopBegins => StopKeeps(cfg, s, e);
      case SubmittersSettled => StopKeeps(cfg, s, e);
      case Drained => StopKeeps(cfg, s, e);
      case TimedOut => StopKeeps(cfg, s, e);
      case Release => ReleaseKeeps(cfg, s);
    }
  }

  // ----- theorems over every run

  lemma {:induction false} ReachableInvariant(cfg: Config, states: seq<State>, events: seq<Event>, n: nat)
    requires IsRun(cfg, states, events) && n < |states|
    ensures Invariant(cfg, states[n])
  {
    hide Invariant, Next;
    if n == 0 {
      InitialInvariant(cfg);
    } else {
      ReachableInvariant(cfg, states, events, n - 1);
      assert states[n - 1 + 1] == Next(cfg, states[n - 1], events[n - 1]);
      StepKeeps(cfg, states[n - 1], events[n - 1]);
    }
  }

  /** In every reachable state of every interleaving each submitted frame is processed, queued, in
      flight or lost, once; and the bounds on queue and workers hold. */
  lemma FramesAreConserved(cfg: Config, states: seq<State>, events: seq<Event>, n: nat)
    requires IsRun(cfg, states, events) && n < |states|
    ensures FramesConserved(states[n]) && Counted(states[n])
    ensures |states[n].queue| <= states[n].counters.queuePeak <= cfg.queueSize
    ensures 0 <= states[n].inFlight <= cfg.workerCount
  {
    ReachableInvariant(cfg, states, events, n);
    LoadBound(states[n].workers);
  }

  /** Once `stop` is past its wait for submitters, no frame is enqueued any more. */
  lemma {:induction false} NothingEnqueuedOnceSettled(
    cfg: Config, states: seq<State>, events: seq<Event>, n: nat, m: nat)
    requires IsRun(cfg, states, events) && n <= m < |states| && Settled(states[n])
    ensures Settled(states[m]) && states[m].history.submitted == states[n].history.submitted
    ensures states[m].counters.submitted == states[n].counters.submitted
  {
    hide Invariant, Next;
    if n < m {
      NothingEnqueuedOnceSettled(cfg, states, events, n, m - 1);
      ReachableInvariant(cfg, states, events, m - 1);
      assert states[m - 1 + 1] == Next(cfg, states[m - 1], events[m - 1]);
      SettledStep(cfg, states[m - 1], events[m - 1]);
    }
  }

  lemma SettledStep(cfg: Config, s: State, e: Event)
    requires Invariant(cfg, s) && Enabled(cfg, s, e) && Settled(s)
    ensures Settled(Next(cfg, s, e))
    ensures Next(cfg, s, e).history.submitted == s.history.submitted
    ensures Next(cfg, s, e).counters.submitted == s.counters.submitted
  {
    assert s.waiting == [] && !s.accepting;
    hide Invariant, Step, Answered;
  }

  /** When `stop` has completed, drained or timed out, every submitted frame is processed or counted
      as incomplete, except those a sink aborted by raising a cancellation of its own: the two
      counters add up exactly if no sink did that. */
  lemma StopAccountsForEveryFrame(cfg: Config, states: seq<State>, events: seq<Event>, n: nat)
    requires IsRun(cfg, states, events) && n < |states| && states[n].phase == Stopped
    ensures states[n].queue == [] && states[n].inFlight == 0
    ensures states[n].counters.submitted == states[n].counters.processed + states[n].counters.incomplete
              + |states[n].history.abortedBySink|
    ensures states[n].counters.submitted == states[n].counters.processed + states[n].counters.incomplete
       <==> states[n].history.abortedBySink == multiset{}
  {
    ReachableInvariant(cfg, states, events, n);
  }

  /** One more event makes a longer run. */
  lemma Continued(cfg: Config, states: seq<State>, events: seq<Event>, e: Event)
    returns (longer: seq<State>, more: seq<Event>)
    requires IsRun(cfg, states, events) && Enabled(cfg, states[|events|], e)
    ensures IsRun(cfg, longer, more) && |longer| == |more| + 1 && longer[|more|] == Next(cfg, states[|events|], e)
  {
    hide Enabled, Next;
    longer, more := states + [Next(cfg, states[|events|], e)], events + [e];
    forall n | 0 <= n < |more|
      ensures Enabled(cfg, longer[n], more[n]) && longer[n + 1] == Next(cfg, longer[n], more[n])
    {
      assert n < |events| ==> longer[n] == states[n] && longer[n + 1] == states[n + 1];
    }
  }

  const SMALL := Config.Config(1, 1, 1, map[0 := 1], DedupeWindow.Config.Config(0, 1))

  /** One worker, one frame submitted and taken, and nothing settled yet. */
  predicate OneTaken(s: State, w: Worker, running: Option<nat>) {
    && s.phase == Open && s.accepting && s.queue == [] && s.waiting == [] && s.submissionsDone
    && s.workers == [w] && s.running == running
    && s.inFlight == s.unfinished == 1 && s.counters.submitted == 1
    && s.counters.processed == 0 && s.counters.incomplete == 0
  }

  lemma OneFrameTaken() returns (states: seq<State>, events: seq<Event>)
    ensures IsRun(SMALL, states, events) && |states| == |events| + 1
    ensures OneTaken(states[|events|], Handling(Work(Frame(0, 1, 0), 1, [])), Some(0))
  {
    states, events := [Initial()], [];
    assert IsRun(SMALL, states, events);
    hide IsRun;
    states, events := Continued(SMALL, states, events, Start);
    assert states[|events|] == Initial().(accepting := true, workers := [Idle]);
    states, events := Continued(SMALL, states, events, SubmitNowait(Frame(0, 1, 0)));
    states, events := Continued(SMALL, states, events, Take(0));
  }

  lemma OneItemOffered() returns (states: seq<State>, events: seq<Event>)
    ensures IsRun(SMALL, states, events) && |states| == |events| + 1
    ensures OneTaken(states[|events|], AtSink(Work(Frame(0, 1, 0), 0, [])), None)
  {
    states, events := OneFrameTaken();
    hide IsRun;
    states, events := Continued(SMALL, states, events, ParserYields(0, [Fact(7)]));
    assert OneTaken(states[|events|], Handling(Work(Frame(0, 1, 0), 0, [Fact(7)])), Some(0));
    assert [Fact(7)][1..] == [];
    states, events := Continued(SMALL, states, events, Classify(0, 0));
  }

  /** A run in which the counters do not add up: one frame, whose observation the sink answers with a
      cancellation of its own, and then a stop that drains at once. */
  lemma CountersCanDisagree() returns (states: seq<State>, events: seq<Event>)
    ensures IsRun(SMALL, states, events) && |states| == |events| + 1
    ensures var s := states[|events|];
            s.phase == Stopped && s.counters.submitted == 1 && s.counters.processed == 0 && s.counters.incomplete == 0
  {
    states, events := OneItemOffered();
    hide IsRun;
    states, events := Continued(SMALL, states, events, SinkCancels(0));
    assert states[|events|].workers == [Dead];
    states, events := Continued(SMALL, states, events, StopBegins);
    states, events := Continued(SMALL, states, events, SubmittersSettled);
    states, events := Continued(SMALL, states, events, Drained);
    states, events := Continued(SMALL, states, events, Release);
  }

  /** After a stop that counted nothing incomplete, no frame was dropped: the submitted frames are
      exactly the processed ones and those aborted by a sink. */
  lemma CleanStopProcessedEverything(cfg: Config, states: seq<State>, events: seq<Event>, n: nat)
    requires IsRun(cfg, states, events) && n < |states|
    requires states[n].phase == Stopped && states[n].counters.incomplete == 0
    ensures states[n].history.submitted == states[n].history.processed + states[n].history.abortedBySink
  {
    var h := states[n].history;
    ReachableInvariant(cfg, states, events, n);
    assert h.abortedByStop == multiset{} && h.discarded == multiset{};
    forall f ensures h.submitted[f] == (h.processed + h.abortedBySink)[f] {
      assert FrameConserved(states[n], f);
      assert Holding(f, []) == 0;
    }
  }

  /** While workers are being cancelled the stop can always go on, and each delivered cancellation
      leaves fewer live workers, so it ends. */
  lemma CancellationProgresses(cfg: Config, states: seq<State>, events: seq<Event>, n: nat)
    requires IsRun(cfg, states, events) && n < |states| && states[n].phase == Cancelling
    ensures Enabled(cfg, states[n], Release) || exists i :: Enabled(cfg, states[n], CancelDelivered(i))
    ensures forall i :: Enabled(cfg, states[n], CancelDelivered(i)) ==>
              Sum(Live, Next(cfg, states[n], CancelDelivered(i)).workers) < Sum(Live, states[n].workers)
  {
    hide FramesConserved, Counted, OnCancelDelivered, Sum;
    var s := states[n];
    ReachableInvariant(cfg, states, events, n);
    if !Enabled(cfg, s, Release) {
      var i :| 0 <= i < |s.workers| && !s.workers[i].Dead?;
      assert !s.workers[i].Handling?;
      assert Enabled(cfg, s, CancelDelivered(i));
    }
    forall i | Enabled(cfg, s, CancelDelivered(i))
      ensures Sum(Live, Next(cfg, s, CancelDelivered(i)).workers) < Sum(Live, s.workers)
    {
      CancelKills(s, i);
    }
  }

  lemma CancelKills(s: State, i: nat)
    requires i < |s.workers| && (s.workers[i].Idle? || s.workers[i].AtSink?)
    ensures Sum(Live, OnCancelDelivered(s, i).workers) < Sum(Live, s.workers)
  {
    UpdateSum(Live, s.workers, i, Dead);
  }

  function Live(w: Worker): nat { if w.Dead? then 0 else 1 }

  // ----- when the wait for submitters never ends

  /** Every worker has died of a cancellation by the sink, and a submitter waits for room in a full queue. */
  predicate Stuck(cfg: Config, s: State) {
    && s.phase == AwaitSubmitters && s.running.None? && s.waiting != [] && |s.queue| == cfg.queueSize
    && forall i :: 0 <= i < |s.workers| ==> s.workers[i].Dead?
  }

  lemma StuckChangesNothing(cfg: Config, s: State, e: Event)
    requires Invariant(cfg, s) && Stuck(cfg, s) && Enabled(cfg, s, e) && !e.GiveUp?
    ensures Next(cfg, s, e) == s
  {
    assert !s.accepting && !s.submissionsDone;
    hide Invariant;
  }

  /** A worker between two awaits always has a step that changes something. */
  lemma RunningGoesOn(cfg: Config, s: State, i: nat) returns (e: Event)
    requires Active(s, i)
    ensures !e.GiveUp? && Enabled(cfg, s, e) && Next(cfg, s, e) != s
  {
    var w := s.workers[i].work;
    if w.items == [] {
      e := if w.parsersLeft > 0 then ParserFails(i) else Finish(i);
      assert e.Finish? ==> Next(cfg, s, e).counters.processed == s.counters.processed + 1;
    } else {
      e := if w.items[0].Malformed? then RefuseItem(i) else Classify(i, 0);
      hide Step, Answered;
      assert Next(cfg, s, e).workers[i] != s.workers[i];
    }
  }

  lemma NotStuckGoesOn(cfg: Config, s: State) returns (e: Event)
    requires Invariant(cfg, s) && s.phase == AwaitSubmitters && !Stuck(cfg, s) && cfg.queueSize >= 1
    ensures !e.GiveUp? && Enabled(cfg, s, e) && Next(cfg, s, e) != s
  {
    hide FramesConserved, Counted;
    if s.running.Some? {
      e := RunningGoesOn(cfg, s, s.running.value);
    } else if s.waiting == [] {
      e := SubmittersSettled;
    } else if |s.queue| < cfg.queueSize {
      e := Put(0);
      assert Next(cfg, s, e).unfinished == s.unfinished + 1;
    } else {
      var i :| 0 <= i < |s.workers| && !s.workers[i].Dead?;
      assert !s.workers[i].Handling?;
      e := if s.workers[i].Idle? then Take(i) else SinkReturns(i);
      assert Next(cfg, s, e).workers[i].Handling?;
    }
  }

  /** While `stop` waits for submitters, no step but that of a submitter who gives up changes anything, if and
      only if every worker has died and a submitter waits for room in a full queue. */
  lemma WaitStallsExactly(cfg: Config, states: seq<State>, events: seq<Event>, n: nat)
    requires IsRun(cfg, states, events) && n < |states| && states[n].phase == AwaitSubmitters && cfg.queueSize >= 1
    ensures (forall e :: Enabled(cfg, states[n], e) && !e.GiveUp? ==> Next(cfg, states[n], e) == states[n])
       <==> Stuck(cfg, states[n])
  {
    ReachableInvariant(cfg, states, events, n);
    hide Invariant, IsRun, Next, Enabled, Stuck;
    var s := states[n];
    if Stuck(cfg, s) {
      forall e | Enabled(cfg, s, e) && !e.GiveUp? ensures Next(cfg, s, e) == s {
        StuckChangesNothing(cfg, s, e);
      }
    } else {
      var e := NotStuckGoesOn(cfg, s);
    }
  }

  /** Then the stop never ends, unless a waiting submitter gives up. */
  lemma {:induction false} StuckForever(cfg: Config, states: seq<State>, events: seq<Event>, n: nat, m: nat)
    requires IsRun(cfg, states, events) && n <= m < |states| && Stuck(cfg, states[n])
    requires forall k :: n <= k < m ==> !events[k].GiveUp?
    ensures states[m] == states[n]
  {
    hide Stuck, Next, Invariant;
    if n < m {
      StuckForever(cfg, states, events, n, m - 1);
      ReachableInvariant(cfg, states, events, m - 1);
      assert states[m - 1 + 1] == Next(cfg, states[m - 1], events[m - 1]);
      StuckChangesNothing(cfg, states[m - 1], events[m - 1]);
    }
  }

  /** It happens: the only worker dies of its sink's cancellation, one more frame fills the queue, a
      submitter waits, and the stop begins. */
  lemma StopCanStall() returns (states: seq<State>, events: seq<Event>)
    ensures IsRun(SMALL, states, events) && |states| == |events| + 1 && Stuck(SMALL, states[|events|])
  {
    states, events := OneItemOffered();
    hide IsRun;
    states, events := Continued(SMALL, states, events, SinkCancels(0));
    assert states[|events|].workers == [Dead];
    states, events := Continued(SMALL, states, events, SubmitNowait(Frame(0, 1, 1)));
    states, events := Continued(SMALL, states, events, Submit(Frame(0, 1, 2)));
    states, events := Continued(SMALL, states, events, StopBegins);
  }

  // ----- deduplication inside a run

  /** The questions put to the duplicate window in the first n events. */
  ghost function Questions(states: seq<State>, events: seq<Event>, n: nat): seq<Call>
    requires n <= |events| < |states|
  {
    if n == 0 then [] else
      Questions(states, events, n - 1) + Question(states[n - 1], events[n - 1])
  }

  ghost function Question(s: State, e: Event): seq<Call> {
    match e
    case Classify(i, now) =>
      if i < |s.workers| && s.workers[i].Handling? && s.workers[i].work.items != [] && s.workers[i].work.items[0].Fact?
      then [Call(now, s.workers[i].work.items[0].fingerprint)] else []
    case _ => []
  }

  lemma {:induction false} WindowFollowsQuestions(cfg: Config, states: seq<State>, events: seq<Event>, n: nat)
    requires IsRun(cfg, states, events) && n < |states|
    ensures states[n].dedupe == After(cfg.dedupe, Questions(states, events, n))
  {
    if n > 0 {
      WindowFollowsQuestions(cfg, states, events, n - 1);
      var s, e := states[n - 1], events[n - 1];
      assert states[n - 1 + 1] == Next(cfg, s, e);
      var before, asked := Questions(states, events, n - 1), Question(s, e);
      DedupeStep(cfg, s, e);
      if asked == [] {
        assert before + asked == before;
      } else {
        assert (before + asked)[..|before|] == before;
      }
    }
  }

  lemma DedupeStep(cfg: Config, s: State, e: Event)
    requires Enabled(cfg, s, e)
    ensures Next(cfg, s, e).dedupe
         == if Question(s, e) == [] then s.dedupe else Step(cfg.dedupe, s.dedupe, Question(s, e)[0])
    ensures |Question(s, e)| <= 1
  {
    hide Step, Answered;
  }

  /** In any run, an observation is suppressed as a duplicate only if the same observation was
      accepted less than one window before, whichever workers and frames the two came from. */
  lemma SuppressionIsRight(cfg: Config, states: seq<State>, events: seq<Event>, n: nat)
    requires IsRun(cfg, states, events) && n < |events| && cfg.dedupe.capacity >= 1
    requires states[n + 1].counters.duplicates > states[n].counters.duplicates
    ensures events[n].Classify?
    ensures var c := Question(states[n], events[n])[0];
            var last := LastAccepted(cfg.dedupe, Questions(states, events, n), c.fingerprint);
            last.Some? && c.now < last.value + cfg.dedupe.window
  {
    var s, e := states[n], events[n];
    assert states[n + 1] == Next(cfg, s, e);
    OnlyClassifySuppresses(cfg, s, e);
    var asked, c := Questions(states, events, n), Question(s, e)[0];
    WindowFollowsQuestions(cfg, states, events, n);
    assert (asked + [c])[..|asked|] == asked;
    DuplicateIsRight(cfg.dedupe, asked, c);
  }

  lemma OnlyClassifySuppresses(cfg: Config, s: State, e: Event)
    requires Enabled(cfg, s, e) && Next(cfg, s, e).counters.duplicates > s.counters.duplicates
    ensures e.Classify? && Question(s, e) != [] && Answered(cfg.dedupe, s.dedupe, Question(s, e)[0])
  {
    hide Step, Answered;
  }
}
