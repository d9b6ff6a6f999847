/** What a run of the passive pipeline does with each frame, parser and item, and what its counters count,
    told from the events of the run. */
module PassiveHistory {
  import DedupeWindow
  import opened PassivePipeline

  /** An event of a run. */
  lemma AtStep(cfg: Config, states: seq<State>, events: seq<Event>, k: nat)
    requires IsRun(cfg, states, events) && k < |events|
    ensures Enabled(cfg, states[k], events[k]) && states[k + 1] == Next(cfg, states[k], events[k])
  {
    hide Enabled, Next;
  }

  // ----- first in, first out

  /** The frame an event puts at the end of the queue: the one it submits, if the queue grows. */
  ghost function Entering(s: State, e: Event, t: State): seq<Frame> {
    if |t.queue| <= |s.queue| then [] else
      match e
      case Put(k) => if k < |s.waiting| then [s.waiting[k]] else []
      case SubmitNowait(f) => [f]
      case _ => []
  }

  /** The frame a worker has once it has taken one. */
  ghost function Taking(e: Event, t: State): seq<Frame> {
    match e
    case Take(i) => if i < |t.workers| && HasFrame(t.workers[i]) then [t.workers[i].work.frame] else []
    case _ => []
  }

  ghost function Entered(states: seq<State>, events: seq<Event>, n: nat): seq<Frame>
    requires n <= |events| < |states|
  {
    if n == 0 then [] else Entered(states, events, n - 1) + Entering(states[n - 1], events[n - 1], states[n])
  }

  ghost function Taken(states: seq<State>, events: seq<Event>, n: nat): seq<Frame>
    requires n <= |events| < |states|
  {
    if n == 0 then [] else Taken(states, events, n - 1) + Taking(events[n - 1], states[n])
  }

  lemma QueueStep(cfg: Config, s: State, e: Event)
    requires Enabled(cfg, s, e) && !e.Release?
    ensures Taking(e, Next(cfg, s, e)) + Next(cfg, s, e).queue == s.queue + Entering(s, e, Next(cfg, s, e))
  {
    if OfWorker(e) {
      QueueOnlyShrinks(cfg, s, e);
      if e.Take? {
        OwnFrameStays(cfg, s, e, e.i);
        TakerHasFrame(cfg, s, e.i);
        hide Next, Enabled;
        assert s.queue == [s.queue[0]] + s.queue[1..];
      }
      hide Next, Enabled;
    }
  }

  lemma TakerHasFrame(cfg: Config, s: State, i: nat)
    requires Enabled(cfg, s, Take(i))
    ensures s.queue != [] && HasFrame(Next(cfg, s, Take(i)).workers[i])
  {
  }

  lemma Rotate(entered: seq<Frame>, taken: seq<Frame>, queue: seq<Frame>, x: seq<Frame>, y: seq<Frame>, next: seq<Frame>)
    requires entered == taken + queue && x + next == queue + y
    ensures entered + y == taken + x + next
  {
    assert entered + y == taken + (queue + y);
    assert taken + x + next == taken + (x + next);
  }

  /** Workers take the frames in the order in which they entered the queue: until `stop` releases it, what has
      entered is what was taken and, behind it, the queue. */
  lemma {:induction false} FirstInFirstOut(cfg: Config, states: seq<State>, events: seq<Event>, n: nat)
    requires IsRun(cfg, states, events) && n < |states| && states[n].phase != Stopped
    ensures Entered(states, events, n) == Taken(states, events, n) + states[n].queue
  {
    hide Next, Enabled, Entering, Taking;
    if n == 0 {
      assert states[0] == Initial();
    } else {
      var s, e := states[n - 1], events[n - 1];
      AtStep(cfg, states, events, n - 1);
      StoppedStays(cfg, s, e);
      FirstInFirstOut(cfg, states, events, n - 1);
      QueueStep(cfg, s, e);
      hide IsRun;
      Rotate(Entered(states, events, n - 1), Taken(states, events, n - 1), s.queue,
             Taking(e, states[n]), Entering(s, e, states[n]), states[n].queue);
    }
  }

  lemma StoppedStays(cfg: Config, s: State, e: Event)
    requires Enabled(cfg, s, e)
    ensures s.phase == Stopped || e.Release? ==> Next(cfg, s, e).phase == Stopped
  {
    hide DedupeWindow.Step, DedupeWindow.Answered;
  }

  // ----- submissions that wait

  /** The frame with which a submission begins to wait, and the one whose submitter leaves. */
  ghost function Begun(s: State, e: Event, t: State): multiset<Frame> {
    if e.Submit? && |t.waiting| > |s.waiting| then multiset{e.frame} else multiset{}
  }

  ghost function Left(s: State, e: Event): multiset<Frame> {
    if (e.Put? || e.GiveUp?) && e.k < |s.waiting| then multiset{s.waiting[e.k]} else multiset{}
  }

  ghost function AllBegun(states: seq<State>, events: seq<Event>, n: nat): multiset<Frame>
    requires n <= |events| < |states|
  {
    if n == 0 then multiset{} else AllBegun(states, events, n - 1) + Begun(states[n - 1], events[n - 1], states[n])
  }

  ghost function AllLeft(states: seq<State>, events: seq<Event>, n: nat): multiset<Frame>
    requires n <= |events| < |states|
  {
    if n == 0 then multiset{} else AllLeft(states, events, n - 1) + Left(states[n - 1], events[n - 1])
  }

  lemma LeaveOne(s: State, k: nat)
    requires k < |s.waiting|
    ensures multiset(Leave(s, k).waiting) + multiset{s.waiting[k]} == multiset(s.waiting)
  {
    assert s.waiting == s.waiting[..k] + [s.waiting[k]] + s.waiting[k + 1..];
  }

  lemma NobodyLeaves(cfg: Config, s: State, e: Event)
    requires Enabled(cfg, s, e) && !OfWorker(e) && !e.Put? && !e.GiveUp?
    ensures multiset(Next(cfg, s, e).waiting) == multiset(s.waiting) + Begun(s, e, Next(cfg, s, e))
  {
  }

  lemma WaitingStep(cfg: Config, s: State, e: Event)
    requires Enabled(cfg, s, e)
    ensures multiset(Next(cfg, s, e).waiting) + Left(s, e) == multiset(s.waiting) + Begun(s, e, Next(cfg, s, e))
  {
    if OfWorker(e) {
      QueueOnlyShrinks(cfg, s, e);
      hide Next, Enabled;
    } else if e.Put? || e.GiveUp? {
      hide Leave;
      LeaveOne(s, e.k);
    } else {
      NobodyLeaves(cfg, s, e);
      hide Next, Enabled;
    }
  }

  lemma Balance(begun: multiset<Frame>, left: multiset<Frame>, waiting: multiset<Frame>,
                b: multiset<Frame>, l: multiset<Frame>, next: multiset<Frame>)
    requires begun == left + waiting && next + l == waiting + b
    ensures begun + b == left + l + next
  {
    forall f ensures (begun + b)[f] == (left + l + next)[f] {
      assert (next + l)[f] == (waiting + b)[f];
    }
  }

  /** Every submission that began to wait still waits, was put, or has given up. */
  lemma {:induction false} WaitersAreKept(cfg: Config, states: seq<State>, events: seq<Event>, n: nat)
    requires IsRun(cfg, states, events) && n < |states|
    ensures AllBegun(states, events, n) == AllLeft(states, events, n) + multiset(states[n].waiting)
  {
    hide Next, Enabled, Begun, Left;
    if n == 0 {
      assert states[0] == Initial();
    } else {
      var s, e := states[n - 1], events[n - 1];
      AtStep(cfg, states, events, n - 1);
      WaitersAreKept(cfg, states, events, n - 1);
      WaitingStep(cfg, s, e);
      hide IsRun;
      Balance(AllBegun(states, events, n - 1), AllLeft(states, events, n - 1), multiset(s.waiting),
              Begun(s, e, states[n]), Left(s, e), multiset(states[n].waiting));
    }
  }

  // ----- only good frames come in

  /** Of a protocol that is parsed, and not too long. */
  predicate Admissible(cfg: Config, f: Frame) {
    f.protocol in cfg.parsers && f.size <= cfg.maxFrameBytes
  }

  ghost predicate AllAdmissible(cfg: Config, s: State) {
    && (forall f :: f in s.queue ==> Admissible(cfg, f))
    && (forall f :: f in s.waiting ==> Admissible(cfg, f))
    && forall i :: 0 <= i < |s.workers| && HasFrame(s.workers[i]) ==> Admissible(cfg, s.workers[i].work.frame)
  }

  /** An event of worker `i`. */
  predicate Moves(e: Event, i: nat) {
    match e
    case Take(j) => j == i
    case ParserFails(j) => j == i
    case ParserYields(j, _) => j == i
    case RefuseItem(j) => j == i
    case Classify(j, _) => j == i
    case SinkReturns(j) => j == i
    case SinkFails(j) => j == i
    case SinkCancels(j) => j == i
    case Finish(j) => j == i
    case CancelDelivered(j) => j == i
    case _ => false
  }

  predicate OfWorker(e: Event) {
    e.Take? || e.ParserFails? || e.ParserYields? || e.RefuseItem? || e.Classify? || e.SinkReturns? || e.SinkFails?
    || e.SinkCancels? || e.Finish? || e.CancelDelivered?
  }

  /** What an event that is not a worker's leaves of the workers. */
  lemma NobodyMoves(cfg: Config, s: State, e: Event, i: nat)
    requires Enabled(cfg, s, e) && !OfWorker(e)
    ensures var t := Next(cfg, s, e);
            i < |t.workers| && HasFrame(t.workers[i]) ==> i < |s.workers| && t.workers[i] == s.workers[i]
  {
    hide Prepare;
  }

  lemma OthersLeaveWork(cfg: Config, s: State, e: Event, i: nat)
    requires Enabled(cfg, s, e) && !Moves(e, i)
    ensures var t := Next(cfg, s, e);
            i < |t.workers| && HasFrame(t.workers[i]) ==> i < |s.workers| && t.workers[i] == s.workers[i]
  {
    hide DedupeWindow.Step, DedupeWindow.Answered;
    if !OfWorker(e) {
      NobodyMoves(cfg, s, e, i);
      hide Next, Enabled;
    }
  }

  lemma OwnFrameStays(cfg: Config, s: State, e: Event, i: nat)
    requires Enabled(cfg, s, e) && Moves(e, i)
    ensures var t := Next(cfg, s, e);
            && i < |s.workers| == |t.workers|
            && (HasFrame(t.workers[i]) ==>
                  if e.Take? then s.queue != [] && t.workers[i].work.frame == s.queue[0]
                  else HasFrame(s.workers[i]) && t.workers[i].work.frame == s.workers[i].work.frame)
  {
    hide DedupeWindow.Step, DedupeWindow.Answered;
  }

  lemma AdmissibleStep(cfg: Config, s: State, e: Event)
    requires Enabled(cfg, s, e) && AllAdmissible(cfg, s)
    ensures AllAdmissible(cfg, Next(cfg, s, e))
  {
    AdmissibleOutside(cfg, s, e);
    hide Next, Enabled, Admissible, Moves;
    var t := Next(cfg, s, e);
    forall i | 0 <= i < |t.workers| && HasFrame(t.workers[i]) ensures Admissible(cfg, t.workers[i].work.frame) {
      if Moves(e, i) {
        OwnFrameStays(cfg, s, e, i);
      } else {
        OthersLeaveWork(cfg, s, e, i);
      }
    }
  }

  lemma AdmissibleOutside(cfg: Config, s: State, e: Event)
    requires Enabled(cfg, s, e) && AllAdmissible(cfg, s)
    ensures forall f :: f in Next(cfg, s, e).queue || f in Next(cfg, s, e).waiting ==> Admissible(cfg, f)
  {
    if OfWorker(e) {
      QueueOnlyShrinks(cfg, s, e);
      hide Next, Enabled, Admissible, HasFrame;
    } else {
      hide HasFrame;
    }
  }

  lemma QueueOnlyShrinks(cfg: Config, s: State, e: Event)
    requires Enabled(cfg, s, e) && OfWorker(e)
    ensures var t := Next(cfg, s, e);
            t.waiting == s.waiting && t.queue == if e.Take? && s.queue != [] then s.queue[1..] else s.queue
  {
    hide DedupeWindow.Step, DedupeWindow.Answered;
  }

  /** No frame that waits, is queued or is in a worker is of an unknown protocol or too long. */
  lemma {:induction false} OnlyAdmissibleFrames(cfg: Config, states: seq<State>, events: seq<Event>, n: nat)
    requires IsRun(cfg, states, events) && n < |states|
    ensures AllAdmissible(cfg, states[n])
  {
    hide AllAdmissible, Next, Enabled;
    if n == 0 {
      NoFrameAtFirst(cfg);
    } else {
      OnlyAdmissibleFrames(cfg, states, events, n - 1);
      assert states[n - 1 + 1] == Next(cfg, states[n - 1], events[n - 1]);
      AdmissibleStep(cfg, states[n - 1], events[n - 1]);
    }
  }

  lemma NoFrameAtFirst(cfg: Config)
    ensures AllAdmissible(cfg, Initial())
  {
  }

  // ----- every parser is called, and every item treated, in order

  /** How often worker `i` called a parser since it took its frame. */
  function Calls(events: seq<Event>, n: nat, i: nat): nat
    requires n <= |events|
  {
    if n == 0 then 0 else
      match events[n - 1]
      case Take(j) => if j == i then 0 else Calls(events, n - 1, i)
      case ParserFails(j) => Calls(events, n - 1, i) + if j == i then 1 else 0
      case ParserYields(j, _) => Calls(events, n - 1, i) + if j == i then 1 else 0
      case _ => Calls(events, n - 1, i)
  }

  /** What the last parser called by worker `i` gave it. */
  function Yielded(events: seq<Event>, n: nat, i: nat): seq<Item>
    requires n <= |events|
  {
    if n == 0 then [] else
      match events[n - 1]
      case Take(j) => if j == i then [] else Yielded(events, n - 1, i)
      case ParserYields(j, items) => if j == i then items else Yielded(events, n - 1, i)
      case _ => Yielded(events, n - 1, i)
  }

  /** What worker `i` has refused, or asked the duplicate window about, of that. */
  ghost function Treated(states: seq<State>, events: seq<Event>, n: nat, i: nat): seq<Item>
    requires n <= |events| < |states|
  {
    if n == 0 then [] else
      var before := Treated(states, events, n - 1, i);
      match events[n - 1]
      case Take(j) => if j == i then [] else before
      case ParserYields(j, _) => if j == i then [] else before
      case RefuseItem(j) => if j == i then before + [Malformed] else before
      case Classify(j, _) =>
        var asked := Question(states[n - 1], events[n - 1]);
        if j == i && asked != [] then before + [Fact(asked[0].fingerprint)] else before
      case _ => before
  }

  /** The work of worker `i` after some events. */
  ghost predicate WorkIs(cfg: Config, s: State, i: nat, calls: nat, yielded: seq<Item>, treated: seq<Item>) {
    i < |s.workers| && HasFrame(s.workers[i]) ==>
      var w := s.workers[i].work;
      && Admissible(cfg, w.frame) && calls + w.parsersLeft == cfg.parsers[w.frame.protocol]
      && yielded == treated + w.items
      && (s.workers[i].AtSink? ==> treated != [] && treated[|treated| - 1].Fact?)
  }

  ghost function CallsAfter(e: Event, i: nat, calls: nat): nat {
    if e == Take(i) then 0 else if e == ParserFails(i) || (e.ParserYields? && e.i == i) then calls + 1 else calls
  }

  ghost function YieldedAfter(e: Event, i: nat, yielded: seq<Item>): seq<Item> {
    if e == Take(i) then [] else if e.ParserYields? && e.i == i then e.items else yielded
  }

  ghost function TreatedAfter(s: State, e: Event, i: nat, treated: seq<Item>): seq<Item> {
    if e == Take(i) || (e.ParserYields? && e.i == i) then []
    else if e == RefuseItem(i) then treated + [Malformed]
    else if e.Classify? && e.i == i && Question(s, e) != [] then treated + [Fact(Question(s, e)[0].fingerprint)]
    else treated
  }

  lemma ItemStep(cfg: Config, s: State, e: Event, i: nat, calls: nat, yielded: seq<Item>, treated: seq<Item>)
    requires Enabled(cfg, s, e) && WorkIs(cfg, s, i, calls, yielded, treated)
    requires e == RefuseItem(i) || (e.Classify? && e.i == i)
    ensures WorkIs(cfg, Next(cfg, s, e), i, calls, yielded, TreatedAfter(s, e, i, treated))
  {
    hide DedupeWindow.Step, DedupeWindow.Answered, Admissible;
    var items := s.workers[i].work.items;
    assert items == [items[0]] + items[1..];
    assert treated + items == treated + [items[0]] + items[1..];
  }

  lemma OwnStep(cfg: Config, s: State, e: Event, i: nat, calls: nat, yielded: seq<Item>, treated: seq<Item>)
    requires Enabled(cfg, s, e) && AllAdmissible(cfg, s) && WorkIs(cfg, s, i, calls, yielded, treated)
    requires Moves(e, i) && !e.RefuseItem? && !e.Classify?
    ensures WorkIs(cfg, Next(cfg, s, e), i, CallsAfter(e, i, calls), YieldedAfter(e, i, yielded),
                   TreatedAfter(s, e, i, treated))
  {
    hide DedupeWindow.Step, DedupeWindow.Answered, Admissible;
    if e.Take? {
      assert s.queue[0] in s.queue;
      TakenIsParsed(cfg, s.queue[0]);
    } else if e.ParserYields? {
      assert [] + e.items == e.items;
    } else {
      hide AllAdmissible;
    }
  }

  lemma TakenIsParsed(cfg: Config, f: Frame)
    requires Admissible(cfg, f)
    ensures f.protocol in cfg.parsers
  {
  }

  lemma WorkStep(cfg: Config, s: State, e: Event, i: nat, calls: nat, yielded: seq<Item>, treated: seq<Item>)
    requires Enabled(cfg, s, e) && AllAdmissible(cfg, s) && WorkIs(cfg, s, i, calls, yielded, treated)
    ensures WorkIs(cfg, Next(cfg, s, e), i, CallsAfter(e, i, calls), YieldedAfter(e, i, yielded),
                   TreatedAfter(s, e, i, treated))
  {
    hide Next, Enabled, AllAdmissible;
    if !Moves(e, i) {
      OthersLeaveWork(cfg, s, e, i);
    } else if e.RefuseItem? || e.Classify? {
      ItemStep(cfg, s, e, i, calls, yielded, treated);
    } else {
      OwnStep(cfg, s, e, i, calls, yielded, treated);
    }
  }

  /** In every run, of a frame in a worker: parsers called and parsers left are all of its protocol; and what the
      last parser yielded is what was refused or asked about, in this order, and behind it what is left. */
  lemma {:induction false} WorkIsInOrder(cfg: Config, states: seq<State>, events: seq<Event>, n: nat, i: nat)
    requires IsRun(cfg, states, events) && n < |states|
    ensures WorkIs(cfg, states[n], i, Calls(events, n, i), Yielded(events, n, i), Treated(states, events, n, i))
  {
    hide WorkIs, Next, Enabled, AllAdmissible;
    if n == 0 {
      NoWorkAtFirst(cfg, i);
    } else {
      WorkIsInOrder(cfg, states, events, n - 1, i);
      OnlyAdmissibleFrames(cfg, states, events, n - 1);
      assert states[n - 1 + 1] == Next(cfg, states[n - 1], events[n - 1]);
      WorkStep(cfg, states[n - 1], events[n - 1], i, Calls(events, n - 1, i), Yielded(events, n - 1, i),
               Treated(states, events, n - 1, i));
    }
  }

  lemma NoWorkAtFirst(cfg: Config, i: nat)
    ensures WorkIs(cfg, Initial(), i, 0, [], [])
  {
  }

  /** A frame counts as processed only when all parsers of its protocol were called for it and all that the last
      one yielded was treated; and so is all of one parser before the next is called. */
  lemma ProcessedWhenAllIsDone(cfg: Config, states: seq<State>, events: seq<Event>, n: nat, i: nat)
    requires IsRun(cfg, states, events) && n < |events|
    requires events[n] == Finish(i) || events[n] == ParserFails(i) || (events[n].ParserYields? && events[n].i == i)
    ensures i < |states[n].workers| && HasFrame(states[n].workers[i])
    ensures Yielded(events, n, i) == Treated(states, events, n, i)
    ensures var f := states[n].workers[i].work.frame;
            f.protocol in cfg.parsers && (events[n] == Finish(i) ==> Calls(events, n, i) == cfg.parsers[f.protocol])
  {
    WorkIsInOrder(cfg, states, events, n, i);
    assert Enabled(cfg, states[n], events[n]);
    hide IsRun;
    assert Treated(states, events, n, i) + [] == Treated(states, events, n, i);
  }

  // ----- what the counters count

  /** How many of the first n events are of a kind where they happen. */
  ghost function Times(what: (State, Event) -> bool, states: seq<State>, events: seq<Event>, n: nat): nat
    requires n <= |events| < |states|
  {
    if n == 0 then 0 else
      Times(what, states, events, n - 1) + if what(states[n - 1], events[n - 1]) then 1 else 0
  }

  /** A frame offered while the pipeline accepts frames. */
  predicate Offers(s: State, e: Event) {
    (e.Submit? || e.SubmitNowait?) && s.workers != [] && s.accepting
  }

  ghost predicate AskedAgain(cfg: Config, s: State, e: Event) {
    Question(s, e) != [] && DedupeWindow.Answered(cfg.dedupe, s.dedupe, Question(s, e)[0])
  }

  ghost predicate OneMore(what: bool, before: nat, after: nat) {
    after == before + if what then 1 else 0
  }

  /** What one event adds to the counters of frames that come in or are refused. */
  ghost predicate AdmissionsGrow(cfg: Config, s: State, e: Event, t: State) {
    var c, d := s.counters, t.counters;
    && OneMore(Offers(s, e) && e.frame.protocol !in cfg.parsers, c.unsupported, d.unsupported)
    && OneMore(Offers(s, e) && e.frame.protocol in cfg.parsers && e.frame.size > cfg.maxFrameBytes,
               c.oversized, d.oversized)
    && OneMore(Offers(s, e) && e.SubmitNowait? && Admissible(cfg, e.frame) && |s.queue| >= cfg.queueSize,
               c.rejected, d.rejected)
    && OneMore(e.Put? || (Offers(s, e) && e.SubmitNowait? && Admissible(cfg, e.frame) && |s.queue| < cfg.queueSize),
               c.submitted, d.submitted)
  }

  /** What one event adds to the counters of items and frames that are treated. */
  ghost predicate TreatmentsGrow(cfg: Config, s: State, e: Event, t: State) {
    var c, d := s.counters, t.counters;
    && OneMore(e.SinkReturns?, c.emitted, d.emitted) && OneMore(e.SinkFails?, c.sinkFailures, d.sinkFailures)
    && OneMore(e.ParserFails? || e.RefuseItem?, c.parserFailures, d.parserFailures)
    && OneMore(AskedAgain(cfg, s, e), c.duplicates, d.duplicates) && OneMore(e.Finish?, c.processed, d.processed)
  }

  /** A worker's event leaves the counters of frames that come in alone. */
  lemma WorkersAdmitNothing(cfg: Config, s: State, e: Event)
    requires Enabled(cfg, s, e) && OfWorker(e)
    ensures var c, d := s.counters, Next(cfg, s, e).counters;
            c.(emitted := d.emitted, sinkFailures := d.sinkFailures, parserFailures := d.parserFailures,
               duplicates := d.duplicates, processed := d.processed) == d
  {
    hide DedupeWindow.Step, DedupeWindow.Answered;
  }

  lemma AdmissionsStep(cfg: Config, s: State, e: Event)
    requires Enabled(cfg, s, e)
    ensures AdmissionsGrow(cfg, s, e, Next(cfg, s, e))
  {
    if OfWorker(e) {
      WorkersAdmitNothing(cfg, s, e);
      hide Next, Enabled, Admissible;
    }
  }

  /** No other event touches the counters of treatments. */
  lemma OthersTreatNothing(cfg: Config, s: State, e: Event)
    requires Enabled(cfg, s, e) && !OfWorker(e)
    ensures var c, d := s.counters, Next(cfg, s, e).counters;
            c.emitted == d.emitted && c.sinkFailures == d.sinkFailures && c.parserFailures == d.parserFailures
            && c.duplicates == d.duplicates && c.processed == d.processed
  {
  }

  lemma TreatmentsStep(cfg: Config, s: State, e: Event)
    requires Enabled(cfg, s, e)
    ensures TreatmentsGrow(cfg, s, e, Next(cfg, s, e))
  {
    if !OfWorker(e) {
      OthersTreatNothing(cfg, s, e);
      hide Next, Enabled;
    }
    hide DedupeWindow.Step, DedupeWindow.Answered;
  }

  lemma {:induction false} CountIs(
    what: (State, Event) -> bool, value: State -> nat, states: seq<State>, events: seq<Event>, n: nat)
    requires n <= |events| < |states| && value(states[0]) == 0
    requires forall k {:trigger events[k]} :: 0 <= k < |events| ==>
      OneMore(what(states[k], events[k]), value(states[k]), value(states[k + 1]))
    ensures value(states[n]) == Times(what, states, events, n)
  {
    if n > 0 {
      CountIs(what, value, states, events, n - 1);
      var e := events[n - 1];
      assert n - 1 + 1 == n;
    }
  }

  function UnknownProtocol(cfg: Config): (State, Event) -> bool {
    (s: State, e: Event) => Offers(s, e) && e.frame.protocol !in cfg.parsers
  }

  function TooLong(cfg: Config): (State, Event) -> bool {
    (s: State, e: Event) => Offers(s, e) && e.frame.protocol in cfg.parsers && e.frame.size > cfg.maxFrameBytes
  }

  function Rejected(cfg: Config): (State, Event) -> bool {
    (s: State, e: Event) =>
      Offers(s, e) && e.SubmitNowait? && Admissible(cfg, e.frame) && |s.queue| >= cfg.queueSize
  }

  function Enqueued(cfg: Config): (State, Event) -> bool {
    (s: State, e: Event) =>
      e.Put? || (Offers(s, e) && e.SubmitNowait? && Admissible(cfg, e.frame) && |s.queue| < cfg.queueSize)
  }

  ghost function Suppressed(cfg: Config): (State, Event) -> bool {
    (s: State, e: Event) => AskedAgain(cfg, s, e)
  }

  lemma AdmissionsAt(cfg: Config, states: seq<State>, events: seq<Event>, k: nat)
    requires IsRun(cfg, states, events) && k < |events|
    ensures AdmissionsGrow(cfg, states[k], events[k], states[k + 1])
  {
    hide Enabled, Next;
    AtStep(cfg, states, events, k);
    assert |states| == |events| + 1;
    hide IsRun;
    AdmissionsStep(cfg, states[k], events[k]);
  }

  lemma TreatmentsAt(cfg: Config, states: seq<State>, events: seq<Event>, k: nat)
    requires IsRun(cfg, states, events) && k < |events|
    ensures TreatmentsGrow(cfg, states[k], events[k], states[k + 1])
  {
    hide Enabled, Next;
    AtStep(cfg, states, events, k);
    assert |states| == |events| + 1;
    hide IsRun;
    TreatmentsStep(cfg, states[k], events[k]);
  }

  /** In every run the counters of frames refused are the numbers of the events in which, while the pipeline
      accepts, a frame of an unknown protocol, or one that is too long, is offered. */
  lemma RefusalsAreCounted(cfg: Config, states: seq<State>, events: seq<Event>, n: nat)
    requires IsRun(cfg, states, events) && n < |states|
    ensures states[n].counters.unsupported == Times(UnknownProtocol(cfg), states, events, n)
    ensures states[n].counters.oversized == Times(TooLong(cfg), states, events, n)
  {
    hide IsRun, UnknownProtocol, TooLong;
    UnknownAreCounted(cfg, states, events, n);
    TooLongAreCounted(cfg, states, events, n);
  }

  lemma UnknownAreCounted(cfg: Config, states: seq<State>, events: seq<Event>, n: nat)
    requires IsRun(cfg, states, events) && n < |states|
    ensures states[n].counters.unsupported == Times(UnknownProtocol(cfg), states, events, n)
  {
    assert states[0] == Initial();
    hide IsRun, Offers;
    forall k {:trigger events[k]} | 0 <= k < |events| ensures AdmissionsGrow(cfg, states[k], events[k], states[k + 1]) {
      AdmissionsAt(cfg, states, events, k);
    }
    CountIs(UnknownProtocol(cfg), (s: State) => s.counters.unsupported, states, events, n);
  }

  lemma TooLongAreCounted(cfg: Config, states: seq<State>, events: seq<Event>, n: nat)
    requires IsRun(cfg, states, events) && n < |states|
    ensures states[n].counters.oversized == Times(TooLong(cfg), states, events, n)
  {
    assert states[0] == Initial();
    hide IsRun, Offers;
    forall k {:trigger events[k]} | 0 <= k < |events| ensures AdmissionsGrow(cfg, states[k], events[k], states[k + 1]) {
      AdmissionsAt(cfg, states, events, k);
    }
    CountIs(TooLong(cfg), (s: State) => s.counters.oversized, states, events, n);
  }

  /** The counters of good frames are the numbers of those that are offered without waiting to a full queue,
      and of those that are put, or offered without waiting to a queue with room. */
  lemma SubmissionsAreCounted(cfg: Config, states: seq<State>, events: seq<Event>, n: nat)
    requires IsRun(cfg, states, events) && n < |states|
    ensures states[n].counters.rejected == Times(Rejected(cfg), states, events, n)
    ensures states[n].counters.submitted == Times(Enqueued(cfg), states, events, n)
  {
    assert states[0] == Initial();
    hide IsRun, Offers, Admissible;
    forall k {:trigger events[k]} | 0 <= k < |events| ensures AdmissionsGrow(cfg, states[k], events[k], states[k + 1]) {
      AdmissionsAt(cfg, states, events, k);
    }
    CountIs(Rejected(cfg), (s: State) => s.counters.rejected, states, events, n);
    CountIs(Enqueued(cfg), (s: State) => s.counters.submitted, states, events, n);
  }

  /** The counters of treatments are the numbers of sink returns, of sink failures, of failed parsers and
      refused items, of items asked about again within their window, and of finished frames. */
  lemma TreatmentsAreCounted(cfg: Config, states: seq<State>, events: seq<Event>, n: nat)
    requires IsRun(cfg, states, events) && n < |states|
    ensures states[n].counters.emitted == Times((s: State, e: Event) => e.SinkReturns?, states, events, n)
    ensures states[n].counters.sinkFailures == Times((s: State, e: Event) => e.SinkFails?, states, events, n)
    ensures states[n].counters.parserFailures
         == Times((s: State, e: Event) => e.ParserFails? || e.RefuseItem?, states, events, n)
    ensures states[n].counters.duplicates == Times(Suppressed(cfg), states, events, n)
    ensures states[n].counters.processed == Times((s: State, e: Event) => e.Finish?, states, events, n)
  {
    assert states[0] == Initial();
    hide IsRun, AskedAgain;
    forall k {:trigger events[k]} | 0 <= k < |events| ensures TreatmentsGrow(cfg, states[k], events[k], states[k + 1]) {
      TreatmentsAt(cfg, states, events, k);
    }
    CountIs((s: State, e: Event) => e.SinkReturns?, (s: State) => s.counters.emitted, states, events, n);
    CountIs((s: State, e: Event) => e.SinkFails?, (s: State) => s.counters.sinkFailures, states, events, n);
    CountIs((s: State, e: Event) => e.ParserFails? || e.RefuseItem?, (s: State) => s.counters.parserFailures,
            states, events, n);
    CountIs(Suppressed(cfg), (s: State) => s.counters.duplicates, states, events, n);
    CountIs((s: State, e: Event) => e.Finish?, (s: State) => s.counters.processed, states, events, n);
  }

  // ----- the peak of the queue

  ghost predicate IsPeak(states: seq<State>, n: nat, peak: nat)
    requires n < |states|
  {
    (forall k :: 0 <= k <= n ==> |states[k].queue| <= peak) && exists k :: 0 <= k <= n && |states[k].queue| == peak
  }

  /** The peak is the greatest length the queue has had. */
  lemma {:induction false} PeakIsAttained(cfg: Config, states: seq<State>, events: seq<Event>, n: nat)
    requires IsRun(cfg, states, events) && n < |states|
    ensures IsPeak(states, n, states[n].counters.queuePeak)
  {
    hide Next, Enabled;
    if n == 0 {
      assert states[0] == Initial() && |states[0].queue| == states[0].counters.queuePeak;
    } else {
      AtStep(cfg, states, events, n - 1);
      PeakIsAttained(cfg, states, events, n - 1);
      hide IsRun;
      assert |states[n - 1].queue| <= states[n - 1].counters.queuePeak;
      PeakStep(cfg, states[n - 1], events[n - 1]);
      PeakGrows(states, n);
    }
  }

  lemma PeakGrows(states: seq<State>, n: nat)
    requires 0 < n < |states| && IsPeak(states, n - 1, states[n - 1].counters.queuePeak)
    requires var s, t := states[n - 1], states[n];
             && |t.queue| <= t.counters.queuePeak && s.counters.queuePeak <= t.counters.queuePeak
             && (t.counters.queuePeak == s.counters.queuePeak || t.counters.queuePeak == |t.queue|)
    ensures IsPeak(states, n, states[n].counters.queuePeak)
  {
    var before, peak := states[n - 1].counters.queuePeak, states[n].counters.queuePeak;
    var k :| 0 <= k <= n - 1 && |states[k].queue| == before;
    assert |states[if peak == before then k else n].queue| == peak;
  }

  lemma PeakStep(cfg: Config, s: State, e: Event)
    requires Enabled(cfg, s, e) && |s.queue| <= s.counters.queuePeak
    ensures var t := Next(cfg, s, e);
            && |t.queue| <= t.counters.queuePeak && s.counters.queuePeak <= t.counters.queuePeak
            && (t.counters.queuePeak == s.counters.queuePeak || t.counters.queuePeak == |t.queue|)
  {
    if OfWorker(e) {
      QueueOnlyShrinks(cfg, s, e);
      WorkersAdmitNothing(cfg, s, e);
      hide Next, Enabled;
    }
  }

  // ----- when the pipeline has its workers and accepts frames

  ghost predicate Started(events: seq<Event>, n: nat)
    requires n <= |events|
  {
    exists k :: 0 <= k < n && events[k].Start?
  }

  ghost predicate Stopping(events: seq<Event>, n: nat)
    requires n <= |events|
  {
    exists k :: 0 <= k < n && events[k].StopBegins?
  }

  ghost predicate Released(events: seq<Event>, n: nat)
    requires n <= |events|
  {
    exists k :: 0 <= k < n && events[k].Release?
  }

  /** What a pipeline is that has been started or not, is being stopped or not, was released or not. */
  ghost predicate StandsSo(cfg: Config, s: State, started: bool, stopping: bool, released: bool) {
    && (s.phase == Open <==> !stopping) && (s.phase == Stopped <==> released)
    && (s.accepting <==> started && !stopping)
    && |s.workers| == if started && !released then cfg.workerCount else 0
  }

  lemma StandsOn(cfg: Config, s: State, e: Event, started: bool, stopping: bool, released: bool)
    requires Enabled(cfg, s, e) && cfg.workerCount >= 1 && StandsSo(cfg, s, started, stopping, released)
    ensures StandsSo(cfg, Next(cfg, s, e), started || e.Start?, stopping || e.StopBegins?, released || e.Release?)
  {
    hide Prepare;
    if OfWorker(e) {
      WorkersStay(cfg, s, e);
      hide Next, Enabled;
    }
  }

  lemma WorkersStay(cfg: Config, s: State, e: Event)
    requires Enabled(cfg, s, e) && OfWorker(e)
    ensures var t := Next(cfg, s, e); |t.workers| == |s.workers| && t.phase == s.phase && t.accepting == s.accepting
  {
    hide DedupeWindow.Step, DedupeWindow.Answered;
    if e.Classify? {
      QuestionMovesNobody(cfg, s, e);
      hide Enabled, Next;
    }
  }

  lemma QuestionMovesNobody(cfg: Config, s: State, e: Event)
    requires Enabled(cfg, s, e) && e.Classify?
    ensures var t := Next(cfg, s, e); |t.workers| == |s.workers| && t.phase == s.phase && t.accepting == s.accepting
  {
    hide DedupeWindow.Step, DedupeWindow.Answered;
  }

  lemma HappenedStep(events: seq<Event>, n: nat)
    requires 0 < n <= |events|
    ensures Started(events, n) <==> Started(events, n - 1) || events[n - 1].Start?
    ensures Stopping(events, n) <==> Stopping(events, n - 1) || events[n - 1].StopBegins?
    ensures Released(events, n) <==> Released(events, n - 1) || events[n - 1].Release?
  {
  }

  /** In every run the pipeline has all its workers, no more and no fewer, from its first start until `stop` has
      released the queue, and accepts frames exactly from its first start until a stop begins. */
  lemma {:induction false} WorkersStayTillReleased(cfg: Config, states: seq<State>, events: seq<Event>, n: nat)
    requires IsRun(cfg, states, events) && n < |states| && cfg.workerCount >= 1
    ensures StandsSo(cfg, states[n], Started(events, n), Stopping(events, n), Released(events, n))
  {
    hide Next, Enabled;
    if n == 0 {
      assert states[0] == Initial();
    } else {
      WorkersStayTillReleased(cfg, states, events, n - 1);
      AtStep(cfg, states, events, n - 1);
      HappenedStep(events, n);
      hide IsRun, StandsSo, Started, Stopping, Released;
      StandsOn(cfg, states[n - 1], events[n - 1], Started(events, n - 1), Stopping(events, n - 1), Released(events, n - 1));
    }
  }
}
