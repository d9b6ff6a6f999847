/** The pipeline object of passive.py: its fields, and the code between awaits as methods. Each method
    demands that the scheduler may resume its task there, which is what enables an event of the
    transition system, does exactly that event and keeps its invariant. A schedule of these methods on a
    new pipeline is therefore a run, and has every property proved of all runs. */
module PassiveService {
  import opened Options
  import opened DedupeWindow
  import opened PassivePipeline

  /** What a parser's outcome is to the transition system; None when the parser raised. */
  function ParserEvent(i: nat, outcome: Option<seq<PassivePipeline.Item>>): Event {
    if outcome.None? then ParserFails(i) else ParserYields(i, outcome.value)
  }

  function AbortEvent(i: nat, byStop: bool): Event {
    if byStop then CancelDelivered(i) else SinkCancels(i)
  }

  function ItemEvent(item: PassivePipeline.Item, i: nat, now: int): Event {
    if item.Malformed? then RefuseItem(i) else Classify(i, now)
  }

  class PassiveEventPipeline {
    const config: PassivePipeline.Config
    const dedupe: DedupeTable
    var queue: seq<Frame>
    var unfinished: int
    var accepting: bool
    var phase: Phase
    var waiting: seq<Frame>
    var activeSubmitters: int
    var submissionsDone: bool
    var workers: seq<Worker>
    var inFlight: int
    var counters: Counters
    ghost var running: Option<nat>
    ghost var history: History

    ghost function State(): PassivePipeline.State
      reads this, dedupe
    {
      PassivePipeline.State(phase, accepting, queue, unfinished, waiting, activeSubmitters, submissionsDone,
        workers, running, inFlight, dedupe.State(), counters, history)
    }

    /** The invariant of all runs. */
    ghost predicate Valid()
      reads this, dedupe
    {
      dedupe.config == config.dedupe && Invariant(config, State())
    }

    constructor (config: PassivePipeline.Config)
      ensures this.config == config && fresh(dedupe)
      ensures Valid() && State() == Initial()
    {
      this.config := config;
      dedupe := new DedupeTable(config.dedupe);
      queue, unfinished, waiting, activeSubmitters, submissionsDone := [], 0, [], 0, true;
      accepting, phase, workers, inFlight, counters := false, Open, [], 0, ZERO;
      running, history := None, NOTHING;
      new;
      InitialInvariant(config);
    }

    /** False where `start` raises: a stopped pipeline is never revived. */
    method Start() returns (ok: bool)
      requires Valid() && running.None? && (phase == Open || phase == Stopped || workers != [])
      modifies this
      ensures Valid() && (ok <==> old(phase) != Stopped)
      ensures State() == if ok then Next(config, old(State()), Event.Start) else old(State())
    {
      if phase == Stopped {
        return false;
      }
      hide Invariant;
      StepKeeps(config, State(), Event.Start);
      ok := true;
      if workers != [] {
        return;
      }
      accepting := true;
      workers := seq(config.workerCount, _ => Idle);
    }

    /** The checks of `_prepare_frame` once the pipeline is known to accept frames. */
    method PrepareFrame(frame: Frame) returns (ok: bool)
      modifies `counters
      ensures (counters, ok) == Prepare(config, old(counters), frame)
    {
      if frame.protocol !in config.parsers {
        counters := counters.(unsupported := counters.unsupported + 1);
        return false;
      }
      if frame.size > config.maxFrameBytes {
        counters := counters.(oversized := counters.oversized + 1);
        return false;
      }
      ok := true;
    }

    /** `put_nowait` and `_record_submission`, which no await separates. */
    method RecordSubmission(frame: Frame)
      modifies this
      ensures State() == Enqueue(old(State()), frame)
    {
      queue := queue + [frame];
      unfinished := unfinished + 1;
      var peak := if |queue| > counters.queuePeak then |queue| else counters.queuePeak;
      counters := counters.(submitted := counters.submitted + 1, queuePeak := peak);
      history := history.(submitted := history.submitted + multiset{frame});
    }

    method SettleSubmitter(k: nat)
      requires k < |waiting|
      modifies this
      ensures State() == Leave(old(State()), k)
    {
      waiting := waiting[..k] + waiting[k + 1..];
      activeSubmitters := activeSubmitters - 1;
      if activeSubmitters == 0 {
        submissionsDone := true;
      }
    }

    /** `submit` up to its await on the queue; false when it has already returned or raised. */
    method SubmitBegins(frame: Frame) returns (waits: bool)
      requires Valid() && Enabled(config, State(), Submit(frame))
      modifies this
      ensures Valid() && State() == Next(config, old(State()), Submit(frame))
      ensures waits <==> |waiting| == |old(waiting)| + 1
    {
      hide Invariant;
      StepKeeps(config, State(), Submit(frame));
      if workers == [] || !accepting {
        return false;
      }
      waits := PrepareFrame(frame);
      if waits {
        activeSubmitters := activeSubmitters + 1;
        submissionsDone := false;
        waiting := waiting + [frame];
      }
    }

    method SubmitPuts(k: nat)
      requires Valid() && Enabled(config, State(), Put(k))
      modifies this
      ensures Valid() && State() == Next(config, old(State()), Put(k))
    {
      hide Invariant;
      StepKeeps(config, State(), Put(k));
      var frame := waiting[k];
      SettleSubmitter(k);
      RecordSubmission(frame);
    }

    /** A submission cancelled while it waits for room. */
    method SubmitCancelled(k: nat)
      requires Valid() && Enabled(config, State(), GiveUp(k))
      modifies this
      ensures Valid() && State() == Next(config, old(State()), GiveUp(k))
    {
      hide Invariant;
      StepKeeps(config, State(), GiveUp(k));
      SettleSubmitter(k);
    }

    method SubmitNowait(frame: Frame) returns (accepted: bool)
      requires Valid() && Enabled(config, State(), Event.SubmitNowait(frame))
      modifies this
      ensures Valid() && State() == Next(config, old(State()), Event.SubmitNowait(frame))
      ensures accepted <==> queue == old(queue) + [frame]
    {
      hide Invariant;
      StepKeeps(config, State(), Event.SubmitNowait(frame));
      if workers == [] || !accepting {
        return false;
      }
      accepted := PrepareFrame(frame);
      if accepted {
        if |queue| >= config.queueSize {
          counters := counters.(rejected := counters.rejected + 1);
          return false;
        }
        RecordSubmission(frame);
      }
    }

    method WorkerTakes(i: nat)
      requires Valid() && Enabled(config, State(), Take(i))
      modifies this
      ensures Valid() && State() == Next(config, old(State()), Take(i))
    {
      hide Invariant;
      StepKeeps(config, State(), Take(i));
      var frame := queue[0];
      queue := queue[1..];
      inFlight := inFlight + 1;
      var parsers := if frame.protocol in config.parsers then config.parsers[frame.protocol] else 0;
      workers := workers[i := Handling(Work(frame, parsers, []))];
      running := Some(i);
    }

    /** One turn of the parser loop of `_handle_frame`; None when the parser raised. */
    method RunParser(i: nat, outcome: Option<seq<PassivePipeline.Item>>)
      requires Valid() && Enabled(config, State(), ParserEvent(i, outcome))
      modifies this
      ensures Valid() && State() == Next(config, old(State()), ParserEvent(i, outcome))
    {
      hide Invariant;
      StepKeeps(config, State(), ParserEvent(i, outcome));
      var w := workers[i].work;
      if outcome.None? {
        counters := counters.(parserFailures := counters.parserFailures + 1);
        workers := workers[i := Handling(w.(parsersLeft := w.parsersLeft - 1))];
      } else {
        workers := workers[i := Handling(w.(parsersLeft := w.parsersLeft - 1, items := outcome.value))];
        history := history.(produced := history.produced + |outcome.value|);
      }
    }

    /** One turn of the observation loop, up to the await on the sink. */
    method TreatItem(i: nat, now: int)
      requires Valid() && Active(State(), i) && workers[i].work.items != []
      modifies this, dedupe
      ensures Valid() && State() == Next(config, old(State()), ItemEvent(old(workers[i].work.items[0]), i, now))
    {
      hide Invariant;
      StepKeeps(config, State(), ItemEvent(workers[i].work.items[0], i, now));
      assert Next(config, State(), ItemEvent(workers[i].work.items[0], i, now)) == (
        if workers[i].work.items[0].Malformed? then OnRefuseItem(State(), i) else OnClassify(config, State(), i, now));
      hide Enabled, Next;
      var w := workers[i].work;
      var item, rest := w.items[0], w.(items := w.items[1..]);
      if item.Malformed? {
        counters := counters.(parserFailures := counters.parserFailures + 1);
        workers := workers[i := Handling(rest)];
        history := history.(malformed := history.malformed + 1);
        return;
      }
      var duplicate := dedupe.IsDuplicate(now, item.fingerprint);
      if duplicate {
        counters := counters.(duplicates := counters.duplicates + 1);
        workers := workers[i := Handling(rest)];
      } else {
        workers := workers[i := AtSink(rest)];
        running := None;
      }
    }

    method SinkCompletes(i: nat, failed: bool)
      requires Valid() && Enabled(config, State(), if failed then SinkFails(i) else SinkReturns(i))
      modifies this
      ensures Valid() && State() == Next(config, old(State()), if failed then SinkFails(i) else SinkReturns(i))
    {
      hide Invariant;
      StepKeeps(config, State(), if failed then SinkFails(i) else SinkReturns(i));
      if failed {
        counters := counters.(sinkFailures := counters.sinkFailures + 1);
      } else {
        counters := counters.(emitted := counters.emitted + 1);
      }
      workers := workers[i := Handling(workers[i].work)];
      running := Some(i);
    }

    /** The `finally` of `_worker`. */
    method SettleFrame(i: nat, w: Worker)
      requires i < |workers|
      modifies this
      ensures State() == Done(old(State()), i, w)
    {
      inFlight := inFlight - 1;
      unfinished := unfinished - 1;
      workers := workers[i := w];
      running := None;
    }

    /** The end of `_handle_frame`, with its last parser and item treated. */
    method FrameHandled(i: nat)
      requires Valid() && Enabled(config, State(), Finish(i))
      modifies this
      ensures Valid() && State() == Next(config, old(State()), Finish(i))
    {
      hide Invariant;
      StepKeeps(config, State(), Finish(i));
      assert Next(config, State(), Finish(i)) == OnFinish(State(), i);
      hide Enabled, Next;
      ghost var frame := workers[i].work.frame;
      counters := counters.(processed := counters.processed + 1);
      SettleFrame(i, Idle);
      history := history.(processed := history.processed + multiset{frame});
    }

    /** A cancellation reaches a worker at its sink, delivered by `stop` or raised by the sink. */
    method FrameAborted(i: nat, byStop: bool)
      requires Valid() && Enabled(config, State(), AbortEvent(i, byStop)) && workers[i].AtSink?
      modifies this
      ensures Valid() && State() == Next(config, old(State()), AbortEvent(i, byStop))
    {
      hide Invariant;
      StepKeeps(config, State(), AbortEvent(i, byStop));
      assert Next(config, State(), AbortEvent(i, byStop)) == Abort(State(), i, byStop);
      hide Enabled, Next;
      ghost var w := workers[i];
      SettleFrame(i, Dead);
      AbortHistory(w, byStop);
    }

    ghost method AbortHistory(w: Worker, byStop: bool)
      requires w.AtSink?
      modifies `history
      ensures var h := old(history).(lost := old(history).lost + ItemsHeld(w));
              history == if byStop then h.(abortedByStop := h.abortedByStop + multiset{w.work.frame})
                         else h.(abortedBySink := h.abortedBySink + multiset{w.work.frame})
    {
      history := history.(lost := history.lost + ItemsHeld(w));
      if byStop {
        history := history.(abortedByStop := history.abortedByStop + multiset{w.work.frame});
      } else {
        history := history.(abortedBySink := history.abortedBySink + multiset{w.work.frame});
      }
    }

    /** A cancellation reaches a worker that waits for a frame. */
    method IdleWorkerCancelled(i: nat)
      requires Valid() && Enabled(config, State(), CancelDelivered(i)) && workers[i].Idle?
      modifies this
      ensures Valid() && State() == Next(config, old(State()), CancelDelivered(i))
    {
      hide Invariant;
      StepKeeps(config, State(), CancelDelivered(i));
      workers := workers[i := Dead];
    }

    /** False where `stop` returns at once, on a stopped pipeline. */
    method StopRefusesInput() returns (begun: bool)
      requires Valid() && running.None? && (phase == Open || phase == Stopped)
      modifies this
      ensures Valid() && (begun <==> old(phase) == Open)
      ensures State() == if begun then Next(config, old(State()), StopBegins) else old(State())
    {
      if phase == Stopped {
        return false;
      }
      hide Invariant;
      StepKeeps(config, State(), StopBegins);
      begun := true;
      accepting := false;
      phase := AwaitSubmitters;
    }

    method StopStartsJoin()
      requires Valid() && Enabled(config, State(), SubmittersSettled)
      modifies this
      ensures Valid() && State() == Next(config, old(State()), SubmittersSettled)
    {
      hide Invariant;
      StepKeeps(config, State(), SubmittersSettled);
      phase := Joining;
    }

    /** The join ends, in time or not, and all workers are cancelled. */
    method StopEndsJoin(timedOut: bool)
      requires Valid() && Enabled(config, State(), if timedOut then TimedOut else Drained)
      modifies this
      ensures Valid() && State() == Next(config, old(State()), if timedOut then TimedOut else Drained)
    {
      hide Invariant;
      StepKeeps(config, State(), if timedOut then TimedOut else Drained);
      if timedOut {
        counters := counters.(incomplete := counters.incomplete + |queue| + inFlight);
      }
      phase := Cancelling;
    }

    /** The loop that empties the queue. */
    method EmptyQueue()
      modifies `queue, `unfinished
      ensures queue == [] && unfinished == old(unfinished) - |old(queue)|
    {
      while queue != []
        invariant unfinished - |queue| == old(unfinished) - |old(queue)|
        decreases |queue|
      {
        queue := queue[1..];
        unfinished := unfinished - 1;
      }
    }

    /** The end of `stop`, when every worker has ended. */
    method StopReleasesQueue()
      requires Valid() && Enabled(config, State(), Release)
      modifies this
      ensures Valid() && State() == Next(config, old(State()), Release)
    {
      hide Invariant;
      StepKeeps(config, State(), Release);
      assert Next(config, State(), Release) == OnRelease(State());
      hide Enabled, Next;
      history := history.(discarded := history.discarded + multiset(queue));
      EmptyQueue();
      workers := [];
      phase := Stopped;
    }
  }
}
