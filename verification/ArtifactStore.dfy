/** Publishing and pruning artifacts (`_write`, `_publish`, `prune_expired`, artifacts.py) as file-system
    steps of any number of concurrent writers and pruners. A file is published by a link, which fails
    if the name exists: first the metadata, then the payload. Pruning removes them in the other order. */
module ArtifactStore {

  /** Where a writer or a pruner of one artifact stands between two file-system steps. */
  datatype Phase =
    | ToLinkMetadata
    | MetadataLinked   // its staging file is still to be closed and removed
    | ToLinkPayload
    | Published        // the payload is linked; its staging file is still to be closed and removed
    | ToUndo           // linking the payload failed: the metadata is to be removed
    | ToUndoPublished  // closing or removing the staging file failed after the link: likewise
    | ToCheck
    | ToUnlinkPayload
    | ToUnlinkMetadata
    | Finished

  datatype Process = Process(phase: Phase, file: nat)
  datatype Directory = Directory(payloads: set<nat>, metadata: set<nat>)
  datatype State = State(dir: Directory, processes: seq<Process>)

  /** One step of process `i`; `fails` is an error of the operation beyond those the names explain,
      and `stop` an interruption that ends the process without any clean-up. */
  datatype Event = Event(i: nat, fails: bool, stop: bool)

  function NewPhase(d: Directory, p: Process, e: Event): Phase {
    var f := p.file;
    if e.stop then Finished else
      match p.phase
      case ToLinkMetadata => if e.fails || f in d.metadata then Finished else MetadataLinked
      case MetadataLinked => if e.fails then Finished else ToLinkPayload
      case ToLinkPayload => if e.fails || f in d.payloads then ToUndo else Published
      case Published => if e.fails then ToUndoPublished else Finished
      case ToUndo => Finished
      case ToUndoPublished => Finished
      case ToCheck => if e.fails || f !in d.payloads || f !in d.metadata then Finished else ToUnlinkPayload
      case ToUnlinkPayload => if e.fails || f !in d.payloads then Finished else ToUnlinkMetadata
      case ToUnlinkMetadata => Finished
      case Finished => Finished
  }

  function NewDirectory(d: Directory, p: Process, e: Event): Directory {
    var f := p.file;
    if e.stop || e.fails then d else
      match p.phase
      case ToLinkMetadata => d.(metadata := d.metadata + {f})
      case ToLinkPayload => d.(payloads := d.payloads + {f})
      case ToUndo => d.(metadata := d.metadata - {f})
      case ToUndoPublished => d.(metadata := d.metadata - {f})
      case ToUnlinkPayload => d.(payloads := d.payloads - {f})
      case ToUnlinkMetadata => d.(metadata := d.metadata - {f})
      case _ => d
  }

  function Next(s: State, e: Event): State {
    if e.i >= |s.processes| then s else
      var p := s.processes[e.i];
      State(NewDirectory(s.dir, p, e), s.processes[e.i := p.(phase := NewPhase(s.dir, p, e))])
  }

  /** Every published payload has its metadata file. */
  predicate Covered(d: Directory) {
    d.payloads <= d.metadata
  }

  /** A process that alone decides about a metadata file whose payload does not exist. */
  predicate Owns(p: Process) {
    p.phase == MetadataLinked || p.phase == ToLinkPayload || p.phase == ToUndo || p.phase == ToUnlinkMetadata
  }

  ghost predicate OwnersOk(s: State) {
    forall i :: 0 <= i < |s.processes| && Owns(s.processes[i]) ==>
      s.processes[i].file in s.dir.metadata && s.processes[i].file !in s.dir.payloads
  }

  ghost predicate OwnersDiffer(processes: seq<Process>) {
    forall i, j :: 0 <= i < j < |processes| && Owns(processes[i]) && Owns(processes[j]) ==>
      processes[i].file != processes[j].file
  }

  ghost predicate Inv(s: State) {
    Covered(s.dir) && OwnersOk(s) && OwnersDiffer(s.processes)
  }

  /** The clean-up of a writer that failed after its payload was linked. */
  predicate Undoes(s: State, e: Event) {
    e.i < |s.processes| && s.processes[e.i].phase == ToUndoPublished && !e.fails && !e.stop
  }

  /** Such a clean-up removes a metadata file that nobody needs: its payload has been pruned meanwhile, and
      no other process has come to decide about it. */
  ghost predicate Harmless(s: State, e: Event) {
    Undoes(s, e) ==>
      var f := s.processes[e.i].file;
      f !in s.dir.payloads && forall i :: 0 <= i < |s.processes| && Owns(s.processes[i]) ==> s.processes[i].file != f
  }

  lemma StepKeeps(s: State, e: Event)
    requires Inv(s) && Harmless(s, e)
    ensures Inv(Next(s, e))
  {
    if e.i < |s.processes| {
      var p, n := s.processes[e.i], Next(s, e);
      forall i | 0 <= i < |n.processes| && Owns(n.processes[i])
        ensures n.processes[i].file in n.dir.metadata && n.processes[i].file !in n.dir.payloads
      {
        OwnerStays(s, e, i);
      }
      DifferenceStays(s, e);
    }
  }

  lemma OwnerStays(s: State, e: Event, i: nat)
    requires Inv(s) && Harmless(s, e)
    requires e.i < |s.processes| && i < |s.processes| && Owns(Next(s, e).processes[i])
    ensures var n := Next(s, e); n.processes[i].file in n.dir.metadata && n.processes[i].file !in n.dir.payloads
  {
    var p, q := s.processes[e.i], s.processes[i];
    if i != e.i {
      assert Owns(q) && (Owns(p) ==> p.file != q.file);
    }
  }

  lemma DifferenceStays(s: State, e: Event)
    requires Inv(s) && e.i < |s.processes|
    ensures OwnersDiffer(Next(s, e).processes)
  {
    var p, n := s.processes[e.i], Next(s, e).processes;
    forall i, j | 0 <= i < j < |n| && Owns(n[i]) && Owns(n[j]) ensures n[i].file != n[j].file {
      var other := if i == e.i then j else i;
      assert Owns(n[other]) ==> other == e.i || Owns(s.processes[other]);
    }
  }

  // ----- runs

  function After(s: State, events: seq<Event>): State {
    if events == [] then s else Next(After(s, events[..|events| - 1]), events[|events| - 1])
  }

  ghost predicate AllHarmless(s: State, events: seq<Event>) {
    events == [] || (AllHarmless(s, events[..|events| - 1])
                     && Harmless(After(s, events[..|events| - 1]), events[|events| - 1]))
  }

  ghost predicate AllAtStart(processes: seq<Process>) {
    forall i :: 0 <= i < |processes| ==> processes[i].phase == ToLinkMetadata || processes[i].phase == ToCheck
  }

  lemma {:induction false} RunKeeps(s: State, events: seq<Event>)
    requires Covered(s.dir) && AllAtStart(s.processes) && AllHarmless(s, events)
    ensures Inv(After(s, events))
  {
    if events != [] {
      RunKeeps(s, events[..|events| - 1]);
      hide Inv, Next, Harmless;
      StepKeeps(After(s, events[..|events| - 1]), events[|events| - 1]);
    }
  }

  /** The failure between linking a payload and disposing of its staging file. */
  predicate FailsAfterLink(s: State, e: Event) {
    e.i < |s.processes| && s.processes[e.i].phase == Published && e.fails && !e.stop
  }

  predicate NoFailureAfterLink(s: State, events: seq<Event>) {
    events == [] || (NoFailureAfterLink(s, events[..|events| - 1])
                     && !FailsAfterLink(After(s, events[..|events| - 1]), events[|events| - 1]))
  }

  ghost predicate NoneUndoing(processes: seq<Process>) {
    forall i :: 0 <= i < |processes| ==> processes[i].phase != ToUndoPublished
  }

  /** Without that failure there is nothing to clean up after it. */
  lemma {:induction false} NoFailureNoUndoing(s: State, events: seq<Event>)
    requires AllAtStart(s.processes) && NoFailureAfterLink(s, events)
    ensures AllHarmless(s, events) && NoneUndoing(After(s, events).processes)
  {
    if events != [] {
      NoFailureNoUndoing(s, events[..|events| - 1]);
    }
  }

  /** With any number of writers and pruners on the same and on different names, interleaved, failing
      and interrupted at will, every payload has its metadata at every step, as long as no writer fails
      between linking its payload and disposing of the staging file. */
  lemma PayloadsAlwaysHaveMetadata(s: State, events: seq<Event>, k: nat)
    requires Covered(s.dir) && AllAtStart(s.processes) && NoFailureAfterLink(s, events) && k <= |events|
    ensures Covered(After(s, events[..k]).dir)
  {
    NoFailurePrefix(s, events, k);
    NoFailureNoUndoing(s, events[..k]);
    RunKeeps(s, events[..k]);
  }

  lemma {:induction false} NoFailurePrefix(s: State, events: seq<Event>, k: nat)
    requires NoFailureAfterLink(s, events) && k <= |events|
    ensures NoFailureAfterLink(s, events[..k])
  {
    if k == |events| {
      assert events[..k] == events;
    } else {
      assert events[..|events| - 1][..k] == events[..k];
      NoFailurePrefix(s, events[..|events| - 1], k);
    }
  }

  /** Even with such failures, and whatever the other processes do between a failure and its clean-up: as
      long as clean-ups were harmless, a step leaves a payload without metadata if and only if it is a
      clean-up and the payload is still there. */
  lemma CoverageBreaksExactly(s: State, events: seq<Event>, e: Event)
    requires Covered(s.dir) && AllAtStart(s.processes) && AllHarmless(s, events)
    ensures var b := After(s, events);
            !Covered(Next(b, e).dir) <==> Undoes(b, e) && b.processes[e.i].file in b.dir.payloads
  {
    var b := After(s, events);
    RunKeeps(s, events);
    if !Undoes(b, e) {
      StepKeeps(b, e);
    }
  }

  /** A run in which it happens: one writer, whose staging file cannot be removed after the link. */
  lemma PayloadCanLoseMetadata()
    ensures var s := State(Directory({}, {}), [Process(ToLinkMetadata, 7)]);
            var step, fault := Event(0, false, false), Event(0, true, false);
            After(s, [step, step, step, fault, step]).dir == Directory({7}, {})
  {
    var s := State(Directory({}, {}), [Process(ToLinkMetadata, 7)]);
    var step, fault := Event(0, false, false), Event(0, true, false);
    var all := [step, step, step, fault, step];
    assert all[..4] == [step, step, step, fault] && all[..4][..3] == [step, step, step];
    assert [step, step, step][..2] == [step, step] && [step, step][..1] == [step] && [step][..0] == [];
    assert After(s, [step]) == State(Directory({}, {7}), [Process(MetadataLinked, 7)]);
    assert After(s, [step, step]) == State(Directory({}, {7}), [Process(ToLinkPayload, 7)]);
    assert After(s, [step, step, step]) == State(Directory({7}, {7}), [Process(Published, 7)]);
    assert After(s, [step, step, step, fault]) == State(Directory({7}, {7}), [Process(ToUndoPublished, 7)]);
  }

  // ----- a process that nobody meets on its file

  /** A step touches no file but that of its process. */
  lemma OnlyOwnFileChanges(s: State, e: Event, f: nat)
    requires e.i < |s.processes| ==> s.processes[e.i].file != f
    ensures f in Next(s, e).dir.payloads <==> f in s.dir.payloads
    ensures f in Next(s, e).dir.metadata <==> f in s.dir.metadata
  {
  }

  ghost predicate AloneOnFile(processes: seq<Process>, i: nat) {
    i < |processes| && forall j :: 0 <= j < |processes| && j != i ==> processes[j].file != processes[i].file
  }

  /** Nobody interrupts the process, and none of its steps fails, except for links of a writer. */
  predicate OnlyLinksFail(s: State, events: seq<Event>, i: nat) {
    events == [] || (OnlyLinksFail(s, events[..|events| - 1], i)
                     && (events[|events| - 1].i == i ==> LinksOrSucceeds(After(s, events[..|events| - 1]), events[|events| - 1])))
  }

  predicate LinksOrSucceeds(s: State, e: Event) {
    !e.stop && (e.fails ==> e.i < |s.processes| && s.processes[e.i].phase in {ToLinkMetadata, ToLinkPayload})
  }

  function OwnSteps(events: seq<Event>, i: nat): nat {
    if events == [] then 0 else OwnSteps(events[..|events| - 1], i) + if events[|events| - 1].i == i then 1 else 0
  }

  predicate Failed(events: seq<Event>, i: nat) {
    events != [] && (Failed(events[..|events| - 1], i) || (events[|events| - 1].i == i && events[|events| - 1].fails))
  }

  /** The payload and the metadata of a process: whether they were there when it began, and are there now. */
  datatype Files = Files(payload: bool, metadata: bool)

  function FilesOf(d: Directory, f: nat): Files {
    Files(f in d.payloads, f in d.metadata)
  }

  /** How far a writer is that found certain files: what is there now, whether a link has failed, and how many
      steps it has made at most. */
  ghost predicate WriterStands(phase: Phase, found: Files, now: Files, failed: bool, steps: nat) {
    match phase
    case ToLinkMetadata => now == found && !failed && steps == 0
    case MetadataLinked => !found.metadata && now == Files(found.payload, true) && !failed && steps <= 1
    case ToLinkPayload => !found.metadata && now == Files(found.payload, true) && !failed && steps <= 2
    case Published => found == Files(false, false) && now == Files(true, true) && !failed && steps <= 3
    case ToUndo => !found.metadata && now == Files(found.payload, true) && (found.payload || failed) && steps <= 3
    case Finished => now == if found == Files(false, false) && !failed then Files(true, true) else found
    case _ => false
  }

  ghost predicate PrunerStands(phase: Phase, found: Files, now: Files, steps: nat) {
    match phase
    case ToCheck => now == found && steps == 0
    case ToUnlinkPayload => found == Files(true, true) && now == found && steps <= 1
    case ToUnlinkMetadata => found == Files(true, true) && now == Files(false, true) && steps <= 2
    case Finished => now == if found == Files(true, true) then Files(false, false) else found
    case _ => false
  }

  lemma {:induction false} AloneStands(s: State, events: seq<Event>, i: nat)
    requires AloneOnFile(s.processes, i) && OnlyLinksFail(s, events, i)
    ensures var t, f := After(s, events), s.processes[i].file;
            && AloneOnFile(t.processes, i) && |t.processes| == |s.processes| && t.processes[i].file == f
            && (s.processes[i].phase == ToLinkMetadata ==>
                  WriterStands(t.processes[i].phase, FilesOf(s.dir, f), FilesOf(t.dir, f),
                               Failed(events, i), OwnSteps(events, i)))
            && (s.processes[i].phase == ToCheck ==>
                  PrunerStands(t.processes[i].phase, FilesOf(s.dir, f), FilesOf(t.dir, f), OwnSteps(events, i)))
  {
    if events != [] {
      var before, e := events[..|events| - 1], events[|events| - 1];
      AloneStands(s, before, i);
      if e.i != i {
        OnlyOwnFileChanges(After(s, before), e, s.processes[i].file);
      }
    }
  }

  /** A writer that nobody meets on its file, that nobody interrupts, and of whose steps only links may fail,
      is done after four steps, whatever else goes on: both its files are there if neither was before and no link has
      failed; else it has left both as they were, taking its metadata back. */
  lemma WriterPublishes(s: State, events: seq<Event>, i: nat)
    requires AloneOnFile(s.processes, i) && s.processes[i].phase == ToLinkMetadata
    requires OnlyLinksFail(s, events, i) && OwnSteps(events, i) >= 4
    ensures var t, f := After(s, events), s.processes[i].file;
            && |t.processes| == |s.processes| && t.processes[i].phase == Finished
            && (if f !in s.dir.payloads && f !in s.dir.metadata && !Failed(events, i)
                then f in t.dir.payloads && f in t.dir.metadata
                else (f in t.dir.payloads <==> f in s.dir.payloads) && (f in t.dir.metadata <==> f in s.dir.metadata))
  {
    AloneStands(s, events, i);
  }

  /** A pruner likewise, none of whose steps fails, after three steps: neither file is there if both were before, and if
      one was missing, it has left the other as it was. */
  lemma PrunerRemoves(s: State, events: seq<Event>, i: nat)
    requires AloneOnFile(s.processes, i) && s.processes[i].phase == ToCheck
    requires OnlyLinksFail(s, events, i) && OwnSteps(events, i) >= 3
    ensures var t, f := After(s, events), s.processes[i].file;
            && |t.processes| == |s.processes| && t.processes[i].phase == Finished
            && (if f in s.dir.payloads && f in s.dir.metadata then f !in t.dir.payloads && f !in t.dir.metadata
                else (f in t.dir.payloads <==> f in s.dir.payloads) && (f in t.dir.metadata <==> f in s.dir.metadata))
  {
    AloneStands(s, events, i);
  }

  lemma {:induction false} AfterAppend(s: State, a: seq<Event>, b: seq<Event>)
    ensures After(s, a + b) == After(After(s, a), b)
  {
    if b == [] {
      assert a + b == a;
    } else {
      assert (a + b)[..|a + b| - 1] == a + b[..|b| - 1];
      AfterAppend(s, a, b[..|b| - 1]);
    }
  }

  lemma AfterTwo(s: State, d: Event, e: Event)
    ensures After(s, [d, e]) == Next(Next(s, d), e)
  {
    assert [d, e][..1] == [d] && [d][..0] == [];
    assert After(s, [d]) == Next(s, d);
  }

  function Turn(i: nat): Event { Event(i, false, false) }

  function Three(a: Phase, b: Phase, c: Phase): seq<Process> {
    [Process(a, 7), Process(b, 7), Process(c, 7)]
  }

  /** A clean-up can also rob another writer of its metadata: a first writer fails after linking, a pruner
      removes both files, a second writer links its metadata, the first one cleans up, and the second links
      its payload, with no step of its own having failed. */
  lemma FlawlessWriterIsRobbed()
    ensures var start := State(Directory({}, {}), Three(ToLinkMetadata, ToCheck, ToLinkMetadata));
            var failing := [Turn(0), Turn(0)] + [Turn(0), Event(0, true, false)];
            var pruning := [Turn(1), Turn(1)] + [Turn(1), Turn(2)];
            After(start, failing + pruning + ([Turn(2), Turn(0)] + [Turn(2), Turn(2)])).dir == Directory({7}, {})
  {
    var start := State(Directory({}, {}), Three(ToLinkMetadata, ToCheck, ToLinkMetadata));
    var failing := [Turn(0), Turn(0)] + [Turn(0), Event(0, true, false)];
    var pruning := [Turn(1), Turn(1)] + [Turn(1), Turn(2)];
    var robbing := [Turn(2), Turn(0)] + [Turn(2), Turn(2)];
    AfterAppend(start, failing + pruning, robbing);
    AfterAppend(start, failing, pruning);
    var failed := FirstFails(start);
    var pruned := OthersCome(failed);
    AfterAppend(pruned, [Turn(2), Turn(0)], [Turn(2), Turn(2)]);
    AfterTwo(pruned, Turn(2), Turn(0));
    var robbed := State(Directory({}, {}), Three(Finished, Finished, ToLinkPayload));
    assert After(pruned, [Turn(2), Turn(0)]) == robbed;
    AfterTwo(robbed, Turn(2), Turn(2));
  }

  lemma FirstFails(s: State) returns (t: State)
    requires s == State(Directory({}, {}), Three(ToLinkMetadata, ToCheck, ToLinkMetadata))
    ensures t == After(s, [Turn(0), Turn(0)] + [Turn(0), Event(0, true, false)])
    ensures t == State(Directory({7}, {7}), Three(ToUndoPublished, ToCheck, ToLinkMetadata))
  {
    AfterAppend(s, [Turn(0), Turn(0)], [Turn(0), Event(0, true, false)]);
    AfterTwo(s, Turn(0), Turn(0));
    t := State(Directory({}, {7}), Three(ToLinkPayload, ToCheck, ToLinkMetadata));
    assert After(s, [Turn(0), Turn(0)]) == t;
    AfterTwo(t, Turn(0), Event(0, true, false));
    t := After(t, [Turn(0), Event(0, true, false)]);
  }

  lemma OthersCome(s: State) returns (t: State)
    requires s == State(Directory({7}, {7}), Three(ToUndoPublished, ToCheck, ToLinkMetadata))
    ensures t == After(s, [Turn(1), Turn(1)] + [Turn(1), Turn(2)])
    ensures t == State(Directory({}, {7}), Three(ToUndoPublished, Finished, MetadataLinked))
  {
    AfterAppend(s, [Turn(1), Turn(1)], [Turn(1), Turn(2)]);
    AfterTwo(s, Turn(1), Turn(1));
    t := State(Directory({}, {7}), Three(ToUndoPublished, ToUnlinkMetadata, ToLinkMetadata));
    assert After(s, [Turn(1), Turn(1)]) == t;
    AfterTwo(t, Turn(1), Turn(2));
    t := After(t, [Turn(1), Turn(2)]);
  }
}
