# CodexNet in Dafny

CodexNet is a network discovery appliance: it listens to a network, asks directories and controllers,
correlates what it sees into devices, and draws a topology. This project models the logic behind its
input and output, module by module, and proves what that logic promises.

| modules | what they model |
|---|---|
| `PassivePipeline`, `PassiveService`, `PassiveHistory`, `DedupeWindow` | the bounded ingest queue with its workers, stop protocol and duplicate window, as a transition system over the steps between awaits, and the class whose methods are those steps |
| `UnionFind`, `Correlation`, `Correlator`, `CorrelationTheorems`, `CorrelationResults`, `CorrelationGuarantees`, `CorrelationDevices`, `CorrelationConflicts` | identity correlation: union-find with path halving, decisions, devices and conflicts |
| `DeclarationScanner` | the chunk-wise refusal of entity and document type declarations in Nmap XML |
| `SequenceMatcher`, `AuthorizationPattern`, `AuthorizationRedaction` | the bracket matcher, the pattern of authorization entries and the rewriting loop of the redactor |
| `DnsName`, `DnsText`, `DnsMessage`, `DnsPrinter`, `DnsDecompression` | the mDNS parser (sections 4.1.4 and 2.3.4 of RFC 1035, section 6 of RFC 6763), its printer and its converse |
| `MdnsCache`, `LeaseTable`, `NeighborTracker`, `NeighborHistory` | the bounded memories, against unlimited history |
| `LldpStream`, `LldpNeighbor`, `CdpStream`, `DhcpOptions`, `Decapsulation` | the TLV codecs (clause 8.4 of IEEE 802.1AB, section 2 of RFC 2132) and Ethernet, VLAN, IPv4 and UDP decapsulation |
| `CollectorCycle`, `CollectorGuarantees`, `CollectorOutcomes`, `RunRows` | a cycle of collector runs with retry, timeout and cancellation, and its durable rows |
| `Migrations`, `MigrationHistory` | schema migration with failures anywhere |
| `ArtifactStore` | publishing and pruning artifacts by links, with concurrent writers and pruners |
| `Topology`, `TopologyBuilder`, `TopologyGraph`, `TopologyMeaning`, `TopologyPieces`, `TopologyOrder`, `TopologyTiedEnds`, `TopologyTies` | the topology builder |
| `DirectoryPaging`, `UnifiPaging` | Active Directory and UniFi paging |
| `Options`, `Numbers`, `Bytes`, `Utf8Text`, `Ipv4`, `Sorting`, `OrderedDict`, `ExpiringDict` | what they share |

How it is built. Where the source changes state step by step, the model is a class or a method with
loops, proved to compute a specification function; the theorems are lemmas about that function, over
every input, run or reachable state. Asynchronous code is a relation between states with a scheduler
that may pick any enabled step. Texts that the program only compares (ids, evidence keys, sources,
field names, labels) are natural numbers in the order of the texts. Times are integers and confidences
reals. A digest is a function that does not collide, and stands for what it is taken from.

Where the code does not do what its surroundings suggest, the code was followed:

- The duplicate table is not sorted by expiry: a duplicate moves its entry without renewing it
  (`DedupeWindow.TableIsNotSortedByExpiry`); its answers are right all the same.
- A sink that raises a cancellation of its own makes the counters of a stop not add up; this is the only
  way (`PassivePipeline.StopAccountsForEveryFrame`, with a run in `CountersCanDisagree`).
- A stop never gets past its wait for submitters, which has no timeout, when every worker has died of a
  cancellation by the sink, the queue is full and a submitter waits (`PassivePipeline.StopCanStall`, with the
  exact condition in `WaitStallsExactly`).
- An authorization entry inside the key of another entry is not redacted, because the key is copied as a
  whole and the search goes on behind it (`AuthorizationRedaction.EntryInsideKeyStays`, with the exact
  condition in `EntryIsReplacedExactly`).
- An mDNS call whose frame cannot be parsed has removed the expired entries but tells of none
  (`MdnsCache.CallDisclosesExpiriesUnlessItFails`, with a history in `ExpiryCanBeLost`).
- A CDP address marked as IPv4 that has neither 4 nor 16 octets escapes as a library error, not as a
  parse error (`CdpStream.LibraryErrorEscapes`, with the exact condition in `LibraryErrorEscapesExactly`).
- The check for looping compression pointers refuses nothing that the bound on jumps would not
  (`DnsName.LoopCheckIsRedundant`).
- A writer that fails after linking its payload removes the metadata and leaves the payload
  (`ArtifactStore.PayloadCanLoseMetadata`, with the exact condition in `CoverageBreaksExactly`); it can even
  remove the metadata of another writer (`FlawlessWriterIsRobbed`).
- Two topology edges that differ only in having no end of validity and ending in the last
  representable moment tie, and the first one submitted stays (`TopologyTies.LastMomentDependsOnOrder`, with
  the exact condition on the evidence in `TopologyTiedEnds.OrderMattersExactly`). Two names of one VLAN from one
  source that differ only in case, and two pieces of evidence for one subnet, depend on order as well
  (`TopologyTies.CaseDependsOnOrder`, `TopologyTies.TwinSubnetsDependOnOrder`).

## Model

| member | source | states |
|---|---|---|
| `PassivePipeline.FramesAreConserved` | src/field_discovery/passive.py:154-221 | in every reachable state of every interleaving, frame by frame: submitted = processed + queued + in a worker + aborted by the sink or by the stop + discarded; the counters agree with that history; the queue never exceeds its size nor the frames in flight the number of workers |
| `PassivePipeline.NothingEnqueuedOnceSettled` | src/field_discovery/passive.py:197-204 | from the moment `stop` is past its wait for submitters, no frame is submitted or enqueued in any continuation of the run |
| `PassivePipeline.StopAccountsForEveryFrame` | src/field_discovery/passive.py:197-221 | when `stop` has completed, drained or timed out, queue and workers are empty and submitted = processed + incomplete + aborted by the sink; the two counters add up if and only if no sink raised a cancellation of its own |
| `PassivePipeline.CountersCanDisagree` | src/field_discovery/passive.py:299-302 | a concrete run of one frame whose sink raises a cancellation: after the stop one frame is submitted, none processed and none incomplete |
| `PassivePipeline.CleanStopProcessedEverything` | src/field_discovery/passive.py:197-221 | after a stop that counted nothing incomplete, the submitted frames are exactly, as a multiset, the processed ones and those a sink aborted |
| `PassivePipeline.CancellationProgresses` | src/field_discovery/passive.py:209-221 | while `stop` cancels its workers some step of it is always possible, and each delivered cancellation leaves fewer live workers |
| `PassivePipeline.WaitStallsExactly` | src/field_discovery/passive.py:203-204 | while `stop` waits for submitters, no step but that of a submitter giving up changes anything if and only if every worker has died and a submitter waits for room in a full queue |
| `PassivePipeline.StuckForever` | src/field_discovery/passive.py:203-204 | from such a state nothing ever changes, so the stop never ends, unless a waiting submitter gives up |
| `PassivePipeline.StopCanStall` | src/field_discovery/passive.py:203-204 | a concrete run that reaches such a state, with one worker and a queue of one |
| `PassivePipeline.WindowFollowsQuestions` | src/field_discovery/passive.py:290-298 | in every interleaving the duplicate table is what the single-threaded table makes of the questions put to it in that order |
| `PassivePipeline.SuppressionIsRight` | src/field_discovery/passive.py:296-298 | an observation is suppressed in a run only if the same observation was accepted less than one window before, whichever workers and frames the two came from |
| `PassivePipeline.StepKeeps` | src/field_discovery/passive.py:142-328 | every atomic step of submitters, workers, sink and stop keeps the whole invariant: conservation of frames, counters, gauges and the phases of the stop protocol |
| `PassiveService.PassiveEventPipeline.Start` | src/field_discovery/passive.py:142-152 | is the starting step: it creates the workers once and accepts input; on a stopped pipeline it is refused and changes nothing |
| `PassiveService.PassiveEventPipeline.SubmitBegins` | src/field_discovery/passive.py:163-169 | is the step up to the await of `submit`: the submission is refused and counted, or waits as one more active submitter; keeps the invariant of all runs |
| `PassiveService.PassiveEventPipeline.SubmitPuts` | src/field_discovery/passive.py:169-175 | is the step with which a waiting submitter, once there is room, enqueues its frame and leaves; the last one to leave signals that submissions are done; keeps the invariant, with it the bound of the queue |
| `PassiveService.PassiveEventPipeline.SubmitCancelled` | src/field_discovery/passive.py:169-175 | is the step of a submitter cancelled while it waits: it leaves and enqueues nothing |
| `PassiveService.PassiveEventPipeline.SubmitNowait` | src/field_discovery/passive.py:177-195 | accepts exactly when the frame was appended to the queue; a full queue is counted as back-pressure; keeps the invariant |
| `PassiveService.PassiveEventPipeline.WorkerTakes` | src/field_discovery/passive.py:268-273 | is the step with which an idle worker that is not being cancelled takes the oldest frame and is in flight with it; keeps the invariant; over whole runs the order is `PassiveHistory.FirstInFirstOut` |
| `PassiveService.PassiveEventPipeline.RunParser` | src/field_discovery/passive.py:278-289 | is the step of a parser that fails, and is counted and isolated, or hands over its output; keeps the invariant |
| `PassiveService.PassiveEventPipeline.TreatItem` | src/field_discovery/passive.py:290-300 | is the step of an item that is malformed and counted, or a duplicate and counted, or offered to the sink; keeps the invariant |
| `PassiveService.PassiveEventPipeline.SinkCompletes` | src/field_discovery/passive.py:299-306 | is the step of a sink that returns (emitted) or fails (counted); either way the worker goes on with its frame; keeps the invariant |
| `PassiveService.PassiveEventPipeline.FrameHandled` | src/field_discovery/passive.py:274-276 | a frame whose parsers and items are all treated is processed, leaves the worker and is done in the queue; keeps the invariant |
| `PassiveService.PassiveEventPipeline.FrameAborted` | src/field_discovery/passive.py:274-276 | a cancellation at the sink ends the worker, loses what it still held, and still settles the queue; keeps the invariant |
| `PassiveService.PassiveEventPipeline.IdleWorkerCancelled` | src/field_discovery/passive.py:209-212 | cancelling an idle worker ends it and touches nothing else |
| `PassiveService.PassiveEventPipeline.StopRefusesInput` | src/field_discovery/passive.py:203-204 | is the first step of a stop, which refuses new input; on a stopped pipeline nothing happens |
| `PassiveService.PassiveEventPipeline.StopStartsJoin` | src/field_discovery/passive.py:204-206 | is the step that starts the join, possible only when submissions are done; keeps the invariant, so no submitter is left |
| `PassiveService.PassiveEventPipeline.StopEndsJoin` | src/field_discovery/passive.py:205-208 | a drained join, which presupposes that nothing is unfinished, counts nothing; a timed-out one counts exactly the queued and in-flight frames as incomplete; keeps the invariant |
| `PassiveService.PassiveEventPipeline.StopReleasesQueue` | src/field_discovery/passive.py:213-221 | when every worker has ended, what is left in the queue is discarded and the pipeline is stopped for good; keeps the invariant |
| `PassiveHistory.FirstInFirstOut` | src/field_discovery/passive.py:154-276 | in every run, until `stop` releases the queue, the frames that entered the queue are, in order, those workers took followed by those still queued |
| `PassiveHistory.WaitersAreKept` | src/field_discovery/passive.py:154-176 | every submission that began to wait still waits, put its frame, or gave up, frame by frame |
| `PassiveHistory.OnlyAdmissibleFrames` | src/field_discovery/passive.py:142-195 | in every reachable state no frame that waits, is queued or is in a worker is of an unknown protocol or longer than the limit |
| `PassiveHistory.WorkIsInOrder` | src/field_discovery/passive.py:278-306 | of a frame in a worker: parsers called and parsers left are all of its protocol, and what the last parser yielded is what was treated of it, in order, followed by what is left |
| `PassiveHistory.ProcessedWhenAllIsDone` | src/field_discovery/passive.py:268-306 | a frame counts as processed only when all parsers of its protocol were called for it and all items yielded were treated |
| `PassiveHistory.RefusalsAreCounted` | src/field_discovery/passive.py:154-195 | the counters of refused frames are the numbers of frames offered, while the pipeline accepts, of an unknown protocol or too long |
| `PassiveHistory.SubmissionsAreCounted` | src/field_discovery/passive.py:154-195 | the counters of submitted and of pushed-back frames are the numbers of good frames offered and of those offered without waiting to a full queue |
| `PassiveHistory.TreatmentsAreCounted` | src/field_discovery/passive.py:268-306 | the counters of emitted, failed, malformed and duplicate items, failed parsers and processed frames are each the number of their own events in the run |
| `PassiveHistory.PeakIsAttained` | src/field_discovery/passive.py:154-195 | the peak is the greatest length the queue has had |
| `PassiveHistory.WorkersStayTillReleased` | src/field_discovery/passive.py:142-221 | in every run the pipeline has all its workers, no more and no fewer, from its first start until `stop` has released the queue, and accepts frames exactly from its first start until a stop begins |
| `DedupeWindow.DedupeTable.IsDuplicate` | src/field_discovery/passive.py:309-327 | the loop over the front of the table, the lookup and the bounded store compute one step of the table and its answer |
| `DedupeWindow.DuplicateIsRight` | src/field_discovery/passive.py:315-321 | an answer of duplicate is always right, although the table is not sorted by expiry: the last accepted copy is less than one window old |
| `DedupeWindow.NewIsRightWithinCapacity` | src/field_discovery/passive.py:315-327 | an answer of new is wrong only if entries had been evicted and at least `capacity` other fingerprints came after the last copy |
| `DedupeWindow.RefinesIdealWindow` | src/field_discovery/passive.py:309-327 | for any nondecreasing clock, until the first counted eviction the bounded table accepts the same copies and gives the same answers as a window with unlimited memory |
| `DedupeWindow.RecentlyAcceptedIsKept` | src/field_discovery/passive.py:322-327 | a fingerprint accepted less than a window ago is still in the table unless evictions happened and `capacity` other fingerprints came since |
| `DedupeWindow.EntriesRememberAcceptance` | src/field_discovery/passive.py:319-323 | every entry expires exactly one window after the last acceptance of its fingerprint, however often duplicates moved it |
| `DedupeWindow.SizeIsBounded` | src/field_discovery/passive.py:324-326 | the table never outgrows its capacity |
| `DedupeWindow.CallIsAccounted` | src/field_discovery/passive.py:309-327 | a call purges exactly the dead entries at the front; it counts an eviction if and only if a fingerprint comes that is not in a table still full after that, and the table grows by one if it comes to one that is not |
| `DedupeWindow.TableIsNotSortedByExpiry` | src/field_discovery/passive.py:315-321 | a concrete run after which the table is not in order of expiry and purging from the front leaves a dead entry behind |
| `UnionFind.DisjointSets.Find` | src/field_discovery/correlation.py:288-292 | path halving terminates on every forest, keeps every label, and returns the smallest id of the class, which is a root |
| `UnionFind.DisjointSets.Union` | src/field_discovery/correlation.py:294-298 | the two classes become one, labelled by the smaller root, and no other class changes |
| `UnionFind.HalvingKeepsLabels` | src/field_discovery/correlation.py:288-292 | moving one pointer to its grandparent leaves the root of every id unchanged |
| `UnionFind.JoinPartitions` | src/field_discovery/correlation.py:294-298 | joining the ends of a link keeps equal labels the same thing as connected by links |
| `UnionFind.JoinDropsOneRoot` | src/field_discovery/correlation.py:294-298 | each merge of two different classes removes exactly one root |
| `CorrelationTheorems.DecideIsConnectivity` | src/field_discovery/correlation.py:306-323 | after the loops the labels are the components both of all candidate merges and of the recorded decisions alone, and decisions + roots = observations |
| `CorrelationTheorems.RootsAreComponents` | src/field_discovery/correlation.py:300-323 | two observations have the same root if and only if they are connected through shared stable keys of confidence at least 0.8, interface MACs included; every root is the smallest id of its class |
| `CorrelationTheorems.SameConnections` | src/field_discovery/correlation.py:300-323 | star edges per key connect exactly what pairwise sharing of keys connects |
| `Correlator.Register` | src/field_discovery/correlation.py:280-286 | the first repeated id stops the registration; otherwise every id has its identifiers |
| `Correlator.BuildIndex` | src/field_discovery/correlation.py:300-304 | the index holds under each key exactly the stable claims of that key, in order |
| `Correlator.MergeAlongKeys` | src/field_discovery/correlation.py:306-323 | the nested loops over keys and claims record exactly the decisions of the specification and leave the union-find in its state |
| `Correlator.Group` | src/field_discovery/correlation.py:325-327 | the dictionary of groups has the classes in order of first appearance, each with all its members |
| `Correlator.BuildDevices` | src/field_discovery/correlation.py:328-371 | one device for each group, with the evidence, decisions and confidence of its members |
| `Correlator.Run` | src/field_discovery/correlation.py:277-379 | the imperative `correlate` computes the specification that the theorems below are about, errors included |
| `CorrelationResults.DevicesAreComponents` | src/field_discovery/correlation.py:277-379 | two observations are in one device if and only if they are connected through shared stable evidence |
| `CorrelationResults.EveryObservationIsPlaced` | src/field_discovery/correlation.py:325-372 | every observation is in a device |
| `CorrelationResults.DevicesAreDisjoint` | src/field_discovery/correlation.py:325-372 | no observation is in two devices |
| `CorrelationResults.EveryDecisionIsExplained` | src/field_discovery/correlation.py:306-323 | each recorded decision names two observations that give its key in stable evidence of confidence at least 0.8, the left one being the observation of smallest id that does; its confidence is the lower of the two given |
| `CorrelationResults.DecisionsAreSpanningForest` | src/field_discovery/correlation.py:306-379 | there are as many decisions as observations minus devices, and they alone connect exactly the members of each device |
| `CorrelationGuarantees.ConfidenceIsLowestDecision` | src/field_discovery/correlation.py:350-361 | a device with two or more members has the minimum confidence of its own decisions, attained by one of them, hence at least 0.8 |
| `CorrelationGuarantees.InputOrderIsIrrelevant` | src/field_discovery/correlation.py:277-379 | the result, refusals included, is the same for every permutation of the observations |
| `CorrelationGuarantees.MoreObservationsCoarsen` | src/field_discovery/correlation.py:277-379 | adding observations never separates two that were in one device |
| `CorrelationGuarantees.CanonicalKeysAreDistinct` | src/field_discovery/correlation.py:264-274 | distinct devices have distinct canonical keys, for every digest that does not collide |
| `CorrelationGuarantees.EvidenceIsConserved` | src/field_discovery/correlation.py:332-349 | each identifier, interface and fact occurs in all devices together exactly as often as in all observations together |
| `CorrelationGuarantees.EvidenceFollowsItsObservation` | src/field_discovery/correlation.py:332-349 | the evidence of an observation is in the device that lists it |
| `CorrelationDevices.CanonicalKeyIsOfLeast` | src/field_discovery/correlation.py:264-274 | the canonical key of a device is the digest of the least stable key one of its observations carries, or of its smallest observation id if there is none |
| `CorrelationDevices.UndecidedConfidence` | src/field_discovery/correlation.py:350-361 | a device without decisions has the greatest confidence of its identifiers of stable kinds, whatever that is, or one half if it has none |
| `CorrelationDevices.ResultIsOrdered` | src/field_discovery/correlation.py:362-379 | devices are listed by canonical key, decisions by key and left id |
| `CorrelationDevices.DeviceIsOrdered` | src/field_discovery/correlation.py:328-371 | a device lists its observations by id and its evidence each in its own order |
| `CorrelationDevices.SmallestRepeatedIdIsNamed` | src/field_discovery/correlation.py:282-286 | the id named in a refusal is the smallest that occurs more than once |
| `CorrelationConflicts.FindConflicts` | src/field_discovery/correlation.py:382-449 | the loops over devices and evidence find exactly the specified set of conflicts |
| `CorrelationConflicts.ReuseIsExact` | src/field_discovery/correlation.py:384-413 | a host name or address is reported as reused if and only if two observations that were not put into one device carry it |
| `CorrelationConflicts.ReuseListsItsDevices` | src/field_discovery/correlation.py:390-410 | a reported reuse lists exactly the devices that carry its host name or address, and exactly the observations of these devices |
| `CorrelationConflicts.CarriedIsObserved` | src/field_discovery/correlation.py:384-389 | a device carries a host name or address if and only if one of its observations does |
| `CorrelationConflicts.SerialConflictIsExact` | src/field_discovery/correlation.py:415-432 | the conflicts report a device for a set of serials if and only if its observations give at least two different ones and the set is exactly those they give |
| `CorrelationConflicts.DisagreementIsExact` | src/field_discovery/correlation.py:433-449 | the conflicts report a field of a device with a set of values if and only if its observations have two different values and two different sources for it and the set is exactly their values |
| `CorrelationConflicts.RefusedExactlyOnRepeatedId` | src/field_discovery/correlation.py:282-286 | correlation is refused if and only if an observation id occurs twice |
| `Sorting.SortedIsUnique` | src/field_discovery/correlation.py:279-379 | a collection whose sort key determines its elements has only one sorted order |
| `DeclarationScanner.SearchWindow` | src/field_discovery/nmap_xml.py:340-352 | the search loop finds a bad marker, or shows every marker in the window canonical except a pending last fragment |
| `DeclarationScanner.ScanChunk` | src/field_discovery/nmap_xml.py:326-355 | one chunk keeps everything the scanner has to know about the text so far, or shows that no continuation could be accepted |
| `DeclarationScanner.Scan` | src/field_discovery/nmap_xml.py:320-394 | a document in non-empty chunks is accepted if and only if it is not empty, within the byte limit, and its upper-cased text has no entity declaration and only canonical 18-byte document type declarations |
| `DeclarationScanner.CutIndependent` | src/field_discovery/nmap_xml.py:320-394 | two ways of cutting the same bytes give the same verdict |
| `DeclarationScanner.UpperIgnoresCase` | src/field_discovery/nmap_xml.py:326-328 | two texts agree in upper case if and only if they differ in nothing but the case of letters |
| `SequenceMatcher.SequenceEnd` | src/field_discovery/redaction.py:131-178 | the one-pass loop with stack, quote and escape computes the matched end |
| `SequenceMatcher.MatchedIsWord` | src/field_discovery/redaction.py:131-178 | the end is returned if and only if the text from the bracket to it is one balanced bracket word of the grammar, nested at most 16 deep and within the length cap |
| `AuthorizationRedaction.MalformedBoundary` | src/field_discovery/redaction.py:181-194 | the loop over continuation lines computes the boundary |
| `AuthorizationRedaction.BoundaryEndsLogicalLine` | src/field_discovery/redaction.py:181-194 | every line break before the boundary is followed by a blank continuation, and the boundary itself is the end of the text or the beginning, carriage return included, of a line break that is not |
| `AuthorizationRedaction.SegmentsTile` | src/field_discovery/redaction.py:197-223 | the rewriting always advances; its stretches (between matches, kept matches, replaced entries) tile the text in order; a replaced one runs from an authorization key to exactly the end of its bracket sequence |
| `AuthorizationRedaction.ExtentIsExact` | src/field_discovery/redaction.py:213-215 | the treatment of an authorization entry reaches to an end if and only if the text to it is a balanced bracket word within 65536 characters, or there is no such word and the end is that of the logical line |
| `AuthorizationRedaction.ReplacedReads` | src/field_discovery/redaction.py:216-221 | a replaced entry reads as its key and separator and [REDACTED], in double quotes if the key has one in it and in single quotes if not |
| `AuthorizationRedaction.Redact` | src/field_discovery/redaction.py:197-223 | the loop outputs exactly those stretches, the replaced ones as key, separator and redaction mark; what that keeps and drops is `OutputIsTheRest` |
| `AuthorizationPattern.SearchIsLeftmost` | src/field_discovery/redaction.py:81-85 | the search finds the match of the pattern that begins first at or after the cursor, inside the text, and misses none |
| `AuthorizationPattern.MatchIsPattern` | src/field_discovery/redaction.py:81-85 | a match begins at a position if and only if the pattern, as a grammar, stands there: a quoted string whose escapes take no line feed, perhaps behind a b, spaces, a colon, spaces, an opening bracket; it ends where the pattern ends, and there is no second way to read it |
| `AuthorizationRedaction.EntryIsReplacedExactly` | src/field_discovery/redaction.py:202-222 | an authorization entry is replaced up to the end of its bracket sequence if and only if no earlier match that is treated itself (and reaches to the end of its value if it is an authorization entry, to its bracket if not) reaches past its beginning |
| `AuthorizationRedaction.TreatedAreVisited` | src/field_discovery/redaction.py:202-222 | the matches the loop treats are exactly those that no earlier treated match covers |
| `AuthorizationRedaction.OutputIsTheRest` | src/field_discovery/redaction.py:197-223 | the output is the text in order without exactly the characters inside the values, bracket to bracket, of the treated authorization entries; every other character in it belongs to a redaction mark |
| `AuthorizationRedaction.EntryIsDropped` | src/field_discovery/redaction.py:213-222 | no character of the value of an authorization entry remains, unless an earlier match reaches past the beginning of the entry |
| `AuthorizationRedaction.EntryInsideKeyStays` | src/field_discovery/redaction.py:203-211 | a concrete text with an authorization entry inside the key of another entry, which is left unchanged |
| `DnsName.ReadName` | src/field_discovery/mdns.py:265-311 | the loop over labels and pointers terminates on every byte string and computes the specified outcome |
| `DnsName.NameIsWellFormed` | src/field_discovery/mdns.py:265-311 | a name that is read has labels of 1 to 63 octets, at most 255 octets on the wire, and ends inside the message behind its beginning |
| `DnsName.DecompressionIsTransparent` | src/field_discovery/mdns.py:265-311 | the labels of any name that was read, printed without pointers anywhere into any message, are read back unchanged and wholly consumed |
| `DnsName.PointerStandsForTarget` | src/field_discovery/mdns.py:279-290 | a pointer is a name if and only if what is read at its target by itself is a name that makes fewer than sixteen jumps; then it has the labels of that name, and only the pointer is consumed |
| `DnsName.LabelStandsBeforeRest` | src/field_discovery/mdns.py:275-311 | a label before anything, pointers included, is a name if and only if it fits and is good, the rest by itself is a name, and both are at most 255 octets; then its labels are that label and those of the rest |
| `DnsName.OtherBeginnings` | src/field_discovery/mdns.py:275-297 | a name is refused at the end of the message, at a length of 64 to 191, and at a pointer that is cut off or leads out of the message; a zero is the empty name |
| `DnsName.LoopCheckIsRedundant` | src/field_discovery/mdns.py:283-285 | the set of visited targets never changes a result: the bound of sixteen jumps alone refuses exactly the same names |
| `DnsText.ParseText` | src/field_discovery/mdns.py:183-207 | the loop over items refuses or fills the dictionary as specified |
| `DnsText.GroupedHoldsEverything` | src/field_discovery/mdns.py:196-207 | the dictionary holds for each key all its values in order, and its keys in order of first appearance |
| `DnsText.TextRoundTrip` | src/field_discovery/mdns.py:183-207 | printed items are parsed into the dictionary that collects them |
| `DnsMessage.ParseData` | src/field_discovery/mdns.py:159-181 | record data of the four known types is read or refused as specified, other types are ignored |
| `DnsMessage.ParseRecord` | src/field_discovery/mdns.py:141-154 | one record is read, ignored by its declared extent, or refused |
| `DnsMessage.SkipQuestions` | src/field_discovery/mdns.py:134-138 | the questions are passed over or refused |
| `DnsMessage.ParseRecords` | src/field_discovery/mdns.py:139-157 | the loop over records keeps the supported ones and demands that the last ends the message |
| `DnsMessage.ParseMessage` | src/field_discovery/mdns.py:120-157 | the whole parser computes the specification that the round trip and its converse are about |
| `DnsPrinter.MessageRoundTrip` | src/field_discovery/mdns.py:120-207 | every response within the limits, printed without compression, is parsed into exactly its supported class-IN records, in order, however the counts are split between the sections |
| `DnsDecompression.UncompressedMeansTheSame` | src/field_discovery/mdns.py:120-207 | every accepted response can be rewritten without compression and without changing any record it means |
| `DnsDecompression.AcceptedIsConsumed` | src/field_discovery/mdns.py:120-157 | a message is accepted if and only if it is at least a header and within the limit and, if it is a response, has not too many questions, which fit, and not too many records, which tile the rest to the last byte; what is no response gives no records |
| `DnsDecompression.TextIsFaithful` | src/field_discovery/mdns.py:183-207 | TXT data that is accepted is reprinted byte for byte |
| `Utf8Text.ValidIsEncoding` | src/field_discovery/mdns.py:303-306 | bytes that decode as UTF-8 are the encoding of some text of Unicode scalar values |
| `Utf8Text.EncodingIsValid` | src/field_discovery/mdns.py:303-306 | the encoding of every text decodes |
| `Utf8Text.ControlsAreCharacters` | src/field_discovery/mdns.py:307-308 | a text has no control character if and only if no byte of its encoding is one |
| `MdnsCache.Parser.Expire` | src/field_discovery/mdns.py:101-118 | exactly the due entries are removed and disclosed, in cache order |
| `MdnsCache.Parser.Receive` | src/field_discovery/mdns.py:79-99 | a call sweeps, then heeds its records in order; if parsing fails only the sweep has happened and nothing is returned |
| `MdnsCache.CacheAgreesWithHistory` | src/field_discovery/mdns.py:82-98 | over any history the cache agrees with unlimited memory, except that it may miss a live record, and then at least `capacity` other identities were announced since |
| `MdnsCache.CachedEntriesAreLive` | src/field_discovery/mdns.py:82-98 | after a call at a time every cached entry expires later than that and stands under the identity of its own observation |
| `MdnsCache.ExpireIsExact` | src/field_discovery/mdns.py:101-118 | an expiry is disclosed if and only if the cached record is due, and exactly those records are gone |
| `MdnsCache.CallDisclosesExpiriesUnlessItFails` | src/field_discovery/mdns.py:79-99 | a call tells of every expiry it causes if and only if its frame parses or nothing was due |
| `MdnsCache.CallTellsEachRecord` | src/field_discovery/mdns.py:84-98 | behind the expiries the output of a call has one disclosure for each record, in order: a goodbye for one of TTL 0, and else an announcement that expires after the TTL, or the longest one allowed |
| `MdnsCache.DisclosuresAreExact` | src/field_discovery/mdns.py:208-215 | the output of a call has a goodbye of an identity if and only if a record of it has TTL 0, and an announcement until a time if and only if a record of it has a positive TTL that ends then |
| `MdnsCache.CallLeavesLastHeard` | src/field_discovery/mdns.py:84-98 | after a call an identity heard in it is cached, if at all, until the time announced last, and not at all if its last record was a goodbye |
| `MdnsCache.ExpiryCanBeLost` | src/field_discovery/mdns.py:79-99 | a concrete history in which a record expires at a call whose frame cannot be parsed, and no later call tells of it |
| `DhcpOptions.ReadOptions` | src/field_discovery/dhcp.py:48-73 | the loop over codes and lengths computes the specified settings or refuses |
| `DhcpOptions.OptionsRoundTrip` | src/field_discovery/dhcp.py:48-73 | options with distinct codes are read back in order, whatever pads stand between them and whatever follows the end marker |
| `DhcpOptions.AcceptedIsPrinted` | src/field_discovery/dhcp.py:48-73 | options are accepted if and only if what stands before the first end marker is the print of pieces with distinct codes |
| `DhcpOptions.EveryOptionIsFound` | src/field_discovery/dhcp.py:48-73 | each option is found under its own code in whatever order the options were printed |
| `LeaseTable.LeaseTracker.Acknowledge` | src/field_discovery/dhcp.py:230-249 | the displaced client is reported, the address stored last, and the oldest evicted beyond capacity |
| `LeaseTable.LeasesAgreeWithHistory` | src/field_discovery/dhcp.py:233-249 | the table agrees with unlimited memory or has forgotten the address after `capacity` other addresses were acknowledged |
| `LeaseTable.ReuseIsRight` | src/field_discovery/dhcp.py:233-245 | a reported reuse is always real; unless `capacity` other addresses came between, reuse is reported if and only if the client last acknowledged for the address was another one |
| `LeaseTable.ForgettingHappens` | src/field_discovery/dhcp.py:248-249 | with room for one address a reuse does go unseen after one other address: the bound is sharp |
| `NeighborTracker.Tracker.Observe` | src/field_discovery/neighbor.py:176-239 | an observation renews, reports or creates its entry, reports conflicts of a new key, and evicts the oldest beyond capacity |
| `NeighborTracker.Tracker.Expire` | src/field_discovery/neighbor.py:241-262 | exactly the entries whose validity ended are removed and disclosed, in order |
| `NeighborHistory.TableIsShaped` | src/field_discovery/neighbor.py:234-238 | in every run keys are distinct, least recently observed first, and at most `capacity` |
| `NeighborHistory.TableAgreesWithHistory` | src/field_discovery/neighbor.py:176-262 | a tracked key expires one maximum age after it was last observed; an observed key that no sweep removed is tracked unless `capacity` other keys were observed since |
| `NeighborHistory.ReportsAreSpaced` | src/field_discovery/neighbor.py:180-189 | an observation of a tracked key is reported if and only if the last report of that key is at least one window old; an untracked key always is |
| `NeighborHistory.EntriesRemember` | src/field_discovery/neighbor.py:181-189 | a tracked entry remembers exactly when it was created and when it was last reported |
| `NeighborHistory.ConflictsAreExact` | src/field_discovery/neighbor.py:191-233 | the MACs and addresses named in conflicts are, each once and ascending, exactly those tracked for the same address (MAC) on the same interface |
| `NeighborHistory.ConflictsAreReported` | src/field_discovery/neighbor.py:191-239 | a conflict is reported if and only if the key is new, has a MAC, and a rival is tracked |
| `NeighborHistory.ReportSaysItsEvidence` | src/field_discovery/neighbor.py:173-239 | what is reported of an observation comes first: this very observation, the time from which its key has been tracked, its own time, and that plus the maximum age |
| `NeighborHistory.ConflictsSayExactly` | src/field_discovery/neighbor.py:186-231 | the conflicts reported are exactly these, for a key that was not tracked and has a MAC: the ascending list of all rival MACs of its address if there are any, and then the ascending list of all other addresses of its MAC if there are any |
| `NeighborHistory.TrackedIsLatest` | src/field_discovery/neighbor.py:173-185 | a tracked key holds its last observation |
| `NeighborHistory.ExpireIsExact` | src/field_discovery/neighbor.py:241-262 | a sweep removes and returns exactly the tracked keys last observed at least a maximum age ago |
| `NeighborHistory.EntriesAreConserved` | src/field_discovery/neighbor.py:176-262 | created = tracked + expired + evicted, in every run |
| `ExpiringDict.Sweep` | src/field_discovery/neighbor.py:244-262 | removing due items one by one from a snapshot leaves exactly the others, in order, and lists exactly the removed ones |
| `OrderedDict.RememberGet` | src/field_discovery/neighbor.py:234-238 | after a bounded store every other key is as before, or was evicted because `capacity` other keys were stored since it was |
| `LldpStream.ReadTlvs` | src/field_discovery/link_layer.py:181-206 | the generator loop computes the specified stream or refuses |
| `LldpStream.FrameRoundTrip` | src/field_discovery/link_layer.py:181-206 | every printed frame is read back as its TLVs and the End TLV, whatever the zero padding |
| `LldpStream.EndedFramesArePrinted` | src/field_discovery/link_layer.py:181-206 | a frame is read as some TLVs and an End TLV if and only if it is those TLVs, fewer than 128 and all good, printed with some zero padding |
| `LldpStream.UnendedFramesReprint` | src/field_discovery/link_layer.py:181-206 | a frame whose bytes run out before an End TLV is exactly the print of its TLVs |
| `LldpNeighbor.ParseLldp` | src/field_discovery/link_layer.py:54-112 | a frame is accepted if and only if it ends with an End TLV, has each mandatory TLV exactly once and every value that is looked at is good |
| `LldpNeighbor.PrintedFrameIsAccepted` | src/field_discovery/link_layer.py:54-112 | a frame printed from good TLVs within the limits is accepted if and only if the TLVs have each mandatory one exactly once and good values, whatever the padding |
| `LldpNeighbor.GoodIsAcceptable` | src/field_discovery/link_layer.py:63-98 | type by type, a value is good if and only if it is what its type calls for: an identifier, two octets of TTL, a text within its length, two pairs of capability octets, a counted management address, a port VLAN |
| `LldpNeighbor.IdentifiersAre` | src/field_discovery/link_layer.py:226-259 | a chassis or port identifier is accepted if and only if it is printed from a MAC of six octets, an IPv4 or IPv6 address, or, under any other subtype, a text of 1 to 255 octets |
| `LldpNeighbor.ManagementAddressesAre` | src/field_discovery/link_layer.py:277-283 | a management address is accepted if and only if it is a counted IPv4 or IPv6 address followed by at least five octets |
| `LldpNeighbor.FieldIsLast` | src/field_discovery/link_layer.py:63-98 | a field is the value of the last TLV of its type |
| `LldpNeighbor.MandatoryFieldsAreTheOnlyOnes` | src/field_discovery/link_layer.py:67-82 | the mandatory fields, the time to live among them, are those of the only TLVs of their types, wherever they stand |
| `CdpStream.ReadTlvs` | src/field_discovery/link_layer.py:209-223 | the generator loop computes the specified list or refuses |
| `CdpStream.StreamIsItsPrint` | src/field_discovery/link_layer.py:209-223 | the payloads accepted as a list of TLVs are exactly the printed ones, byte for byte, up to 128 TLVs |
| `CdpStream.ReadAddresses` | src/field_discovery/link_layer.py:296-326 | the loop over nested addresses computes the specified listing, telling a malformed list from an address the library rejects |
| `CdpStream.AddressesRoundTrip` | src/field_discovery/link_layer.py:296-326 | up to 64 printed addresses are read as those marked IPv4 or of 4 or 16 octets, in order, breaking off exactly at the first one marked IPv4 that cannot be shown |
| `CdpStream.AcceptedAddressesReprint` | src/field_discovery/link_layer.py:296-326 | every accepted address list is the print of the addresses it is read as |
| `CdpStream.LibraryErrorEscapesExactly` | src/field_discovery/link_layer.py:296-326 | on every payload, whatever stands behind: the library error escapes if and only if the count is there and at most 64 and one of that many addresses is whole, marked IPv4 and neither 4 nor 16 octets long, while all before it are whole and shown or passed over |
| `CdpStream.LibraryErrorEscapes` | src/field_discovery/link_layer.py:321-323 | a concrete payload, with a stray byte behind its one address, on which it does |
| `Decapsulation.DatagramIsDecoded` | src/field_discovery/passive_service.py:115-139 | an unfragmented datagram gives up exactly its UDP body, whatever its IP options, slack behind the UDP length and trailing padding; a fragment gives nothing |
| `Decapsulation.BodyReachesParser` | src/field_discovery/passive_service.py:91-139 | a UDP datagram in an Ethernet frame, tagged or not, reaches the parser of its port as exactly its body, and a fragment reaches none |
| `Decapsulation.PayloadReachesParser` | src/field_discovery/passive_service.py:97-112 | LLDP and ARP payloads pass unchanged, and a CDP payload loses exactly its SNAP header |
| `CollectorGuarantees.ApprovalIsContainment` | src/field_discovery/collectors.py:120-136 | a target is approved if and only if it is an IPv4 address or an address with a prefix length up to 32, and one approved range has all the addresses it asks for: the one, or all that agree with it in the prefix |
| `CollectorGuarantees.RefusalIsTotal` | src/field_discovery/collectors.py:163-182 | no task exists at all if and only if some request has an unregistered collector or a target not inside one approved range; launching alone writes nothing |
| `CollectorGuarantees.CycleInvariant` | src/field_discovery/collectors.py:163-309 | over every interleaving of starts, attempts, retries, timeouts and cancellations the tasks, run rows and issue rows stay consistent; which outcome is retried and how each ends is `CollectorOutcomes.OutcomesDecide` |
| `CollectorGuarantees.CycleIsAccounted` | src/field_discovery/collectors.py:208-309 | in every reachable state at most `concurrency` tasks hold the semaphore; attempts <= retries + 1; stored issues = error count, which is attempts - 1 if succeeded, attempts - 1 + issues if partial, attempts if failed, and attempts or attempts - 1 if cancelled |
| `CollectorGuarantees.FinishedExactlyOnce` | src/field_discovery/collectors.py:292-295 | in every run of events from a launch, `finish_run` never raises, and each run the cycle starts is finished exactly once by the time its row is final and not at all before |
| `CollectorGuarantees.NothingIsLeftRunning` | src/field_discovery/collectors.py:292-309 | when no task of a launched cycle can go on, every row the cycle started is final and was finished exactly once |
| `CollectorGuarantees.EarlierRunsAreUntouched` | src/field_discovery/collectors.py:208-309 | no event of a cycle writes to a row that was there before it |
| `CollectorGuarantees.CycleEnds` | src/field_discovery/collectors.py:208-309 | a launched cycle makes at most 2 * retries + 4 moves for each request |
| `CollectorOutcomes.OutcomesDecide` | src/field_discovery/collectors.py:208-309 | in every run from a launch: all outcomes of a task but its last are timeouts or transport errors, at most retries + 1 in all; it ended failed after one of those only with all attempts used up, after a rejected credential, refusal or crash at once, succeeded or partial after a result, cancelled after an interruption or when stopped |
| `CollectorOutcomes.OutcomeIsHeeded` | src/field_discovery/collectors.py:249-291 | right after an outcome the task will try again if and only if it was a timeout or transport error and attempts are left; else it has ended |
| `CollectorOutcomes.AttemptUnlessStopped` | src/field_discovery/collectors.py:225-235 | a task that acquires the semaphore or wakes makes an attempt, unless the cycle is being stopped: then it is cancelled |
| `CollectorOutcomes.StopIsKnown` | src/field_discovery/collectors.py:208-309 | the cycle is being stopped if and only if it was asked to stop or a task of it was cancelled |
| `CollectorOutcomes.TablesTellOutcomes` | src/field_discovery/collectors.py:236-309 | in every run from a launch the row of each started task has its collector, target and start, and once ended its status, items and time; the issues of its run tell its outcomes in order, each with its category and whether a retry may help |
| `RunRows.Repository.StartCollectorRun` | src/field_discovery/repository.py:266-285 | a new running row, whose id is returned |
| `RunRows.Repository.FinishCollectorRun` | src/field_discovery/repository.py:287-297 | a running row becomes final; a missing or final row or a status that is not final is refused without change |
| `RunRows.Repository.RecordIssue` | src/field_discovery/repository.py:299-325 | one more issue row and nothing else |
| `RunRows.Repository.RecoverInterruptedRuns` | src/field_discovery/repository.py:340-358 | an issue for each unfinished run in the order of ids, then all of them failed; returns their number |
| `RunRows.RecoveryIsExact` | src/field_discovery/repository.py:340-358 | recovery makes every unfinished run failed at the time of recovery, with exactly one further issue, and leaves finished runs equal to what they were, and their issues |
| `RunRows.RecoveryTellsInterruptions` | src/field_discovery/repository.py:340-358 | what recovery adds to the issues is one retryable interruption for each unfinished run, in the order of ids |
| `RunRows.StartThenFinish` | src/field_discovery/repository.py:266-297 | a run started and then finished has its collector, target, both times, status and items, and cannot be finished again |
| `RunRows.RecoveryIsIdempotent` | src/field_discovery/repository.py:340-358 | recovering twice is recovering once, whenever the second time is |
| `Ipv4.SubnetIsInclusion` | src/field_discovery/collectors.py:132 | `subnet_of` is inclusion of the addresses |
| `Ipv4.EnclosingContains` | src/field_discovery/collectors.py:123 | the network around an address with its host bits dropped is a network and contains the address |
| `Ipv4.NetworksNest` | src/field_discovery/topology.py:258-266 | two networks that share an address are nested, the longer prefix inside |
| `Migrations.Connection.ApplyOne` | src/field_discovery/database.py:148-162 | a migration commits as a whole or, wherever a database operation fails or its script ends in the middle of a statement, leaves nothing behind |
| `Migrations.Connection.Migrate` | src/field_discovery/database.py:83-110 | bootstrap, checks and loop compute the specified database and result, for a failure after any number of operations |
| `MigrationHistory.BuiltIsExact` | src/field_discovery/database.py:103-110 | the schema is the fold of the applied list, and the history exactly the versions 1 to n with matching names and checksums |
| `MigrationHistory.CallExtends` | src/field_discovery/database.py:83-110 | a list that does not continue what was applied is refused and changes neither schema nor history; one that does is applied migration by migration up to the first failure; the call succeeds if and only if it reaches the end |
| `MigrationHistory.SeriesIsBuilt` | src/field_discovery/database.py:83-162 | after any series of calls, whatever their lists and failures, the database is that of a list of migrations, each applied once and in order |
| `MigrationHistory.GrowingListsApplyAPrefix` | src/field_discovery/database.py:83-162 | over growing lists the schema is the fold of a prefix of the last list, the history exactly its versions, and nothing is ever undone |
| `MigrationHistory.UnhinderedCallSucceeds` | src/field_discovery/database.py:83-110 | without failures a list that continues what was applied is applied to its end |
| `MigrationHistory.ForeignHistoryIsRefused` | src/field_discovery/database.py:97-108 | on any database a call gets past the checks if and only if the history is the versions 1 to n with the names and checksums of the first n migrations; otherwise nothing changes but that the history table exists |
| `ArtifactStore.PayloadsAlwaysHaveMetadata` | src/field_discovery/artifacts.py:205-273 | with any number of writers and pruners on the same and different names, interleaved, failing and interrupted at will, every payload has its metadata file at every step, as long as no writer fails between linking its payload and disposing of the staging file |
| `ArtifactStore.CoverageBreaksExactly` | src/field_discovery/artifacts.py:208-238 | in any run, interleaved as it may be and with failures after links, as long as clean-ups were harmless: a step leaves a payload without metadata if and only if it is the clean-up after a failure that followed the link and the payload is still there |
| `ArtifactStore.PayloadCanLoseMetadata` | src/field_discovery/artifacts.py:208-238 | a concrete run in which a single writer leaves a payload without its metadata |
| `ArtifactStore.FlawlessWriterIsRobbed` | src/field_discovery/artifacts.py:205-209 | a concrete run of two writers and a pruner in which the clean-up of the one removes the metadata of the other, whose payload then has none |
| `ArtifactStore.WriterPublishes` | src/field_discovery/artifacts.py:205-238 | a writer that nobody meets on its file, that is not interrupted and of whose steps only links fail, whatever happens to other files: after its four steps both its files are there if neither was before and no link failed; else both are as it found them |
| `ArtifactStore.PrunerRemoves` | src/field_discovery/artifacts.py:255-273 | a pruner that nobody meets on its file and none of whose steps fails: after its three steps neither file is there if both were before; else both are as it found them |
| `TopologyBuilder.Builder.Node` | src/field_discovery/topology.py:175-181 | a label replaces the one before exactly if it is smaller after case folding |
| `TopologyBuilder.Builder.AddEdge` | src/field_discovery/topology.py:183-195 | an edge replaces the one of its key exactly if it exceeds it |
| `TopologyBuilder.Builder.IsActive` | src/field_discovery/topology.py:197-204 | future and expired evidence is counted and left out |
| `TopologyBuilder.BuildTopology` | src/field_discovery/topology.py:269-379 | sorting, filtering and feeding the evidence computes the specified graph, or nothing where the source raises |
| `TopologyGraph.GraphEdgesAreExact` | src/field_discovery/topology.py:183-195 | each edge is the lexicographic maximum of confidence, time and validity among all edges active evidence submits under its key; it is valid at the snapshot and joins two nodes of the graph; a key without an edge was never submitted |
| `TopologyGraph.MembershipIsMostSpecific` | src/field_discovery/topology.py:586-612 | each membership edge goes to the innermost active subnet around the address of an active observation |
| `TopologyGraph.EvidenceIsCounted` | src/field_discovery/topology.py:197-204 | active + expired + future = the evidence offered |
| `TopologyGraph.SubmittersAre` | src/field_discovery/topology.py:284-355 | everything that is submitted comes from the local node or from active evidence; what each piece of evidence submits is `TopologyMeaning.SubmittedIsSaid` and `NameIsSaid` |
| `TopologyMeaning.SubmittedIsSaid` | src/field_discovery/topology.py:284-613 | the edges submitted are exactly those current evidence calls for, given without the code: observer to neighbour, neighbour to VLAN, service to instance, instance to host, server to client, VLAN to subnet, device to the innermost subnet around its address, each with its confidence, source and times |
| `TopologyMeaning.NameIsSaid` | src/field_discovery/topology.py:284-613 | the names submitted are exactly those current evidence gives; a VLAN seen on a link is named after its number only if it has no current evidence of its own |
| `TopologyMeaning.GraphSaysExactly` | src/field_discovery/topology.py:183-195 | a key is in the graph if and only if current evidence calls for an edge under it, and its edge is one called for that is at least as sure, then as recent, then as long valid as every other |
| `TopologyMeaning.MembersAreShown` | src/field_discovery/topology.py:586-612 | every current observation that sees a device at an address inside a current subnet gives a membership edge in the innermost such subnet, at least as good as one of the lower of the two confidences |
| `TopologyMeaning.NodesAreNamed` | src/field_discovery/topology.py:175-181 | a node is in the graph if and only if current evidence names it, and its label is one given to it that comes first |
| `TopologyMeaning.FirstNameStays` | src/field_discovery/topology.py:175-181 | of names that rank alike a node keeps the one submitted first |
| `TopologyMeaning.TallyIsExact` | src/field_discovery/topology.py:197-204 | the two counts are the numbers of pieces of evidence past their validity and from the future |
| `TopologyMeaning.RefusedExactly` | src/field_discovery/topology.py:269-379 | building is refused if and only if an observation expires before it was made, or a current one says that the observer is its own neighbour or that a client leased from itself |
| `TopologyOrder.OrderDoesNotMatter` | src/field_discovery/topology.py:269-379 | the same evidence in another order gives the same graph and is refused exactly when the other is, if one piece of evidence stands for each subnet, no two names of one VLAN from one source differ only in case, and no validity ends explicitly in the last representable moment |
| `TopologyOrder.OrderDecidesOnlyTies` | src/field_discovery/topology.py:183-195 | whatever the ends of validity, under the other two provisos: another order gives the same nodes, counts and edge keys, and the same graph if and only if under no key one graph has an open-ended edge and the other the edge that is alike but ends in the last moment |
| `TopologyTiedEnds.OrderMattersExactly` | src/field_discovery/topology.py:183-195 | whatever the ends of validity, under the other two provisos: some other order gives another graph if and only if two active pieces of evidence with one sort key, the first of those that submit the highest ranking edge of some key, submit it once open-ended and once ending in the last moment |
| `TopologyTiedEnds.KeptFrom` | src/field_discovery/topology.py:183-195 | every edge of a graph is from the first piece of evidence, in sorted order, that submits one ranking as high under its key |
| `TopologyOrder.OrderOfTwoEdges` | src/field_discovery/topology.py:183-195 | what the builder does with two different edges of one key: it keeps the same one in both orders if and only if one exceeds the other; else one is open-ended and the other ends in the last moment |
| `TopologyTies.LastMomentDependsOnOrder` | src/field_discovery/topology.py:183-195 | two observations, one open-ended and one that ends in the last representable moment, that give two graphs in their two orders |
| `TopologyTies.CaseDependsOnOrder` | src/field_discovery/topology.py:175-181 | two names of one VLAN that differ only in case, that give two graphs in their two orders |
| `TopologyTies.TwinSubnetsDependOnOrder` | src/field_discovery/topology.py:258-266 | two pieces of evidence for one subnet, that give two graphs in their two orders |
| `DirectoryPaging.RunQuery` | src/field_discovery/ad_collection.py:653-718 | the loop over pages and entries computes the specified outcome, and no cookie is requested twice |
| `DirectoryPaging.PagesDoNotMatter` | src/field_discovery/ad_collection.py:653-718 | over any proper paging of a stream of entries the result is the one answer for the stream, cut where the records first number `max_entries` |
| `DirectoryPaging.FoundIsTheAnswer` | src/field_discovery/ad_collection.py:653-718 | whenever a query ends without an error, whatever pages or repeated cookies would come behind, its result is the one answer for the stream of entries of its pages |
| `DirectoryPaging.FoundExactly` | src/field_discovery/ad_collection.py:706-712 | a query ends without an error if and only if some page reaches the limit or has the empty cookie, and the cookies before that page are new and not empty |
| `DirectoryPaging.RepeatedExactly` | src/field_discovery/ad_collection.py:706-712 | a query fails over a repeated cookie if and only if it comes to a page that neither reaches the limit nor has the empty cookie, whose cookie came before |
| `DirectoryPaging.AnswerIsExact` | src/field_discovery/ad_collection.py:680-704 | keys are unique in first-seen order, each record is the union of its entries with later attributes winning, the position index is exact, and the removed attributes and entries without a key are counted |
| `DirectoryPaging.CutIsFirst` | src/field_discovery/ad_collection.py:699-706 | the cut is the first place where the records number the limit, or the end |
| `UnifiPaging.GetPages` | src/field_discovery/unifi.py:315-341 | over a stable list of n items the result is exactly its first min(n, max_items, max_pages * page_size) items |

## Left out

- Sockets, asyncio itself, subprocesses, signals, TLS, the LDAP, SNMP and SSH libraries, SQLite and the SQL of the migrations: an environment step or an abstract table stands for each.
- Command line, configuration, report and diagram rendering, diagnostics, credential resolution: plumbing.
- Passive pipeline: `stop` called twice at once or cancelled itself, a first `start` during `stop`, and a sink that swallows a cancellation delivered by `stop` or turns it into an ordinary exception, so that its worker lives on; fingerprinting and normalisation succeed or refuse, without their content.
- Correlation: normalisation of identifiers, and the order of values inside a conflict (values that differ only in case have no fixed order there).
- Nmap XML: everything behind the declaration window (element parsing, and the check of byte order marks and NULs, which looks at the first chunk only).
- Redaction: the other regular expressions, what makes a quoted key an authorization key (a predicate of its token), and the serialized mode of the bracket matcher.
- mDNS: joining labels by dots and case folding, the redactor inside TXT values, and the rendering of records as observations; zero-length TXT strings are refused by the parser and so not printed.
- mDNS cache and neighbour table: an observation without its action is its identity, a natural number; what else an observation carries is not modelled.
- DHCP: the fixed header and the meaning of single options; the lease table starts from an acknowledgement with address and client.
- LLDP and CDP: how values are rendered as text, capability names, and which CDP TLVs become which fields.
- Decapsulation: the protocol numbers of other payloads, which are dropped.
- Collectors: clocks of the attempts, the rendering of targets, repository calls that fail, and the scheduler between cycles.
- Migrations: reading migration files, and the operating-system side of opening a database.
- Artifacts: permissions, symbolic links, size limits, metadata content, retention times; a name is valid and its metadata name is never a payload name.
- Topology: conflicts, the texts of limitations, and the rejection of malformed text; equal sort keys mean equal time, kind, source and fields, as the key is made of them.
- Active Directory: sanitising of single entries, referrals, group range expansion and cancellation; whether an arbitrary server ever ends its pages.
- UniFi: login, status codes, and a controller whose list changes while it is paged.
