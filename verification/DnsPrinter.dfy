/** Uncompressed mDNS responses: the printer that the parser of DnsMessage inverts. */
module DnsPrinter {
  import opened Options
  import opened Bytes
  import opened DnsName
  import opened DnsText
  import opened DnsMessage

  /** Record data with its TXT items as written, or data of a type the parser does not know. */
  datatype Body = Supported(data: Data<seq<WireItem>>) | Other(rtype: nat, payload: seq<byte>)
  datatype Entry = Entry(name: seq<Label>, rclass: nat, ttl: nat, body: Body)
  datatype Question = Question(name: seq<Label>, kind: nat, qclass: nat)
  datatype Header = Header(id: nat, flags: nat, answers: nat, authorities: nat, additionals: nat)

  function TypeOf(b: Body): nat {
    match b
    case Other(rtype, _) => rtype
    case Supported(data) => if data.Address? then 1 else if data.Pointer? then 12 else if data.Service? then 33 else 16
  }

  function PrintData(d: Data<seq<WireItem>>): seq<byte> {
    match d
    case Address(octets) => octets
    case Pointer(name) => Print(name)
    case Service(priority, weight, port, target) => Put16(priority) + Put16(weight) + Put16(port) + Print(target)
    case Strings(items) => PrintItems(items)
  }

  function PrintBody(b: Body): seq<byte> {
    if b.Supported? then PrintData(b.data) else b.payload
  }

  function PrintHead(e: Entry): seq<byte> {
    Put16(TypeOf(e.body)) + Put16(e.rclass) + Put32(e.ttl) + Put16(|PrintBody(e.body)|)
  }

  function PrintEntry(e: Entry): seq<byte> {
    Print(e.name) + PrintHead(e) + PrintBody(e.body)
  }

  function PrintEntries(es: seq<Entry>): seq<byte> {
    if es == [] then [] else PrintEntry(es[0]) + PrintEntries(es[1..])
  }

  function PrintQuestion(q: Question): seq<byte> {
    Print(q.name) + (Put16(q.kind) + Put16(q.qclass))
  }

  function PrintQuestions(qs: seq<Question>): seq<byte> {
    if qs == [] then [] else PrintQuestion(qs[0]) + PrintQuestions(qs[1..])
  }

  function PrintHeader(h: Header, questions: nat): seq<byte> {
    Put16(h.id) + Put16(h.flags) + Put16(questions)
    + Put16(h.answers) + Put16(h.authorities) + Put16(h.additionals)
  }

  function PrintMessage(h: Header, qs: seq<Question>, es: seq<Entry>): seq<byte> {
    PrintHeader(h, |qs|) + PrintQuestions(qs) + PrintEntries(es)
  }

  // ----- what can be printed, and what it means

  predicate GoodData(d: Data<seq<WireItem>>, maxText: nat) {
    match d
    case Address(octets) => |octets| == 4
    case Pointer(name) => WellFormed(name)
    case Service(priority, weight, port, target) =>
      priority < 65536 && weight < 65536 && port < 65536 && WellFormed(target)
    case Strings(items) => AllGoodItems(items) && |PrintItems(items)| <= maxText
  }

  predicate GoodBody(b: Body, maxText: nat) {
    if b.Supported? then GoodData(b.data, maxText) else b.rtype !in [1, 12, 16, 33]
  }

  /** Class IN, with or without the bit that tells caches to flush (section 10.2 of RFC 6762). */
  predicate InClassIn(rclass: nat) {
    rclass == 1 || rclass == 0x8001
  }

  lemma InternetIs(rclass: nat)
    requires rclass < 65536
    ensures IsInternet(rclass) <==> InClassIn(rclass)
  {
  }

  /** Only the data of a class-IN record has to make sense. */
  predicate GoodEntry(e: Entry, maxText: nat) {
    && WellFormed(e.name) && TypeOf(e.body) < 65536 && e.rclass < 65536 && e.ttl < 4294967296
    && |PrintBody(e.body)| < 65536
    && (InClassIn(e.rclass) ==> GoodBody(e.body, maxText))
  }

  predicate AllGood(es: seq<Entry>, maxText: nat) {
    forall i :: 0 <= i < |es| ==> GoodEntry(es[i], maxText)
  }

  predicate GoodQuestions(qs: seq<Question>) {
    forall i :: 0 <= i < |qs| ==> WellFormed(qs[i].name)
  }

  predicate GoodHeader(h: Header, records: nat) {
    && h.id < 65536 && 0x8000 <= h.flags < 65536
    && h.answers < 65536 && h.authorities < 65536 && h.additionals < 65536
    && h.answers + h.authorities + h.additionals == records
  }

  function DataMeaning(d: Data<seq<WireItem>>): Data<Text> {
    match d
    case Address(octets) => Address(octets)
    case Pointer(name) => Pointer(name)
    case Service(priority, weight, port, target) => Service(priority, weight, port, target)
    case Strings(items) => Strings(Grouped(Meanings(items)))
  }

  function EntryMeaning(e: Entry): Option<Record> {
    if InClassIn(e.rclass) && e.body.Supported? then Some(Record(e.name, e.ttl, DataMeaning(e.body.data))) else None
  }

  /** The supported class-IN records, in order. */
  function Records(es: seq<Entry>): seq<Record> {
    if es == [] then [] else Listed(EntryMeaning(es[0])) + Records(es[1..])
  }

  // ----- reading back

  lemma HeadIsRead(m: seq<byte>, h: nat, e: Entry)
    requires Stands(m, h, PrintHead(e))
    requires TypeOf(e.body) < 65536 && e.rclass < 65536 && e.ttl < 4294967296 && |PrintBody(e.body)| < 65536
    ensures h + 10 <= |m| && U16At(m, h) == TypeOf(e.body) && U16At(m, h + 2) == e.rclass
    ensures U32At(m, h + 4) == e.ttl && U16At(m, h + 8) == |PrintBody(e.body)|
  {
    hide PrintBody, TypeOf, U16At, U32At, Stands;
    var t, c, l, n := Put16(TypeOf(e.body)), Put16(e.rclass), Put32(e.ttl), Put16(|PrintBody(e.body)|);
    StandsSplit(m, h, t + c + l, n, h + 8);
    StandsSplit(m, h, t + c, l, h + 4);
    StandsSplit(m, h, t, c, h + 2);
    hide Put16, Put32;
    Put16At(m, h, TypeOf(e.body));
    Put16At(m, h + 2, e.rclass);
    Put32At(m, h + 4, e.ttl);
    Put16At(m, h + 8, |PrintBody(e.body)|);
  }

  lemma ServiceIsRead(m: seq<byte>, start: nat, end: nat, d: Data<seq<WireItem>>, maxText: nat)
    requires d.Service? && GoodData(d, maxText)
    requires Stands(m, start, PrintData(d)) && end == start + |PrintData(d)|
    ensures ServiceData(m, start, end) == Value(Service(d.priority, d.weight, d.port, d.target))
  {
    var p, w, t := Put16(d.priority), Put16(d.weight), Put16(d.port);
    StandsSplit(m, start, p + w + t, Print(d.target), start + 6);
    StandsSplit(m, start, p + w, t, start + 4);
    StandsSplit(m, start, p, w, start + 2);
    assert |Print(d.target)| > 0;
    assert end <= |m|;
    PrintedIsRead(m, start + 6, d.target, end);
    hide Stands, WellFormed, Print, Put16, U16At;
    Put16At(m, start, d.priority);
    Put16At(m, start + 2, d.weight);
    Put16At(m, start + 4, d.port);
  }

  lemma DataIsRead(m: seq<byte>, start: nat, end: nat, d: Data<seq<WireItem>>, maxText: nat)
    requires GoodData(d, maxText)
    requires Stands(m, start, PrintData(d)) && end == start + |PrintData(d)|
    ensures DataOf(m, start, end, TypeOf(Supported(d)), maxText) == Value(DataMeaning(d))
  {
    hide Print, PrintItems, ServiceData, ItemsFrom, Dictionary, WellFormed, AllGoodItems, Read;
    assert end <= |m| && m[start..end] == PrintData(d);
    match d {
      case Address(octets) =>
      case Pointer(name) => PrintedIsRead(m, start, name, end);
      case Service(_, _, _, _) => ServiceIsRead(m, start, end, d, maxText);
      case Strings(items) => TextRoundTrip(items);
    }
  }

  lemma EntryLayout(m: seq<byte>, o: nat, e: Entry, h: nat, start: nat, next: nat)
    requires Stands(m, o, PrintEntry(e)) && next == o + |PrintEntry(e)|
    requires h == o + |Print(e.name)| && start == h + 10
    ensures Stands(m, o, Print(e.name)) && Stands(m, h, PrintHead(e)) && Stands(m, start, PrintBody(e.body))
    ensures next <= |m| && next == start + |PrintBody(e.body)|
  {
    hide Print, PrintBody;
    StandsSplit(m, o, Print(e.name) + PrintHead(e), PrintBody(e.body), start);
    StandsSplit(m, o, Print(e.name), PrintHead(e), h);
  }

  lemma EntryIsRead(m: seq<byte>, o: nat, e: Entry, next: nat, maxText: nat)
    requires GoodEntry(e, maxText) && Stands(m, o, PrintEntry(e)) && next == o + |PrintEntry(e)|
    ensures StepAt(m, o, maxText) == Step(EntryMeaning(e), next)
  {
    hide Stands, WellFormed, Print, PrintHead, PrintEntry, PrintBody, U16At, U32At, DataOf, GoodBody,
      IsInternet, InClassIn, DataEnd, TypeOf, DataMeaning, Read;
    InternetIs(e.rclass);
    var h := o + |Print(e.name)|;
    var start := h + 10;
    EntryLayout(m, o, e, h, start, next);
    PrintedIsRead(m, o, e.name, h);
    HeadIsRead(m, h, e);
    HeadExtends(m, h, |PrintBody(e.body)|, next);
    if IsInternet(e.rclass) {
      BodyIsRead(m, start, next, e.body, maxText);
    }
  }

  lemma HeadExtends(m: seq<byte>, h: nat, n: nat, next: nat)
    requires h + 10 <= |m| && U16At(m, h + 8) == n && next == h + 10 + n
    ensures DataEnd(m, h) == next
  {
  }

  lemma BodyIsRead(m: seq<byte>, start: nat, end: nat, b: Body, maxText: nat)
    requires GoodBody(b, maxText)
    requires Stands(m, start, PrintBody(b)) && end == start + |PrintBody(b)|
    ensures DataOf(m, start, end, TypeOf(b), maxText)
         == if b.Supported? then Value(DataMeaning(b.data)) else Unsupported
  {
    hide DataOf, GoodData, PrintData, DataMeaning;
    if b.Supported? {
      DataIsRead(m, start, end, b.data, maxText);
    } else {
      assert end <= |m|;
      OtherIsIgnored(m, start, end, b.rtype, maxText);
    }
  }

  lemma OtherIsIgnored(m: seq<byte>, start: nat, end: nat, rtype: nat, maxText: nat)
    requires rtype !in [1, 12, 16, 33] && start <= end <= |m|
    ensures DataOf(m, start, end, rtype, maxText) == Unsupported
  {
  }

  lemma {:induction false} EntriesAreRead(m: seq<byte>, o: nat, es: seq<Entry>, maxText: nat)
    requires AllGood(es, maxText) && Stands(m, o, PrintEntries(es)) && o + |PrintEntries(es)| == |m|
    ensures RecordsFrom(m, o, |es|, maxText) == Accepted(Records(es))
    decreases |es|
  {
    hide AllGood, Stands, GoodEntry, PrintEntry, PrintEntries, StepAt, EntryMeaning, Prefixed, RecordsFrom, Records;
    if es == [] {
      NoRecords(m, o, maxText);
    } else {
      var e, rest, fewer: nat := es[0], es[1..], |es| - 1;
      var next := EntriesLayout(m, o, es, e, rest, maxText);
      EntryIsRead(m, o, e, next, maxText);
      EntriesAreRead(m, next, rest, maxText);
      RecordsNext(m, o, |es|, fewer, EntryMeaning(e), next, Records(rest), maxText);
      RecordsOf(es, e, rest);
    }
  }

  lemma NoRecords(m: seq<byte>, o: nat, maxText: nat)
    requires o + |PrintEntries([])| == |m|
    ensures RecordsFrom(m, o, 0, maxText) == Accepted(Records([]))
  {
  }

  lemma RecordsOf(es: seq<Entry>, e: Entry, rest: seq<Entry>)
    requires es != [] && e == es[0] && rest == es[1..]
    ensures Records(es) == Listed(EntryMeaning(e)) + Records(rest)
  {
    hide EntryMeaning, Listed;
  }

  lemma EntriesLayout(m: seq<byte>, o: nat, es: seq<Entry>, e: Entry, rest: seq<Entry>, maxText: nat)
    returns (next: nat)
    requires es != [] && e == es[0] && rest == es[1..] && AllGood(es, maxText)
    requires Stands(m, o, PrintEntries(es)) && o + |PrintEntries(es)| == |m|
    ensures next == o + |PrintEntry(e)| && Stands(m, o, PrintEntry(e)) && Stands(m, next, PrintEntries(rest))
    ensures next + |PrintEntries(rest)| == |m| && GoodEntry(e, maxText) && AllGood(rest, maxText)
  {
    hide PrintEntry, Stands, GoodEntry;
    next := o + |PrintEntry(e)|;
    StandsSplit(m, o, PrintEntry(e), PrintEntries(rest), next);
  }

  lemma RecordsNext(
    m: seq<byte>, o: nat, n: nat, fewer: nat, r: Option<Record>, next: nat, rest: seq<Record>, maxText: nat)
    requires n == fewer + 1 && StepAt(m, o, maxText) == Step(r, next)
    requires RecordsFrom(m, next, fewer, maxText) == Accepted(rest)
    ensures RecordsFrom(m, o, n, maxText) == Accepted(Listed(r) + rest)
  {
    hide StepAt;
    assert n - 1 == fewer;
  }

  lemma {:induction false} QuestionsAreRead(m: seq<byte>, o: nat, qs: seq<Question>, end: nat)
    requires GoodQuestions(qs) && Stands(m, o, PrintQuestions(qs)) && end == o + |PrintQuestions(qs)|
    ensures QuestionsEnd(m, o, |qs|) == Some(end)
    decreases |qs|
  {
    hide GoodQuestions, Stands, PrintQuestion, PrintQuestions, QuestionsEnd, WellFormed;
    if qs == [] {
      NoQuestions(m, o);
    } else {
      var q, rest, fewer: nat := qs[0], qs[1..], |qs| - 1;
      var next := QuestionsLayout(m, o, qs, q, rest, end);
      QuestionsAreRead(m, next, rest, end);
      QuestionIsRead(m, o, q, next, |qs|, fewer);
    }
  }

  lemma NoQuestions(m: seq<byte>, o: nat)
    ensures |PrintQuestions([])| == 0 && QuestionsEnd(m, o, 0) == Some(o)
  {
  }

  lemma QuestionsLayout(m: seq<byte>, o: nat, qs: seq<Question>, q: Question, rest: seq<Question>, end: nat)
    returns (next: nat)
    requires qs != [] && q == qs[0] && rest == qs[1..] && GoodQuestions(qs)
    requires Stands(m, o, PrintQuestions(qs)) && end == o + |PrintQuestions(qs)|
    ensures next == o + |PrintQuestion(q)| && Stands(m, o, PrintQuestion(q)) && Stands(m, next, PrintQuestions(rest))
    ensures end == next + |PrintQuestions(rest)| && WellFormed(q.name) && GoodQuestions(rest)
  {
    hide PrintQuestion, Stands, WellFormed;
    next := o + |PrintQuestion(q)|;
    StandsSplit(m, o, PrintQuestion(q), PrintQuestions(rest), next);
  }

  lemma QuestionIsRead(m: seq<byte>, o: nat, q: Question, next: nat, n: nat, fewer: nat)
    requires WellFormed(q.name) && Stands(m, o, PrintQuestion(q)) && next == o + |PrintQuestion(q)|
    requires n == fewer + 1
    ensures QuestionsEnd(m, o, n) == QuestionsEnd(m, next, fewer)
  {
    var h := o + |Print(q.name)|;
    StandsSplit(m, o, Print(q.name), Put16(q.kind) + Put16(q.qclass), h);
    assert next == h + 4 <= |m|;
    hide Stands, WellFormed, Print, Read;
    PrintedIsRead(m, o, q.name, h);
    hide QuestionsEnd;
    QuestionsNext(m, o, n, fewer, q.name, h, next);
  }

  lemma QuestionsNext(m: seq<byte>, o: nat, n: nat, fewer: nat, labels: seq<Label>, h: nat, next: nat)
    requires n == fewer + 1 && NameFrom(m, o) == Name(labels, h) && next == h + 4 <= |m|
    ensures QuestionsEnd(m, o, n) == QuestionsEnd(m, next, fewer)
  {
    hide NameFrom;
    assert n - 1 == fewer;
  }

  lemma HeaderIsRead(m: seq<byte>, h: Header, questions: nat, records: nat)
    requires GoodHeader(h, records) && questions < 65536
    requires Stands(m, 0, PrintHeader(h, questions))
    ensures 12 <= |m| && IsResponse(m) && QuestionCount(m) == questions && RecordCount(m) == records
  {
    var a, b, c, d, e, f := Put16(h.id), Put16(h.flags), Put16(questions),
                            Put16(h.answers), Put16(h.authorities), Put16(h.additionals);
    hide Stands, U16At;
    StandsSplit(m, 0, a + b + c + d + e, f, 10);
    StandsSplit(m, 0, a + b + c + d, e, 8);
    StandsSplit(m, 0, a + b + c, d, 6);
    StandsSplit(m, 0, a + b, c, 4);
    StandsSplit(m, 0, a, b, 2);
    hide Put16;
    Put16At(m, 2, h.flags);
    Put16At(m, 4, questions);
    Put16At(m, 6, h.answers);
    Put16At(m, 8, h.authorities);
    Put16At(m, 10, h.additionals);
  }

  /** Every response within the limits, printed without compression, is parsed into exactly its
      supported class-IN records, in order, however the records are split between the sections. */
  lemma MessageRoundTrip(h: Header, qs: seq<Question>, es: seq<Entry>, limits: Limits)
    requires GoodHeader(h, |es|) && GoodQuestions(qs) && AllGood(es, limits.text) && |qs| < 65536
    requires |qs| <= limits.questions && |es| <= limits.records
    requires |PrintMessage(h, qs, es)| <= limits.message
    ensures Parse(PrintMessage(h, qs, es), limits) == Accepted(Records(es))
  {
    var m := PrintMessage(h, qs, es);
    var middle := 12 + |PrintQuestions(qs)|;
    assert m[0..|m|] == m;
    StandsSplit(m, 0, PrintHeader(h, |qs|) + PrintQuestions(qs), PrintEntries(es), middle);
    StandsSplit(m, 0, PrintHeader(h, |qs|), PrintQuestions(qs), 12);
    hide Stands, PrintHeader, GoodHeader, GoodQuestions, PrintQuestions, PrintEntries, IsResponse, QuestionCount, RecordCount, Records;
    HeaderIsRead(m, h, |qs|, |es|);
    QuestionsAreRead(m, 12, qs, middle);
    EntriesAreRead(m, middle, es, limits.text);
  }
}
