/** The mDNS response parser (`_parse_message` and `_parse_rdata` of mdns.py): questions are skipped,
    class-IN A, PTR, SRV and TXT records are kept, every other record is passed over by its declared
    length, and the last record has to end the message. */
module DnsMessage {
  import opened Options
  import opened Bytes
  import opened DnsName
  import opened DnsText

  datatype Limits = Limits(message: nat, questions: nat, records: nat, text: nat)

  datatype Data<T> =
    | Address(octets: seq<byte>)
    | Pointer(name: seq<Label>)
    | Service(priority: nat, weight: nat, port: nat, target: seq<Label>)
    | Strings(text: T)
  datatype Record = Record(name: seq<Label>, ttl: nat, data: Data<Text>)
  datatype Parsed = Rejected | Accepted(records: seq<Record>)

  function NameFrom(m: seq<byte>, o: nat): Outcome {
    Read(m, o, 0, 1, {})
  }

  // ----- record data

  datatype Rdata = Invalid | Unsupported | Value(data: Data<Text>)

  function PointerData(o: Outcome, end: nat): Rdata {
    if o.Bad? || o.after != end then Invalid else Value(Pointer(o.labels))
  }

  function ServiceData(m: seq<byte>, start: nat, end: nat): Rdata {
    if start + 7 > end || end > |m| then Invalid else
      var o := NameFrom(m, start + 6);
      if o.Bad? || o.after != end then Invalid
      else Value(Service(U16At(m, start), U16At(m, start + 2), U16At(m, start + 4), o.labels))
  }

  function TextData(data: seq<byte>): Rdata {
    var t := Dictionary(ItemsFrom(data, 0));
    if t.None? then Invalid else Value(Strings(t.value))
  }

  function DataOf(m: seq<byte>, start: nat, end: nat, rtype: nat, maxText: nat): Rdata {
    if start > end || end > |m| then Invalid
    else if rtype == 1 then if end - start != 4 then Invalid else Value(Address(m[start..end]))
    else if rtype == 12 then PointerData(NameFrom(m, start), end)
    else if rtype == 33 then ServiceData(m, start, end)
    else if rtype == 16 then if end - start > maxText then Invalid else TextData(m[start..end])
    else Unsupported
  }

  /** `_parse_rdata`. */
  method ParseData(m: seq<byte>, start: nat, end: nat, rtype: nat, maxText: nat) returns (r: Rdata)
    requires start <= end <= |m|
    ensures r == DataOf(m, start, end, rtype, maxText)
  {
    if rtype == 1 {
      if end - start != 4 {
        return Invalid;
      }
      return Value(Address(m[start..end]));
    }
    if rtype == 12 {
      var name := ReadName(m, start);
      if name.Bad? || name.after != end {
        return Invalid;
      }
      return Value(Pointer(name.labels));
    }
    if rtype == 33 {
      if end - start < 7 {
        return Invalid;
      }
      var target := ReadName(m, start + 6);
      if target.Bad? || target.after != end {
        return Invalid;
      }
      return Value(Service(U16At(m, start), U16At(m, start + 2), U16At(m, start + 4), target.labels));
    }
    if rtype == 16 {
      if end - start > maxText {
        return Invalid;
      }
      var text := ParseText(m[start..end]);
      return if text.None? then Invalid else Value(Strings(text.value));
    }
    return Unsupported;
  }

  // ----- records

  datatype Step = Fail | Step(record: Option<Record>, next: nat)

  function DataEnd(m: seq<byte>, h: nat): nat {
    if h + 10 <= |m| then h + 10 + U16At(m, h + 8) else 0
  }

  predicate IsInternet(rclass: nat) {
    rclass % 0x8000 == 1
  }

  /** What becomes of a class-IN record whose data has been read. */
  function StepOf(labels: seq<Label>, ttl: nat, data: Rdata, end: nat): Step {
    match data
    case Invalid => Fail
    case Unsupported => Step(None, end)
    case Value(d) => Step(Some(Record(labels, ttl, d)), end)
  }

  /** A record whose name ends at `h`, where its ten header bytes begin. */
  function StepBehindName(m: seq<byte>, labels: seq<Label>, h: nat, maxText: nat): Step {
    if h + 10 > |m| || DataEnd(m, h) > |m| then Fail
    else if !IsInternet(U16At(m, h + 2)) then Step(None, DataEnd(m, h))
    else StepOf(labels, U32At(m, h + 4), DataOf(m, h + 10, DataEnd(m, h), U16At(m, h), maxText), DataEnd(m, h))
  }

  function StepAt(m: seq<byte>, o: nat, maxText: nat): Step {
    var name := NameFrom(m, o);
    if name.Bad? then Fail else StepBehindName(m, name.labels, name.after, maxText)
  }

  function Listed(r: Option<Record>): seq<Record> {
    if r.None? then [] else [r.value]
  }

  function Behind(records: seq<Record>, r: Option<Record>): seq<Record> {
    records + Listed(r)
  }

  function Prefixed(records: seq<Record>, rest: Parsed): Parsed {
    if rest.Rejected? then Rejected else Accepted(records + rest.records)
  }

  function RecordsFrom(m: seq<byte>, o: nat, n: nat, maxText: nat): Parsed
    decreases n
  {
    if n == 0 then if o == |m| then Accepted([]) else Rejected
    else
      var step := StepAt(m, o, maxText);
      if step.Fail? then Rejected else Prefixed(Listed(step.record), RecordsFrom(m, step.next, n - 1, maxText))
  }

  /** A record behind its name. */
  method ParseRecordBody(m: seq<byte>, labels: seq<Label>, h: nat, maxText: nat) returns (r: Step)
    ensures r == StepBehindName(m, labels, h, maxText)
  {
    hide DataOf, U32At;
    if h + 10 > |m| {
      return Fail;
    }
    var end := h + 10 + U16At(m, h + 8);
    if end > |m| {
      return Fail;
    }
    var record: Option<Record> := None;
    if U16At(m, h + 2) % 0x8000 == 1 {
      var data := ParseData(m, h + 10, end, U16At(m, h), maxText);
      if data.Invalid? {
        return Fail;
      }
      if data.Value? {
        record := Some(Record(labels, U32At(m, h + 4), data.data));
      }
    }
    return Step(record, end);
  }

  method ParseRecord(m: seq<byte>, offset: nat, maxText: nat) returns (r: Step)
    ensures r == StepAt(m, offset, maxText)
  {
    hide Read, StepBehindName;
    var name := ReadName(m, offset);
    if name.Bad? {
      return Fail;
    }
    r := ParseRecordBody(m, name.labels, name.after, maxText);
  }

  method ParseRecords(m: seq<byte>, start: nat, count: nat, maxText: nat) returns (r: Parsed)
    ensures r == RecordsFrom(m, start, count, maxText)
  {
    hide RecordsFrom, StepAt, Prefixed;
    var records: seq<Record> := [];
    var offset: nat := start;
    ghost var whole := RecordsFrom(m, start, count, maxText);
    NothingPrefixed(whole);
    var left: nat := count;
    while left > 0
      invariant whole == Prefixed(records, RecordsFrom(m, offset, left, maxText))
    {
      var step := ParseRecord(m, offset, maxText);
      RecordsStep(m, records, offset, left, maxText, left - 1);
      if step.Fail? {
        return Rejected;
      }
      BehindNothing(records);
      if step.record.Some? {
        records := records + [step.record.value];
      }
      offset := step.next;
      left := left - 1;
    }
    RecordsEnd(m, records, offset, maxText);
    return if offset != |m| then Rejected else Accepted(records);
  }

  lemma RecordsStep(m: seq<byte>, records: seq<Record>, o: nat, n: nat, maxText: nat, fewer: nat)
    requires n == fewer + 1
    ensures var step := StepAt(m, o, maxText);
            Prefixed(records, RecordsFrom(m, o, n, maxText)) == if step.Fail? then Rejected
              else Prefixed(Behind(records, step.record), RecordsFrom(m, step.next, fewer, maxText))
  {
    hide StepAt, Listed;
    assert n - 1 == fewer;
    var step := StepAt(m, o, maxText);
    if step.Step? && RecordsFrom(m, step.next, fewer, maxText).Accepted? {
      var rest := RecordsFrom(m, step.next, fewer, maxText).records;
      assert records + (Listed(step.record) + rest) == records + Listed(step.record) + rest;
    }
  }

  lemma NothingPrefixed(p: Parsed)
    ensures Prefixed([], p) == p
  {
  }

  lemma BehindNothing(records: seq<Record>)
    ensures Behind(records, None) == records
  {
  }

  lemma RecordsEnd(m: seq<byte>, records: seq<Record>, o: nat, maxText: nat)
    ensures Prefixed(records, RecordsFrom(m, o, 0, maxText)) == if o == |m| then Accepted(records) else Rejected
  {
    assert records + [] == records;
  }

  // ----- the message

  function QuestionsEnd(m: seq<byte>, o: nat, n: nat): Option<nat>
    decreases n
  {
    if n == 0 then Some(o) else
      var name := NameFrom(m, o);
      if name.Bad? || name.after + 4 > |m| then None else QuestionsEnd(m, name.after + 4, n - 1)
  }

  method SkipQuestions(m: seq<byte>, start: nat, count: nat) returns (r: Option<nat>)
    ensures r == QuestionsEnd(m, start, count)
  {
    var offset: nat := start;
    var left: nat := count;
    hide Read;
    while left > 0
      invariant QuestionsEnd(m, start, count) == QuestionsEnd(m, offset, left)
    {
      var name := ReadName(m, offset);
      if name.Bad? || name.after + 4 > |m| {
        return None;
      }
      offset := name.after + 4;
      left := left - 1;
    }
    return Some(offset);
  }

  predicate IsResponse(m: seq<byte>) {
    12 <= |m| && U16At(m, 2) >= 0x8000
  }

  function QuestionCount(m: seq<byte>): nat {
    if 12 <= |m| then U16At(m, 4) else 0
  }

  function RecordCount(m: seq<byte>): nat {
    if 12 <= |m| then U16At(m, 6) + U16At(m, 8) + U16At(m, 10) else 0
  }

  function Parse(m: seq<byte>, limits: Limits): Parsed {
    if |m| > limits.message || |m| < 12 then Rejected
    else if !IsResponse(m) then Accepted([])
    else if QuestionCount(m) > limits.questions || RecordCount(m) > limits.records then Rejected
    else
      var o := QuestionsEnd(m, 12, QuestionCount(m));
      if o.None? then Rejected else RecordsFrom(m, o.value, RecordCount(m), limits.text)
  }

  /** `_parse_message`. */
  method ParseMessage(m: seq<byte>, limits: Limits) returns (r: Parsed)
    ensures r == Parse(m, limits)
  {
    hide RecordsFrom, QuestionsEnd;
    if |m| > limits.message || |m| < 12 {
      return Rejected;
    }
    if U16At(m, 2) < 0x8000 {
      return Accepted([]);
    }
    var questions, records := U16At(m, 4), U16At(m, 6) + U16At(m, 8) + U16At(m, 10);
    if questions > limits.questions || records > limits.records {
      return Rejected;
    }
    var offset := SkipQuestions(m, 12, questions);
    if offset.None? {
      return Rejected;
    }
    r := ParseRecords(m, offset.value, records, limits.text);
  }
}
