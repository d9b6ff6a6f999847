/** The converse of the DNS round trip: every response the parser accepts is, record by record, one
    that could have been printed, so that it can be rewritten without compression and without
    changing what it means; and its records tile it to the last byte. */
module DnsDecompression {
  import opened Options
  import opened Bytes
  import opened DnsName
  import opened DnsText
  import opened DnsMessage
  import opened DnsPrinter

  // ----- TXT data

  function WireItemOf(t: seq<byte>): WireItem {
    var cut := EqualsFrom(t, 0);
    if cut >= |t| then WireItem(t, None) else WireItem(t[..cut], Some(t[cut + 1..]))
  }

  function WireItems(data: seq<byte>, o: nat): seq<WireItem>
    decreases |data| - o
  {
    if o >= |data| then [] else [WireItemOf(TextAt(data, o))] + WireItems(data, o + 1 + data[o])
  }

  lemma {:induction false} EqualsIsFirst(t: seq<byte>, i: nat)
    requires i <= |t|
    ensures i <= EqualsFrom(t, i) <= |t|
    ensures EqualsFrom(t, i) < |t| ==> t[EqualsFrom(t, i)] == EQUALS
    ensures EQUALS !in t[i..EqualsFrom(t, i)]
    decreases |t| - i
  {
    if i < |t| && t[i] != EQUALS {
      EqualsIsFirst(t, i + 1);
      assert t[i..EqualsFrom(t, i)] == [t[i]] + t[i + 1..EqualsFrom(t, i)];
    }
  }

  lemma ItemIsFaithful(t: seq<byte>)
    requires ItemOf(t).Some? && |t| <= 255
    ensures GoodItem(WireItemOf(t)) && ItemMeaning(WireItemOf(t)) == ItemOf(t).value && ItemText(WireItemOf(t)) == t
  {
    hide Utf8, NoControls;
    EqualsIsFirst(t, 0);
    var cut := EqualsFrom(t, 0);
    assert t[0..cut] == t[..cut];
    if cut < |t| {
      assert t[..cut] + ([EQUALS] + t[cut + 1..]) == t;
    } else {
      assert t[..cut] == t && t + [] == t;
    }
  }

  /** TXT data that is accepted is reprinted byte for byte. */
  lemma {:induction false} TextIsFaithful(data: seq<byte>, o: nat)
    requires o <= |data| && ItemsFrom(data, o).Some?
    ensures AllGoodItems(WireItems(data, o)) && Meanings(WireItems(data, o)) == ItemsFrom(data, o).value
    ensures PrintItems(WireItems(data, o)) == data[o..]
    decreases |data| - o
  {
    if o < |data| {
      hide ItemOf, WireItemOf, GoodItem, ItemMeaning, ItemText, TextAt;
      var t := TextAt(data, o);
      var next := TextNext(data, o);
      ItemIsFaithful(t);
      TextIsFaithful(data, next);
      var i, rest := WireItemOf(t), WireItems(data, next);
      WireItemsNext(data, o, next);
      assert ([i] + rest)[1..] == rest;
    }
  }

  lemma TextNext(data: seq<byte>, o: nat) returns (next: nat)
    requires o < |data| && ItemsFrom(data, o).Some?
    ensures next == o + 1 + data[o] <= |data| && |TextAt(data, o)| == data[o]
    ensures ItemOf(TextAt(data, o)).Some? && ItemsFrom(data, next).Some?
    ensures ItemsFrom(data, o).value == [ItemOf(TextAt(data, o)).value] + ItemsFrom(data, next).value
    ensures data[o..] == [Put8(|TextAt(data, o)|)] + TextAt(data, o) + data[next..]
  {
    hide ItemOf;
    next := o + 1 + data[o];
  }

  lemma WireItemsNext(data: seq<byte>, o: nat, next: nat)
    requires o < |data| && next == o + 1 + data[o]
    ensures WireItems(data, o) == [WireItemOf(TextAt(data, o))] + WireItems(data, next)
  {
  }

  // ----- records

  function DataFrom(m: seq<byte>, start: nat, end: nat, d: Data<Text>): Data<seq<WireItem>> {
    match d
    case Address(octets) => Address(octets)
    case Pointer(name) => Pointer(name)
    case Service(priority, weight, port, target) => Service(priority, weight, port, target)
    case Strings(_) => if start <= end <= |m| then Strings(WireItems(m[start..end], 0)) else Strings([])
  }

  function BodyFrom(m: seq<byte>, start: nat, end: nat, rtype: nat, data: Rdata): Body {
    if data.Value? then Supported(DataFrom(m, start, end, data.data))
    else Other(rtype, if start <= end <= |m| then m[start..end] else [])
  }

  /** The entry behind a name that ends at `h`. */
  function EntryFrom(m: seq<byte>, labels: seq<Label>, h: nat, maxText: nat): Entry {
    if h + 10 > |m| then Entry(labels, 0, 0, Other(0, [])) else
      var start, end, rtype, rclass := h + 10, DataEnd(m, h), U16At(m, h), U16At(m, h + 2);
      var data := if IsInternet(rclass) then DataOf(m, start, end, rtype, maxText) else Unsupported;
      Entry(labels, rclass, U32At(m, h + 4), BodyFrom(m, start, end, rtype, data))
  }

  function EntriesFrom(m: seq<byte>, o: nat, n: nat, maxText: nat): seq<Entry>
    decreases n
  {
    if n == 0 then [] else
      var name, step := NameFrom(m, o), StepAt(m, o, maxText);
      if name.Bad? || step.Fail? then []
      else [EntryFrom(m, name.labels, name.after, maxText)] + EntriesFrom(m, step.next, n - 1, maxText)
  }

  lemma PrintedNameSize(labels: seq<Label>)
    requires WellFormed(labels)
    ensures |Print(labels)| <= 255
  {
    hide GoodLabel;
    assert Stands(Print(labels), 0, Print(labels));
    PrintedIsAt(Print(labels), 0, labels);
  }

  lemma NameIsFaithful(m: seq<byte>, o: nat)
    requires NameFrom(m, o).Name?
    ensures WellFormed(NameFrom(m, o).labels) && |Print(NameFrom(m, o).labels)| <= 255
    ensures o < NameFrom(m, o).after <= |m|
  {
    NameIsWellFormed(m, o);
    hide Read, WellFormed;
    PrintedNameSize(NameFrom(m, o).labels);
  }

  /** Data that is accepted is good data, of its type, with the same meaning and of bounded size. */
  lemma DataIsFaithful(m: seq<byte>, start: nat, end: nat, rtype: nat, maxText: nat)
    requires start <= end <= |m| && DataOf(m, start, end, rtype, maxText).Value?
    ensures var d := DataOf(m, start, end, rtype, maxText).data;
            var e := DataFrom(m, start, end, d);
            && GoodData(e, maxText) && DataMeaning(e) == d && TypeOf(Supported(e)) == rtype
            && (|PrintData(e)| <= 300 || |PrintData(e)| == end - start)
  {
    hide Read, Print, WellFormed, ItemsFrom, WireItems, PrintItems, AllGoodItems, Meanings, Grouped, U16At;
    if rtype == 12 {
      NameIsFaithful(m, start);
    } else if rtype == 33 {
      U16Bound(m, start);
      U16Bound(m, start + 2);
      U16Bound(m, start + 4);
      NameIsFaithful(m, start + 6);
    } else if rtype == 16 {
      TextIsFaithful(m[start..end], 0);
    }
  }

  lemma U16Bound(m: seq<byte>, i: nat)
    requires i + 2 <= |m|
    ensures U16At(m, i) < 65536
  {
  }

  lemma U32Bound(m: seq<byte>, i: nat)
    requires i + 4 <= |m|
    ensures U32At(m, i) < 4294967296
  {
    U16Bound(m, i);
    U16Bound(m, i + 2);
  }

  lemma UnsupportedType(m: seq<byte>, start: nat, end: nat, rtype: nat, maxText: nat)
    requires start <= end <= |m| && DataOf(m, start, end, rtype, maxText).Unsupported?
    ensures rtype !in [1, 12, 16, 33]
  {
    hide Read, ItemsFrom, Dictionary, U16At;
  }

  lemma BodyIsFaithful(m: seq<byte>, start: nat, end: nat, rtype: nat, maxText: nat)
    requires start <= end <= |m| && end - start < 65536 && !DataOf(m, start, end, rtype, maxText).Invalid?
    ensures var data := DataOf(m, start, end, rtype, maxText);
            var b := BodyFrom(m, start, end, rtype, data);
            && GoodBody(b, maxText) && TypeOf(b) == rtype && |PrintBody(b)| < 65536
            && b.Supported? == data.Value? && (data.Value? ==> DataMeaning(b.data) == data.data)
  {
    var data := DataOf(m, start, end, rtype, maxText);
    if data.Value? {
      DataIsFaithful(m, start, end, rtype, maxText);
    } else {
      UnsupportedType(m, start, end, rtype, maxText);
    }
    hide DataOf, GoodData, DataMeaning, PrintData, DataFrom;
  }

  lemma EntryIsFaithful(m: seq<byte>, o: nat, maxText: nat)
    requires StepAt(m, o, maxText).Step?
    ensures var e := EntryFrom(m, NameFrom(m, o).labels, NameFrom(m, o).after, maxText);
            GoodEntry(e, maxText) && EntryMeaning(e) == StepAt(m, o, maxText).record
    ensures o < StepAt(m, o, maxText).next <= |m|
  {
    hide DataOf, GoodBody, BodyFrom, DataMeaning, TypeOf, PrintBody, U16At, U32At, WellFormed, IsInternet, InClassIn, Read;
    NameIsFaithful(m, o);
    var h := NameFrom(m, o).after;
    var start, end := h + 10, DataEnd(m, h);
    var rtype, rclass := U16At(m, h), U16At(m, h + 2);
    U16Bound(m, h);
    U16Bound(m, h + 2);
    U32Bound(m, h + 4);
    U16Bound(m, h + 8);
    InternetIs(rclass);
    if IsInternet(rclass) {
      BodyIsFaithful(m, start, end, rtype, maxText);
    } else {
      SkippedIsFaithful(m, start, end, rtype);
    }
  }

  lemma SkippedIsFaithful(m: seq<byte>, start: nat, end: nat, rtype: nat)
    requires start <= end <= |m| && end - start < 65536
    ensures var b := BodyFrom(m, start, end, rtype, Unsupported); TypeOf(b) == rtype && |PrintBody(b)| < 65536
  {
  }

  lemma {:induction false} EntriesAreFaithful(m: seq<byte>, o: nat, n: nat, maxText: nat)
    requires RecordsFrom(m, o, n, maxText).Accepted?
    ensures var es := EntriesFrom(m, o, n, maxText);
            |es| == n && AllGood(es, maxText) && Records(es) == RecordsFrom(m, o, n, maxText).records
    decreases n
  {
    hide EntryFrom, GoodEntry, EntryMeaning, StepAt, NameFrom;
    if n > 0 {
      StepHasName(m, o, maxText);
      EntryIsFaithful(m, o, maxText);
      EntriesAreFaithful(m, StepAt(m, o, maxText).next, n - 1, maxText);
    }
  }

  lemma StepHasName(m: seq<byte>, o: nat, maxText: nat)
    requires StepAt(m, o, maxText).Step?
    ensures NameFrom(m, o).Name?
  {
  }

  // ----- the message

  function QuestionsFrom(m: seq<byte>, o: nat, n: nat): seq<Question>
    decreases n
  {
    if n == 0 then [] else
      var name := NameFrom(m, o);
      if name.Bad? || name.after + 4 > |m| then []
      else [Question(name.labels, U16At(m, name.after), U16At(m, name.after + 2))] + QuestionsFrom(m, name.after + 4, n - 1)
  }

  lemma {:induction false} QuestionsAreFaithful(m: seq<byte>, o: nat, n: nat)
    requires QuestionsEnd(m, o, n).Some?
    ensures |QuestionsFrom(m, o, n)| == n && GoodQuestions(QuestionsFrom(m, o, n))
    decreases n
  {
    hide NameFrom, WellFormed, U16At;
    if n > 0 {
      NameIsFaithful(m, o);
      QuestionsAreFaithful(m, NameFrom(m, o).after + 4, n - 1);
    }
  }

  function HeaderFrom(m: seq<byte>): Header {
    if |m| < 12 then Header(0, 0, 0, 0, 0) else Header(U16At(m, 0), U16At(m, 2), U16At(m, 6), U16At(m, 8), U16At(m, 10))
  }

  /** The uncompressed form of an accepted response. */
  function Uncompressed(m: seq<byte>, maxText: nat): seq<byte> {
    var o := QuestionsEnd(m, 12, QuestionCount(m));
    if o.None? then [] else
      PrintMessage(HeaderFrom(m), QuestionsFrom(m, 12, QuestionCount(m)), EntriesFrom(m, o.value, RecordCount(m), maxText))
  }

  lemma HeaderIsFaithful(m: seq<byte>)
    requires IsResponse(m)
    ensures GoodHeader(HeaderFrom(m), RecordCount(m)) && QuestionCount(m) < 65536
  {
    U16Bound(m, 0);
    U16Bound(m, 2);
    U16Bound(m, 4);
    U16Bound(m, 6);
    U16Bound(m, 8);
    U16Bound(m, 10);
  }

  /** Rewriting an accepted response without compression changes no record, whatever the pointers,
      the unknown records and the equals signs in it; only the size limit may have to grow. */
  lemma UncompressedMeansTheSame(m: seq<byte>, limits: Limits, size: nat)
    requires IsResponse(m) && Parse(m, limits).Accepted?
    requires |Uncompressed(m, limits.text)| <= size
    ensures Parse(Uncompressed(m, limits.text), limits.(message := size)) == Parse(m, limits)
  {
    hide RecordsFrom, QuestionsEnd, GoodHeader, HeaderFrom, GoodQuestions, AllGood, IsResponse, QuestionCount,
      RecordCount, EntriesFrom, QuestionsFrom, PrintMessage, Records;
    var o := QuestionsEnd(m, 12, QuestionCount(m)).value;
    HeaderIsFaithful(m);
    QuestionsAreFaithful(m, 12, QuestionCount(m));
    EntriesAreFaithful(m, o, RecordCount(m), limits.text);
    MessageRoundTrip(HeaderFrom(m), QuestionsFrom(m, 12, QuestionCount(m)),
                     EntriesFrom(m, o, RecordCount(m), limits.text), limits.(message := size));
  }

  /** From `o` on, `n` records lie one behind the other and end with the message: each its name, ten
      header bytes and as much data as declared, which a name or items inside it fill exactly. */
  ghost predicate Tiles(m: seq<byte>, o: nat, n: nat, maxText: nat)
    decreases n
  {
    if n == 0 then o == |m| else
      var name := NameFrom(m, o);
      && name.Name? && o < name.after && name.after + 10 <= |m| && DataEnd(m, name.after) <= |m|
      && (InClassIn(U16At(m, name.after + 2)) ==>
            Fills(m, name.after + 10, DataEnd(m, name.after), U16At(m, name.after), maxText))
      && Tiles(m, DataEnd(m, name.after), n - 1, maxText)
  }

  ghost predicate Fills(m: seq<byte>, start: nat, end: nat, rtype: nat, maxText: nat) {
    && start <= end <= |m|
    && (rtype == 1 ==> end == start + 4)
    && (rtype == 12 ==> NameFrom(m, start).Name? && NameFrom(m, start).after == end)
    && (rtype == 33 ==> NameFrom(m, start + 6).Name? && NameFrom(m, start + 6).after == end)
    && (rtype == 16 ==> end - start <= maxText && ItemsFrom(m[start..end], 0).Some?)
  }

  lemma FillsExactly(m: seq<byte>, start: nat, end: nat, rtype: nat, maxText: nat)
    requires start <= end <= |m|
    ensures Fills(m, start, end, rtype, maxText) <==> !DataOf(m, start, end, rtype, maxText).Invalid?
  {
    hide Read, ItemsFrom, Grouped;
    if rtype == 33 && NameFrom(m, start + 6).Name? {
      NameIsFaithful(m, start + 6);
    }
  }

  lemma {:induction false} AcceptedTiles(m: seq<byte>, o: nat, n: nat, maxText: nat)
    ensures RecordsFrom(m, o, n, maxText).Accepted? <==> Tiles(m, o, n, maxText)
    decreases n
  {
    hide DataOf, Fills, NameFrom, U16At, U32At, DataEnd, IsInternet, InClassIn;
    if n > 0 && NameFrom(m, o).Name? {
      NameIsFaithful(m, o);
      var h := NameFrom(m, o).after;
      if h + 10 <= |m| && DataEnd(m, h) <= |m| {
        DataEndIsBehind(m, h);
        U16Bound(m, h + 2);
        InternetIs(U16At(m, h + 2));
        FillsExactly(m, h + 10, DataEnd(m, h), U16At(m, h), maxText);
        AcceptedTiles(m, DataEnd(m, h), n - 1, maxText);
      }
    }
  }

  lemma DataEndIsBehind(m: seq<byte>, h: nat)
    requires h + 10 <= |m|
    ensures h + 10 <= DataEnd(m, h)
  {
  }

  /** A message is accepted exactly when it has a header, is within the limit, and is no response, which is
      passed over, or is a response with not too many questions, which fit, and not too many records, which tile
      the rest of it to the last byte. */
  lemma AcceptedIsConsumed(m: seq<byte>, limits: Limits)
    ensures Parse(m, limits).Accepted? <==>
              && 12 <= |m| <= limits.message
              && (m[2] >= 128 ==>
                    && U16At(m, 4) <= limits.questions && U16At(m, 6) + U16At(m, 8) + U16At(m, 10) <= limits.records
                    && QuestionsEnd(m, 12, U16At(m, 4)).Some?
                    && Tiles(m, QuestionsEnd(m, 12, U16At(m, 4)).value, U16At(m, 6) + U16At(m, 8) + U16At(m, 10), limits.text))
    ensures Parse(m, limits).Accepted? && m[2] < 128 ==> Parse(m, limits).records == []
  {
    hide RecordsFrom, QuestionsEnd, Tiles;
    var o := QuestionsEnd(m, 12, QuestionCount(m));
    if o.Some? {
      AcceptedTiles(m, o.value, RecordCount(m), limits.text);
    }
  }
}
