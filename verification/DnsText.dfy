/** DNS-SD TXT data (`_parse_txt` of mdns.py, section 6 of RFC 6763): length-prefixed items "key=value",
    collected into a dictionary that keeps every value of a repeated key in order. */
module DnsText {
  import opened Options
  import opened Bytes
  import opened OrderedDict

  const EQUALS: byte := 0x3D

  datatype TextItem = TextItem(key: seq<byte>, value: seq<byte>)
  type Text = Dict<seq<byte>, seq<seq<byte>>>

  /** The position of the first equals sign from `i` on, or the end. */
  function EqualsFrom(t: seq<byte>, i: nat): nat
    decreases |t| - i
  {
    if i >= |t| then |t| else if t[i] == EQUALS then i else EqualsFrom(t, i + 1)
  }

  /** `str.partition("=")` on a decoded item. An item has at most 255 bytes, so the bound of 255
      characters on its key cannot be exceeded. */
  function ItemOf(t: seq<byte>): Option<TextItem> {
    var cut := EqualsFrom(t, 0);
    if !Utf8(t) || cut == 0 || cut > |t| || !NoControls(t[..cut]) then None
    else Some(TextItem(t[..cut], if cut < |t| then t[cut + 1..] else []))
  }

  function Before(items: seq<TextItem>, rest: Option<seq<TextItem>>): Option<seq<TextItem>> {
    if rest.None? then None else Some(items + rest.value)
  }

  /** The text whose length stands at a position; empty if it does not fit. */
  function TextAt(data: seq<byte>, o: nat): seq<byte> {
    if o < |data| && o + 1 + data[o] <= |data| then data[o + 1..o + 1 + data[o]] else []
  }

  function ItemsFrom(data: seq<byte>, o: nat): Option<seq<TextItem>>
    decreases |data| - o
  {
    if o >= |data| then Some([])
    else if o + 1 + data[o] > |data| || ItemOf(TextAt(data, o)).None? then None
    else Before([ItemOf(TextAt(data, o)).value], ItemsFrom(data, o + 1 + data[o]))
  }

  /** A value is added behind the earlier values of its key; a new key goes last. */
  function Add(d: Text, key: seq<byte>, value: seq<byte>): Text {
    if d == [] then [Item(key, [value])]
    else if d[0].key == key then [Item(key, d[0].value + [value])] + d[1..]
    else [d[0]] + Add(d[1..], key, value)
  }

  function Grouped(items: seq<TextItem>): Text {
    if items == [] then [] else
      var last := items[|items| - 1];
      Add(Grouped(items[..|items| - 1]), last.key, last.value)
  }

  lemma GroupedStep(items: seq<TextItem>, i: TextItem)
    ensures Grouped(items + [i]) == Add(Grouped(items), i.key, i.value)
  {
    assert (items + [i])[..|items|] == items;
  }

  function Dictionary(items: Option<seq<TextItem>>): Option<Text> {
    if items.None? then None else Some(Grouped(items.value))
  }

  lemma ItemsEnd(data: seq<byte>, o: nat, items: seq<TextItem>)
    requires o >= |data|
    ensures Before(items, ItemsFrom(data, o)) == Some(items)
  {
    assert items + [] == items;
  }

  lemma ItemsStep(data: seq<byte>, o: nat, items: seq<TextItem>, next: nat)
    requires o < |data| && next == o + 1 + data[o] <= |data| && ItemOf(TextAt(data, o)).Some?
    ensures Before(items, ItemsFrom(data, o))
         == Before(items + [ItemOf(TextAt(data, o)).value], ItemsFrom(data, next))
  {
    hide ItemOf, TextAt;
    var rest, i := ItemsFrom(data, next), ItemOf(TextAt(data, o)).value;
    if rest.Some? {
      assert items + ([i] + rest.value) == items + [i] + rest.value;
    }
  }

  lemma ItemsRefused(data: seq<byte>, o: nat, items: seq<TextItem>)
    requires o < |data| && (o + 1 + data[o] > |data| || ItemOf(TextAt(data, o)).None?)
    ensures Before(items, ItemsFrom(data, o)) == None
  {
  }

  /** `_parse_txt`, before redaction. */
  method ParseText(data: seq<byte>) returns (r: Option<Text>)
    ensures r == Dictionary(ItemsFrom(data, 0))
  {
    var values: Text := [];
    var offset: nat := 0;
    ghost var items: seq<TextItem> := [];
    ghost var whole := ItemsFrom(data, 0);
    assert whole.Some? ==> [] + whole.value == whole.value;
    hide ItemsFrom, ItemOf, TextAt, Grouped, Before;
    while offset < |data|
      invariant values == Grouped(items)
      invariant whole == Before(items, ItemsFrom(data, offset))
      decreases |data| - offset
    {
      ghost var start := offset;
      var length: int := data[offset];
      offset := offset + 1;
      if offset + length > |data| {
        ItemsRefused(data, start, items);
        return None;
      }
      var item := ItemOf(TextAt(data, offset - 1));
      if item.None? {
        ItemsRefused(data, start, items);
        return None;
      }
      offset := offset + length;
      ItemsStep(data, start, items, offset);
      GroupedStep(items, item.value);
      values := Add(values, item.value.key, item.value.value);
      items := items + [item.value];
    }
    ItemsEnd(data, offset, items);
    return Some(values);
  }

  // ----- the dictionary collects every value, in order

  /** The values given to a key, in order of appearance. */
  function ValuesOf(items: seq<TextItem>, key: seq<byte>): seq<seq<byte>> {
    if items == [] then [] else
      var last := items[|items| - 1];
      ValuesOf(items[..|items| - 1], key) + if last.key == key then [last.value] else []
  }

  /** The keys in the order of their first appearance. */
  function KeysOf(items: seq<TextItem>): seq<seq<byte>> {
    if items == [] then [] else
      var before, last := KeysOf(items[..|items| - 1]), items[|items| - 1].key;
      if last in before then before else before + [last]
  }

  function Keys(d: Text): seq<seq<byte>> {
    if d == [] then [] else [d[0].key] + Keys(d[1..])
  }

  function Stored(d: Text, key: seq<byte>): seq<seq<byte>> {
    if Get(d, key).None? then [] else Get(d, key).value
  }

  lemma {:induction false} AddStores(d: Text, key: seq<byte>, value: seq<byte>, k: seq<byte>)
    ensures Stored(Add(d, key, value), k) == Stored(d, k) + if k == key then [value] else []
    ensures Keys(Add(d, key, value)) == Keys(d) + if key in Keys(d) then [] else [key]
  {
    var more := Add(d, key, value);
    if d == [] {
      assert more[1..] == [];
    } else if d[0].key == key {
      assert more[1..] == d[1..];
    } else {
      AddStores(d[1..], key, value, k);
      assert more[1..] == Add(d[1..], key, value);
    }
  }

  /** The dictionary holds for every key all its values in order, and its keys in the order in which
      they first appear. */
  lemma {:induction false} GroupedHoldsEverything(items: seq<TextItem>, key: seq<byte>)
    ensures Stored(Grouped(items), key) == ValuesOf(items, key)
    ensures Keys(Grouped(items)) == KeysOf(items)
  {
    if items != [] {
      var before, last := items[..|items| - 1], items[|items| - 1];
      GroupedHoldsEverything(before, key);
      AddStores(Grouped(before), last.key, last.value, key);
    }
  }

  // ----- printing

  /** An item as it is written: with an equals sign and a value, or without. */
  datatype WireItem = WireItem(key: seq<byte>, value: Option<seq<byte>>)

  function ItemText(i: WireItem): seq<byte> {
    i.key + if i.value.None? then [] else [EQUALS] + i.value.value
  }

  function ItemMeaning(i: WireItem): TextItem {
    TextItem(i.key, if i.value.None? then [] else i.value.value)
  }

  predicate GoodItem(i: WireItem) {
    && i.key != [] && EQUALS !in i.key && NoControls(i.key)
    && Utf8(ItemText(i)) && |ItemText(i)| <= 255
  }

  function PrintItems(items: seq<WireItem>): seq<byte> {
    if items == [] then [] else
      [Put8(|ItemText(items[0])|)] + ItemText(items[0]) + PrintItems(items[1..])
  }

  function Meanings(items: seq<WireItem>): seq<TextItem> {
    if items == [] then [] else [ItemMeaning(items[0])] + Meanings(items[1..])
  }

  lemma {:induction false} EqualsBehindKey(key: seq<byte>, rest: seq<byte>, i: nat)
    requires i <= |key| && EQUALS !in key && (rest == [] || rest[0] == EQUALS)
    ensures EqualsFrom(key + rest, i) == |key|
    decreases |key| - i
  {
    if i < |key| {
      assert (key + rest)[i] in key;
      EqualsBehindKey(key, rest, i + 1);
    }
  }

  lemma ItemIsRead(i: WireItem)
    requires GoodItem(i)
    ensures ItemOf(ItemText(i)) == Some(ItemMeaning(i))
  {
    var t := ItemText(i);
    var rest := if i.value.None? then [] else [EQUALS] + i.value.value;
    EqualsBehindKey(i.key, rest, 0);
    assert t == i.key + rest && t[..|i.key|] == i.key;
    assert i.value.Some? ==> t[|i.key| + 1..] == i.value.value;
  }

  predicate AllGoodItems(items: seq<WireItem>) {
    forall i :: 0 <= i < |items| ==> GoodItem(items[i])
  }

  lemma {:induction false} ItemsAreRead(data: seq<byte>, o: nat, items: seq<WireItem>)
    requires AllGoodItems(items)
    requires Stands(data, o, PrintItems(items)) && o + |PrintItems(items)| == |data|
    ensures ItemsFrom(data, o) == Some(Meanings(items))
    decreases |items|
  {
    if items != [] {
      var t := ItemText(items[0]);
      var next := o + 1 + |t|;
      StandsSplit(data, o, [Put8(|t|)] + t, PrintItems(items[1..]), next);
      hide Stands, ItemOf, TextAt, ItemMeaning;
      TextStands(data, o, t);
      ItemIsRead(items[0]);
      ItemsAreRead(data, next, items[1..]);
      ItemsNext(data, o, next);
    }
  }

  lemma TextStands(data: seq<byte>, o: nat, t: seq<byte>)
    requires |t| <= 255 && Stands(data, o, [Put8(|t|)] + t)
    ensures o + 1 + |t| <= |data| && data[o] == |t| && TextAt(data, o) == t
  {
    StandsSplit(data, o, [Put8(|t|)], t, o + 1);
    assert data[o] == data[o..o + 1][0];
  }

  lemma ItemsNext(data: seq<byte>, o: nat, next: nat)
    requires o < |data| && next == o + 1 + data[o] <= |data| && ItemOf(TextAt(data, o)).Some?
    ensures ItemsFrom(data, o) == Before([ItemOf(TextAt(data, o)).value], ItemsFrom(data, next))
  {
    hide ItemOf, TextAt;
  }

  /** Printed items are parsed into the dictionary that collects them. */
  lemma TextRoundTrip(items: seq<WireItem>)
    requires AllGoodItems(items)
    ensures Dictionary(ItemsFrom(PrintItems(items), 0)) == Some(Grouped(Meanings(items)))
  {
    var data := PrintItems(items);
    assert data[0..|data|] == data;
    ItemsAreRead(data, 0, items);
  }
}
