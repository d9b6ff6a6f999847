/** One LLDP frame as a neighbour (`parse_lldp` and its value checks, link_layer.py): which frames are
    accepted, and which TLV each field is taken from. A field is the bytes it is rendered from. */
module LldpNeighbor {
  import opened Options
  import opened Bytes
  import opened LldpStream
  import opened Utf8Text

  type Fields = map<nat, seq<byte>>

  const IEEE_8021: seq<byte> := [0x00, 0x80, 0xC2]

  // ----- values

  predicate GoodText(v: seq<byte>, max: nat) {
    v != [] && |v| <= max && 0 !in v && Utf8(v)
  }

  predicate GoodAddress(v: seq<byte>) {
    |v| >= 2 && ((v[0] == 1 && |v| == 5) || (v[0] == 2 && |v| == 17))
  }

  predicate GoodIdentifier(v: seq<byte>, macSubtype: byte, networkSubtype: byte) {
    |v| >= 2 &&
      if v[0] == macSubtype then |v| == 7
      else if v[0] == networkSubtype then GoodAddress(v[1..])
      else GoodText(v[1..], 255)
  }

  predicate GoodManagement(v: seq<byte>) {
    |v| >= 7 && v[0] >= 2 && 1 + v[0] + 5 <= |v| && GoodAddress(v[1..1 + v[0]])
  }

  predicate IsPortVlan(v: seq<byte>) {
    |v| >= 4 && v[..3] == IEEE_8021 && v[3] == 1
  }

  predicate GoodValue(t: Tlv) {
    if t.kind == 1 then GoodIdentifier(t.value, 4, 5)
    else if t.kind == 2 then GoodIdentifier(t.value, 3, 4)
    else if t.kind == 3 then |t.value| == 2
    else if t.kind == 4 then GoodText(t.value, 512)
    else if t.kind == 5 then GoodText(t.value, 255)
    else if t.kind == 6 then GoodText(t.value, 1024)
    else if t.kind == 7 then |t.value| == 4
    else if t.kind == 8 then GoodManagement(t.value)
    else if t.kind == 127 then |t.value| >= 4 && (IsPortVlan(t.value) ==> |t.value| == 6)
    else true
  }

  /** TLVs that become fields; a later one replaces an earlier one of its type. */
  predicate Recorded(t: Tlv) {
    1 <= t.kind <= 8 || (t.kind == 127 && IsPortVlan(t.value))
  }

  function FieldsOf(ts: seq<Tlv>): Fields {
    if ts == [] then map[] else
      var before, t := FieldsOf(ts[..|ts| - 1]), ts[|ts| - 1];
      if Recorded(t) then before[t.kind := t.value] else before
  }

  function Count(ts: seq<Tlv>, kind: nat): nat {
    if ts == [] then 0 else Count(ts[..|ts| - 1], kind) + if ts[|ts| - 1].kind == kind then 1 else 0
  }

  predicate AllGoodValues(ts: seq<Tlv>) {
    ts == [] || (AllGoodValues(ts[..|ts| - 1]) && GoodValue(ts[|ts| - 1]))
  }

  /** No mandatory type occurs twice. */
  predicate NoneTwice(ts: seq<Tlv>) {
    Count(ts, 1) <= 1 && Count(ts, 2) <= 1 && Count(ts, 3) <= 1
  }

  predicate EachOnce(ts: seq<Tlv>) {
    Count(ts, 1) == 1 && Count(ts, 2) == 1 && Count(ts, 3) == 1
  }

  /** `parse_lldp`: a frame is accepted exactly when it ends with an End TLV, has each mandatory TLV
      once, and every value that is looked at is good. */
  method ParseLldp(payload: seq<byte>) returns (r: Option<Fields>)
    ensures r.Some? <==> StreamOf(payload).Tlvs? && StreamOf(payload).ended
                         && EachOnce(StreamOf(payload).tlvs) && AllGoodValues(StreamOf(payload).tlvs)
    ensures r.Some? ==> r.value == FieldsOf(StreamOf(payload).tlvs)
  {
    var stream := ReadTlvs(payload);
    if stream.Refused? {
      return None;
    }
    var tlvs := stream.tlvs;
    var fields: Fields, required: set<nat> := map[], {};
    assert tlvs[..0] == [];
    hide StreamOf, GoodValue, Recorded, Seen, NoneTwice, EachOnce, Count;
    SeenNothing();
    for i := 0 to |tlvs|
      invariant AllGoodValues(tlvs[..i]) && NoneTwice(tlvs[..i]) && fields == FieldsOf(tlvs[..i])
      invariant required == Seen(tlvs[..i])
    {
      assert tlvs[..i + 1][..i] == tlvs[..i];
      var t := tlvs[i];
      SeenStep(tlvs, i);
      if t.kind == 1 || t.kind == 2 || t.kind == 3 {
        if t.kind in required {
          SeenTwice(tlvs, i);
          return None;
        }
        required := required + {t.kind};
      }
      if !GoodValue(t) {
        BadStaysBad(tlvs, i + 1);
        return None;
      }
      if Recorded(t) {
        fields := fields[t.kind := t.value];
      }
    }
    assert tlvs[..|tlvs|] == tlvs;
    SeenAll(tlvs);
    if !stream.ended || required != {1, 2, 3} {
      return None;
    }
    return Some(fields);
  }

  /** The mandatory types that have occurred. */
  function Seen(ts: seq<Tlv>): set<nat> {
    (if Count(ts, 1) > 0 then {1} else {}) + (if Count(ts, 2) > 0 then {2} else {}) + (if Count(ts, 3) > 0 then {3} else {})
  }

  lemma SeenNothing()
    ensures Seen([]) == {} && NoneTwice([])
  {
  }

  lemma SeenStep(ts: seq<Tlv>, i: nat)
    requires i < |ts|
    ensures var mandatory := ts[i].kind == 1 || ts[i].kind == 2 || ts[i].kind == 3;
            && Seen(ts[..i + 1]) == (if mandatory then Seen(ts[..i]) + {ts[i].kind} else Seen(ts[..i]))
            && (NoneTwice(ts[..i]) && !(mandatory && ts[i].kind in Seen(ts[..i])) ==> NoneTwice(ts[..i + 1]))
  {
    assert ts[..i + 1][..i] == ts[..i];
  }

  lemma SeenAll(ts: seq<Tlv>)
    requires NoneTwice(ts)
    ensures Seen(ts) == {1, 2, 3} <==> EachOnce(ts)
  {
    assert 1 in Seen(ts) <==> Count(ts, 1) > 0;
    assert 2 in Seen(ts) <==> Count(ts, 2) > 0;
    assert 3 in Seen(ts) <==> Count(ts, 3) > 0;
  }

  lemma {:induction false} CountGrows(ts: seq<Tlv>, n: nat, kind: nat)
    requires n <= |ts|
    ensures Count(ts[..n], kind) <= Count(ts, kind)
  {
    if n == |ts| {
      assert ts[..n] == ts;
    } else {
      assert ts[..|ts| - 1][..n] == ts[..n];
      CountGrows(ts[..|ts| - 1], n, kind);
    }
  }

  lemma SeenTwice(ts: seq<Tlv>, i: nat)
    requires i < |ts| && ts[i].kind in Seen(ts[..i])
    ensures !EachOnce(ts)
  {
    assert ts[..i + 1][..i] == ts[..i];
    CountGrows(ts, i + 1, ts[i].kind);
  }

  lemma {:induction false} BadStaysBad(ts: seq<Tlv>, n: nat)
    requires n <= |ts| && !AllGoodValues(ts[..n])
    ensures !AllGoodValues(ts)
  {
    if n == |ts| {
      assert ts[..n] == ts;
    } else {
      assert ts[..|ts| - 1][..n] == ts[..n];
      BadStaysBad(ts[..|ts| - 1], n);
    }
  }

  // ----- which TLV a field is taken from

  ghost predicate LastOf(ts: seq<Tlv>, i: nat, kind: nat) {
    i < |ts| && ts[i].kind == kind && Recorded(ts[i]) && forall j :: i < j < |ts| ==> ts[j].kind != kind || !Recorded(ts[j])
  }

  /** A field is the value of the last TLV of its type. */
  lemma {:induction false} FieldIsLast(ts: seq<Tlv>, i: nat, kind: nat)
    requires LastOf(ts, i, kind)
    ensures kind in FieldsOf(ts) && FieldsOf(ts)[kind] == ts[i].value
  {
    hide Recorded;
    var n := |ts| - 1;
    if i < n {
      forall j | i < j < n ensures ts[..n][j].kind != kind || !Recorded(ts[..n][j]) {
        assert ts[..n][j] == ts[j];
      }
      assert ts[..n][i] == ts[i];
      FieldIsLast(ts[..n], i, kind);
    }
  }

  lemma {:induction false} CountedAt(ts: seq<Tlv>, kind: nat) returns (i: nat)
    requires Count(ts, kind) == 1
    ensures i < |ts| && ts[i].kind == kind && forall j :: 0 <= j < |ts| && j != i ==> ts[j].kind != kind
  {
    var n := |ts| - 1;
    if ts[n].kind == kind {
      i := n;
      NotCounted(ts[..n], kind);
    } else {
      i := CountedAt(ts[..n], kind);
    }
    forall j | 0 <= j < |ts| && j != i ensures ts[j].kind != kind {
      assert j < n ==> ts[..n][j] == ts[j];
    }
  }

  lemma {:induction false} NotCounted(ts: seq<Tlv>, kind: nat)
    requires Count(ts, kind) == 0
    ensures forall j :: 0 <= j < |ts| ==> ts[j].kind != kind
  {
    if ts != [] {
      var n := |ts| - 1;
      NotCounted(ts[..n], kind);
      forall j | 0 <= j < |ts| ensures ts[j].kind != kind {
        assert j < n ==> ts[..n][j] == ts[j];
      }
    }
  }

  /** The mandatory fields of an accepted frame are those of its only TLVs of these types, wherever
      they stand; so the lifetime of the neighbour is the one number its TTL TLV holds. */
  lemma MandatoryFieldsAreTheOnlyOnes(ts: seq<Tlv>, kind: nat) returns (i: nat)
    requires EachOnce(ts) && 1 <= kind <= 3
    ensures i < |ts| && ts[i].kind == kind && forall j :: 0 <= j < |ts| && j != i ==> ts[j].kind != kind
    ensures kind in FieldsOf(ts) && FieldsOf(ts)[kind] == ts[i].value
  {
    i := CountedAt(ts, kind);
    FieldIsLast(ts, i, kind);
  }

  lemma {:induction false} GoodTogether(a: seq<Tlv>, t: Tlv)
    ensures AllGoodValues(a + [t]) <==> AllGoodValues(a) && GoodValue(t)
    ensures forall k :: Count(a + [t], k) == Count(a, k) + if t.kind == k then 1 else 0
  {
    assert (a + [t])[..|a|] == a;
    hide GoodValue;
  }

  /** A frame printed from TLVs is accepted exactly when the TLVs are, whatever its padding. */
  lemma PrintedFrameIsAccepted(ts: seq<Tlv>, padding: nat)
    requires AllGood(ts) && |ts| < MAX_TLVS && |PrintFrame(ts, padding)| <= MAX_BYTES
    ensures var s := StreamOf(PrintFrame(ts, padding));
            && s.Tlvs? && s.ended
            && (EachOnce(s.tlvs) && AllGoodValues(s.tlvs) <==> EachOnce(ts) && AllGoodValues(ts))
  {
    FrameRoundTrip(ts, padding);
    GoodTogether(ts, END);
    hide StreamOf, PrintFrame;
  }

  // ----- which values are good

  /** What a chassis or port is called: by a MAC, by an IPv4 or IPv6 address, or by a text of some other
      subtype. */
  datatype Identifier =
    | ByMac(mac: seq<byte>)
    | ByAddress(address: seq<byte>)
    | ByText(subtype: byte, text: seq<scalar>)

  predicate IsAddress(a: seq<byte>) {
    |a| == 4 || |a| == 16
  }

  /** A text without the character 0 that takes 1 to `max` bytes. */
  ghost predicate IsText(text: seq<scalar>, max: nat) {
    1 <= |Encode(text)| <= max && 0 !in Encode(text)
  }

  ghost predicate IsIdentifier(id: Identifier, macSubtype: byte, networkSubtype: byte) {
    match id
    case ByMac(mac) => |mac| == 6
    case ByAddress(address) => IsAddress(address)
    case ByText(subtype, text) => subtype != macSubtype && subtype != networkSubtype && IsText(text, 255)
  }

  /** An address behind its family: 1 for IPv4, 2 for IPv6. */
  function PrintAddress(a: seq<byte>): seq<byte> {
    [if |a| == 4 then 1 else 2] + a
  }

  function PrintIdentifier(id: Identifier, macSubtype: byte, networkSubtype: byte): seq<byte> {
    match id
    case ByMac(mac) => [macSubtype] + mac
    case ByAddress(address) => [networkSubtype] + PrintAddress(address)
    case ByText(subtype, text) => [subtype] + Encode(text)
  }

  lemma GoodTextIs(v: seq<byte>, max: nat)
    ensures GoodText(v, max) <==> exists text :: IsText(text, max) && v == Encode(text)
  {
    if GoodText(v, max) {
      var text := ValidIsEncoding(v);
      assert IsText(text, max);
    }
    if text :| IsText(text, max) && v == Encode(text) {
      EncodingIsValid(text);
    }
  }

  lemma GoodAddressIs(v: seq<byte>)
    ensures GoodAddress(v) <==> exists a :: IsAddress(a) && v == PrintAddress(a)
  {
    if GoodAddress(v) {
      assert v == [v[0]] + v[1..];
      assert IsAddress(v[1..]) && v == PrintAddress(v[1..]);
    }
  }

  lemma PrintedIsGood(id: Identifier, macSubtype: byte, networkSubtype: byte)
    requires macSubtype != networkSubtype && IsIdentifier(id, macSubtype, networkSubtype)
    ensures GoodIdentifier(PrintIdentifier(id, macSubtype, networkSubtype), macSubtype, networkSubtype)
  {
    var v := PrintIdentifier(id, macSubtype, networkSubtype);
    match id
    case ByMac(mac) =>
    case ByAddress(address) =>
      GoodAddressIs(PrintAddress(address));
      assert v[1..] == PrintAddress(address);
    case ByText(subtype, text) =>
      GoodTextIs(Encode(text), 255);
      assert v[1..] == Encode(text);
  }

  /** An identifier is accepted if and only if it is printed from a MAC of six bytes, an IPv4 or IPv6
      address, or a text of 1 to 255 bytes under any other subtype. */
  lemma IdentifiersAre(v: seq<byte>, macSubtype: byte, networkSubtype: byte)
    requires macSubtype != networkSubtype
    ensures GoodIdentifier(v, macSubtype, networkSubtype) <==>
              exists id :: IsIdentifier(id, macSubtype, networkSubtype) && v == PrintIdentifier(id, macSubtype, networkSubtype)
  {
    hide GoodText, GoodAddress;
    if GoodIdentifier(v, macSubtype, networkSubtype) {
      assert v == [v[0]] + v[1..];
      var id: Identifier;
      if v[0] == macSubtype {
        id := ByMac(v[1..]);
      } else if v[0] == networkSubtype {
        GoodAddressIs(v[1..]);
        var a :| IsAddress(a) && v[1..] == PrintAddress(a);
        id := ByAddress(a);
      } else {
        GoodTextIs(v[1..], 255);
        var text :| IsText(text, 255) && v[1..] == Encode(text);
        id := ByText(v[0], text);
      }
      assert IsIdentifier(id, macSubtype, networkSubtype) && v == PrintIdentifier(id, macSubtype, networkSubtype);
    }
    if id :| IsIdentifier(id, macSubtype, networkSubtype) && v == PrintIdentifier(id, macSubtype, networkSubtype) {
      PrintedIsGood(id, macSubtype, networkSubtype);
    }
  }

  /** A management address is accepted if and only if it is a counted address followed by at least five
      bytes. */
  lemma ManagementAddressesAre(v: seq<byte>)
    ensures GoodManagement(v) <==>
              exists a, rest :: IsAddress(a) && |rest| >= 5 && v == [Put8(|a| + 1)] + PrintAddress(a) + rest
  {
    if GoodManagement(v) {
      ManagementIsPrinted(v);
    }
    if a, rest :| IsAddress(a) && |rest| >= 5 && v == [Put8(|a| + 1)] + PrintAddress(a) + rest {
      PrintedManagementIsGood(a, rest);
    }
    hide GoodManagement, IsAddress, PrintAddress;
  }

  lemma ManagementIsPrinted(v: seq<byte>)
    requires GoodManagement(v)
    ensures exists a, rest :: IsAddress(a) && |rest| >= 5 && v == [Put8(|a| + 1)] + PrintAddress(a) + rest
  {
    var middle, rest := v[1..1 + v[0]], v[1 + v[0]..];
    GoodAddressIs(middle);
    var a :| IsAddress(a) && middle == PrintAddress(a);
    hide GoodAddress;
    assert v == [v[0]] + middle + rest;
  }

  lemma PrintedManagementIsGood(a: seq<byte>, rest: seq<byte>)
    requires IsAddress(a) && |rest| >= 5
    ensures GoodManagement([Put8(|a| + 1)] + PrintAddress(a) + rest)
  {
    var v := [Put8(|a| + 1)] + PrintAddress(a) + rest;
    assert v[0] == |a| + 1 && v[1..1 + v[0]] == PrintAddress(a);
    GoodAddressIs(PrintAddress(a));
    hide GoodAddress;
  }

  /** Which TLVs are accepted, type by type. */
  ghost predicate Acceptable(t: Tlv) {
    match t.kind
    case 1 => exists id :: IsIdentifier(id, 4, 5) && t.value == PrintIdentifier(id, 4, 5)
    case 2 => exists id :: IsIdentifier(id, 3, 4) && t.value == PrintIdentifier(id, 3, 4)
    case 3 => exists ttl: nat :: ttl < 65536 && t.value == Put16(ttl)
    case 4 => exists text :: IsText(text, 512) && t.value == Encode(text)
    case 5 => exists text :: IsText(text, 255) && t.value == Encode(text)
    case 6 => exists text :: IsText(text, 1024) && t.value == Encode(text)
    case 7 =>
      exists supported: nat, enabled: nat ::
        supported < 65536 && enabled < 65536 && t.value == Put16(supported) + Put16(enabled)
    case 8 => exists a, rest :: IsAddress(a) && |rest| >= 5 && t.value == [Put8(|a| + 1)] + PrintAddress(a) + rest
    case 127 =>
      && |t.value| >= 4
      && (t.value[..4] == [0x00, 0x80, 0xC2, 1] ==>
            exists vlan: nat :: vlan < 65536 && t.value == [0x00, 0x80, 0xC2, 1] + Put16(vlan))
    case _ => true
  }

  lemma Put16Exists(v: seq<byte>)
    ensures |v| == 2 <==> exists n: nat :: n < 65536 && v == Put16(n)
  {
    if |v| == 2 {
      var n := U16(v[0], v[1]);
      assert v == Put16(n);
    }
  }

  lemma PairsAre(v: seq<byte>)
    ensures |v| == 4 <==> exists m: nat, n: nat :: m < 65536 && n < 65536 && v == Put16(m) + Put16(n)
  {
    if |v| == 4 {
      Put16Exists(v[..2]);
      Put16Exists(v[2..]);
      assert v == v[..2] + v[2..];
    }
  }

  lemma PortVlansAre(v: seq<byte>)
    requires |v| >= 4 && IsPortVlan(v)
    ensures |v| == 6 <==> exists vlan: nat :: vlan < 65536 && v == [0x00, 0x80, 0xC2, 1] + Put16(vlan)
  {
    assert v[..4] == [0x00, 0x80, 0xC2, 1] by { assert v[..4] == v[..3] + [v[3]]; }
    assert v == v[..4] + v[4..];
    Put16Exists(v[4..]);
  }

  /** A value is good if and only if it is acceptable for its type. */
  lemma GoodIsAcceptable(t: Tlv)
    ensures GoodValue(t) <==> Acceptable(t)
  {
    hide GoodIdentifier, GoodText, GoodManagement, IsIdentifier, PrintIdentifier, IsText, PrintAddress, Encode, Put16;
    match t.kind
    case 1 => IdentifiersAre(t.value, 4, 5);
    case 2 => IdentifiersAre(t.value, 3, 4);
    case 3 => Put16Exists(t.value);
    case 4 => GoodTextIs(t.value, 512);
    case 5 => GoodTextIs(t.value, 255);
    case 6 => GoodTextIs(t.value, 1024);
    case 7 => PairsAre(t.value);
    case 8 => ManagementAddressesAre(t.value);
    case 127 =>
      if |t.value| >= 4 {
        assert t.value[..4] == [0x00, 0x80, 0xC2, 1] <==> IsPortVlan(t.value) by {
          assert t.value[..4] == t.value[..3] + [t.value[3]];
        }
        if IsPortVlan(t.value) {
          PortVlansAre(t.value);
        }
      }
    case _ =>
  }

  /** The TLVs of a frame are good if and only if each is acceptable. */
  lemma {:induction false} AllGoodAreAcceptable(ts: seq<Tlv>)
    ensures AllGoodValues(ts) <==> forall t :: t in ts ==> Acceptable(t)
  {
    hide Acceptable, GoodValue;
    if ts != [] {
      AllGoodAreAcceptable(ts[..|ts| - 1]);
      GoodIsAcceptable(ts[|ts| - 1]);
      assert ts == ts[..|ts| - 1] + [ts[|ts| - 1]];
    }
  }
}
