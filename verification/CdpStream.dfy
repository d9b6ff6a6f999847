/** The CDP TLV stream and the address list nested in it (`_cdp_tlvs`, `_cdp_addresses`,
    link_layer.py). A TLV's length counts its own four header bytes. */
module CdpStream {
  import opened Options
  import opened Bytes

  const MAX_TLVS := 128
  const MAX_ADDRESSES := 64

  datatype Tlv = Tlv(kind: nat, value: seq<byte>)

  // ----- the stream

  function Before<T>(items: seq<T>, rest: Option<seq<T>>): Option<seq<T>> {
    if rest.None? then None else Some(items + rest.value)
  }

  lemma BeforeStep<T>(items: seq<T>, x: T, rest: Option<seq<T>>)
    ensures Before(items, Before([x], rest)) == Before(items + [x], rest)
  {
    if rest.Some? {
      assert items + ([x] + rest.value) == items + [x] + rest.value;
    }
  }

  lemma BeforeEnds<T>(items: seq<T>, rest: Option<seq<T>>)
    ensures Before([], rest) == rest && Before(items, Some([])) == Some(items) && Before(items, None) == None
  {
    assert items + [] == items;
    if rest.Some? {
      assert [] + rest.value == rest.value;
    }
  }

  function TlvEnd(m: seq<byte>, o: nat): nat {
    if o + 4 <= |m| then o + U16At(m, o + 2) else 0
  }

  function TlvAt(m: seq<byte>, o: nat): Tlv {
    if o + 4 <= TlvEnd(m, o) <= |m| then Tlv(U16At(m, o), m[o + 4..TlvEnd(m, o)]) else Tlv(0, [])
  }

  function TlvsFrom(m: seq<byte>, o: nat, count: nat): Option<seq<Tlv>>
    decreases |m| - o
  {
    if o >= |m| then Some([])
    else if o + 4 > |m| || TlvEnd(m, o) < o + 4 || TlvEnd(m, o) > |m| || count >= MAX_TLVS then None
    else Before([TlvAt(m, o)], TlvsFrom(m, TlvEnd(m, o), count + 1))
  }

  lemma TlvsNext(m: seq<byte>, o: nat, count: nat, end: nat, more: nat)
    requires o + 4 <= end == TlvEnd(m, o) <= |m| && count < MAX_TLVS && more == count + 1
    ensures TlvsFrom(m, o, count) == Before([TlvAt(m, o)], TlvsFrom(m, end, more))
  {
  }

  /** `_cdp_tlvs`. */
  method ReadTlvs(payload: seq<byte>) returns (r: Option<seq<Tlv>>)
    ensures r == TlvsFrom(payload, 0, 0)
  {
    var tlvs: seq<Tlv> := [];
    var offset: nat, count: nat := 0, 0;
    ghost var whole := TlvsFrom(payload, 0, 0);
    ghost var rest := whole;
    BeforeEnds(tlvs, whole);
    hide Before, U16At;
    while offset < |payload|
      invariant rest == TlvsFrom(payload, offset, count) && whole == Before(tlvs, rest)
      decreases |payload| - offset
    {
      ghost var start, before := offset, count;
      BeforeEnds(tlvs, rest);
      if |payload| - offset < 4 {
        return None;
      }
      var kind, length := U16At(payload, offset), U16At(payload, offset + 2);
      if length < 4 || length > |payload| - offset {
        return None;
      }
      count := count + 1;
      if count > MAX_TLVS {
        return None;
      }
      var tlv := Tlv(kind, payload[offset + 4..offset + length]);
      offset := offset + length;
      TlvsNext(payload, start, before, offset, count);
      rest := TlvsFrom(payload, offset, count);
      BeforeStep(tlvs, tlv, rest);
      tlvs := tlvs + [tlv];
    }
    BeforeEnds(tlvs, rest);
    return Some(tlvs);
  }

  predicate GoodTlv(t: Tlv) {
    t.kind < 65536 && |t.value| + 4 < 65536
  }

  predicate AllGood(ts: seq<Tlv>) {
    forall i :: 0 <= i < |ts| ==> GoodTlv(ts[i])
  }

  function PrintTlv(t: Tlv): seq<byte> {
    Put16(t.kind) + Put16(|t.value| + 4) + t.value
  }

  function PrintTlvs(ts: seq<Tlv>): seq<byte> {
    if ts == [] then [] else PrintTlv(ts[0]) + PrintTlvs(ts[1..])
  }

  lemma TlvIsRead(m: seq<byte>, o: nat, t: Tlv, end: nat)
    requires GoodTlv(t) && Stands(m, o, PrintTlv(t)) && end == o + |PrintTlv(t)|
    ensures o + 4 <= end == TlvEnd(m, o) <= |m| && TlvAt(m, o) == t
  {
    StandsSplit(m, o, Put16(t.kind) + Put16(|t.value| + 4), t.value, o + 4);
    StandsSplit(m, o, Put16(t.kind), Put16(|t.value| + 4), o + 2);
    hide U16At;
    Put16At(m, o, t.kind);
    Put16At(m, o + 2, |t.value| + 4);
  }

  lemma {:induction false} TlvsAreRead(m: seq<byte>, o: nat, ts: seq<Tlv>, count: nat)
    requires AllGood(ts) && count + |ts| <= MAX_TLVS
    requires Stands(m, o, PrintTlvs(ts)) && o + |PrintTlvs(ts)| == |m|
    ensures TlvsFrom(m, o, count) == Some(ts)
    decreases |ts|
  {
    if ts != [] {
      var end := o + |PrintTlv(ts[0])|;
      StandsSplit(m, o, PrintTlv(ts[0]), PrintTlvs(ts[1..]), end);
      hide Stands, PrintTlv, GoodTlv, TlvAt, TlvEnd, TlvsFrom;
      TlvIsRead(m, o, ts[0], end);
      TlvsAreRead(m, end, ts[1..], count + 1);
      TlvsNext(m, o, count, end, count + 1);
      assert [ts[0]] + ts[1..] == ts;
    }
  }

  lemma TlvReprints(m: seq<byte>, o: nat)
    requires o + 4 <= TlvEnd(m, o) <= |m|
    ensures GoodTlv(TlvAt(m, o)) && PrintTlv(TlvAt(m, o)) == m[o..TlvEnd(m, o)]
  {
    var end := TlvEnd(m, o);
    assert m[o..end] == [m[o], m[o + 1]] + [m[o + 2], m[o + 3]] + m[o + 4..end];
    U16Reprints(m, o);
    U16Reprints(m, o + 2);
  }

  lemma U16Reprints(m: seq<byte>, i: nat)
    requires i + 2 <= |m|
    ensures U16At(m, i) < 65536 && Put16(U16At(m, i)) == [m[i], m[i + 1]]
  {
  }

  lemma {:induction false} TlvsReprint(m: seq<byte>, o: nat, count: nat)
    requires o <= |m| && count <= MAX_TLVS && TlvsFrom(m, o, count).Some?
    ensures var ts := TlvsFrom(m, o, count).value;
            AllGood(ts) && count + |ts| <= MAX_TLVS && PrintTlvs(ts) == m[o..]
    decreases |m| - o
  {
    if o >= |m| {
      assert m[o..] == [];
    } else {
      TlvFits(m, o, count);
      hide TlvsFrom, TlvAt, TlvEnd, PrintTlv, GoodTlv, PrintTlvs, AllGood;
      var t, end: nat, more: nat := TlvAt(m, o), TlvEnd(m, o), count + 1;
      TlvReprints(m, o);
      TlvsNext(m, o, count, end, more);
      TlvsReprint(m, end, more);
      TlvListStep(t, TlvsFrom(m, end, more).value);
      Rejoin(m, o, end);
    }
  }

  lemma TlvFits(m: seq<byte>, o: nat, count: nat)
    requires o < |m| && TlvsFrom(m, o, count).Some?
    ensures o + 4 <= TlvEnd(m, o) <= |m| && count < MAX_TLVS
  {
    hide TlvEnd, TlvAt;
  }

  lemma TlvListStep(t: Tlv, rest: seq<Tlv>)
    requires GoodTlv(t) && AllGood(rest)
    ensures AllGood([t] + rest) && PrintTlvs([t] + rest) == PrintTlv(t) + PrintTlvs(rest)
  {
    hide PrintTlv, GoodTlv;
    assert ([t] + rest)[1..] == rest;
  }

  /** The payloads accepted as a list of TLVs are exactly the printed ones, byte for byte. */
  lemma StreamIsItsPrint(m: seq<byte>, ts: seq<Tlv>)
    ensures TlvsFrom(m, 0, 0) == Some(ts) <==> AllGood(ts) && |ts| <= MAX_TLVS && m == PrintTlvs(ts)
  {
    assert m[0..] == m && m[0..|m|] == m;
    if TlvsFrom(m, 0, 0) == Some(ts) {
      TlvsReprint(m, 0, 0);
    }
    if AllGood(ts) && |ts| <= MAX_TLVS && m == PrintTlvs(ts) {
      TlvsAreRead(m, 0, ts, 0);
    }
  }

  // ----- nested addresses

  const NLPID_IPV4: byte := 0xCC

  datatype Address = Address(kind: byte, protocol: seq<byte>, octets: seq<byte>)

  /** Malformed raises a parse error; Unrendered is the library error for an address marked as IPv4
      that has neither 4 nor 16 octets, which the source lets through. */
  datatype Listing = Malformed | Unrendered | Listing(addresses: seq<seq<byte>>)

  function ProtocolEnd(v: seq<byte>, o: nat): nat {
    if o + 2 <= |v| then o + 2 + v[o + 1] else |v| + 1
  }

  function AddressEnd(v: seq<byte>, o: nat): nat {
    var p := ProtocolEnd(v, o);
    if p + 2 <= |v| then p + 2 + U16At(v, p) else |v| + 1
  }

  function AddressAt(v: seq<byte>, o: nat): Address {
    var p := ProtocolEnd(v, o);
    if o + 2 <= p && p + 2 <= AddressEnd(v, o) <= |v| then
      Address(v[o], v[o + 2..p], v[p + 2..AddressEnd(v, o)])
    else Address(0, [], [])
  }

  predicate Printable(a: Address) {
    |a.octets| == 4 || |a.octets| == 16
  }

  /** Whether an address is kept: marked as IPv4, or of a length that can be shown. */
  predicate Wanted(a: Address) {
    a.protocol == [NLPID_IPV4] || Printable(a)
  }

  function Keep(a: Address, rest: Listing): Listing {
    if rest.Listing? && Wanted(a) then Listing([a.octets] + rest.addresses) else rest
  }

  function ListingFrom(v: seq<byte>, o: nat, n: nat): Listing
    decreases n
  {
    if n == 0 then if o == |v| then Listing([]) else Malformed
    else if AddressEnd(v, o) > |v| then Malformed
    else if Wanted(AddressAt(v, o)) && !Printable(AddressAt(v, o)) then Unrendered
    else Keep(AddressAt(v, o), ListingFrom(v, AddressEnd(v, o), n - 1))
  }

  function AddressesOf(v: seq<byte>): Listing {
    if |v| < 4 || U32At(v, 0) > MAX_ADDRESSES then Malformed else ListingFrom(v, 4, U32At(v, 0))
  }

  function Ahead(found: seq<seq<byte>>, rest: Listing): Listing {
    if rest.Listing? then Listing(found + rest.addresses) else rest
  }

  lemma AheadStep(found: seq<seq<byte>>, a: Address, rest: Listing)
    ensures Ahead(found, Keep(a, rest)) == Ahead(Added(found, a), rest)
  {
    if rest.Listing? && Wanted(a) {
      assert found + ([a.octets] + rest.addresses) == found + [a.octets] + rest.addresses;
    }
  }

  lemma AheadEnds(found: seq<seq<byte>>, rest: Listing)
    ensures Ahead([], rest) == rest && Ahead(found, Listing([])) == Listing(found)
    ensures !rest.Listing? ==> Ahead(found, rest) == rest
  {
    assert found + [] == found;
  }

  lemma ListingNext(v: seq<byte>, o: nat, n: nat, end: nat, fewer: nat)
    requires n == fewer + 1 && end == AddressEnd(v, o) <= |v|
    requires !Wanted(AddressAt(v, o)) || Printable(AddressAt(v, o))
    ensures ListingFrom(v, o, n) == Keep(AddressAt(v, o), ListingFrom(v, end, fewer))
  {
    hide Wanted, AddressAt, AddressEnd;
    assert n - 1 == fewer;
  }

  lemma ListingStops(v: seq<byte>, o: nat, n: nat)
    requires n > 0
    ensures AddressEnd(v, o) > |v| ==> ListingFrom(v, o, n) == Malformed
    ensures AddressEnd(v, o) <= |v| && Wanted(AddressAt(v, o)) && !Printable(AddressAt(v, o)) ==>
              ListingFrom(v, o, n) == Unrendered
  {
    hide AddressEnd, AddressAt, Wanted, Printable;
  }

  /** One address with its protocol. */
  method ReadAddress(value: seq<byte>, start: nat) returns (ok: bool, a: Address, next: nat)
    ensures ok <==> AddressEnd(value, start) <= |value|
    ensures ok ==> a == AddressAt(value, start) && next == AddressEnd(value, start)
  {
    ok, a, next := false, Address(0, [], []), start;
    if |value| < start + 2 {
      return;
    }
    var protocolLength: int := value[start + 1];
    next := start + 2;
    if protocolLength > |value| - next {
      return;
    }
    var protocol := value[next..next + protocolLength];
    next := next + protocolLength;
    if |value| - next < 2 {
      return;
    }
    var addressLength := U16At(value, next);
    next := next + 2;
    if addressLength > |value| - next {
      return;
    }
    a := Address(value[start], protocol, value[next..next + addressLength]);
    next := next + addressLength;
    ok := true;
  }

  /** The addresses found so far and one more, if it is kept. */
  function Added(found: seq<seq<byte>>, a: Address): seq<seq<byte>> {
    if Wanted(a) then found + [a.octets] else found
  }

  /** The loop over as many addresses as the count says. */
  method ReadListing(value: seq<byte>, count: nat) returns (r: Listing)
    ensures r == ListingFrom(value, 4, count)
  {
    hide ListingFrom, Ahead, Keep, Wanted, Printable, AddressEnd, AddressAt, Added;
    var found: seq<seq<byte>> := [];
    var offset: nat, left: nat := 4, count;
    ghost var whole := ListingFrom(value, 4, count);
    ghost var rest := whole;
    AheadEnds(found, whole);
    while left > 0
      invariant rest == ListingFrom(value, offset, left) && whole == Ahead(found, rest)
    {
      AheadEnds(found, rest);
      ListingStops(value, offset, left);
      var ok, address, next := ReadAddress(value, offset);
      if !ok {
        return Malformed;
      }
      if Wanted(address) && !Printable(address) {
        return Unrendered;
      }
      ListingNext(value, offset, left, next, left - 1);
      offset, left := next, left - 1;
      rest := ListingFrom(value, offset, left);
      AheadStep(found, address, rest);
      found := Added(found, address);
    }
    AheadEnds(found, rest);
    ListingLast(value, offset);
    return if offset != |value| then Malformed else Listing(found);
  }

  /** `_cdp_addresses`. */
  method ReadAddresses(value: seq<byte>) returns (r: Listing)
    ensures r == AddressesOf(value)
  {
    if |value| < 4 {
      return Malformed;
    }
    var count := U32At(value, 0);
    if count > MAX_ADDRESSES {
      return Malformed;
    }
    r := ReadListing(value, count);
  }

  lemma ListingLast(v: seq<byte>, o: nat)
    ensures ListingFrom(v, o, 0) == if o == |v| then Listing([]) else Malformed
  {
  }

  // ----- printing addresses

  predicate GoodAddress(a: Address) {
    |a.protocol| < 256 && |a.octets| < 65536
  }

  predicate AllGoodAddresses(s: seq<Address>) {
    forall i :: 0 <= i < |s| ==> GoodAddress(s[i])
  }

  function PrintAddress(a: Address): seq<byte> {
    [a.kind, Put8(|a.protocol|)] + a.protocol + (Put16(|a.octets|) + a.octets)
  }

  function PrintAddresses(s: seq<Address>): seq<byte> {
    if s == [] then [] else PrintAddress(s[0]) + PrintAddresses(s[1..])
  }

  /** What a list of addresses is read as. */
  function Meaning(s: seq<Address>): Listing {
    if s == [] then Listing([])
    else if Wanted(s[0]) && !Printable(s[0]) then Unrendered
    else Keep(s[0], Meaning(s[1..]))
  }

  lemma AddressIsRead(v: seq<byte>, o: nat, a: Address, end: nat)
    requires GoodAddress(a) && Stands(v, o, PrintAddress(a)) && end == o + |PrintAddress(a)|
    ensures end == AddressEnd(v, o) <= |v| && AddressAt(v, o) == a
  {
    var p := o + 2 + |a.protocol|;
    StandsSplit(v, o, [a.kind, Put8(|a.protocol|)] + a.protocol, Put16(|a.octets|) + a.octets, p);
    StandsSplit(v, o, [a.kind, Put8(|a.protocol|)], a.protocol, o + 2);
    StandsSplit(v, p, Put16(|a.octets|), a.octets, p + 2);
    assert v[o] == v[o..o + 2][0] && v[o + 1] == v[o..o + 2][1];
    hide U16At;
    Put16At(v, p, |a.octets|);
    assert ProtocolEnd(v, o) == p;
  }

  lemma {:induction false} AddressesAreRead(v: seq<byte>, o: nat, s: seq<Address>)
    requires AllGoodAddresses(s) && Stands(v, o, PrintAddresses(s)) && o + |PrintAddresses(s)| == |v|
    ensures ListingFrom(v, o, |s|) == Meaning(s)
    decreases |s|
  {
    if s != [] {
      var end := o + |PrintAddress(s[0])|;
      var fewer: nat := |s| - 1;
      StandsSplit(v, o, PrintAddress(s[0]), PrintAddresses(s[1..]), end);
      hide Stands, PrintAddress, GoodAddress, AddressAt, AddressEnd, ListingFrom, Wanted, Printable, Keep;
      AddressIsRead(v, o, s[0], end);
      AddressesAreRead(v, end, s[1..]);
      ListingStops(v, o, |s|);
      if !Wanted(s[0]) || Printable(s[0]) {
        ListingNext(v, o, |s|, end, fewer);
      }
    }
  }

  /** Up to 64 printed addresses are read as the addresses marked IPv4 or of 4 or 16 octets, in order;
      the reading breaks off exactly at the first one marked IPv4 that cannot be shown. */
  lemma AddressesRoundTrip(s: seq<Address>)
    requires AllGoodAddresses(s) && |s| <= MAX_ADDRESSES
    ensures AddressesOf(Put32(|s|) + PrintAddresses(s)) == Meaning(s)
  {
    var v := Put32(|s|) + PrintAddresses(s);
    assert v[0..|v|] == v;
    StandsSplit(v, 0, Put32(|s|), PrintAddresses(s), 4);
    hide U32At, Stands;
    Put32At(v, 0, |s|);
    AddressesAreRead(v, 4, s);
  }

  function AddressesFrom(v: seq<byte>, o: nat, n: nat): seq<Address>
    decreases n
  {
    if n == 0 || AddressEnd(v, o) > |v| then [] else [AddressAt(v, o)] + AddressesFrom(v, AddressEnd(v, o), n - 1)
  }

  lemma AddressReprints(v: seq<byte>, o: nat)
    requires AddressEnd(v, o) <= |v|
    ensures o + 4 <= AddressEnd(v, o) && GoodAddress(AddressAt(v, o))
    ensures PrintAddress(AddressAt(v, o)) == v[o..AddressEnd(v, o)]
  {
    var p, end := ProtocolEnd(v, o), AddressEnd(v, o);
    U16Reprints(v, p);
    assert v[o..end] == [v[o], v[o + 1]] + v[o + 2..p] + ([v[p], v[p + 1]] + v[p + 2..end]);
  }

  lemma {:induction false} AddressesReprint(v: seq<byte>, o: nat, n: nat)
    requires o <= |v| && ListingFrom(v, o, n).Listing?
    ensures var s := AddressesFrom(v, o, n);
            |s| == n && AllGoodAddresses(s) && PrintAddresses(s) == v[o..] && Meaning(s) == ListingFrom(v, o, n)
    decreases n
  {
    if n == 0 {
      assert v[o..] == [];
    } else {
      hide AddressAt, AddressEnd, ListingFrom, Wanted, Printable, Keep, Meaning, PrintAddresses, PrintAddress,
        GoodAddress, AllGoodAddresses, AddressesFrom;
      ListingStops(v, o, n);
      AddressReprints(v, o);
      var a, end: nat, fewer: nat := AddressAt(v, o), AddressEnd(v, o), n - 1;
      AddressesNext(v, o, n, end, fewer);
      ListingNext(v, o, n, end, fewer);
      KeepKeeps(a, ListingFrom(v, end, fewer));
      AddressesReprint(v, end, fewer);
      AddressListStep(a, AddressesFrom(v, end, fewer));
      Rejoin(v, o, end);
    }
  }

  lemma AddressesNext(v: seq<byte>, o: nat, n: nat, end: nat, fewer: nat)
    requires n == fewer + 1 && end == AddressEnd(v, o) <= |v|
    ensures AddressesFrom(v, o, n) == [AddressAt(v, o)] + AddressesFrom(v, end, fewer)
  {
    hide AddressEnd, AddressAt;
    assert n - 1 == fewer;
  }

  lemma Rejoin(v: seq<byte>, o: nat, end: nat)
    requires o <= end <= |v|
    ensures v[o..end] + v[end..] == v[o..]
  {
  }

  lemma KeepKeeps(a: Address, rest: Listing)
    ensures Keep(a, rest).Listing? <==> rest.Listing?
  {
  }

  lemma AddressListStep(a: Address, rest: seq<Address>)
    requires GoodAddress(a) && AllGoodAddresses(rest) && (!Wanted(a) || Printable(a))
    ensures AllGoodAddresses([a] + rest) && PrintAddresses([a] + rest) == PrintAddress(a) + PrintAddresses(rest)
    ensures Meaning([a] + rest) == Keep(a, Meaning(rest))
  {
    assert ([a] + rest)[1..] == rest;
    hide Wanted, Printable, Keep, PrintAddress, GoodAddress;
  }

  /** Every accepted address list is the print of the addresses it is read as. */
  lemma AcceptedAddressesReprint(v: seq<byte>)
    requires AddressesOf(v).Listing?
    ensures var s := AddressesFrom(v, 4, U32At(v, 0));
            |s| <= MAX_ADDRESSES && v == Put32(|s|) + PrintAddresses(s) && AddressesOf(v) == Meaning(s)
  {
    AddressesReprint(v, 4, U32At(v, 0));
    U32Reprints(v);
    assert v == v[..4] + v[4..];
  }

  lemma U32Reprints(v: seq<byte>)
    requires 4 <= |v|
    ensures Put32(U32At(v, 0)) == v[..4]
  {
    hide U16At, Put16;
    U16Reprints(v, 0);
    U16Reprints(v, 2);
    HighAndLow(U16At(v, 0), U16At(v, 2));
    assert v[..4] == [v[0], v[1]] + [v[2], v[3]];
  }

  lemma HighAndLow(a: nat, b: nat)
    requires b < 65536
    ensures (a * 65536 + b) / 65536 == a && (a * 65536 + b) % 65536 == b
  {
  }

  // ----- where the reading breaks off

  /** Where the k-th address from an offset on begins, as the lengths say. */
  function Skip(v: seq<byte>, o: nat, k: nat): nat
    decreases k
  {
    if k == 0 then o else Skip(v, AddressEnd(v, o), k - 1)
  }

  /** Marked as IPv4, but neither 4 nor 16 octets long. */
  predicate Unshowable(a: Address) {
    a.protocol == [NLPID_IPV4] && |a.octets| != 4 && |a.octets| != 16
  }

  /** A whole address that can be shown or is passed over. */
  predicate Passes(v: seq<byte>, o: nat) {
    AddressEnd(v, o) <= |v| && !Unshowable(AddressAt(v, o))
  }

  /** The k-th address is whole and cannot be shown, and the reading gets that far. */
  ghost predicate BreaksAt(v: seq<byte>, o: nat, k: nat) {
    && AddressEnd(v, Skip(v, o, k)) <= |v| && Unshowable(AddressAt(v, Skip(v, o, k)))
    && forall j: nat :: j < k ==> Passes(v, Skip(v, o, j))
  }

  lemma BreaksLater(v: seq<byte>, o: nat, k: nat)
    requires Passes(v, o)
    ensures BreaksAt(v, o, k + 1) <==> BreaksAt(v, AddressEnd(v, o), k)
  {
    hide AddressEnd, AddressAt, Unshowable, Passes;
    var end := AddressEnd(v, o);
    assert Skip(v, o, k + 1) == Skip(v, end, k);
    if BreaksAt(v, end, k) {
      forall j: nat | j < k + 1 ensures Passes(v, Skip(v, o, j)) {
        assert j > 0 ==> Skip(v, o, j) == Skip(v, end, j - 1);
      }
    }
    if BreaksAt(v, o, k + 1) {
      forall j: nat | j < k ensures Passes(v, Skip(v, end, j)) {
        assert Skip(v, o, j + 1) == Skip(v, end, j);
      }
    }
  }

  lemma {:induction false} BreaksWithin(v: seq<byte>, o: nat, n: nat)
    ensures ListingFrom(v, o, n) == Unrendered <==> exists k: nat :: k < n && BreaksAt(v, o, k)
    decreases n
  {
    if n > 0 {
      ListingStops(v, o, n);
      if Passes(v, o) {
        var end, fewer: nat := AddressEnd(v, o), n - 1;
        ListingNext(v, o, n, end, fewer);
        BreaksWithin(v, end, fewer);
        if k: nat :| k < fewer && BreaksAt(v, end, k) {
          BreaksLater(v, o, k);
          assert BreaksAt(v, o, k + 1);
        }
        if k: nat :| k < n && BreaksAt(v, o, k) {
          assert k > 0;
          BreaksLater(v, o, k - 1);
        }
      } else {
        assert BreaksAt(v, o, 0) <==> AddressEnd(v, o) <= |v|;
        assert Skip(v, o, 0) == o;
      }
    }
  }

  /** The library error escapes, whatever stands behind in the payload, if and only if the count is there
      and at most 64, and one of that many addresses is whole, marked as IPv4 and neither 4 nor 16 octets
      long, while those before it are whole and can be shown or are passed over. */
  lemma LibraryErrorEscapesExactly(v: seq<byte>)
    ensures AddressesOf(v) == Unrendered <==>
              |v| >= 4 && U32At(v, 0) <= MAX_ADDRESSES && exists k: nat :: k < U32At(v, 0) && BreaksAt(v, 4, k)
  {
    hide ListingFrom, BreaksAt, U32At;
    if |v| >= 4 {
      BreaksWithin(v, 4, U32At(v, 0));
    }
  }

  const ODD: seq<byte> := [0, 0, 0, 1, 1, 1, NLPID_IPV4, 0, 3, 10, 0, 1, 99]

  lemma OddAddress()
    ensures AddressEnd(ODD, 4) == 12 && AddressAt(ODD, 4) == Address(1, [NLPID_IPV4], [10, 0, 1])
  {
    assert ProtocolEnd(ODD, 4) == 7 && U16At(ODD, 7) == 3;
    hide U16At, ProtocolEnd;
    assert ODD[6..7] == [NLPID_IPV4] && ODD[9..12] == [10, 0, 1];
  }

  /** It does: one address marked as IPv4 with three octets, and a stray byte behind it. */
  lemma LibraryErrorEscapes()
    ensures AddressesOf(ODD) == Unrendered
  {
    assert U32At(ODD, 0) == 1;
    OddAddress();
    hide U32At, ListingFrom, AddressEnd, AddressAt;
    ListingStops(ODD, 4, 1);
  }
}
