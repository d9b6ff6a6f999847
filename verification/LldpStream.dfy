/** The LLDP TLV stream (`_lldp_tlvs`, link_layer.py; clause 8.4 of IEEE 802.1AB): a header of seven
    type bits and nine length bits, at most 128 TLVs, an End TLV and then only zero padding. */
module LldpStream {
  import opened Bytes

  const MAX_BYTES := 4096
  const MAX_TLVS := 128

  datatype Tlv = Tlv(kind: nat, value: seq<byte>)
  const END := Tlv(0, [])

  /** What the generator yields, and whether it stopped at an End TLV. */
  datatype Stream = Refused | Tlvs(tlvs: seq<Tlv>, ended: bool)

  predicate Zeros(s: seq<byte>) {
    forall i :: 0 <= i < |s| ==> s[i] == 0
  }

  function Prepend(t: Tlv, rest: Stream): Stream {
    if rest.Refused? then Refused else Tlvs([t] + rest.tlvs, rest.ended)
  }

  function Behind(ts: seq<Tlv>, rest: Stream): Stream {
    if rest.Refused? then Refused else Tlvs(ts + rest.tlvs, rest.ended)
  }

  /** Where the value that begins behind a header at `o` ends. */
  function ValueEnd(m: seq<byte>, o: nat): nat {
    if o + 2 <= |m| then o + 2 + U16At(m, o) % 512 else 0
  }

  function TlvAt(m: seq<byte>, o: nat): Tlv {
    if o + 2 <= ValueEnd(m, o) <= |m| then Tlv(U16At(m, o) / 512, m[o + 2..ValueEnd(m, o)]) else END
  }

  function StreamFrom(m: seq<byte>, o: nat, count: nat): Stream
    decreases |m| - o
  {
    if o >= |m| then Tlvs([], false)
    else if o + 2 > |m| || ValueEnd(m, o) > |m| || count >= MAX_TLVS then Refused
    else if TlvAt(m, o).kind == 0 then
      if TlvAt(m, o).value != [] || !Zeros(m[o + 2..]) then Refused else Tlvs([END], true)
    else Prepend(TlvAt(m, o), StreamFrom(m, ValueEnd(m, o), count + 1))
  }

  function StreamOf(m: seq<byte>): Stream {
    if 2 <= |m| <= MAX_BYTES then StreamFrom(m, 0, 0) else Refused
  }

  lemma BehindStep(ts: seq<Tlv>, t: Tlv, rest: Stream)
    ensures Behind(ts, Prepend(t, rest)) == Behind(ts + [t], rest)
  {
    if rest.Tlvs? {
      assert ts + ([t] + rest.tlvs) == ts + [t] + rest.tlvs;
    }
  }

  lemma BehindNothing(rest: Stream)
    ensures Behind([], rest) == rest
  {
  }

  lemma StreamNext(m: seq<byte>, o: nat, count: nat, end: nat, more: nat)
    requires o + 2 <= |m| && end == ValueEnd(m, o) <= |m| && count < MAX_TLVS && more == count + 1
    requires TlvAt(m, o).kind != 0
    ensures StreamFrom(m, o, count) == Prepend(TlvAt(m, o), StreamFrom(m, end, more))
  {
  }

  /** `_lldp_tlvs`. */
  method ReadTlvs(payload: seq<byte>) returns (r: Stream)
    ensures r == StreamOf(payload)
  {
    if !(2 <= |payload| <= MAX_BYTES) {
      return Refused;
    }
    var tlvs: seq<Tlv> := [];
    var offset: nat, count: nat := 0, 0;
    ghost var whole := StreamFrom(payload, 0, 0);
    ghost var rest := whole;
    BehindNothing(whole);
    hide Behind, Prepend, U16At, Zeros;
    while offset < |payload|
      invariant rest == StreamFrom(payload, offset, count) && whole == Behind(tlvs, rest)
      decreases |payload| - offset
    {
      ghost var start, before := offset, count;
      if |payload| - offset < 2 {
        BehindRefused(tlvs);
        return Refused;
      }
      var header := U16At(payload, offset);
      offset := offset + 2;
      var kind, length := header / 512, header % 512;
      if length > |payload| - offset {
        BehindRefused(tlvs);
        return Refused;
      }
      count := count + 1;
      if count > MAX_TLVS {
        BehindRefused(tlvs);
        return Refused;
      }
      var value := payload[offset..offset + length];
      offset := offset + length;
      if kind == 0 {
        BehindRefused(tlvs);
        if length != 0 {
          return Refused;
        }
        if !Zeros(payload[offset..]) {
          return Refused;
        }
        BehindLast(tlvs, END, true);
        return Tlvs(tlvs + [END], true);
      }
      StreamNext(payload, start, before, offset, count);
      rest := StreamFrom(payload, offset, count);
      BehindStep(tlvs, Tlv(kind, value), rest);
      tlvs := tlvs + [Tlv(kind, value)];
    }
    BehindEnd(tlvs);
    return Tlvs(tlvs, false);
  }

  lemma BehindRefused(ts: seq<Tlv>)
    ensures Behind(ts, Refused) == Refused
  {
  }

  lemma BehindLast(ts: seq<Tlv>, t: Tlv, ended: bool)
    ensures Behind(ts, Tlvs([t], ended)) == Tlvs(ts + [t], ended)
  {
  }

  lemma BehindEnd(ts: seq<Tlv>)
    ensures Behind(ts, Tlvs([], false)) == Tlvs(ts, false)
  {
    assert ts + [] == ts;
  }

  // ----- printing

  predicate GoodTlv(t: Tlv) {
    1 <= t.kind < 128 && |t.value| < 512
  }

  predicate AllGood(ts: seq<Tlv>) {
    forall i :: 0 <= i < |ts| ==> GoodTlv(ts[i])
  }

  function PrintTlv(t: Tlv): seq<byte> {
    Put16(t.kind * 512 + |t.value|) + t.value
  }

  function PrintTlvs(ts: seq<Tlv>): seq<byte> {
    if ts == [] then [] else PrintTlv(ts[0]) + PrintTlvs(ts[1..])
  }

  function Padding(n: nat): seq<byte> {
    if n == 0 then [] else [0] + Padding(n - 1)
  }

  /** A whole frame: the TLVs, the End TLV, and zero padding. */
  function PrintFrame(ts: seq<Tlv>, padding: nat): seq<byte> {
    PrintTlvs(ts) + ([0, 0] + Padding(padding))
  }

  lemma {:induction false} PaddingIsZeros(n: nat, s: seq<byte>)
    requires |s| == n
    ensures Zeros(s) <==> s == Padding(n)
  {
    if n > 0 {
      PaddingIsZeros(n - 1, s[1..]);
      assert s == [s[0]] + s[1..];
      if Zeros(s) {
        assert Zeros(s[1..]) && s[0] == 0;
      }
      if s == Padding(n) {
        assert s[1..] == Padding(n - 1);
      }
    }
  }

  lemma TlvIsRead(m: seq<byte>, o: nat, t: Tlv, end: nat)
    requires GoodTlv(t) && Stands(m, o, PrintTlv(t)) && end == o + |PrintTlv(t)|
    ensures o + 2 <= end <= |m| && ValueEnd(m, o) == end && TlvAt(m, o) == t
  {
    var header := t.kind * 512 + |t.value|;
    StandsSplit(m, o, Put16(header), t.value, o + 2);
    hide U16At;
    Put16At(m, o, header);
    HeaderSplits(header, t.kind, |t.value|);
  }

  lemma HeaderSplits(header: nat, kind: nat, length: nat)
    requires header == kind * 512 + length && length < 512
    ensures header / 512 == kind && header % 512 == length
  {
  }

  lemma EndStands(m: seq<byte>, o: nat, padding: nat)
    requires o + 2 + padding == |m| && Stands(m, o, [0, 0] + Padding(padding))
    ensures U16At(m, o) == 0 && Zeros(m[o + 2..])
  {
    hide Zeros, Padding, U16At;
    PaddingSize(padding);
    StandsSplit(m, o, [0, 0], Padding(padding), o + 2);
    assert Put16(0) == [0, 0];
    Put16At(m, o, 0);
    PaddingIsZeros(padding, m[o + 2..]);
    assert o + 2 + |Padding(padding)| == |m|;
  }

  lemma EndIsRead(m: seq<byte>, o: nat, count: nat, padding: nat)
    requires count < MAX_TLVS && o + 2 + padding == |m|
    requires Stands(m, o, [0, 0] + Padding(padding))
    ensures StreamFrom(m, o, count) == Tlvs([END], true)
  {
    EndStands(m, o, padding);
    hide Stands, Zeros, U16At;
    assert ValueEnd(m, o) == o + 2 && m[o + 2..o + 2] == [];
  }

  lemma {:induction false} PaddingSize(n: nat)
    ensures |Padding(n)| == n
  {
    if n > 0 {
      PaddingSize(n - 1);
    }
  }

  lemma {:induction false} FrameIsRead(m: seq<byte>, o: nat, ts: seq<Tlv>, padding: nat, count: nat)
    requires AllGood(ts) && count + |ts| < MAX_TLVS
    requires Stands(m, o, PrintFrame(ts, padding)) && o + |PrintFrame(ts, padding)| == |m|
    ensures StreamFrom(m, o, count) == Tlvs(ts + [END], true)
    decreases |ts|
  {
    hide AllGood, Stands, PrintTlv, PrintFrame, GoodTlv, TlvAt, ValueEnd, StreamFrom, Zeros, U16At;
    if ts == [] {
      EmptyFrame(m, o, padding);
      EndIsRead(m, o, count, padding);
    } else {
      var t, rest := ts[0], ts[1..];
      var end := FrameLayout(m, o, ts, t, rest, padding);
      TlvIsRead(m, o, t, end);
      FrameIsRead(m, end, rest, padding, count + 1);
      GoodKind(t);
      StreamNext(m, o, count, end, count + 1);
      assert [t] + (rest + [END]) == ts + [END];
    }
  }

  lemma EmptyFrame(m: seq<byte>, o: nat, padding: nat)
    requires o + |PrintFrame([], padding)| == |m|
    ensures PrintFrame([], padding) == [0, 0] + Padding(padding) && o + 2 + padding == |m|
  {
    PaddingSize(padding);
  }

  lemma FrameLayout(m: seq<byte>, o: nat, ts: seq<Tlv>, t: Tlv, rest: seq<Tlv>, padding: nat) returns (end: nat)
    requires ts != [] && t == ts[0] && rest == ts[1..] && AllGood(ts)
    requires Stands(m, o, PrintFrame(ts, padding)) && o + |PrintFrame(ts, padding)| == |m|
    ensures end == o + |PrintTlv(t)| && Stands(m, o, PrintTlv(t)) && Stands(m, end, PrintFrame(rest, padding))
    ensures end + |PrintFrame(rest, padding)| == |m| && GoodTlv(t) && AllGood(rest)
  {
    hide Stands, PrintTlv, GoodTlv;
    end := o + |PrintTlv(t)|;
    assert PrintFrame(ts, padding) == PrintTlv(t) + PrintFrame(rest, padding);
    StandsSplit(m, o, PrintTlv(t), PrintFrame(rest, padding), end);
  }

  lemma GoodKind(t: Tlv)
    requires GoodTlv(t)
    ensures t.kind != 0
  {
  }

  /** Every printed frame is read back as its TLVs and the End TLV, whatever the padding. */
  lemma FrameRoundTrip(ts: seq<Tlv>, padding: nat)
    requires AllGood(ts) && |ts| < MAX_TLVS && |PrintFrame(ts, padding)| <= MAX_BYTES
    ensures StreamOf(PrintFrame(ts, padding)) == Tlvs(ts + [END], true)
  {
    var m := PrintFrame(ts, padding);
    assert m[0..|m|] == m;
    PaddingSize(padding);
    FrameIsRead(m, 0, ts, padding, 0);
  }

  // ----- the converse

  lemma TlvReprints(m: seq<byte>, o: nat)
    requires o + 2 <= |m| && ValueEnd(m, o) <= |m|
    ensures var t := TlvAt(m, o);
            && PrintTlv(t) == m[o..ValueEnd(m, o)] && t.kind < 128 && |t.value| < 512
            && ValueEnd(m, o) == o + 2 + |t.value|
  {
    var end := ValueEnd(m, o);
    var hi: int, lo: int := m[o], m[o + 1];
    HeaderBytes(hi, lo);
    assert m[o..end] == [m[o], m[o + 1]] + m[o + 2..end];
  }

  lemma HeaderBytes(hi: nat, lo: nat)
    requires hi < 256 && lo < 256
    ensures var n := hi * 256 + lo;
            && n / 512 < 128 && n / 512 * 512 + n % 512 == n && n / 256 == hi && n % 256 == lo && n < 65536
  {
  }

  /** What a stream read from `o` on says about the bytes from there on: `us` and an End TLV with
      padding, or, without an End TLV, its TLVs alone. */
  predicate Reprints(r: Stream, us: seq<Tlv>, padding: nat, text: seq<byte>) {
    if r.Refused? then false
    else if r.ended then r.tlvs == us + [END] && Framed(us, padding, text)
    else r.tlvs == us && AllGood(us) && PrintTlvs(us) == text
  }

  lemma {:induction false} StreamReprints(m: seq<byte>, o: nat, count: nat) returns (us: seq<Tlv>, padding: nat)
    requires o <= |m| && count <= MAX_TLVS && StreamFrom(m, o, count).Tlvs?
    ensures Reprints(StreamFrom(m, o, count), us, padding, m[o..])
    ensures count + |us| + (if StreamFrom(m, o, count).ended then 1 else 0) <= MAX_TLVS
    decreases |m| - o
  {
    us, padding := [], 0;
    if o < |m| {
      TlvReprints(m, o);
      var t, end := TlvAt(m, o), ValueEnd(m, o);
      if t.kind == 0 {
        padding := EndReprints(m, o, count);
      } else {
        StreamNext(m, o, count, end, count + 1);
        hide StreamFrom, TlvAt, ValueEnd, PrintTlv, Reprints;
        us, padding := StreamReprints(m, end, count + 1);
        ReprintsStep(t, us, padding, m, o, end, StreamFrom(m, end, count + 1));
        us := [t] + us;
      }
    }
  }

  lemma EndReprints(m: seq<byte>, o: nat, count: nat) returns (padding: nat)
    requires o < |m| && TlvAt(m, o).kind == 0 && StreamFrom(m, o, count).Tlvs?
    ensures count < MAX_TLVS && StreamFrom(m, o, count).ended
    ensures Reprints(StreamFrom(m, o, count), [], padding, m[o..])
  {
    padding := |m| - o - 2;
    TlvReprints(m, o);
    PaddingIsZeros(padding, m[o + 2..]);
    assert m[o..o + 2] == Put16(0) + [];
    assert m[o..] == m[o..o + 2] + m[o + 2..];
    assert PrintFrame([], padding) == [0, 0] + Padding(padding);
    assert [] + [END] == [END];
  }

  lemma ReprintsStep(t: Tlv, us: seq<Tlv>, padding: nat, m: seq<byte>, o: nat, end: nat, r: Stream)
    requires o <= end <= |m| && PrintTlv(t) == m[o..end] && GoodTlv(t)
    requires Reprints(r, us, padding, m[end..])
    ensures Reprints(Prepend(t, r), [t] + us, padding, m[o..])
  {
    assert m[o..end] + m[end..] == m[o..];
    hide PrintTlv;
    if r.ended {
      FramedStep(t, us, padding, m, o, end);
      assert [t] + (us + [END]) == [t] + us + [END];
    } else {
      assert ([t] + us)[1..] == us;
    }
  }

  /** A text is the printed form of some good TLVs, the End TLV and padding. */
  predicate Framed(ts: seq<Tlv>, padding: nat, text: seq<byte>) {
    AllGood(ts) && PrintFrame(ts, padding) == text
  }

  lemma FramedStep(t: Tlv, us: seq<Tlv>, padding: nat, m: seq<byte>, o: nat, end: nat)
    requires GoodTlv(t) && o <= end <= |m| && PrintTlv(t) + m[end..] == m[o..] && Framed(us, padding, m[end..])
    ensures Framed([t] + us, padding, m[o..])
  {
    assert ([t] + us)[1..] == us;
    assert PrintFrame([t] + us, padding) == PrintTlv(t) + PrintFrame(us, padding);
  }

  /** A frame is read as some TLVs and an End TLV exactly when it is those TLVs, all good and fewer
      than 128, printed with some zero padding. */
  lemma EndedFramesArePrinted(m: seq<byte>, ts: seq<Tlv>)
    ensures StreamOf(m) == Tlvs(ts + [END], true)
       <==> 2 <= |m| <= MAX_BYTES && |ts| < MAX_TLVS && exists padding: nat :: Framed(ts, padding, m)
  {
    if 2 <= |m| <= MAX_BYTES && |ts| < MAX_TLVS && exists padding: nat :: Framed(ts, padding, m) {
      var padding: nat :| Framed(ts, padding, m);
      FrameRoundTrip(ts, padding);
    }
    if StreamOf(m) == Tlvs(ts + [END], true) {
      assert m[0..] == m;
      var us, padding := StreamReprints(m, 0, 0);
      assert ts == (ts + [END])[..|ts|] && us == (us + [END])[..|us|];
      assert Framed(ts, padding, m);
    }
  }

  /** A frame whose bytes run out before an End TLV is its TLVs and nothing else. */
  lemma UnendedFramesReprint(m: seq<byte>)
    requires StreamOf(m).Tlvs? && !StreamOf(m).ended
    ensures AllGood(StreamOf(m).tlvs) && PrintTlvs(StreamOf(m).tlvs) == m
  {
    assert m[0..] == m;
    var us, padding := StreamReprints(m, 0, 0);
  }
}
