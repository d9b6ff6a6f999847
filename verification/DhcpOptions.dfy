/** DHCP options (`_options`, dhcp.py; section 2 of RFC 2132): pads, length-prefixed options with
    distinct codes, and an end marker behind which nothing is read. */
module DhcpOptions {
  import opened Options
  import opened Bytes
  import opened OrderedDict

  const PAD: byte := 0
  const END: byte := 255

  type Settings = Dict<byte, seq<byte>>

  function ValueEnd(m: seq<byte>, o: nat): nat {
    if o + 2 <= |m| then o + 2 + m[o + 1] else |m| + 1
  }

  function ValueAt(m: seq<byte>, o: nat): seq<byte> {
    if o + 2 <= ValueEnd(m, o) <= |m| then m[o + 2..ValueEnd(m, o)] else []
  }

  /** The options read so far, and the rest of them from `o` on. */
  function ReadFrom(m: seq<byte>, o: nat, found: Settings): Option<Settings>
    decreases |m| - o
  {
    if o >= |m| then None
    else if m[o] == PAD then ReadFrom(m, o + 1, found)
    else if m[o] == END then Some(found)
    else if ValueEnd(m, o) > |m| || Get(found, m[o]).Some? then None
    else ReadFrom(m, ValueEnd(m, o), found + [Item(m[o], ValueAt(m, o))])
  }

  lemma ReadNext(m: seq<byte>, o: nat, found: Settings, end: nat)
    requires o < |m| && m[o] != PAD && m[o] != END && end == ValueEnd(m, o) <= |m| && Get(found, m[o]).None?
    ensures ReadFrom(m, o, found) == ReadFrom(m, end, found + [Item(m[o], ValueAt(m, o))])
  {
  }

  lemma ReadPad(m: seq<byte>, o: nat, found: Settings, next: nat)
    requires o < |m| && m[o] == PAD && next == o + 1
    ensures ReadFrom(m, o, found) == ReadFrom(m, next, found)
  {
  }

  /** `_options`, from where the fixed header ends. */
  method ReadOptions(payload: seq<byte>, start: nat) returns (r: Option<Settings>)
    ensures r == ReadFrom(payload, start, [])
  {
    var result: Settings := [];
    var offset: nat := start;
    ghost var whole := ReadFrom(payload, start, []);
    while offset < |payload|
      invariant whole == ReadFrom(payload, offset, result)
      decreases |payload| - offset
    {
      ghost var at := offset;
      var code := payload[offset];
      offset := offset + 1;
      if code == PAD {
        ReadPad(payload, at, result, offset);
        continue;
      }
      if code == END {
        return Some(result);
      }
      if offset >= |payload| {
        return None;
      }
      var length: int := payload[offset];
      offset := offset + 1;
      var end: nat := offset + length;
      if end > |payload| {
        return None;
      }
      if Get(result, code).Some? {
        return None;
      }
      ReadNext(payload, at, result, end);
      result := result + [Item(code, payload[offset..end])];
      offset := end;
    }
    return None;
  }

  // ----- printing

  datatype Piece = Pad | Opt(code: byte, value: seq<byte>)

  predicate GoodPiece(p: Piece) {
    p.Opt? ==> p.code != PAD && p.code != END && |p.value| < 256
  }

  predicate AllGood(ps: seq<Piece>) {
    forall i :: 0 <= i < |ps| ==> GoodPiece(ps[i])
  }

  function PrintPiece(p: Piece): seq<byte> {
    if p.Pad? then [PAD] else [p.code, Put8(|p.value|)] + p.value
  }

  function PrintPieces(ps: seq<Piece>): seq<byte> {
    if ps == [] then [] else PrintPiece(ps[0]) + PrintPieces(ps[1..])
  }

  function SettingOf(p: Piece): Settings {
    if p.Pad? then [] else [Item(p.code, p.value)]
  }

  /** The options among the pieces, in order. */
  function SettingsOf(ps: seq<Piece>): Settings {
    if ps == [] then [] else SettingOf(ps[0]) + SettingsOf(ps[1..])
  }

  lemma OptionIsRead(m: seq<byte>, o: nat, p: Piece, end: nat)
    requires GoodPiece(p) && p.Opt? && Stands(m, o, PrintPiece(p)) && end == o + |PrintPiece(p)|
    ensures o < end == ValueEnd(m, o) <= |m| && m[o] == p.code && ValueAt(m, o) == p.value
  {
    StandsSplit(m, o, [p.code, Put8(|p.value|)], p.value, o + 2);
    assert m[o] == m[o..o + 2][0] && m[o + 1] == m[o..o + 2][1];
  }

  lemma UniqueSplit(a: Settings, x: Item<byte, seq<byte>>, b: Settings)
    requires Unique(a + [x] + b)
    ensures Get(a, x.key).None?
  {
    var all := a + [x] + b;
    forall i | 0 <= i < |a| ensures a[i].key != x.key {
      assert all[i] == a[i] && all[|a|] == x;
    }
    GetFinds(a, x.key);
  }

  lemma SettingsJoin(found: Settings, ps: seq<Piece>)
    requires ps != []
    ensures found + SettingsOf(ps) == found + SettingOf(ps[0]) + SettingsOf(ps[1..])
  {
    assert found + (SettingOf(ps[0]) + SettingsOf(ps[1..])) == found + SettingOf(ps[0]) + SettingsOf(ps[1..]);
  }

  lemma {:induction false} PiecesAreRead(m: seq<byte>, o: nat, ps: seq<Piece>, found: Settings, end: nat)
    requires AllGood(ps) && Unique(found + SettingsOf(ps))
    requires Stands(m, o, PrintPieces(ps)) && end == o + |PrintPieces(ps)| && end < |m| && m[end] == END
    ensures ReadFrom(m, o, found) == Some(found + SettingsOf(ps))
    decreases |ps|
  {
    if ps == [] {
      assert found + [] == found;
    } else {
      var p, next := ps[0], o + |PrintPiece(ps[0])|;
      StandsSplit(m, o, PrintPiece(p), PrintPieces(ps[1..]), next);
      SettingsJoin(found, ps);
      if p.Pad? {
        assert m[o] == m[o..o + 1][0];
        assert found + [] == found;
        PiecesAreRead(m, next, ps[1..], found, end);
        ReadPad(m, o, found, next);
      } else {
        hide Stands, PrintPieces, Unique, ValueEnd, ValueAt, ReadFrom;
        OptionIsRead(m, o, p, next);
        UniqueSplit(found, Item(p.code, p.value), SettingsOf(ps[1..]));
        PiecesAreRead(m, next, ps[1..], found + [Item(p.code, p.value)], end);
        ReadNext(m, o, found, next);
      }
    }
  }

  /** Options with distinct codes are read back in order, whatever pads stand between them and
      whatever follows the end marker. */
  lemma OptionsRoundTrip(header: seq<byte>, ps: seq<Piece>, trailing: seq<byte>)
    requires AllGood(ps) && Unique(SettingsOf(ps))
    ensures ReadFrom(header + PrintPieces(ps) + ([END] + trailing), |header|, []) == Some(SettingsOf(ps))
  {
    var m := header + PrintPieces(ps) + ([END] + trailing);
    StandsBetween(header, PrintPieces(ps), [END] + trailing);
    assert [] + SettingsOf(ps) == SettingsOf(ps);
    PiecesAreRead(m, |header|, ps, [], |header| + |PrintPieces(ps)|);
  }

  // ----- the converse

  /** What stands from `o` on up to the end marker: pieces that print back to it. */
  /** What stands where options are read. */
  lemma ReadShape(m: seq<byte>, o: nat, found: Settings)
    requires ReadFrom(m, o, found).Some?
    ensures o < |m| && (m[o] == END ==> ReadFrom(m, o, found) == Some(found))
    ensures m[o] != END && m[o] != PAD ==>
              o + 2 <= ValueEnd(m, o) <= |m| && Get(found, m[o]).None? && GoodPiece(Opt(m[o], ValueAt(m, o)))
    ensures m[o] != END && m[o] != PAD ==>
              PrintPiece(Opt(m[o], ValueAt(m, o))) == m[o..ValueEnd(m, o)]
  {
    hide Get;
    if m[o] != END && m[o] != PAD {
      assert m[o..ValueEnd(m, o)] == [m[o], m[o + 1]] + m[o + 2..ValueEnd(m, o)];
    }
  }

  lemma {:induction false} ReadReprints(m: seq<byte>, o: nat, found: Settings) returns (ps: seq<Piece>, end: nat)
    requires o <= |m| && Unique(found) && ReadFrom(m, o, found).Some?
    ensures AllGood(ps) && o <= end < |m| && m[end] == END && PrintPieces(ps) == m[o..end]
    ensures ReadFrom(m, o, found) == Some(found + SettingsOf(ps)) && Unique(found + SettingsOf(ps))
    decreases |m| - o
  {
    ReadShape(m, o, found);
    NoPieces();
    hide ReadFrom, PrintPieces, SettingsOf, Unique, AllGood, Get, ValueEnd, ValueAt;
    if m[o] == END {
      ps, end := [], o;
      assert found + [] == found;
    } else if m[o] == PAD {
      var next := o + 1;
      ReadPad(m, o, found, next);
      ps, end := ReadReprints(m, next, found);
      PieceInFront(m, o, Pad, ps, next, end, found);
      assert found + [] == found;
      ps := [Pad] + ps;
    } else {
      var next, p := ValueEnd(m, o), Opt(m[o], ValueAt(m, o));
      AppendUnique(found, p.code, p.value);
      ReadNext(m, o, found, next);
      ps, end := ReadReprints(m, next, found + [Item(p.code, p.value)]);
      PieceInFront(m, o, p, ps, next, end, found);
      ps := [p] + ps;
    }
  }

  lemma NoPieces()
    ensures AllGood([]) && PrintPieces([]) == [] && SettingsOf([]) == []
  {
  }

  lemma AppendUnique(d: Settings, k: byte, v: seq<byte>)
    requires Unique(d) && Get(d, k).None?
    ensures Unique(d + [Item(k, v)])
  {
    GetFinds(d, k);
  }

  lemma PieceInFront(m: seq<byte>, o: nat, p: Piece, ps: seq<Piece>, next: nat, end: nat, found: Settings)
    requires o <= next <= end <= |m| && PrintPiece(p) == m[o..next] && PrintPieces(ps) == m[next..end]
    ensures PrintPieces([p] + ps) == m[o..end]
    ensures found + SettingsOf([p] + ps) == found + SettingOf(p) + SettingsOf(ps)
    ensures GoodPiece(p) && AllGood(ps) ==> AllGood([p] + ps)
  {
    assert ([p] + ps)[1..] == ps;
    assert m[o..next] + m[next..end] == m[o..end];
    SettingsJoin(found, [p] + ps);
  }

  /** A text as far as the end marker is the print of some good pieces with the given options. */
  ghost predicate Prints(ps: seq<Piece>, m: seq<byte>, start: nat, end: nat, d: Settings) {
    && start <= end < |m| && m[end] == END && m[start..end] == PrintPieces(ps)
    && AllGood(ps) && Unique(SettingsOf(ps)) && SettingsOf(ps) == d
  }

  lemma EmptyIsUnique()
    ensures Unique<byte, seq<byte>>([])
  {
  }

  /** Options are accepted exactly when what stands before the first end marker is the print of
      pieces with distinct codes; and they are then those options, in order. */
  lemma AcceptedIsPrinted(m: seq<byte>, start: nat, d: Settings)
    requires start <= |m|
    ensures ReadFrom(m, start, []) == Some(d) <==> exists ps: seq<Piece>, end: nat :: Prints(ps, m, start, end, d)
  {
    if ReadFrom(m, start, []) == Some(d) {
      AcceptedPrints(m, start, d);
    }
    if exists ps: seq<Piece>, end: nat :: Prints(ps, m, start, end, d) {
      var ps: seq<Piece>, end: nat :| Prints(ps, m, start, end, d);
      PrintsAreAccepted(ps, m, start, end, d);
    }
    hide ReadFrom, Prints;
  }

  lemma AcceptedPrints(m: seq<byte>, start: nat, d: Settings)
    requires start <= |m| && ReadFrom(m, start, []) == Some(d)
    ensures exists ps: seq<Piece>, end: nat :: Prints(ps, m, start, end, d)
  {
    hide ReadFrom, PrintPieces, SettingsOf, Unique, AllGood;
    EmptyIsUnique();
    var ps, end := ReadReprints(m, start, []);
    assert [] + SettingsOf(ps) == SettingsOf(ps);
    assert Prints(ps, m, start, end, d);
  }

  lemma PrintsAreAccepted(ps: seq<Piece>, m: seq<byte>, start: nat, end: nat, d: Settings)
    requires Prints(ps, m, start, end, d)
    ensures ReadFrom(m, start, []) == Some(d)
  {
    hide ReadFrom, PrintPieces, SettingsOf, Unique, AllGood;
    assert [] + SettingsOf(ps) == SettingsOf(ps);
    PiecesAreRead(m, start, ps, [], end);
  }

  lemma {:induction false} SettingsInOrder(ps: seq<Piece>, i: nat)
    requires i < |ps| && ps[i].Opt?
    ensures exists j :: 0 <= j < |SettingsOf(ps)| && SettingsOf(ps)[j] == Item(ps[i].code, ps[i].value)
  {
    if i == 0 {
      assert SettingsOf(ps)[0] == Item(ps[0].code, ps[0].value);
    } else {
      SettingsInOrder(ps[1..], i - 1);
      var j :| 0 <= j < |SettingsOf(ps[1..])| && SettingsOf(ps[1..])[j] == Item(ps[i].code, ps[i].value);
      assert SettingsOf(ps)[|SettingOf(ps[0])| + j] == SettingsOf(ps[1..])[j];
    }
  }

  /** Each option is found under its own code, in whatever order the options were printed. */
  lemma EveryOptionIsFound(header: seq<byte>, ps: seq<Piece>, trailing: seq<byte>, i: nat)
    requires AllGood(ps) && Unique(SettingsOf(ps)) && i < |ps| && ps[i].Opt?
    ensures var r := ReadFrom(header + PrintPieces(ps) + ([END] + trailing), |header|, []);
            r.Some? && Get(r.value, ps[i].code) == Some(ps[i].value)
  {
    OptionsRoundTrip(header, ps, trailing);
    SettingsInOrder(ps, i);
    var d := SettingsOf(ps);
    var j :| 0 <= j < |d| && d[j] == Item(ps[i].code, ps[i].value);
    GetAt(d, j);
  }
}
