/** The rewriting loop of `_redact_authorization_sequences` (redaction.py): the pattern is that of
    AuthorizationPattern; the end of a bracket sequence is found by SequenceMatcher, or, when there is
    none, is the end of the logical line. */
module AuthorizationRedaction {
  import opened Options
  import opened SequenceMatcher
  import opened AuthorizationPattern

  const REDACTED := "[REDACTED]"

  // ----- the boundary of a malformed sequence

  datatype Newline = Newline(start: nat, end: nat)

  predicate Blank(c: char) { c == ' ' || c == '\t' }

  /** The first match of `\r?\n` at or after `from`. */
  function FirstNewline(v: string, from: nat): Option<Newline>
    decreases |v| - from
  {
    if from >= |v| then None
    else if v[from] == '\n' then Some(Newline(from, from + 1))
    else if v[from] == '\r' && from + 1 < |v| && v[from + 1] == '\n' then Some(Newline(from, from + 2))
    else FirstNewline(v, from + 1)
  }

  lemma {:induction false} FirstNewlineIsFirst(v: string, from: nat)
    ensures var n := FirstNewline(v, from);
            n.Some? ==> from <= n.value.start < n.value.end <= |v| && v[n.value.end - 1] == '\n'
    ensures var n := FirstNewline(v, from);
            n.Some? ==> forall i :: from <= i < n.value.end - 1 ==> v[i] != '\n'
    ensures FirstNewline(v, from).None? ==> forall i :: from <= i < |v| ==> v[i] != '\n'
    decreases |v| - from
  {
    if from < |v| && v[from] != '\n' && !(v[from] == '\r' && from + 1 < |v| && v[from + 1] == '\n') {
      FirstNewlineIsFirst(v, from + 1);
    }
  }

  /** The end of the logical line: lines that begin with a blank continue the one before. */
  function Boundary(v: string, start: nat): nat
    decreases |v| - start
  {
    FirstNewlineIsFirst(v, start);
    var n := FirstNewline(v, start);
    if n.None? then |v|
    else if n.value.end < |v| && Blank(v[n.value.end]) then Boundary(v, n.value.end)
    else n.value.start
  }

  /** `_malformed_sequence_boundary`. */
  method MalformedBoundary(value: string, start: nat) returns (boundary: nat)
    requires start <= |value|
    ensures boundary == Boundary(value, start)
  {
    var newline := FirstNewline(value, start);
    if newline.None? {
      return |value|;
    }
    FirstNewlineIsFirst(value, start);
    boundary := newline.value.start;
    var nextLine := newline.value.end;
    while nextLine < |value| && Blank(value[nextLine])
      invariant nextLine <= |value|
      invariant Boundary(value, start)
             == if nextLine < |value| && Blank(value[nextLine]) then Boundary(value, nextLine) else boundary
    {
      var following := FirstNewline(value, nextLine);
      FirstNewlineIsFirst(value, nextLine);
      if following.None? {
        return |value|;
      }
      boundary := following.value.start;
      nextLine := following.value.end;
    }
  }

  /** A line break, whole with the carriage return before it, that no blank follows. */
  predicate EndsLine(v: string, at: nat) {
    && at < |v| && (v[at] == '\n' || (v[at] == '\r' && at + 1 < |v| && v[at + 1] == '\n'))
    && var next := if v[at] == '\n' then at + 1 else at + 2; next >= |v| || (v[next] != ' ' && v[next] != '\t')
  }

  /** A line feed that a blank follows. */
  predicate GoesOn(v: string, at: nat) {
    at + 1 < |v| && (v[at + 1] == ' ' || v[at + 1] == '\t')
  }

  /** Every line break before the boundary is followed by a blank, and the boundary is the end of
      the text or the beginning of a line break that is not. */
  lemma {:induction false} BoundaryEndsLogicalLine(v: string, start: nat)
    requires start <= |v|
    ensures start <= Boundary(v, start) <= |v|
    ensures forall i :: start <= i < Boundary(v, start) && v[i] == '\n' ==> GoesOn(v, i)
    ensures Boundary(v, start) < |v| ==> EndsLine(v, Boundary(v, start))
    ensures start < Boundary(v, start) < |v| && v[Boundary(v, start)] == '\n' ==> v[Boundary(v, start) - 1] != '\r'
    decreases |v| - start
  {
    FirstNewlineIsFirst(v, start);
    if FirstNewline(v, start).Some? {
      NewlineIsWhole(v, start);
    }
    var n := FirstNewline(v, start);
    if n.Some? && n.value.end < |v| && Blank(v[n.value.end]) {
      BoundaryEndsLogicalLine(v, n.value.end);
    }
  }

  /** A line break found begins with its carriage return, if it has one. */
  lemma {:induction false} NewlineIsWhole(v: string, from: nat)
    requires FirstNewline(v, from).Some?
    ensures var n := FirstNewline(v, from).value;
            && from <= n.start < n.end <= |v| && v[n.end - 1] == '\n'
            && n.end == n.start + (if v[n.start] == '\n' then 1 else 2)
            && (v[n.start] == '\n' || v[n.start] == '\r')
            && (from < n.start && v[n.start] == '\n' ==> v[n.start - 1] != '\r')
    decreases |v| - from
  {
    if v[from] != '\n' && !(v[from] == '\r' && from + 1 < |v| && v[from + 1] == '\n') {
      NewlineIsWhole(v, from + 1);
    }
  }

  // ----- the rewriting

  /** A stretch between matches, a match copied as it is, or an authorization entry whose value, from the
      opening bracket to `end`, is replaced. */
  datatype Segment = Between(from: nat, to: nat) | Kept(m: Match) | Replaced(m: Match, end: nat)

  function SequenceExtent(value: string, open: nat): nat
    requires open < |value| && IsOpen(value[open])
  {
    var end := Matched(value, open);
    if end.Some? then end.value else Boundary(value, open)
  }

  lemma ExtentAdvances(value: string, open: nat)
    requires open < |value| && IsOpen(value[open])
    ensures open < SequenceExtent(value, open) <= |value|
  {
    if Matched(value, open).Some? {
      MatchedIsWord(value, open, Matched(value, open).value);
    } else {
      BoundaryEndsLogicalLine(value, open);
      FirstNewlineIsFirst(value, open + 1);
    }
  }

  /** Where the loop goes on after a match, and what it makes of the match. */
  function NextCursor(value: string, m: Match): nat
    requires m.open < |value| && IsOpen(value[m.open])
  {
    if m.authorization then SequenceExtent(value, m.open) else m.open + 1
  }

  function Treated(value: string, m: Match): Segment
    requires m.open < |value| && IsOpen(value[m.open])
  {
    if m.authorization then Replaced(m, SequenceExtent(value, m.open)) else Kept(m)
  }

  /** The first match from a cursor on; it lies in the text behind the cursor. */
  function Found(value: string, test: KeyTest, cursor: nat): (m: Option<Match>)
    ensures m.Some? ==> InText(value, m.value) && cursor <= m.value.start
    ensures m.Some? ==> m.value.open < NextCursor(value, m.value) <= |value|
  {
    SearchIsLeftmost(value, test, cursor);
    var m := Search(value, test, cursor);
    if m.Some? then
      ExtentAdvances(value, m.value.open);
      m
    else None
  }

  /** What becomes of the text from a cursor on. */
  ghost function Segments(value: string, test: KeyTest, cursor: nat): seq<Segment>
    requires cursor <= |value|
    decreases |value| - cursor
  {
    var found := Found(value, test, cursor);
    if found.None? then [Between(cursor, |value|)] else
      [Between(cursor, found.value.start), Treated(value, found.value)]
      + Segments(value, test, NextCursor(value, found.value))
  }

  ghost predicate IsInside(value: string, s: Segment) {
    match s
    case Between(from, to) => from <= to <= |value|
    case Kept(m) => InText(value, m)
    case Replaced(m, end) => InText(value, m) && m.open < end <= |value|
  }

  function QuoteFor(key: string): string { if '"' in key then "\"" else "'" }

  function Mark(value: string, m: Match): string
    requires m.start < m.keyEnd < |value|
  {
    var q := QuoteFor(value[m.start..m.keyEnd]);
    q + REDACTED + q
  }

  /** What a segment contributes to the output. */
  ghost function Render(value: string, s: Segment): string {
    if !IsInside(value, s) then "" else
      match s
      case Between(from, to) => value[from..to]
      case Kept(m) => value[m.start..m.open + 1]
      case Replaced(m, _) => value[m.start..m.open] + Mark(value, m)
  }

  ghost function RenderAll(value: string, segments: seq<Segment>): string {
    if segments == [] then "" else Render(value, segments[0]) + RenderAll(value, segments[1..])
  }

  /** What the loop makes of the text from a cursor on. */
  ghost function Rewritten(value: string, test: KeyTest, cursor: nat): string
    requires cursor <= |value|
  {
    RenderAll(value, Segments(value, test, cursor))
  }

  /** The treatment of one match: what is appended for it and where the cursor goes. */
  method RewriteMatch(value: string, m: Match) returns (text: string, cursor: nat)
    requires InText(value, m)
    ensures text == Render(value, Treated(value, m)) && cursor == NextCursor(value, m)
    ensures m.open < cursor <= |value|
  {
    ExtentAdvances(value, m.open);
    if !m.authorization {
      return value[m.start..m.open + 1], m.open + 1;
    }
    cursor := FindExtent(value, m.open);
    var quote := QuoteFor(value[m.start..m.keyEnd]);
    text := value[m.start..m.keyEnd] + value[m.keyEnd..m.open] + quote + REDACTED + quote;
    assert value[m.start..m.keyEnd] + value[m.keyEnd..m.open] == value[m.start..m.open];
  }

  /** `_redact_authorization_sequences`. */
  method Redact(value: string, test: KeyTest) returns (output: string)
    ensures output == Rewritten(value, test, 0)
  {
    output := "";
    var cursor := 0;
    var found := Found(value, test, cursor);
    while found.Some?
      invariant cursor <= |value| && found == Found(value, test, cursor)
      invariant Rewritten(value, test, 0) == output + Rewritten(value, test, cursor)
      decreases |value| - cursor
    {
      var m := found.value;
      RenderTwo(value, test, cursor);
      hide Rewritten, Treated, NextCursor;
      var text, next := RewriteMatch(value, m);
      output := Appended(output, value[cursor..m.start], text, Rewritten(value, test, next));
      cursor := next;
      found := Found(value, test, cursor);
    }
    RenderRest(value, test, cursor);
    output := output + value[cursor..];
  }

  /** Two appended pieces. */
  function Appended(output: string, a: string, b: string, ghost rest: string): (r: string)
    ensures r + rest == output + (a + b + rest)
  {
    output + a + b
  }

  method FindExtent(value: string, open: nat) returns (end: nat)
    requires open < |value| && IsOpen(value[open])
    ensures end == SequenceExtent(value, open)
  {
    var matched := SequenceEnd(value, open);
    if matched.None? {
      end := MalformedBoundary(value, open);
    } else {
      end := matched.value;
    }
  }

  lemma RenderRest(value: string, test: KeyTest, cursor: nat)
    requires cursor <= |value| && Found(value, test, cursor).None?
    ensures Rewritten(value, test, cursor) == value[cursor..]
  {
    var last := Between(cursor, |value|);
    assert [last][1..] == [];
    assert RenderAll(value, [last]) == value[cursor..] + "";
  }

  /** What is in front of a sequence. */
  lemma TwoAhead<T>(first: T, second: T, rest: seq<T>)
    ensures var all := [first, second] + rest;
            |all| >= 2 && all[0] == first && all[1..][0] == second && all[1..][1..] == rest
  {
    assert ([first, second] + rest)[1..] == [second] + rest;
  }

  lemma RenderFirst(value: string, segments: seq<Segment>)
    requires segments != []
    ensures RenderAll(value, segments) == Render(value, segments[0]) + RenderAll(value, segments[1..])
  {
    hide Render;
  }

  lemma RenderFirstTwo(value: string, first: Segment, second: Segment, rest: seq<Segment>)
    ensures RenderAll(value, [first, second] + rest)
         == Render(value, first) + Render(value, second) + RenderAll(value, rest)
  {
    hide RenderAll, Render;
    var all := [first, second] + rest;
    TwoAhead(first, second, rest);
    RenderFirst(value, all);
    RenderFirst(value, all[1..]);
    Associate(Render(value, first), Render(value, second), RenderAll(value, rest));
  }

  lemma Associate<T>(a: seq<T>, b: seq<T>, c: seq<T>)
    ensures a + (b + c) == a + b + c
  {
  }

  /** One turn of the loop emits two segments. */
  lemma RenderTwo(value: string, test: KeyTest, cursor: nat)
    requires cursor <= |value| && Found(value, test, cursor).Some?
    ensures var m := Found(value, test, cursor).value;
            Rewritten(value, test, cursor)
            == value[cursor..m.start] + Render(value, Treated(value, m)) + Rewritten(value, test, NextCursor(value, m))
  {
    hide Treated, NextCursor, RenderAll;
    var m := Found(value, test, cursor).value;
    RenderFirstTwo(value, Between(cursor, m.start), Treated(value, m), Segments(value, test, NextCursor(value, m)));
    assert Render(value, Between(cursor, m.start)) == value[cursor..m.start];
    hide Render;
  }

  // ----- which entries are replaced

  /** How far the treatment of the match at a position reaches. */
  function ReachAt(value: string, test: KeyTest, p: nat): nat {
    MatchIsInText(value, test, p);
    var m := MatchAt(value, test, p);
    if m.Some? then NextCursor(value, m.value) else p
  }

  /** A match that no earlier visited match reaches past the beginning of. */
  ghost predicate Visited(value: string, test: KeyTest, p: nat)
    decreases p
  {
    MatchAt(value, test, p).Some? && forall q: nat | q < p :: Visited(value, test, q) ==> ReachAt(value, test, q) <= p
  }

  /** The segment the match at a position would become. */
  function SegmentAt(value: string, test: KeyTest, p: nat): Segment
    requires MatchAt(value, test, p).Some?
  {
    MatchIsInText(value, test, p);
    Treated(value, MatchAt(value, test, p).value)
  }

  ghost function Start(s: Segment): nat { match s case Between(from, _) => from case _ => s.m.start }

  ghost function End(s: Segment): nat {
    match s case Between(_, to) => to case Kept(m) => m.open + 1 case Replaced(_, end) => end
  }

  /** The segments cover the text from one position to another, in order, without gap or overlap. */
  ghost predicate Tiles(segments: seq<Segment>, from: nat, to: nat) {
    && segments != [] && Start(segments[0]) == from && End(segments[|segments| - 1]) == to
    && forall i :: 0 <= i < |segments| - 1 ==> End(segments[i]) == Start(segments[i + 1])
  }

  /** A replaced segment runs from an authorization key to exactly the end of its bracket sequence. */
  ghost predicate RightlyReplaced(value: string, s: Segment) {
    s.Replaced? ==>
      s.m.authorization && s.m.open < |value| && IsOpen(value[s.m.open]) && s.end == SequenceExtent(value, s.m.open)
  }

  /** The rewriting always advances; its segments tile the text in order. */
  lemma {:induction false} SegmentsTile(value: string, test: KeyTest, cursor: nat)
    requires cursor <= |value|
    ensures Tiles(Segments(value, test, cursor), cursor, |value|)
    ensures forall s :: s in Segments(value, test, cursor) ==> IsInside(value, s) && RightlyReplaced(value, s)
    decreases |value| - cursor
  {
    var found := Found(value, test, cursor);
    if found.Some? {
      SegmentsTile(value, test, NextCursor(value, found.value));
      hide SequenceExtent;
    }
  }

  /** Where the value of an entry ends: behind the balanced bracket word that begins it, if there is one of
      nesting at most sixteen and at most 65536 characters, and else at the end of the logical line. */
  ghost predicate EndsValue(value: string, open: nat, end: nat) {
    && open < end <= |value|
    && ((end <= open + 65536 && IsWordHere(value[open..end]))
        || ((forall e :: open < e <= |value| && e <= open + 65536 ==> !IsWordHere(value[open..e]))
            && EndsLogicalLine(value, open, end)))
  }

  /** The first line break that no blank follows, or the end of the text if there is none. */
  ghost predicate EndsLogicalLine(value: string, from: nat, end: nat) {
    && (forall i :: from <= i < end <= |value| && value[i] == '\n' ==> GoesOn(value, i))
    && (end == |value|
        || (end < |value| && EndsLine(value, end) && (value[end] == '\n' && from < end ==> value[end - 1] != '\r')))
  }

  lemma OneLineEnd(value: string, from: nat, d: nat, e: nat)
    requires from <= d < e <= |value| && EndsLogicalLine(value, from, e)
    ensures !EndsLogicalLine(value, from, d)
  {
    assert d + 1 < e && value[d + 1] == '\n' ==> GoesOn(value, d + 1);
  }

  lemma BoundaryIsLineEnd(value: string, from: nat, end: nat)
    requires from <= |value| && from <= end <= |value|
    ensures Boundary(value, from) == end <==> EndsLogicalLine(value, from, end)
  {
    BoundaryEndsLogicalLine(value, from);
    var b := Boundary(value, from);
    if EndsLogicalLine(value, from, end) && b != end {
      OneLineEnd(value, from, if b < end then b else end, if b < end then end else b);
    }
  }

  /** The treatment of an authorization entry reaches exactly to where its value ends. */
  lemma ExtentIsExact(value: string, open: nat, end: nat)
    requires open < |value| && IsOpen(value[open])
    ensures SequenceExtent(value, open) == end <==> EndsValue(value, open, end)
  {
    ExtentAdvances(value, open);
    hide Boundary, IsWordHere, EndsLogicalLine, Matched;
    var extent := SequenceExtent(value, open);
    forall e | open < e <= |value| ensures Matched(value, open) == Some(e) <==> e <= open + 65536 && IsWordHere(value[open..e]) {
      MatchedIsWord(value, open, e);
    }
    if Matched(value, open).Some? {
      MatchedIsWord(value, open, extent);
    }
    if open < end <= |value| {
      BoundaryIsLineEnd(value, open, end);
    }
  }

  /** What stands for a replaced entry: its key and separator, and the mark in double quotes if the key has a
      double quote in it, in single quotes if it has none. */
  lemma ReplacedReads(value: string, m: Match, end: nat)
    requires InText(value, m) && m.open < end <= |value|
    ensures Render(value, Replaced(m, end)) == value[m.start..m.open]
            + if '"' in value[m.start..m.keyEnd] then "\"[REDACTED]\"" else "'[REDACTED]'"
  {
    assert "\"" + REDACTED + "\"" == "\"[REDACTED]\"" && "'" + REDACTED + "'" == "'[REDACTED]'";
  }

  lemma {:induction false} SegmentsStartBehind(value: string, test: KeyTest, cursor: nat, s: Segment)
    requires cursor <= |value| && s in Segments(value, test, cursor)
    ensures cursor <= Start(s) && IsInside(value, s)
    decreases |value| - cursor
  {
    var found := Found(value, test, cursor);
    if found.Some? {
      var m := found.value;
      if s !in [Between(cursor, m.start), Treated(value, m)] {
        SegmentsStartBehind(value, test, NextCursor(value, m), s);
      }
    }
  }

  /** The beginning of nothing a visited match before the cursor reaches past. */
  ghost predicate Clean(value: string, test: KeyTest, cursor: nat) {
    forall q: nat | q < cursor :: Visited(value, test, q) ==> ReachAt(value, test, q) <= cursor
  }

  /** The next match is visited, none before it is, and what follows its treatment is clean again. */
  lemma NextIsVisited(value: string, test: KeyTest, cursor: nat)
    requires cursor <= |value| && Clean(value, test, cursor) && Found(value, test, cursor).Some?
    ensures var m := Found(value, test, cursor).value;
            && MatchAt(value, test, m.start) == Some(m) && Visited(value, test, m.start)
            && ReachAt(value, test, m.start) == NextCursor(value, m)
            && Clean(value, test, NextCursor(value, m))
            && forall q: nat :: cursor <= q < NextCursor(value, m) && Visited(value, test, q) ==> q == m.start
  {
    SearchIsLeftmost(value, test, cursor);
    var m := Found(value, test, cursor).value;
    assert Visited(value, test, m.start);
    forall q: nat | cursor <= q < NextCursor(value, m) && Visited(value, test, q) ensures q == m.start {
      assert q > m.start ==> ReachAt(value, test, m.start) <= q;
    }
  }

  lemma {:induction false} VisitedFrom(value: string, test: KeyTest, cursor: nat, p: nat)
    requires cursor <= |value| && Clean(value, test, cursor)
    requires cursor <= p && MatchAt(value, test, p).Some?
    ensures SegmentAt(value, test, p) in Segments(value, test, cursor) <==> Visited(value, test, p)
    decreases |value| - cursor
  {
    MatchIsInText(value, test, p);
    SearchIsLeftmost(value, test, cursor);
    var m := Found(value, test, cursor).value;
    var next, s := NextCursor(value, m), SegmentAt(value, test, p);
    NextIsVisited(value, test, cursor);
    if p >= next {
      VisitedFrom(value, test, next, p);
    } else if s in Segments(value, test, next) {
      SegmentsStartBehind(value, test, next, s);
    }
  }

  /** An authorization entry is replaced, up to the end of its bracket sequence, if and only if no earlier
      match that is treated itself reaches past its beginning: a replaced entry up to the end of its
      value, a match of another key up to its bracket. */
  lemma EntryIsReplacedExactly(value: string, test: KeyTest, p: nat)
    requires MatchAt(value, test, p).Some? && MatchAt(value, test, p).value.authorization
    ensures SegmentAt(value, test, p).Replaced?
    ensures SegmentAt(value, test, p) in Segments(value, test, 0) <==>
              !exists q: nat :: q < p && Visited(value, test, q) && ReachAt(value, test, q) > p
  {
    VisitedFrom(value, test, 0, p);
  }

  /** The matches that are treated are the visited ones, each once and in order. */
  lemma TreatedAreVisited(value: string, test: KeyTest, p: nat)
    requires MatchAt(value, test, p).Some?
    ensures SegmentAt(value, test, p) in Segments(value, test, 0) <==> Visited(value, test, p)
  {
    VisitedFrom(value, test, 0, p);
  }

  // ----- what remains of the text

  /** The positions from one to another. */
  ghost function Positions(from: nat, to: nat): seq<Option<nat>>
    requires from <= to
  {
    seq(to - from, i requires 0 <= i < to - from => Some(from + i))
  }

  ghost function Marks(n: nat): seq<Option<nat>> { seq(n, i => None) }

  /** Where in the text each character of a segment's contribution comes from; those of the mark come
      from nowhere. */
  ghost function Origin(value: string, s: Segment): seq<Option<nat>> {
    if !IsInside(value, s) then [] else
      match s
      case Between(from, to) => Positions(from, to)
      case Kept(m) => Positions(m.start, m.open + 1)
      case Replaced(m, _) => Positions(m.start, m.open) + Marks(|Mark(value, m)|)
  }

  ghost function Origins(value: string, segments: seq<Segment>): seq<Option<nat>> {
    if segments == [] then [] else Origin(value, segments[0]) + Origins(value, segments[1..])
  }

  /** Every character of the output stands for the character at its origin. */
  ghost predicate Stands(value: string, text: string, origins: seq<Option<nat>>) {
    && |text| == |origins|
    && forall i :: 0 <= i < |text| && origins[i].Some? ==>
         origins[i].value < |value| && text[i] == value[origins[i].value]
  }

  /** In order, from one position to before another. */
  ghost predicate Ascends(origins: seq<Option<nat>>, from: nat, to: nat) {
    && (forall i :: 0 <= i < |origins| && origins[i].Some? ==> from <= origins[i].value < to)
    && forall i, j :: 0 <= i < j < |origins| && origins[i].Some? && origins[j].Some? ==>
         origins[i].value < origins[j].value
  }

  lemma OriginsFirst(value: string, segments: seq<Segment>)
    requires segments != []
    ensures Origins(value, segments) == Origin(value, segments[0]) + Origins(value, segments[1..])
  {
    hide Origin;
  }

  lemma OriginsOfTwo(value: string, first: Segment, second: Segment, rest: seq<Segment>)
    ensures Origins(value, [first, second] + rest)
         == Origin(value, first) + Origin(value, second) + Origins(value, rest)
  {
    hide Origin, Origins;
    var all := [first, second] + rest;
    TwoAhead(first, second, rest);
    OriginsFirst(value, all);
    OriginsFirst(value, all[1..]);
    Associate(Origin(value, first), Origin(value, second), Origins(value, rest));
  }

  lemma OriginsOfOne(value: string, s: Segment)
    ensures RenderAll(value, [s]) == Render(value, s) && Origins(value, [s]) == Origin(value, s)
  {
    assert [s][1..] == [];
    assert Origins(value, [s]) == Origin(value, s) + [];
    assert RenderAll(value, [s]) == Render(value, s) + "";
  }

  lemma PositionsStand(value: string, from: nat, to: nat)
    requires from <= to <= |value|
    ensures Stands(value, value[from..to], Positions(from, to)) && Ascends(Positions(from, to), from, to)
  {
  }

  lemma MarkStands(value: string, mark: string, from: nat, to: nat)
    ensures Stands(value, mark, Marks(|mark|)) && Ascends(Marks(|mark|), from, to)
  {
  }

  lemma OneStands(value: string, s: Segment)
    requires IsInside(value, s)
    ensures Stands(value, Render(value, s), Origin(value, s)) && Ascends(Origin(value, s), Start(s), End(s))
  {
    hide Stands, Ascends, Positions, Marks, Mark;
    match s
    case Between(from, to) => PositionsStand(value, from, to);
    case Kept(m) => PositionsStand(value, m.start, m.open + 1);
    case Replaced(m, end) =>
      PositionsStand(value, m.start, m.open);
      MarkStands(value, Mark(value, m), m.open, end);
      var a, b := Positions(m.start, m.open), Marks(|Mark(value, m)|);
      StandTogether(value, value[m.start..m.open], Mark(value, m), a, b);
      AscendTogether(a, b, m.start, m.open, end);
  }

  lemma StandTogether(value: string, x: string, y: string, a: seq<Option<nat>>, b: seq<Option<nat>>)
    requires Stands(value, x, a) && Stands(value, y, b)
    ensures Stands(value, x + y, a + b)
  {
  }

  lemma AscendTogether(a: seq<Option<nat>>, b: seq<Option<nat>>, from: nat, middle: nat, to: nat)
    requires Ascends(a, from, middle) && Ascends(b, middle, to) && from <= middle <= to
    ensures Ascends(a + b, from, to)
  {
  }

  /** A match is treated from its beginning to where the loop goes on. */
  lemma TreatedSpans(value: string, test: KeyTest, cursor: nat)
    requires Found(value, test, cursor).Some?
    ensures var m := Found(value, test, cursor).value; var s := Treated(value, m);
            IsInside(value, s) && Start(s) == m.start && End(s) == NextCursor(value, m)
  {
  }

  /** The output stands for the text, in order. */
  lemma {:induction false} OutputStands(value: string, test: KeyTest, cursor: nat)
    requires cursor <= |value|
    ensures Stands(value, Rewritten(value, test, cursor), Origins(value, Segments(value, test, cursor)))
    ensures Ascends(Origins(value, Segments(value, test, cursor)), cursor, |value|)
    decreases |value| - cursor
  {
    hide Stands, Ascends, Render, Origin, Treated, NextCursor, RenderAll, Origins;
    var found := Found(value, test, cursor);
    if found.None? {
      OriginsOfOne(value, Between(cursor, |value|));
      OneStands(value, Between(cursor, |value|));
    } else {
      var m := found.value;
      var next := NextCursor(value, m);
      var first, second, rest := Between(cursor, m.start), Treated(value, m), Segments(value, test, next);
      OutputStands(value, test, next);
      TreatedSpans(value, test, cursor);
      OneStands(value, first);
      OneStands(value, second);
      OriginsOfTwo(value, first, second, rest);
      RenderFirstTwo(value, first, second, rest);
      assert Segments(value, test, cursor) == [first, second] + rest;
      hide Segments, Found;
      var a, b, c := Origin(value, first), Origin(value, second), Origins(value, rest);
      var x, y, z := Render(value, first), Render(value, second), RenderAll(value, rest);
      StandTogether(value, x, y, a, b);
      StandTogether(value, x + y, z, a + b, c);
      AscendTogether(a, b, cursor, m.start, next);
      AscendTogether(a + b, c, cursor, next, |value|);
    }
  }

  /** Within the value of a replaced entry. */
  ghost predicate InValue(s: Segment, k: nat) {
    s.Replaced? && s.m.open <= k < s.end
  }

  lemma OriginHolds(value: string, s: Segment, k: nat)
    requires IsInside(value, s)
    ensures Some(k) in Origin(value, s) <==> Start(s) <= k < End(s) && !InValue(s, k)
  {
    match s
    case Between(from, to) => PositionsHold(from, to, k);
    case Kept(m) => PositionsHold(m.start, m.open + 1, k);
    case Replaced(m, _) => PositionsHold(m.start, m.open, k);
  }

  lemma PositionsHold(from: nat, to: nat, k: nat)
    requires from <= to
    ensures Some(k) in Positions(from, to) <==> from <= k < to
  {
    if from <= k < to {
      assert Positions(from, to)[k - from] == Some(k);
    }
  }

  /** A position is an origin unless it lies in the value of a replaced entry. */
  lemma {:induction false} RemainsFrom(value: string, test: KeyTest, cursor: nat, k: nat)
    requires cursor <= k < |value|
    ensures Some(k) in Origins(value, Segments(value, test, cursor)) <==>
              !exists s :: s in Segments(value, test, cursor) && InValue(s, k)
    decreases |value| - cursor
  {
    hide Render, RenderAll, Origin, SequenceExtent;
    var found := Found(value, test, cursor);
    if found.None? {
      OriginsOfOne(value, Between(cursor, |value|));
      OriginHolds(value, Between(cursor, |value|), k);
    } else {
      var m := found.value;
      var next := NextCursor(value, m);
      var first, second, rest := Between(cursor, m.start), Treated(value, m), Segments(value, test, next);
      TreatedSpans(value, test, cursor);
      assert Segments(value, test, cursor) == [first, second] + rest;
      OriginHolds(value, first, k);
      OriginHolds(value, second, k);
      OriginsOfTwo(value, first, second, rest);
      OutputStands(value, test, next);
      if k >= next {
        RemainsFrom(value, test, next, k);
      } else {
        forall s | s in rest ensures !InValue(s, k) {
          SegmentsStartBehind(value, test, next, s);
        }
      }
    }
  }

  /** Within the value of an authorization entry that is visited. */
  ghost predicate Dropped(value: string, test: KeyTest, k: nat) {
    exists q: nat :: Visited(value, test, q) && InValue(SegmentAt(value, test, q), k)
  }

  lemma {:induction false} ReplacedComesFrom(value: string, test: KeyTest, cursor: nat, s: Segment)
    requires cursor <= |value| && s in Segments(value, test, cursor) && !s.Between?
    ensures MatchAt(value, test, s.m.start).Some? && SegmentAt(value, test, s.m.start) == s
    decreases |value| - cursor
  {
    SearchIsLeftmost(value, test, cursor);
    var m := Found(value, test, cursor).value;
    if s != Treated(value, m) {
      ReplacedComesFrom(value, test, NextCursor(value, m), s);
    }
  }

  /** The output is the text in order, without exactly the values, bracket to bracket, of the authorization
      entries that are visited; every other character in it belongs to a mark. */
  lemma OutputIsTheRest(value: string, test: KeyTest)
    ensures var origins := Origins(value, Segments(value, test, 0));
            && Stands(value, Rewritten(value, test, 0), origins) && Ascends(origins, 0, |value|)
            && forall k: nat :: k < |value| ==> (Some(k) in origins <==> !Dropped(value, test, k))
  {
    OutputStands(value, test, 0);
    var all := Segments(value, test, 0);
    forall k: nat | k < |value| ensures Some(k) in Origins(value, all) <==> !Dropped(value, test, k) {
      RemainsFrom(value, test, 0, k);
      DroppedExactly(value, test, k);
    }
  }

  lemma DroppedExactly(value: string, test: KeyTest, k: nat)
    ensures Dropped(value, test, k) <==> exists s :: s in Segments(value, test, 0) && InValue(s, k)
  {
    if Dropped(value, test, k) {
      var q: nat :| Visited(value, test, q) && InValue(SegmentAt(value, test, q), k);
      TreatedAreVisited(value, test, q);
    }
    if exists s :: s in Segments(value, test, 0) && InValue(s, k) {
      var s :| s in Segments(value, test, 0) && InValue(s, k);
      ReplacedComesFrom(value, test, 0, s);
      TreatedAreVisited(value, test, s.m.start);
    }
  }

  /** Of the value of an authorization entry nothing remains, unless an earlier match reaches past the
      beginning of the entry. */
  lemma EntryIsDropped(value: string, test: KeyTest, p: nat, k: nat)
    requires MatchAt(value, test, p).Some? && InValue(SegmentAt(value, test, p), k)
    requires forall q: nat :: q < p ==> ReachAt(value, test, q) <= p
    ensures k < |value| && Some(k) !in Origins(value, Segments(value, test, 0))
  {
    TreatedAreVisited(value, test, p);
    SegmentsStartBehind(value, test, 0, SegmentAt(value, test, p));
    OutputIsTheRest(value, test);
    assert Dropped(value, test, k);
  }

  // ----- an entry that is passed over

  /** A text without quotes and backslashes is passed over by the search for a closing quote. */
  lemma {:induction false} StringGoesOn(v: string, quote: char, i: nat, n: nat)
    requires i <= n <= |v| && forall k :: i <= k < n ==> v[k] != quote && v[k] != '\\'
    ensures StringEnd(v, quote, i) == StringEnd(v, quote, n)
    decreases n - i
  {
    if i < n {
      StringGoesOn(v, quote, i + 1, n);
    }
  }

  lemma NoQuoteNoMatch(v: string, test: KeyTest, cursor: nat)
    requires forall p :: cursor <= p < |v| ==> !IsQuote(v[p])
    ensures Found(v, test, cursor).None?
  {
    SearchIsLeftmost(v, test, cursor);
  }

  const KEY := "\"authorization\""
  const PASSING := "'a " + KEY + ": [s] b': [x]"

  function IsKey(token: string): bool { token == KEY }

  lemma InnerEntryMatches()
    ensures MatchAt(PASSING, IsKey, 3) == Some(Match(3, 18, 20, true))
  {
    var v := PASSING;
    StringGoesOn(v, '"', 4, 17);
    assert StringEnd(v, '"', 4) == Some(18);
    assert v[3..18] == KEY;
    assert SkipSpace(v, 18) == 18 && SkipSpace(v, 19) == 20;
  }

  lemma OuterEntryMatches()
    ensures MatchAt(PASSING, IsKey, 0) == Some(Match(0, 26, 28, false))
  {
    var v := PASSING;
    StringGoesOn(v, '\'', 1, 25);
    assert StringEnd(v, '\'', 1) == Some(26);
    assert v[0..26][0] == '\'' && !IsKey(v[0..26]);
    assert SkipSpace(v, 26) == 26 && SkipSpace(v, 27) == 28;
  }

  /** An authorization entry inside the key of another entry is not found, and its value stays: the key is
      copied as a whole and the search goes on behind it. */
  lemma EntryInsideKeyStays()
    ensures MatchAt(PASSING, IsKey, 3) == Some(Match(3, 18, 20, true)) && Rewritten(PASSING, IsKey, 0) == PASSING
  {
    InnerEntryMatches();
    OuterEntryMatches();
    var v, m := PASSING, Match(0, 26, 28, false);
    assert Search(v, IsKey, 0) == Some(m);
    NoQuoteNoMatch(v, IsKey, 29);
    RenderTwo(v, IsKey, 0);
    RenderRest(v, IsKey, 29);
    assert v[0..0] + v[0..29] + v[29..] == v;
  }
}
