/** The bracket matcher of the redactor (`_sequence_end`, redaction.py, plain mode): one pass with a
    stack of closing brackets and a quote flag, proved to find exactly the words of a grammar. */
module SequenceMatcher {
  import opened Options
  import opened Numbers

  const MAX_DEPTH := 16
  const MAX_CHARS := 65536

  // ----- the grammar

  /** The inside of a quoted string up to its closing quote. */
  datatype Quote = Close | Literal(c: char, rest: Quote) | Escape(c: char, rest: Quote)

  /** The inside of a bracket: plain characters, quoted strings and nested brackets. */
  datatype Pieces =
    | End
    | Plain(c: char, rest: Pieces)
    | Quoted(q: char, body: Quote, rest: Pieces)
    | Nested(square: bool, inner: Pieces, rest: Pieces)

  predicate IsQuote(c: char) { c == '\'' || c == '"' }

  predicate IsOpen(c: char) { c == '[' || c == '(' }

  predicate IsClose(c: char) { c == ']' || c == ')' }

  function Opening(square: bool): char { if square then '[' else '(' }

  function Closing(square: bool): char { if square then ']' else ')' }

  ghost predicate GoodQuote(q: char, body: Quote) {
    match body
    case Close => true
    case Literal(c, rest) => c != q && c != '\\' && GoodQuote(q, rest)
    case Escape(_, rest) => GoodQuote(q, rest)
  }

  ghost predicate Good(p: Pieces) {
    match p
    case End => true
    case Plain(c, rest) => c !in "'\"[]()" && Good(rest)
    case Quoted(q, body, rest) => q in "'\"" && GoodQuote(q, body) && Good(rest)
    case Nested(_, inner, rest) => Good(inner) && Good(rest)
  }

  /** The characters of a quoted inside, its closing quote, and what follows. */
  ghost function QuoteText(body: Quote, q: char, tail: string): string {
    match body
    case Close => [q] + tail
    case Literal(c, rest) => [c] + QuoteText(rest, q, tail)
    case Escape(c, rest) => ['\\'] + ([c] + QuoteText(rest, q, tail))
  }

  /** The characters of pieces and what follows. */
  ghost function Text(p: Pieces, tail: string): string {
    match p
    case End => tail
    case Plain(c, rest) => [c] + Text(rest, tail)
    case Quoted(q, body, rest) => [q] + QuoteText(body, q, Text(rest, tail))
    case Nested(square, inner, rest) =>
      [if square then '[' else '('] + Text(inner, [if square then ']' else ')'] + Text(rest, tail))
  }

  ghost function Depth(p: Pieces): nat {
    match p
    case End => 0
    case Plain(_, rest) => Depth(rest)
    case Quoted(_, _, rest) => Depth(rest)
    case Nested(_, inner, rest) => if 1 + Depth(inner) > Depth(rest) then 1 + Depth(inner) else Depth(rest)
  }

  /** A balanced bracket word of nesting at most sixteen, quoted text being opaque. */
  ghost predicate IsWord(t: string, square: bool, inner: Pieces) {
    && Good(inner) && 1 + Depth(inner) <= 16
    && t == [if square then '[' else '('] + Text(inner, [if square then ']' else ')'])
  }

  // ----- the machine

  datatype State = State(stack: seq<bool>, quote: Option<char>, escaped: bool)
  datatype Outcome = Go(next: State) | Finished | Failed

  function Step(s: State, c: char): Outcome
    requires s.stack != []
  {
    var n := |s.stack| - 1;
    if s.quote.Some? then
      if s.escaped then Go(s.(escaped := false))
      else if c == '\\' then Go(s.(escaped := true))
      else if c == s.quote.value then Go(s.(quote := None))
      else Go(s)
    else if IsQuote(c) then Go(s.(quote := Some(c)))
    else if IsOpen(c) then
      if |s.stack| >= MAX_DEPTH then Failed else Go(s.(stack := s.stack + [c == '[']))
    else if IsClose(c) then
      if c != Closing(s.stack[n]) then Failed
      else if n == 0 then Finished else Go(s.(stack := s.stack[..n]))
    else Go(s)
  }

  lemma StepKeepsStack(s: State, c: char)
    requires s.stack != [] && Step(s, c).Go?
    ensures Step(s, c).next.stack != []
  {
  }

  /** How many characters the machine reads until it finishes. */
  function Run(s: State, t: string): Option<nat>
    requires s.stack != []
    decreases |t|
  {
    if t == [] then None else
      match Step(s, t[0])
      case Failed => None
      case Finished => Some(1)
      case Go(next) =>
        StepKeepsStack(s, t[0]);
        var r := Run(next, t[1..]);
        if r.None? then None else Some(r.value + 1)
  }

  /** Where the machine finishes when it goes on from `index`. */
  function Remaining(s: State, value: string, index: nat, limit: nat): Option<nat>
    requires s.stack != [] && index <= limit <= |value|
  {
    Offset(Run(s, value[index..limit]), index)
  }

  lemma RemainingAt(s: State, value: string, index: nat, limit: nat)
    requires s.stack != [] && index < limit <= |value|
    ensures Step(s, value[index]).Failed? ==> Remaining(s, value, index, limit) == None
    ensures Step(s, value[index]).Finished? ==> Remaining(s, value, index, limit) == Some(index + 1)
    ensures Step(s, value[index]).Go? ==> Step(s, value[index]).next.stack != []
    ensures Step(s, value[index]).Go? ==>
              Remaining(s, value, index, limit) == Remaining(Step(s, value[index]).next, value, index + 1, limit)
  {
    assert value[index..limit][1..] == value[index + 1..limit];
  }

  /** `_sequence_end`: the loop over characters with its stack and flags. */
  method SequenceEnd(value: string, start: nat) returns (end: Option<nat>)
    requires start < |value| && IsOpen(value[start])
    ensures end == Matched(value, start)
  {
    var stack := [value[start] == '['];
    var quote: Option<char> := None;
    var escaped := false;
    var limit := Min(|value|, start + MAX_CHARS);
    var index := start + 1;
    while index < limit
      invariant start + 1 <= index <= limit && stack != []
      invariant Matched(value, start) == Remaining(State(stack, quote, escaped), value, index, limit)
    {
      hide Remaining, Matched;
      var character := value[index];
      RemainingAt(State(stack, quote, escaped), value, index, limit);
      if quote.Some? {
        if escaped {
          escaped := false;
        } else if character == '\\' {
          escaped := true;
        } else if character == quote.value {
          quote := None;
        }
        index := index + 1;
        continue;
      }
      if IsQuote(character) {
        quote := Some(character);
      } else if IsOpen(character) {
        if |stack| >= MAX_DEPTH {
          return None;
        }
        stack := stack + [character == '['];
      } else if IsClose(character) {
        if character != Closing(stack[|stack| - 1]) {
          return None;
        }
        stack := stack[..|stack| - 1];
        if stack == [] {
          return Some(index + 1);
        }
      }
      index := index + 1;
    }
    end := None;
  }

  function Offset(r: Option<nat>, base: nat): Option<nat> {
    if r.None? then None else Some(base + r.value)
  }

  /** The end the machine finds for a bracket at `start`. */
  function Matched(value: string, start: nat): Option<nat>
    requires start < |value| && IsOpen(value[start])
  {
    var limit := Min(|value|, start + MAX_CHARS);
    Remaining(State([value[start] == '['], None, false), value, start + 1, limit)
  }

  // ----- completeness: the machine reads through whatever the grammar generates

  ghost function QuoteSize(body: Quote): nat {
    match body
    case Close => 1
    case Literal(_, rest) => 1 + QuoteSize(rest)
    case Escape(_, rest) => 2 + QuoteSize(rest)
  }

  ghost function Size(p: Pieces): nat {
    match p
    case End => 0
    case Plain(_, rest) => 1 + Size(rest)
    case Quoted(_, body, rest) => 1 + QuoteSize(body) + Size(rest)
    case Nested(_, inner, rest) => 2 + Size(inner) + Size(rest)
  }

  lemma {:induction false} QuoteTextSize(body: Quote, q: char, tail: string)
    ensures |QuoteText(body, q, tail)| == QuoteSize(body) + |tail|
  {
    match body
    case Close =>
    case Literal(_, rest) => QuoteTextSize(rest, q, tail);
    case Escape(_, rest) => QuoteTextSize(rest, q, tail);
  }

  lemma {:induction false} TextSize(p: Pieces, tail: string)
    ensures |Text(p, tail)| == Size(p) + |tail|
    decreases p
  {
    match p
    case End =>
    case Plain(_, rest) => TextSize(rest, tail);
    case Quoted(q, body, rest) =>
      TextSize(rest, tail);
      QuoteTextSize(body, q, Text(rest, tail));
    case Nested(square, inner, rest) =>
      TextSize(rest, tail);
      TextSize(inner, [Closing(square)] + Text(rest, tail));
  }

  lemma {:induction false} RunQuote(s: State, body: Quote, q: char, tail: string)
    requires s.stack != [] && s.quote == Some(q) && !s.escaped && q != '\\' && GoodQuote(q, body)
    ensures Run(s, QuoteText(body, q, tail)) == Offset(Run(s.(quote := None), tail), QuoteSize(body))
  {
    match body {
      case Close =>
        assert ([q] + tail)[1..] == tail;
      case Literal(c, b) =>
        RunQuote(s, b, q, tail);
        assert ([c] + QuoteText(b, q, tail))[1..] == QuoteText(b, q, tail);
      case Escape(c, b) =>
        RunQuote(s, b, q, tail);
        RunEscape(s, c, QuoteText(b, q, tail));
    }
  }

  lemma RunEscape(s: State, c: char, tail: string)
    requires s.stack != [] && s.quote.Some? && !s.escaped
    ensures Run(s, ['\\'] + ([c] + tail)) == Offset(Run(s, tail), 2)
  {
    var next := s.(escaped := true);
    assert (['\\'] + ([c] + tail))[1..] == [c] + tail;
    assert ([c] + tail)[1..] == tail;
    assert Run(next, [c] + tail) == Offset(Run(s, tail), 1);
  }

  lemma {:induction false} RunPieces(stack: seq<bool>, p: Pieces, tail: string)
    requires stack != [] && Good(p) && |stack| + Depth(p) <= MAX_DEPTH
    ensures Run(State(stack, None, false), Text(p, tail)) == Offset(Run(State(stack, None, false), tail), Size(p))
    decreases p
  {
    hide Run, Step;
    var s := State(stack, None, false);
    match p {
      case End =>
      case Plain(c, more) =>
        RunPieces(stack, more, tail);
        RunPlain(stack, c, Text(more, tail));
      case Quoted(q, body, more) =>
        RunPieces(stack, more, tail);
        RunQuote(s.(quote := Some(q)), body, q, Text(more, tail));
        RunOpenQuote(stack, q, QuoteText(body, q, Text(more, tail)));
      case Nested(square, inner, more) =>
        RunPieces(stack, more, tail);
        RunClosing(stack, square, Text(more, tail));
        RunPieces(stack + [square], inner, [Closing(square)] + Text(more, tail));
        RunOpening(stack, square, Text(inner, [Closing(square)] + Text(more, tail)));
    }
  }

  lemma RunPlain(stack: seq<bool>, c: char, tail: string)
    requires stack != [] && !IsQuote(c) && !IsOpen(c) && !IsClose(c)
    ensures Run(State(stack, None, false), [c] + tail) == Offset(Run(State(stack, None, false), tail), 1)
  {
    assert ([c] + tail)[1..] == tail;
  }

  lemma RunOpenQuote(stack: seq<bool>, q: char, tail: string)
    requires stack != [] && IsQuote(q)
    ensures Run(State(stack, None, false), [q] + tail) == Offset(Run(State(stack, Some(q), false), tail), 1)
  {
    assert ([q] + tail)[1..] == tail;
  }

  lemma RunOpening(stack: seq<bool>, square: bool, tail: string)
    requires stack != [] && |stack| < MAX_DEPTH
    ensures Run(State(stack, None, false), [Opening(square)] + tail)
         == Offset(Run(State(stack + [square], None, false), tail), 1)
  {
    assert ([Opening(square)] + tail)[1..] == tail;
  }

  lemma RunClosing(stack: seq<bool>, square: bool, tail: string)
    requires stack != []
    ensures Run(State(stack + [square], None, false), [Closing(square)] + tail)
         == Offset(Run(State(stack, None, false), tail), 1)
  {
    assert ([Closing(square)] + tail)[1..] == tail;
    assert (stack + [square])[..|stack|] == stack;
  }

  // ----- soundness: what the machine reads to the end, the grammar generates

  /** Text that closes every open bracket of a stack, innermost first, with pieces before each. */
  ghost function Closed(stack: seq<bool>, ps: seq<Pieces>): string
    requires |ps| == |stack|
  {
    if stack == [] then [] else
      var n := |stack| - 1;
      Text(ps[n], [Closing(stack[n])] + Closed(stack[..n], ps[..n]))
  }

  lemma ClosedTop(stack: seq<bool>, ps: seq<Pieces>, p: Pieces)
    requires |ps| == |stack| > 0
    ensures var n := |stack| - 1;
            Closed(stack, ps[..n] + [p]) == Text(p, [Closing(stack[n])] + Closed(stack[..n], ps[..n]))
  {
    var n := |stack| - 1;
    assert (ps[..n] + [p])[..n] == ps[..n];
  }

  /** A bracket opened on top of a stack becomes a nested piece of the level below. */
  lemma ClosedNested(stack: seq<bool>, square: bool, deeper: seq<Pieces>)
    requires |deeper| == |stack| + 1 && stack != []
    ensures var n := |stack| - 1;
            [Opening(square)] + Closed(stack + [square], deeper)
              == Closed(stack, deeper[..n] + [Nested(square, deeper[n + 1], deeper[n])])
  {
    var n := |stack| - 1;
    assert (stack + [square])[..n + 1] == stack;
    ClosedTop(stack, deeper[..n + 1], Nested(square, deeper[n + 1], deeper[n]));
    assert deeper[..n + 1][..n] == deeper[..n];
  }

  /** The pieces are well formed and none nests deeper than its place on the stack allows. */
  ghost predicate Fits(ps: seq<Pieces>) {
    forall i :: 0 <= i < |ps| ==> Good(ps[i]) && i + 1 + Depth(ps[i]) <= MAX_DEPTH
  }

  /** The rest of a text that the machine reads to its end. */
  lemma RunRest(s: State, t: string) returns (c: char, rest: string)
    requires s.stack != [] && Run(s, t) == Some(|t|)
    ensures t == [c] + rest && |t| == |rest| + 1 && rest == t[1..]
    ensures Step(s, c).Go? ==> Step(s, c).next.stack != [] && Run(Step(s, c).next, rest) == Some(|rest|)
    ensures !Step(s, c).Failed? && (Step(s, c).Finished? ==> rest == [])
  {
    hide Step;
    c, rest := t[0], t[1..];
    assert t == [c] + rest;
    if Step(s, c).Go? {
      StepKeepsStack(s, c);
    }
  }

  lemma {:induction false} ReadsQuote(s: State, t: string) returns (body: Quote, ps: seq<Pieces>)
    requires s.stack != [] && |s.stack| <= MAX_DEPTH && s.quote.Some? && IsQuote(s.quote.value)
    requires Run(s, t) == Some(|t|)
    ensures |ps| == |s.stack| && Fits(ps) && GoodQuote(s.quote.value, body)
    ensures !s.escaped ==> t == QuoteText(body, s.quote.value, Closed(s.stack, ps))
    ensures s.escaped ==> t != [] && t[1..] == QuoteText(body, s.quote.value, Closed(s.stack, ps))
    decreases |t|, 1
  {
    hide Run, Closed, Fits;
    var q := s.quote.value;
    var c, rest := RunRest(s, t);
    if s.escaped {
      body, ps := ReadsQuote(s.(escaped := false), rest);
    } else if c == '\\' {
      body, ps := ReadsQuote(s.(escaped := true), rest);
      assert t == ['\\', rest[0]] + rest[1..];
      body := Escape(rest[0], body);
    } else if c == q {
      ps := Reads(s.stack, rest);
      body := Close;
    } else {
      body, ps := ReadsQuote(s, rest);
      body := Literal(c, body);
    }
  }

  lemma {:induction false} Reads(stack: seq<bool>, t: string) returns (ps: seq<Pieces>)
    requires stack != [] && |stack| <= MAX_DEPTH && Run(State(stack, None, false), t) == Some(|t|)
    ensures |ps| == |stack| && Fits(ps) && t == Closed(stack, ps)
    decreases |t|, 1
  {
    var c := t[0];
    if IsQuote(c) {
      var body, rest := ReadsQuote(State(stack, Some(c), false), t[1..]);
      hide Run, Step, Closed;
      ps := PrependQuoted(stack, c, body, rest);
    } else if IsOpen(c) {
      var deeper := Reads(stack + [c == '['], t[1..]);
      hide Run, Step, Closed;
      ps := PrependNested(stack, c == '[', deeper);
    } else if IsClose(c) {
      ps := ReadsClosing(stack, t);
    } else {
      var rest := Reads(stack, t[1..]);
      hide Run, Step, Closed;
      ps := PrependPlain(stack, c, rest);
    }
    assert t == [c] + t[1..];
  }

  lemma PrependQuoted(stack: seq<bool>, q: char, body: Quote, rest: seq<Pieces>) returns (ps: seq<Pieces>)
    requires |rest| == |stack| > 0 && Fits(rest) && IsQuote(q) && GoodQuote(q, body)
    ensures |ps| == |stack| && Fits(ps) && Closed(stack, ps) == [q] + QuoteText(body, q, Closed(stack, rest))
  {
    var n := |stack| - 1;
    ps := rest[..n] + [Quoted(q, body, rest[n])];
    ClosedTop(stack, rest, ps[n]);
  }

  lemma PrependNested(stack: seq<bool>, square: bool, deeper: seq<Pieces>) returns (ps: seq<Pieces>)
    requires |deeper| == |stack| + 1 && stack != [] && Fits(deeper)
    ensures |ps| == |stack| && Fits(ps) && Closed(stack, ps) == [Opening(square)] + Closed(stack + [square], deeper)
  {
    var n := |stack| - 1;
    ps := deeper[..n] + [Nested(square, deeper[n + 1], deeper[n])];
    ClosedNested(stack, square, deeper);
  }

  lemma PrependPlain(stack: seq<bool>, c: char, rest: seq<Pieces>) returns (ps: seq<Pieces>)
    requires |rest| == |stack| > 0 && Fits(rest) && !IsQuote(c) && !IsOpen(c) && !IsClose(c)
    ensures |ps| == |stack| && Fits(ps) && Closed(stack, ps) == [c] + Closed(stack, rest)
  {
    var n := |stack| - 1;
    ps := rest[..n] + [Plain(c, rest[n])];
    ClosedTop(stack, rest, ps[n]);
  }

  lemma {:induction false} ReadsClosing(stack: seq<bool>, t: string) returns (ps: seq<Pieces>)
    requires stack != [] && |stack| <= MAX_DEPTH && Run(State(stack, None, false), t) == Some(|t|)
    requires IsClose(t[0])
    ensures |ps| == |stack| && Fits(ps) && t == Closed(stack, ps)
    decreases |t|, 0
  {
    var n := |stack| - 1;
    assert t == [t[0]] + t[1..];
    if n == 0 {
      ps := [End];
      assert t[1..] == [];
    } else {
      var outer := Reads(stack[..n], t[1..]);
      ps := outer + [End];
      assert ps[..n] == outer;
    }
  }

  // ----- the theorem

  lemma {:induction false} RunStopsThere(s: State, t: string, k: nat)
    requires s.stack != []
    ensures Run(s, t) == Some(k) <==> k <= |t| && Run(s, t[..k]) == Some(k)
    decreases |t|
  {
    if t != [] && Step(s, t[0]).Go? {
      StepKeepsStack(s, t[0]);
      if k > 0 {
        RunStopsThere(Step(s, t[0]).next, t[1..], k - 1);
        assert k <= |t| ==> t[..k][1..] == t[1..][..k - 1];
      }
      if Run(Step(s, t[0]).next, t[1..]).Some? && k == 0 {
        assert t[..0] == [];
      }
    }
  }

  /** `_sequence_end` returns `end` exactly when the text from the bracket to `end` is one balanced
      bracket word of nesting at most sixteen, no longer than the cap. */
  lemma MatchedIsWord(value: string, start: nat, end: nat)
    requires start < |value| && IsOpen(value[start])
    ensures Matched(value, start) == Some(end) <==>
              start < end <= Min(|value|, start + 65536) && IsWordHere(value[start..end])
  {
    hide Run, IsWordHere;
    var limit := Min(|value|, start + MAX_CHARS);
    var s, t := State([value[start] == '['], None, false), value[start + 1..limit];
    if start < end {
      RunStopsThere(s, t, end - start - 1);
      if end <= limit {
        Stretch(value, start, end, limit);
        WordIsRun(value[start] == '[', value[start + 1..end]);
      }
    }
  }

  lemma Stretch(value: string, start: nat, end: nat, limit: nat)
    requires start < end <= limit <= |value|
    ensures value[start + 1..limit][..end - start - 1] == value[start + 1..end]
    ensures value[start..end] == [value[start]] + value[start + 1..end]
  {
  }

  ghost predicate IsWordHere(t: string) {
    exists inner {:trigger Good(inner)} :: t != [] && IsWord(t, t[0] == '[', inner)
  }

  lemma WordIsRun(square: bool, body: string)
    ensures Run(State([square], None, false), body) == Some(|body|) <==> IsWordHere([Opening(square)] + body)
  {
    if Run(State([square], None, false), body) == Some(|body|) {
      RunIsWord(square, body);
    }
    if IsWordHere([Opening(square)] + body) {
      WordRuns(square, body);
    }
    hide Run, IsWordHere;
  }

  lemma WordRuns(square: bool, body: string)
    requires IsWordHere([Opening(square)] + body)
    ensures Run(State([square], None, false), body) == Some(|body|)
  {
    var inner :| Good(inner) && IsWord([Opening(square)] + body, square, inner);
    hide Run, Text, Good, Depth;
    SameBody(Opening(square), body, Text(inner, [Closing(square)]));
    RunPieces([square], inner, [Closing(square)]);
    TextSize(inner, [Closing(square)]);
    RunLast(square);
  }

  lemma SameBody(c: char, body: string, text: string)
    requires [c] + body == [c] + text
    ensures body == text
  {
    assert body == ([c] + body)[1..] && text == ([c] + text)[1..];
  }

  lemma RunLast(square: bool)
    ensures Run(State([square], None, false), [Closing(square)]) == Some(1)
  {
  }

  lemma RunIsWord(square: bool, body: string)
    requires Run(State([square], None, false), body) == Some(|body|)
    ensures IsWordHere([Opening(square)] + body)
  {
    var ps := Reads([square], body);
    hide Run, Step;
    assert Closed([square][..0], ps[..0]) == [];
    assert body == Text(ps[0], [Closing(square)] + []);
    assert [Closing(square)] + [] == [Closing(square)];
    assert Good(ps[0]) && IsWord([Opening(square)] + body, square, ps[0]);
  }
}
