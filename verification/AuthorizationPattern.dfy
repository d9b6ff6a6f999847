/** The regular expression `_AUTH_SEQUENCE_START` (redaction.py): a quoted key, possibly marked as bytes,
    a colon between white space, and an opening bracket. No part of it can match a text in two ways, so
    reading from left to right finds what backtracking would. Whether the key means an authorization
    field is a predicate of its token (`_is_authorization_key`). */
module AuthorizationPattern {
  import opened Options
  import opened SequenceMatcher

  type KeyTest = string -> bool

  /** A key from `start` to `keyEnd`, the bracket at `open`, and whether it is an authorization key. */
  datatype Match = Match(start: nat, keyEnd: nat, open: nat, authorization: bool)

  /** `\s` on texts. */
  predicate IsSpace(c: char) {
    || '\t' <= c <= '\r' || '\U{1c}' <= c <= ' ' || c == '\U{85}' || c == '\U{a0}' || c == '\U{1680}'
    || '\U{2000}' <= c <= '\U{200a}' || c == '\U{2028}' || c == '\U{2029}' || c == '\U{202f}'
    || c == '\U{205f}' || c == '\U{3000}'
  }

  /** Behind the closing quote of a string whose body goes on at `i`; a backslash takes any character
      but a line feed with it. */
  function StringEnd(v: string, quote: char, i: nat): Option<nat>
    decreases |v| - i
  {
    if i >= |v| then None
    else if v[i] == quote then Some(i + 1)
    else if v[i] != '\\' then StringEnd(v, quote, i + 1)
    else if i + 1 < |v| && v[i + 1] != '\n' then StringEnd(v, quote, i + 2)
    else None
  }

  function KeyEnd(v: string, p: nat): Option<nat> {
    var q := if p < |v| && (v[p] == 'b' || v[p] == 'B') then p + 1 else p;
    if q < |v| && IsQuote(v[q]) then StringEnd(v, v[q], q + 1) else None
  }

  function SkipSpace(v: string, i: nat): nat
    decreases |v| - i
  {
    if i < |v| && IsSpace(v[i]) then SkipSpace(v, i + 1) else i
  }

  /** The match that begins at `p`, if there is one. */
  function MatchAt(v: string, test: KeyTest, p: nat): Option<Match> {
    KeyEndIsInside(v, p);
    var key := KeyEnd(v, p);
    if key.None? then None else
      var colon := SkipSpace(v, key.value);
      var open := SkipSpace(v, colon + 1);
      if colon < |v| && v[colon] == ':' && open < |v| && IsOpen(v[open])
      then Some(Match(p, key.value, open, test(v[p..key.value])))
      else None
  }

  lemma {:induction false} StringEndIsInside(v: string, quote: char, i: nat)
    ensures var e := StringEnd(v, quote, i); e.Some? ==> i < e.value <= |v| && v[e.value - 1] == quote
    decreases |v| - i
  {
    if i < |v| && v[i] != quote {
      if v[i] != '\\' {
        StringEndIsInside(v, quote, i + 1);
      } else if i + 1 < |v| && v[i + 1] != '\n' {
        StringEndIsInside(v, quote, i + 2);
      }
    }
  }

  lemma KeyEndIsInside(v: string, p: nat)
    ensures var k := KeyEnd(v, p); k.Some? ==> p + 2 <= k.value <= |v|
  {
    var q := if p < |v| && (v[p] == 'b' || v[p] == 'B') then p + 1 else p;
    if q < |v| {
      StringEndIsInside(v, v[q], q + 1);
    }
  }

  lemma {:induction false} SkipSpaceAdvances(v: string, i: nat)
    ensures i <= SkipSpace(v, i)
    decreases |v| - i
  {
    if i < |v| && IsSpace(v[i]) {
      SkipSpaceAdvances(v, i + 1);
    }
  }

  /** Where a match lies in the text. */
  ghost predicate InText(v: string, m: Match) {
    m.start < m.keyEnd < m.open < |v| && IsOpen(v[m.open])
  }

  lemma MatchIsInText(v: string, test: KeyTest, p: nat)
    ensures var m := MatchAt(v, test, p); m.Some? ==> m.value.start == p && InText(v, m.value)
  {
    KeyEndIsInside(v, p);
    var key := KeyEnd(v, p);
    if key.Some? {
      SkipSpaceAdvances(v, key.value);
      SkipSpaceAdvances(v, SkipSpace(v, key.value) + 1);
    }
  }

  /** `pattern.search`: the leftmost match at or after a cursor. */
  function Search(v: string, test: KeyTest, cursor: nat): Option<Match>
    decreases |v| - cursor
  {
    if MatchAt(v, test, cursor).Some? || cursor >= |v| then MatchAt(v, test, cursor)
    else Search(v, test, cursor + 1)
  }

  lemma {:induction false} SearchIsLeftmost(v: string, test: KeyTest, cursor: nat)
    ensures var m := Search(v, test, cursor);
            m.Some? ==> cursor <= m.value.start && InText(v, m.value) && MatchAt(v, test, m.value.start) == m
    ensures var m := Search(v, test, cursor);
            forall p: nat :: cursor <= p && MatchAt(v, test, p).Some? ==> m.Some? && m.value.start <= p
    decreases |v| - cursor
  {
    MatchIsInText(v, test, cursor);
    if MatchAt(v, test, cursor).None? && cursor < |v| {
      SearchIsLeftmost(v, test, cursor + 1);
    } else if MatchAt(v, test, cursor).None? {
      forall p: nat | cursor <= p ensures MatchAt(v, test, p).None? {
        MatchIsInText(v, test, p);
      }
    }
  }

  // ----- the pattern as a grammar

  /** The body of a key: any characters but its quote, and escapes of any character but a line feed. */
  ghost predicate KeyBody(quote: char, body: Quote) {
    match body
    case Close => true
    case Literal(c, rest) => c != quote && c != '\\' && KeyBody(quote, rest)
    case Escape(c, rest) => c != '\n' && KeyBody(quote, rest)
  }

  ghost predicate AllSpace(v: string, from: nat, to: nat) {
    from <= to <= |v| && forall k :: from <= k < to ==> IsSpace(v[k])
  }

  /** A string in its quotes stands from a position to another. */
  ghost predicate QuotedAt(v: string, from: nat, to: nat) {
    && from < to <= |v| && (v[from] == '"' || v[from] == '\'')
    && exists body :: KeyBody(v[from], body) && v[from + 1..to] == QuoteText(body, v[from], "")
  }

  /** The pattern: a quoted string, perhaps behind a `b`, spaces, a colon, spaces, an opening bracket. */
  ghost predicate PatternAt(v: string, p: nat, keyEnd: nat, open: nat) {
    && p < |v| && (QuotedAt(v, p, keyEnd) || ((v[p] == 'b' || v[p] == 'B') && QuotedAt(v, p + 1, keyEnd)))
    && exists colon: nat ::
         && AllSpace(v, keyEnd, colon) && colon < |v| && v[colon] == ':'
         && AllSpace(v, colon + 1, open) && open < |v| && (v[open] == '[' || v[open] == '(')
  }

  lemma {:induction false} BodyIsRead(v: string, quote: char, i: nat, body: Quote)
    requires KeyBody(quote, body) && quote != '\\'
    requires i <= |v| && QuoteText(body, quote, "") <= v[i..]
    ensures StringEnd(v, quote, i) == Some(i + |QuoteText(body, quote, "")|)
    decreases body
  {
    var text := QuoteText(body, quote, "");
    assert v[i] == v[i..][0];
    match body {
      case Close =>
      case Literal(_, rest) =>
        assert text[1..] == QuoteText(rest, quote, "") <= v[i + 1..];
        BodyIsRead(v, quote, i + 1, rest);
      case Escape(_, rest) =>
        assert v[i + 1] == v[i..][1];
        assert text[2..] == QuoteText(rest, quote, "") <= v[i + 2..];
        BodyIsRead(v, quote, i + 2, rest);
    }
  }

  lemma {:induction false} ReadHasBody(v: string, quote: char, i: nat) returns (body: Quote)
    requires StringEnd(v, quote, i).Some? && quote != '\\'
    ensures i <= StringEnd(v, quote, i).value <= |v|
    ensures KeyBody(quote, body) && v[i..StringEnd(v, quote, i).value] == QuoteText(body, quote, "")
    decreases |v| - i
  {
    StringEndIsInside(v, quote, i);
    var e := StringEnd(v, quote, i).value;
    if v[i] == quote {
      body := Close;
      assert v[i..e] == [quote] + "";
    } else if v[i] != '\\' {
      var rest := ReadHasBody(v, quote, i + 1);
      body := Literal(v[i], rest);
      assert v[i..e] == [v[i]] + v[i + 1..e];
    } else {
      var rest := ReadHasBody(v, quote, i + 2);
      body := Escape(v[i + 1], rest);
      assert v[i..e] == ['\\'] + ([v[i + 1]] + v[i + 2..e]);
    }
  }

  lemma QuotedIsRead(v: string, from: nat, to: nat)
    requires from < |v|
    ensures QuotedAt(v, from, to) <==> IsQuote(v[from]) && StringEnd(v, v[from], from + 1) == Some(to)
  {
    var quote := v[from];
    if QuotedAt(v, from, to) {
      var body :| KeyBody(quote, body) && v[from + 1..to] == QuoteText(body, quote, "");
      assert v[from + 1..to] <= v[from + 1..];
      BodyIsRead(v, quote, from + 1, body);
    }
    if IsQuote(quote) && StringEnd(v, quote, from + 1) == Some(to) {
      var body := ReadHasBody(v, quote, from + 1);
    }
  }

  lemma {:induction false} SkipIsExact(v: string, i: nat, j: nat)
    requires i <= |v|
    ensures SkipSpace(v, i) <= |v|
    ensures SkipSpace(v, i) == j <==> AllSpace(v, i, j) && (j < |v| ==> !IsSpace(v[j]))
    decreases |v| - i
  {
    hide IsSpace;
    if i < |v| && IsSpace(v[i]) {
      SkipIsExact(v, i + 1, j);
    }
  }

  lemma KeyIsRead(v: string, p: nat, keyEnd: nat)
    requires p < |v|
    ensures KeyEnd(v, p) == Some(keyEnd) <==>
              QuotedAt(v, p, keyEnd) || ((v[p] == 'b' || v[p] == 'B') && QuotedAt(v, p + 1, keyEnd))
  {
    QuotedIsRead(v, p, keyEnd);
    if p + 1 < |v| {
      QuotedIsRead(v, p + 1, keyEnd);
    }
    hide QuotedAt, StringEnd;
    if p + 1 >= |v| {
      NoneBehindEnd(v, p + 1, keyEnd);
    }
  }

  lemma NoneBehindEnd(v: string, from: nat, to: nat)
    requires from >= |v|
    ensures !QuotedAt(v, from, to)
  {
  }

  /** A match begins at a position if and only if the pattern stands there, and it ends where the pattern
      ends; there is no other way to read it. */
  lemma MatchIsPattern(v: string, test: KeyTest, p: nat, keyEnd: nat, open: nat)
    ensures (exists a :: MatchAt(v, test, p) == Some(Match(p, keyEnd, open, a))) <==> PatternAt(v, p, keyEnd, open)
    ensures MatchAt(v, test, p).Some? ==>
              var m := MatchAt(v, test, p).value; p <= m.keyEnd <= |v| && m.authorization == test(v[p..m.keyEnd])
  {
    KeyEndIsInside(v, p);
    MatchIsInText(v, test, p);
    if p < |v| {
      KeyIsRead(v, p, keyEnd);
      hide QuotedAt, KeyEnd, IsSpace, AllSpace;
      if KeyEnd(v, p) == Some(keyEnd) {
        SpacesAround(v, keyEnd, open);
      }
    }
  }

  /** Behind a key: the colon between spaces, and the bracket. */
  lemma SpacesAround(v: string, keyEnd: nat, open: nat)
    requires keyEnd <= |v|
    ensures var c := SkipSpace(v, keyEnd);
            (c < |v| && v[c] == ':' && SkipSpace(v, c + 1) == open && open < |v| && IsOpen(v[open])) <==>
              exists colon: nat ::
                && AllSpace(v, keyEnd, colon) && colon < |v| && v[colon] == ':'
                && AllSpace(v, colon + 1, open) && open < |v| && (v[open] == '[' || v[open] == '(')
  {
    var c := SkipSpace(v, keyEnd);
    SkipIsExact(v, keyEnd, c);
    if c < |v| {
      SkipIsExact(v, c + 1, open);
    }
    hide AllSpace, SkipSpace;
    if colon: nat :| AllSpace(v, keyEnd, colon) && colon < |v| && v[colon] == ':'
                     && AllSpace(v, colon + 1, open) && open < |v| && (v[open] == '[' || v[open] == '(') {
      SkipIsExact(v, keyEnd, colon);
    }
  }
}
