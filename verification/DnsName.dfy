/** The DNS name reader of mdns.py (`_read_name`): labels and compression pointers (section 4.1.4 of
    RFC 1035), bounded in wire length (section 2.3.4) and in pointer jumps. A name is its sequence of
    labels, before joining and case folding. */
module DnsName {
  import opened Options
  import opened Bytes

  const MAX_JUMPS := 16
  const MAX_WIRE := 255

  type Label = seq<byte>
  datatype Outcome = Bad | Name(labels: seq<Label>, after: nat)

  predicate GoodLabel(l: Label) {
    Utf8(l) && NoControls(l)
  }

  predicate IsPointer(m: seq<byte>, c: nat) {
    c < |m| && m[c] >= 192
  }

  function Target(m: seq<byte>, c: nat): nat
  {
    if IsPointer(m, c) && c + 1 < |m| then U16At(m, c) - 192 * 256 else 0
  }

  /** The label whose length stands at a position; empty if it does not fit. */
  function LabelAt(m: seq<byte>, c: nat): Label {
    if c < |m| && c + 1 + m[c] <= |m| then m[c + 1..c + 1 + m[c]] else []
  }

  /** Reading from a cursor, with the jumps made, the wire length and the pointer targets so far. */
  function Read(m: seq<byte>, c: nat, jumps: nat, wire: nat, visited: set<nat>): Outcome
    decreases MAX_JUMPS - jumps, |m| - c
  {
    if c >= |m| then Bad
    else if IsPointer(m, c) then
      if c + 1 >= |m| then Bad else
        var p := Target(m, c);
        if p >= |m| || p in visited || jumps >= MAX_JUMPS then Bad else
          var r := Read(m, p, jumps + 1, wire, visited + {p});
          if r.Bad? then Bad else Name(r.labels, c + 2)
    else if m[c] >= 64 then Bad
    else if m[c] == 0 then Name([], c + 1)
    else if c + 1 + m[c] > |m| || wire + m[c] + 1 > MAX_WIRE then Bad
    else if !GoodLabel(LabelAt(m, c)) then Bad
    else
      var r := Read(m, c + 1 + m[c], jumps, wire + m[c] + 1, visited);
      if r.Bad? then Bad else Name([LabelAt(m, c)] + r.labels, r.after)
  }

  /** The labels read so far put before the rest; the position after the first pointer is kept. */
  function Continue(labels: seq<Label>, consumed: Option<nat>, rest: Outcome): Outcome {
    if rest.Bad? then Bad else Name(labels + rest.labels, if consumed.Some? then consumed.value else rest.after)
  }

  /** `_read_name`: it ends on every input, because a jump uses up one of sixteen and everything
      else moves the cursor forward. */
  method ReadName(message: seq<byte>, offset: nat) returns (r: Outcome)
    ensures r == Read(message, offset, 0, 1, {})
  {
    if offset >= |message| {
      return Bad;
    }
    var labels: seq<Label> := [];
    var cursor: nat := offset;
    var consumed: Option<nat> := None;
    var visited: set<nat> := {};
    var wireLength: nat, jumps: nat := 1, 0;
    ghost var whole := Read(message, offset, 0, 1, {});
    ghost var rest := whole;
    EmptyContinue(whole);
    hide Read, Continue, LabelAt, GoodLabel, Target, Jumped, Prepend;
    while true
      invariant rest == Read(message, cursor, jumps, wireLength, visited)
      invariant whole == Continue(labels, consumed, rest)
      decreases MAX_JUMPS - jumps, |message| - cursor
    {
      ghost var start, before := cursor, wireLength;
      ContinueBad(labels, consumed);
      if cursor >= |message| {
        ReadPastEnd(message, cursor, jumps, wireLength, visited);
        return Bad;
      }
      var length: int := message[cursor];
      if length >= 192 {
        ReadPointer(message, cursor, jumps, wireLength, visited);
        if cursor + 1 >= |message| {
          return Bad;
        }
        var pointer := Target(message, cursor);
        if pointer >= |message| || pointer in visited || jumps >= MAX_JUMPS {
          return Bad;
        }
        visited := visited + {pointer};
        jumps := jumps + 1;
        rest := Read(message, pointer, jumps, wireLength, visited);
        ContinueJump(labels, consumed, rest, cursor + 2);
        if consumed.None? {
          consumed := Some(cursor + 2);
        }
        cursor := pointer;
        continue;
      }
      if length >= 64 {
        ReadRefused(message, start, jumps, before, visited);
        return Bad;
      }
      cursor := cursor + 1;
      if length == 0 {
        ReadEnd(message, start, jumps, before, visited, cursor);
        ContinueEnd(labels, consumed, cursor);
        if consumed.None? {
          consumed := Some(cursor);
        }
        return Name(labels, consumed.value);
      }
      if cursor + length > |message| {
        ReadRefused(message, start, jumps, before, visited);
        return Bad;
      }
      wireLength := wireLength + length + 1;
      if wireLength > MAX_WIRE {
        ReadRefused(message, start, jumps, before, visited);
        return Bad;
      }
      var text := LabelAt(message, cursor - 1);
      if !GoodLabel(text) {
        ReadRefused(message, start, jumps, before, visited);
        return Bad;
      }
      cursor := cursor + length;
      ReadLabel(message, start, jumps, before, visited, cursor, wireLength);
      rest := Read(message, cursor, jumps, wireLength, visited);
      ContinueLabel(labels, consumed, text, rest);
      labels := labels + [text];
    }
  }

  /** The result of reading when a pointer leads on, and when a label comes first. */
  function Jumped(rest: Outcome, after: nat): Outcome {
    if rest.Bad? then Bad else Name(rest.labels, after)
  }

  function Prepend(l: Label, rest: Outcome): Outcome {
    if rest.Bad? then Bad else Name([l] + rest.labels, rest.after)
  }

  lemma ReadPastEnd(m: seq<byte>, c: nat, jumps: nat, wire: nat, visited: set<nat>)
    requires c >= |m|
    ensures Read(m, c, jumps, wire, visited) == Bad
  {
  }

  lemma ReadPointer(m: seq<byte>, c: nat, jumps: nat, wire: nat, visited: set<nat>)
    requires IsPointer(m, c)
    ensures Read(m, c, jumps, wire, visited) ==
      if c + 1 >= |m| || Target(m, c) >= |m| || Target(m, c) in visited || jumps >= MAX_JUMPS then Bad
      else Jumped(Read(m, Target(m, c), jumps + 1, wire, visited + {Target(m, c)}), c + 2)
  {
  }

  lemma ReadEnd(m: seq<byte>, c: nat, jumps: nat, wire: nat, visited: set<nat>, next: nat)
    requires c < |m| && m[c] == 0 && next == c + 1
    ensures Read(m, c, jumps, wire, visited) == Name([], next)
  {
  }

  lemma ReadRefused(m: seq<byte>, c: nat, jumps: nat, wire: nat, visited: set<nat>)
    requires c < |m| && 0 < m[c] < 192
    requires m[c] >= 64 || c + 1 + m[c] > |m| || wire + m[c] + 1 > MAX_WIRE || !GoodLabel(LabelAt(m, c))
    ensures Read(m, c, jumps, wire, visited) == Bad
  {
    hide GoodLabel, LabelAt;
  }

  lemma ReadLabel(m: seq<byte>, c: nat, jumps: nat, wire: nat, visited: set<nat>, next: nat, size: nat)
    requires c < |m| && 0 < m[c] < 64 && GoodLabel(LabelAt(m, c))
    requires next == c + 1 + m[c] <= |m| && size == wire + m[c] + 1 <= MAX_WIRE
    ensures Read(m, c, jumps, wire, visited) == Prepend(LabelAt(m, c), Read(m, next, jumps, size, visited))
  {
    hide GoodLabel, LabelAt;
  }

  lemma EmptyContinue(rest: Outcome)
    ensures Continue([], None, rest) == rest
  {
  }

  lemma ContinueBad(labels: seq<Label>, consumed: Option<nat>)
    ensures Continue(labels, consumed, Bad) == Bad
  {
  }

  lemma ContinueEnd(labels: seq<Label>, consumed: Option<nat>, after: nat)
    ensures Continue(labels, consumed, Name([], after))
         == Name(labels, if consumed.Some? then consumed.value else after)
  {
    assert labels + [] == labels;
  }

  lemma ContinueJump(labels: seq<Label>, consumed: Option<nat>, rest: Outcome, after: nat)
    ensures Continue(labels, consumed, Jumped(rest, after))
         == Continue(labels, if consumed.None? then Some(after) else consumed, rest)
  {
  }

  lemma ContinueLabel(labels: seq<Label>, consumed: Option<nat>, l: Label, rest: Outcome)
    ensures Continue(labels, consumed, Prepend(l, rest)) == Continue(labels + [l], consumed, rest)
  {
    if rest.Name? {
      assert labels + ([l] + rest.labels) == labels + [l] + rest.labels;
    }
  }

  // ----- what a name read satisfies

  function WireSize(labels: seq<Label>): nat {
    if labels == [] then 1 else |labels[0]| + 1 + WireSize(labels[1..])
  }

  /** Labels as a name may have them. */
  predicate GoodSizes(labels: seq<Label>) {
    forall i :: 0 <= i < |labels| ==> 1 <= |labels[i]| <= 63 && GoodLabel(labels[i])
  }

  predicate WellFormed(labels: seq<Label>) {
    GoodSizes(labels) && WireSize(labels) <= 255
  }

  lemma SizesInFront(l: Label, rest: seq<Label>)
    requires 1 <= |l| <= 63 && GoodLabel(l) && GoodSizes(rest)
    ensures GoodSizes([l] + rest) && WireSize([l] + rest) == |l| + 1 + WireSize(rest)
  {
    hide GoodLabel;
    assert ([l] + rest)[1..] == rest;
  }

  /** What stands where a name is read. */
  lemma NameShape(m: seq<byte>, c: nat, jumps: nat, wire: nat, visited: set<nat>)
    requires Read(m, c, jumps, wire, visited).Name?
    ensures c < |m|
    ensures IsPointer(m, c) ==> c + 1 < |m| && jumps < MAX_JUMPS && Target(m, c) < |m| && Target(m, c) !in visited
    ensures !IsPointer(m, c) && m[c] != 0 ==>
              m[c] < 64 && c + 1 + m[c] <= |m| && wire + m[c] + 1 <= MAX_WIRE && GoodLabel(LabelAt(m, c))
  {
    hide GoodLabel, LabelAt;
  }

  lemma {:induction false} ReadIsWellFormed(m: seq<byte>, c: nat, jumps: nat, wire: nat, visited: set<nat>)
    requires 1 <= wire <= MAX_WIRE
    requires Read(m, c, jumps, wire, visited).Name?
    ensures var r := Read(m, c, jumps, wire, visited);
            c < r.after <= |m| && wire + WireSize(r.labels) <= MAX_WIRE + 1 && GoodSizes(r.labels)
    decreases MAX_JUMPS - jumps, |m| - c
  {
    hide Read, GoodLabel, GoodSizes, Target;
    NameShape(m, c, jumps, wire, visited);
    if IsPointer(m, c) {
      ReadPointer(m, c, jumps, wire, visited);
      ReadIsWellFormed(m, Target(m, c), jumps + 1, wire, visited + {Target(m, c)});
    } else if m[c] == 0 {
      ReadEnd(m, c, jumps, wire, visited, c + 1);
      assert GoodSizes([]) by { NoSizes(); }
    } else {
      var next, size := c + 1 + m[c], wire + m[c] + 1;
      ReadLabel(m, c, jumps, wire, visited, next, size);
      ReadIsWellFormed(m, next, jumps, size, visited);
      SizesInFront(LabelAt(m, c), Read(m, next, jumps, size, visited).labels);
    }
  }

  lemma NoSizes()
    ensures GoodSizes([])
  {
  }

  /** A name that is read has labels of 1 to 63 octets, at most 255 octets on the wire, and ends
      inside the message, after its beginning. */
  lemma NameIsWellFormed(m: seq<byte>, offset: nat)
    requires Read(m, offset, 0, 1, {}).Name?
    ensures WellFormed(Read(m, offset, 0, 1, {}).labels)
    ensures offset < Read(m, offset, 0, 1, {}).after <= |m|
  {
    ReadIsWellFormed(m, offset, 0, 1, {});
  }

  // ----- printing

  function Print(labels: seq<Label>): seq<byte> {
    if labels == [] then [0] else [Put8(|labels[0]|)] + labels[0] + Print(labels[1..])
  }

  /** The labels stand in a message, each behind its length, with a zero after the last. */
  ghost predicate NameAt(m: seq<byte>, at: nat, labels: seq<Label>)
    decreases |labels|
  {
    if labels == [] then at < |m| && m[at] == 0 else
      at < |m| && m[at] == |labels[0]| && LabelAt(m, at) == labels[0] && NameAt(m, at + 1 + |labels[0]|, labels[1..])
  }

  lemma {:induction false} PrintedIsAt(m: seq<byte>, at: nat, labels: seq<Label>)
    requires forall i :: 0 <= i < |labels| ==> 1 <= |labels[i]| <= 63
    requires Stands(m, at, Print(labels))
    ensures NameAt(m, at, labels) && |Print(labels)| == WireSize(labels)
    decreases |labels|
  {
    if labels == [] {
      assert m[at] == m[at..at + 1][0];
    } else {
      var next := at + 1 + |labels[0]|;
      StandsSplit(m, at, [Put8(|labels[0]|)] + labels[0], Print(labels[1..]), next);
      hide Stands;
      LabelStands(m, at, labels[0]);
      PrintedIsAt(m, next, labels[1..]);
    }
  }

  lemma LabelStands(m: seq<byte>, at: nat, l: Label)
    requires |l| <= 63 && Stands(m, at, [Put8(|l|)] + l)
    ensures at < |m| && m[at] == |l| && LabelAt(m, at) == l
  {
    StandsSplit(m, at, [Put8(|l|)], l, at + 1);
    assert m[at] == m[at..at + 1][0];
  }

  /** A name that stands uncompressed is read back from there, and wholly consumed. */
  lemma {:induction false} ReadStanding(
    m: seq<byte>, at: nat, labels: seq<Label>, jumps: nat, wire: nat, visited: set<nat>)
    requires forall i :: 0 <= i < |labels| ==> 1 <= |labels[i]| <= 63 && GoodLabel(labels[i])
    requires NameAt(m, at, labels)
    requires wire + WireSize(labels) <= MAX_WIRE + 1
    ensures Read(m, at, jumps, wire, visited) == Name(labels, at + WireSize(labels))
    decreases |labels|
  {
    hide GoodLabel, Read;
    if labels == [] {
      ReadEnd(m, at, jumps, wire, visited, at + 1);
    } else {
      var next, size := at + 1 + |labels[0]|, wire + |labels[0]| + 1;
      ReadStanding(m, next, labels[1..], jumps, size, visited);
      ReadLabel(m, at, jumps, wire, visited, next, size);
      assert [labels[0]] + labels[1..] == labels;
    }
  }

  /** A well-formed name printed anywhere in a message is read back, and wholly consumed. */
  lemma PrintedIsRead(m: seq<byte>, at: nat, labels: seq<Label>, next: nat)
    requires WellFormed(labels) && Stands(m, at, Print(labels)) && next == at + |Print(labels)|
    ensures Read(m, at, 0, 1, {}) == Name(labels, next)
  {
    PrintedIsAt(m, at, labels);
    hide Stands, Read, NameAt;
    ReadStanding(m, at, labels, 0, 1, {});
  }

  /** Decompression is transparent: the labels of any name that was read, printed without pointers
      and put anywhere into any message, are read back unchanged and wholly consumed. */
  lemma DecompressionIsTransparent(
    m: seq<byte>, offset: nat, before: seq<byte>, after: seq<byte>)
    requires Read(m, offset, 0, 1, {}).Name?
    ensures var labels := Read(m, offset, 0, 1, {}).labels;
            WellFormed(labels) && Read(before + Print(labels) + after, |before|, 0, 1, {})
              == Name(labels, |before| + |Print(labels)|)
  {
    NameIsWellFormed(m, offset);
    var labels := Read(m, offset, 0, 1, {}).labels;
    StandsBetween(before, Print(labels), after);
    PrintedIsRead(before + Print(labels) + after, |before|, labels, |before| + |Print(labels)|);
  }

  // ----- the set of visited targets is not needed

  /** Reading that only counts jumps; it also reports how many it made. */
  datatype Counted = Fails | Ends(labels: seq<Label>, after: nat, made: nat)

  function ReadCounting(m: seq<byte>, c: nat, jumps: nat, wire: nat): Counted
    decreases MAX_JUMPS - jumps, |m| - c
  {
    if c >= |m| then Fails
    else if IsPointer(m, c) then
      if c + 1 >= |m| || Target(m, c) >= |m| || jumps >= MAX_JUMPS then Fails else
        var r := ReadCounting(m, Target(m, c), jumps + 1, wire);
        if r.Fails? then Fails else Ends(r.labels, c + 2, r.made + 1)
    else if m[c] >= 64 then Fails
    else if m[c] == 0 then Ends([], c + 1, 0)
    else if c + 1 + m[c] > |m| || wire + m[c] + 1 > MAX_WIRE then Fails
    else if !GoodLabel(LabelAt(m, c)) then Fails
    else
      var r := ReadCounting(m, c + 1 + m[c], jumps, wire + m[c] + 1);
      if r.Fails? then Fails else Ends([LabelAt(m, c)] + r.labels, r.after, r.made)
  }

  /** Where reading ends depends only on where it starts, not on what was read before. */
  lemma {:induction false} CountingIsDeterminate(m: seq<byte>, c: nat, j: nat, w: nat, k: nat, v: nat)
    requires ReadCounting(m, c, j, w).Ends? && ReadCounting(m, c, k, v).Ends?
    ensures ReadCounting(m, c, j, w) == ReadCounting(m, c, k, v)
    decreases MAX_JUMPS - j, |m| - c
  {
    if IsPointer(m, c) {
      CountingIsDeterminate(m, Target(m, c), j + 1, w, k + 1, v);
    } else if m[c] != 0 {
      CountingIsDeterminate(m, c + 1 + m[c], j, w + m[c] + 1, k, v + m[c] + 1);
    }
  }

  /** Every visited target needs more jumps than are still to be made. */
  ghost predicate AllFarther(m: seq<byte>, visited: set<nat>, made: nat) {
    forall q :: q in visited ==> Farther(m, q, made)
  }

  ghost predicate Farther(m: seq<byte>, q: nat, made: nat) {
    exists j: nat, w: nat :: ReadCounting(m, q, j, w).Ends? && ReadCounting(m, q, j, w).made >= made
  }

  lemma {:induction false} VisitedIsRedundant(m: seq<byte>, c: nat, jumps: nat, wire: nat, visited: set<nat>)
    requires var r := ReadCounting(m, c, jumps, wire); r.Ends? ==> AllFarther(m, visited, r.made)
    ensures ReadCounting(m, c, jumps, wire).Fails? <==> Read(m, c, jumps, wire, visited).Bad?
    ensures var r := ReadCounting(m, c, jumps, wire);
            r.Ends? ==> Read(m, c, jumps, wire, visited) == Name(r.labels, r.after)
    decreases MAX_JUMPS - jumps, |m| - c
  {
    hide GoodLabel;
    var r := ReadCounting(m, c, jumps, wire);
    if c < |m| && IsPointer(m, c) {
      if c + 1 < |m| && Target(m, c) < |m| && jumps < MAX_JUMPS {
        var p := Target(m, c);
        if r.Ends? {
          FartherTargets(m, c, jumps, wire, visited);
        }
        VisitedIsRedundant(m, p, jumps + 1, wire, visited + {p});
      }
    } else if c < |m| && 0 < m[c] < 64 && c + 1 + m[c] <= |m| && wire + m[c] + 1 <= MAX_WIRE
      && GoodLabel(LabelAt(m, c)) {
      VisitedIsRedundant(m, c + 1 + m[c], jumps, wire + m[c] + 1, visited);
    }
  }

  /** Following a pointer towards the end: the target was not visited, and joins the farther ones. */
  lemma FartherTargets(m: seq<byte>, c: nat, jumps: nat, wire: nat, visited: set<nat>)
    requires jumps < MAX_JUMPS && IsPointer(m, c) && c + 1 < |m| && Target(m, c) < |m|
    requires ReadCounting(m, c, jumps, wire).Ends? && AllFarther(m, visited, ReadCounting(m, c, jumps, wire).made)
    ensures Target(m, c) !in visited
    ensures AllFarther(m, visited + {Target(m, c)}, ReadCounting(m, Target(m, c), jumps + 1, wire).made)
  {
    var p := Target(m, c);
    var next := ReadCounting(m, p, jumps + 1, wire);
    if p in visited {
      assert Farther(m, p, next.made + 1);
      var j: nat, w: nat :| ReadCounting(m, p, j, w).Ends? && ReadCounting(m, p, j, w).made >= next.made + 1;
      CountingIsDeterminate(m, p, j, w, jumps + 1, wire);
    }
    forall q | q in visited + {p} ensures Farther(m, q, next.made) {
      if q == p {
        assert next.Ends?;
      } else {
        assert Farther(m, q, next.made + 1);
        var j: nat, w: nat :| ReadCounting(m, q, j, w).Ends? && ReadCounting(m, q, j, w).made >= next.made + 1;
      }
    }
  }

  /** The check for looping pointers never changes the result: the bound on jumps alone already
      refuses exactly the same names. */
  lemma LoopCheckIsRedundant(m: seq<byte>, offset: nat)
    ensures ReadCounting(m, offset, 0, 1).Fails? <==> Read(m, offset, 0, 1, {}).Bad?
    ensures var r := ReadCounting(m, offset, 0, 1);
            r.Ends? ==> Read(m, offset, 0, 1, {}) == Name(r.labels, r.after)
  {
    VisitedIsRedundant(m, offset, 0, 1, {});
  }

  // ----- pointers

  /** No reading makes more jumps than are left. */
  lemma {:induction false} MadeFits(m: seq<byte>, c: nat, jumps: nat, wire: nat)
    requires jumps <= MAX_JUMPS && ReadCounting(m, c, jumps, wire).Ends?
    ensures jumps + ReadCounting(m, c, jumps, wire).made <= MAX_JUMPS
    decreases MAX_JUMPS - jumps, |m| - c
  {
    hide GoodLabel;
    if IsPointer(m, c) {
      MadeFits(m, Target(m, c), jumps + 1, wire);
    } else if m[c] != 0 {
      MadeFits(m, c + 1 + m[c], jumps, wire + m[c] + 1);
    }
  }

  /** A name that can be read after some jumps can be read after any number that leaves enough of them. */
  lemma {:induction false} JumpsShift(m: seq<byte>, c: nat, jumps: nat, wire: nat, others: nat)
    requires ReadCounting(m, c, jumps, wire).Ends? && others + ReadCounting(m, c, jumps, wire).made <= MAX_JUMPS
    ensures ReadCounting(m, c, others, wire) == ReadCounting(m, c, jumps, wire)
    decreases MAX_JUMPS - jumps, |m| - c
  {
    hide GoodLabel;
    if IsPointer(m, c) {
      JumpsShift(m, Target(m, c), jumps + 1, wire, others + 1);
    } else if m[c] != 0 {
      JumpsShift(m, c + 1 + m[c], jumps, wire + m[c] + 1, others);
    }
  }

  /** A pointer stands for the name at its target: it is a name if and only if what is read at the target by
      itself is one that makes fewer than sixteen jumps, and then it has its labels, and only the pointer
      is consumed. */
  lemma PointerStandsForTarget(m: seq<byte>, c: nat)
    requires c + 1 < |m| && m[c] >= 192 && Target(m, c) < |m|
    ensures Target(m, c) == (m[c] as int - 192) * 256 + m[c + 1]
    ensures var name, target := Read(m, c, 0, 1, {}), Read(m, Target(m, c), 0, 1, {});
            var alone := ReadCounting(m, Target(m, c), 0, 1);
            && (target.Name? <==> alone.Ends?)
            && (name.Name? <==> alone.Ends? && alone.made < 16)
            && (name.Name? ==> name == Name(target.labels, c + 2))
  {
    var p := Target(m, c);
    LoopCheckIsRedundant(m, c);
    LoopCheckIsRedundant(m, p);
    var after, alone := ReadCounting(m, p, 1, 1), ReadCounting(m, p, 0, 1);
    assert ReadCounting(m, c, 0, 1) == if after.Fails? then Fails else Ends(after.labels, c + 2, after.made + 1);
    hide ReadCounting, Read;
    if after.Ends? {
      MadeFits(m, p, 1, 1);
      JumpsShift(m, p, 1, 1, 0);
    } else if alone.Ends? && alone.made < MAX_JUMPS {
      JumpsShift(m, p, 0, 1, 1);
    }
  }

  // ----- labels

  /** What was read before a name only takes away from the length it may have. */
  lemma {:induction false} WireShift(m: seq<byte>, c: nat, jumps: nat, wire: nat, more: nat)
    requires 1 <= wire <= more <= MAX_WIRE
    ensures var r := ReadCounting(m, c, jumps, wire);
            && (ReadCounting(m, c, jumps, more).Ends? <==> r.Ends? && more + WireSize(r.labels) <= MAX_WIRE + 1)
            && (r.Ends? ==> wire + WireSize(r.labels) <= MAX_WIRE + 1)
    decreases MAX_JUMPS - jumps, |m| - c
  {
    hide GoodLabel, WireSize;
    LastSize();
    if c < |m| && IsPointer(m, c) {
      if c + 1 < |m| && Target(m, c) < |m| && jumps < MAX_JUMPS {
        WireShift(m, Target(m, c), jumps + 1, wire, more);
      }
    } else if c < |m| && 0 < m[c] < 64 && c + 1 + m[c] <= |m| && GoodLabel(LabelAt(m, c)) {
      var next := c + 1 + m[c];
      if wire + m[c] + 1 <= MAX_WIRE {
        var rest := ReadCounting(m, next, jumps, wire + m[c] + 1);
        if rest.Ends? {
          FrontSize(LabelAt(m, c), rest.labels);
        }
        if more + m[c] + 1 <= MAX_WIRE {
          WireShift(m, next, jumps, wire + m[c] + 1, more + m[c] + 1);
        } else {
          WireShift(m, next, jumps, wire + m[c] + 1, wire + m[c] + 1);
        }
      }
    }
  }

  lemma LastSize()
    ensures WireSize([]) == 1
  {
  }

  lemma FrontSize(l: Label, rest: seq<Label>)
    ensures WireSize([l] + rest) == |l| + 1 + WireSize(rest) && WireSize(rest) >= 1
  {
    SizeIsPositive(rest);
    assert ([l] + rest)[1..] == rest;
  }

  lemma {:induction false} SizeIsPositive(labels: seq<Label>)
    ensures WireSize(labels) >= 1
  {
    if labels != [] {
      SizeIsPositive(labels[1..]);
    }
  }

  /** A label stands before the name behind it, pointers in that name included: together they are a name if
      and only if the label fits and is good, the rest is a name, and they are not longer than 255 octets. */
  lemma LabelStandsBeforeRest(m: seq<byte>, c: nat, next: nat)
    requires c < |m| && 1 <= m[c] <= 63 && next == c + 1 + m[c]
    ensures var name, rest := Read(m, c, 0, 1, {}), Read(m, next, 0, 1, {});
            && (name.Name? <==>
                  && next <= |m| && GoodLabel(m[c + 1..next])
                  && rest.Name? && m[c] + 1 + WireSize(rest.labels) <= 255)
            && (name.Name? ==> name == Name([m[c + 1..next]] + rest.labels, rest.after))
  {
    hide Read, GoodLabel, WireSize;
    LoopCheckIsRedundant(m, c);
    LoopCheckIsRedundant(m, next);
    if next <= |m| && GoodLabel(LabelAt(m, c)) {
      var size := 1 + m[c] + 1;
      WireShift(m, next, 0, 1, size);
      var rest, behind := ReadCounting(m, next, 0, 1), ReadCounting(m, next, 0, size);
      if rest.Ends? && behind.Ends? {
        CountingIsDeterminate(m, next, 0, 1, 0, size);
      }
    }
  }

  /** What else a name can begin with: nothing is a name that begins with the end of the message, a length of
      64 to 191, or a pointer that is cut off or leads out of the message; a zero is the empty name. */
  lemma OtherBeginnings(m: seq<byte>, c: nat)
    ensures c >= |m| || 64 <= m[c] < 192 ==> Read(m, c, 0, 1, {}).Bad?
    ensures c < |m| && m[c] >= 192 && (c + 1 == |m| || (m[c] as int - 192) * 256 + m[c + 1] >= |m|) ==> Read(m, c, 0, 1, {}).Bad?
    ensures c < |m| && m[c] == 0 ==> Read(m, c, 0, 1, {}) == Name([], c + 1)
  {
  }
}
