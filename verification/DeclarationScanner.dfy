/** The declaration window of `_parse_stream` (nmap_xml.py): a document arrives in chunks, and
    entity declarations and all but one exact document type declaration are refused, although a
    declaration may be cut anywhere. Bytes are characters; only ASCII letters have two cases. */
module DeclarationScanner {
  const ENTITY := "<!ENTITY"
  const MARKER := "<!DOCTYPE"
  const CANONICAL := "<!DOCTYPE NMAPRUN>"

  function UpperChar(c: char): char {
    if 'a' <= c <= 'z' then (c as int - 32) as char else c
  }

  /** `bytes.upper`. */
  function Upper(s: string): string {
    if s == [] then [] else Upper(s[..|s| - 1]) + [UpperChar(s[|s| - 1])]
  }

  /** The same letter, in whatever case, or the same character. */
  predicate SameLetter(a: char, b: char) {
    a == b || ('a' <= a <= 'z' && a as int == b as int + 32) || ('a' <= b <= 'z' && b as int == a as int + 32)
  }

  /** Two texts agree in upper case if and only if they differ in nothing but the case of letters. */
  lemma {:induction false} UpperIgnoresCase(s: string, t: string)
    ensures Upper(s) == Upper(t) <==> |s| == |t| && forall i :: 0 <= i < |s| ==> SameLetter(s[i], t[i])
  {
    UpperSize(s);
    UpperSize(t);
    if s != [] && t != [] {
      var m, n := |s| - 1, |t| - 1;
      UpperIgnoresCase(s[..m], t[..n]);
      UpperSize(s[..m]);
      UpperSize(t[..n]);
      assert UpperChar(s[m]) == UpperChar(t[n]) <==> SameLetter(s[m], t[n]);
      assert Upper(s) == Upper(t) ==> Upper(s)[..m] == Upper(t)[..n] && Upper(s)[m] == Upper(t)[n];
      assert forall i :: 0 <= i < m ==> s[..m][i] == s[i];
      assert forall i :: 0 <= i < n ==> t[..n][i] == t[i];
    }
  }

  lemma {:induction false} UpperSize(s: string)
    ensures |Upper(s)| == |s|
  {
    if s != [] {
      UpperSize(s[..|s| - 1]);
    }
  }

  function Flatten(chunks: seq<string>): string {
    if chunks == [] then [] else Flatten(chunks[..|chunks| - 1]) + chunks[|chunks| - 1]
  }

  predicate At(t: string, i: int, p: string) {
    0 <= i && i + |p| <= |t| && t[i..i + |p|] == p
  }

  // ----- the specification, on the whole document

  /** No entity declaration, and every document type declaration is the canonical one. */
  ghost predicate Permitted(t: string) {
    && (forall i :: !At(t, i, ENTITY))
    && (forall i :: At(t, i, MARKER) ==> At(t, i, CANONICAL))
  }

  ghost predicate Acceptable(document: string, maxBytes: nat) {
    0 < |document| <= maxBytes && Permitted(Upper(document))
  }

  // ----- searching

  /** `bytes.find(p, start)`. */
  function Find(t: string, p: string, start: nat): (r: int)
    ensures r == -1 || start <= r
    decreases |t| - start
  {
    if start + |p| > |t| then -1
    else if t[start..start + |p|] == p then start
    else Find(t, p, start + 1)
  }

  lemma {:induction false} FindIsFirst(t: string, p: string, start: nat)
    ensures Find(t, p, start) >= 0 ==> At(t, Find(t, p, start), p)
    ensures forall i :: start <= i && At(t, i, p) ==> 0 <= Find(t, p, start) <= i
    decreases |t| - start
  {
    if start + |p| <= |t| && t[start..start + |p|] != p {
      FindIsFirst(t, p, start + 1);
      forall i | start <= i && At(t, i, p) ensures 0 <= Find(t, p, start) <= i {
        assert i != start;
      }
    }
  }

  lemma CanonicalShape()
    ensures |CANONICAL| == 18 && CANONICAL[..9] == MARKER
    ensures forall k :: 0 <= k < 18 ==> (CANONICAL[k] == '<' <==> k == 0) && (CANONICAL[k] == '>' <==> k == 17)
  {
  }

  /** A text that can neither grow into nor already is the canonical declaration. */
  predicate Hopeless(f: string) {
    !(f <= CANONICAL) && !(CANONICAL <= f)
  }

  /** What is known of the markers of a window once it has been searched. */
  ghost predicate Searched(w: string, pending: string) {
    && |pending| <= |w|
    && (pending != [] ==> pending <= CANONICAL && |pending| < 18 && MARKER <= pending && w[|w| - |pending|..] == pending)
    && (forall i :: At(w, i, MARKER) ==> At(w, i, CANONICAL) || (pending != [] && i == |w| - |pending|))
  }

  /** The inner loop: each document type marker of a window in turn. */
  method SearchWindow(w: string) returns (ok: bool, pending: string)
    ensures ok ==> Searched(w, pending)
    ensures !ok ==> exists j :: At(w, j, MARKER) && Hopeless(w[j..])
  {
    pending := [];
    var searchFrom := 0;
    FindIsFirst(w, MARKER, searchFrom);
    var doctypeAt := Find(w, MARKER, searchFrom);
    while doctypeAt >= 0
      invariant 0 <= searchFrom <= |w| && doctypeAt == Find(w, MARKER, searchFrom)
      invariant forall i :: 0 <= i < searchFrom && At(w, i, MARKER) ==> At(w, i, CANONICAL)
      decreases |w| - searchFrom
    {
      FindIsFirst(w, MARKER, searchFrom);
      FindIsFirst(w, ">", doctypeAt);
      var declarationEnd := Find(w, ">", doctypeAt);
      if declarationEnd < 0 {
        var fragment := w[doctypeAt..];
        Unterminated(w, doctypeAt);
        if !(fragment <= CANONICAL) {
          return false, [];
        }
        PendingFound(w, searchFrom, doctypeAt);
        return true, fragment;
      }
      var declaration := w[doctypeAt..declarationEnd + 1];
      if declaration != CANONICAL {
        NotCanonical(w, doctypeAt, declarationEnd);
        return false, [];
      }
      CanonicalFound(w, searchFrom, doctypeAt);
      searchFrom := declarationEnd + 1;
      doctypeAt := Find(w, MARKER, searchFrom);
    }
    FindIsFirst(w, MARKER, searchFrom);
    ok := true;
  }

  lemma CanonicalHasEnd(w: string, j: nat)
    requires j <= |w| && CANONICAL <= w[j..]
    ensures At(w, j + 17, ">") && w[j..j + 18] == CANONICAL
  {
    CanonicalShape();
    assert w[j..][17] == '>';
  }

  /** A marker after which no '>' comes does not start a canonical declaration. */
  lemma Unterminated(w: string, j: nat)
    requires At(w, j, MARKER) && forall i :: j <= i ==> !At(w, i, ">")
    ensures !(CANONICAL <= w[j..])
  {
    if CANONICAL <= w[j..] {
      CanonicalHasEnd(w, j);
    }
  }

  /** In a text between the marker and the whole canonical declaration, '>' is the last character. */
  lemma EndOfPrefix(f: string, k: nat)
    requires k < |f| && f[k] == '>' && f <= CANONICAL
    ensures k == 17 && f == CANONICAL
  {
    CanonicalShape();
    assert CANONICAL[k] == '>';
  }

  lemma FirstEnd(w: string, j: nat, e: nat)
    requires j <= e && At(w, e, ">") && CANONICAL <= w[j..]
    requires forall i :: j <= i && At(w, i, ">") ==> e <= i
    ensures w[j..e + 1] == CANONICAL
  {
    CanonicalShape();
    CanonicalHasEnd(w, j);
    assert w[j..][e - j] == w[e] == '>';
    assert CANONICAL[e - j] == '>';
  }

  lemma NotCanonical(w: string, j: nat, e: nat)
    requires At(w, j, MARKER) && j <= e && At(w, e, ">") && w[j..e + 1] != CANONICAL
    requires forall i :: j <= i && At(w, i, ">") ==> e <= i
    ensures Hopeless(w[j..])
  {
    var f := w[j..];
    assert f[e - j] == w[e] == '>';
    assert w[j..e + 1] == f[..e + 1 - j];
    if f <= CANONICAL {
      EndOfPrefix(f, e - j);
    } else if CANONICAL <= f {
      FirstEnd(w, j, e);
    }
  }

  lemma MarkerStarts(w: string, i: int)
    requires At(w, i, MARKER)
    ensures w[i] == '<'
  {
    assert w[i] == w[i..i + 9][0];
  }

  /** No marker starts strictly inside a canonical declaration or a beginning of one. */
  lemma NoMarkerInside(w: string, j: nat, n: nat, i: int)
    requires j + n <= |w| && w[j..j + n] <= CANONICAL && j < i < j + n
    ensures !At(w, i, MARKER)
  {
    CanonicalShape();
    assert w[j..j + n][i - j] == CANONICAL[i - j];
    if At(w, i, MARKER) {
      MarkerStarts(w, i);
    }
  }

  lemma PendingFound(w: string, from: nat, j: nat)
    requires from <= j && At(w, j, MARKER) && w[j..] <= CANONICAL && !(CANONICAL <= w[j..])
    requires forall i :: 0 <= i < from && At(w, i, MARKER) ==> At(w, i, CANONICAL)
    requires forall i :: from <= i && At(w, i, MARKER) ==> j <= i
    ensures Searched(w, w[j..])
  {
    CanonicalShape();
    forall i | At(w, i, MARKER) ensures At(w, i, CANONICAL) || i == j {
      if i > j {
        NoMarkerInside(w, j, |w| - j, i);
      }
    }
    assert w[j..][..9] == MARKER;
  }

  lemma CanonicalFound(w: string, from: nat, j: nat)
    requires from <= j && At(w, j, CANONICAL)
    requires forall i :: 0 <= i < from && At(w, i, MARKER) ==> At(w, i, CANONICAL)
    requires forall i :: from <= i && At(w, i, MARKER) ==> j <= i
    ensures forall i :: 0 <= i < j + 18 && At(w, i, MARKER) ==> At(w, i, CANONICAL)
  {
    CanonicalShape();
    forall i | j < i < j + 18 ensures !At(w, i, MARKER) {
      NoMarkerInside(w, j, 18, i);
    }
  }

  // ----- chunk by chunk

  /** The state kept between chunks: either an unfinished declaration or the last eight bytes. */
  ghost predicate Carried(seen: string, tail: string, pending: string) {
    && (forall i :: !At(seen, i, ENTITY))
    && Searched(seen, pending)
    && (pending == [] ==> |tail| <= |seen| && tail == seen[|seen| - |tail|..] && |tail| == if |seen| < 8 then |seen| else 8)
  }

  function Window(tail: string, pending: string, chunk: string): string {
    (if pending != [] then pending else tail) + chunk
  }

  /** The window is the carried text and the new chunk, at the end of everything seen. */
  lemma WindowIsSuffix(seen: string, tail: string, pending: string, chunk: string)
    requires Carried(seen, tail, pending)
    ensures var w := Window(tail, pending, chunk);
            |w| <= |seen + chunk| && w == (seen + chunk)[|seen + chunk| - |w|..]
            && (|seen| < 8 && pending == [] ==> w == seen + chunk)
            && (|seen| >= 8 || pending != [] ==> |w| >= |chunk| + 8)
  {
    if pending != [] {
      assert |pending| >= 9;
    }
  }

  lemma AtSuffix(t: string, w: string, i: int, p: string)
    requires |w| <= |t| && w == t[|t| - |w|..]
    ensures At(w, i, p) ==> At(t, i + |t| - |w|, p)
    ensures i >= |t| - |w| && At(t, i, p) ==> At(w, i - (|t| - |w|), p)
  {
    if At(w, i, p) {
      assert w[i..i + |p|] == t[i + |t| - |w|..i + |t| - |w| + |p|];
    }
    if i >= |t| - |w| && At(t, i, p) {
      var k := i - (|t| - |w|);
      assert w[k..k + |p|] == t[i..i + |p|];
    }
  }

  lemma AtPrefix(t: string, more: string, i: int, p: string)
    ensures At(t, i, p) ==> At(t + more, i, p)
    ensures i + |p| <= |t| && At(t + more, i, p) ==> At(t, i, p)
  {
    if 0 <= i && i + |p| <= |t| {
      assert (t + more)[i..i + |p|] == t[i..i + |p|];
    }
  }

  /** Everything that only becomes visible with the new chunk lies inside the window. */
  lemma NewTextIsInWindow(seen: string, tail: string, pending: string, chunk: string, i: int, p: string)
    requires Carried(seen, tail, pending) && |p| <= 9
    requires At(seen + chunk, i, p) && !At(seen, i, p)
    ensures var w := Window(tail, pending, chunk);
            At(w, i - (|seen + chunk| - |w|), p)
  {
    WindowIsSuffix(seen, tail, pending, chunk);
    AtPrefix(seen, chunk, i, p);
    AtSuffix(seen + chunk, Window(tail, pending, chunk), i, p);
  }

  lemma NoEntityInWindow(seen: string, tail: string, pending: string, chunk: string)
    requires Carried(seen, tail, pending)
    requires forall i :: !At(Window(tail, pending, chunk), i, ENTITY)
    ensures forall i :: !At(seen + chunk, i, ENTITY)
  {
    forall i ensures !At(seen + chunk, i, ENTITY) {
      if At(seen + chunk, i, ENTITY) {
        NewTextIsInWindow(seen, tail, pending, chunk, i, ENTITY);
      }
    }
  }

  lemma WindowSearched(seen: string, tail: string, pending: string, chunk: string, now: string)
    requires Carried(seen, tail, pending)
    requires Searched(Window(tail, pending, chunk), now)
    ensures Searched(seen + chunk, now)
  {
    var w, all := Window(tail, pending, chunk), seen + chunk;
    WindowIsSuffix(seen, tail, pending, chunk);
    assert now != [] ==> all[|all| - |now|..] == w[|w| - |now|..];
    hide Carried, Window;
    forall i | At(all, i, MARKER)
      ensures At(all, i, CANONICAL) || (now != [] && i == |all| - |now|)
    {
      MarkerInAll(seen, tail, pending, chunk, now, i);
    }
  }

  /** A marker of everything seen was known before, or lies in the window. */
  lemma MarkerInAll(seen: string, tail: string, pending: string, chunk: string, now: string, i: int)
    requires Carried(seen, tail, pending) && Searched(Window(tail, pending, chunk), now)
    requires At(seen + chunk, i, MARKER)
    ensures At(seen + chunk, i, CANONICAL) || (now != [] && i == |seen + chunk| - |now|)
  {
    var w, all := Window(tail, pending, chunk), seen + chunk;
    WindowIsSuffix(seen, tail, pending, chunk);
    if At(seen, i, MARKER) && At(seen, i, CANONICAL) {
      AtPrefix(seen, chunk, i, CANONICAL);
    } else {
      if At(seen, i, MARKER) {
        OldMarkerIsPending(seen, tail, pending, i);
        AtSuffix(all, w, i, MARKER);
      } else {
        NewTextIsInWindow(seen, tail, pending, chunk, i, MARKER);
      }
      hide At, Carried, Window;
      AtSuffix(all, w, i - (|all| - |w|), CANONICAL);
      MarkerInWindow(w, now, i - (|all| - |w|));
    }
  }

  lemma OldMarkerIsPending(seen: string, tail: string, pending: string, i: int)
    requires Carried(seen, tail, pending) && At(seen, i, MARKER) && !At(seen, i, CANONICAL)
    ensures pending != [] && i == |seen| - |pending|
  {
  }

  lemma MarkerInWindow(w: string, now: string, j: int)
    requires Searched(w, now) && At(w, j, MARKER)
    ensures At(w, j, CANONICAL) || (now != [] && j == |w| - |now|)
  {
  }

  /** A beginning of the canonical declaration can only grow out of hope. */
  lemma GrowsIntoCanonical(t: string, more: string, j: int)
    requires 0 <= j <= |t| && At(t + more, j, CANONICAL)
    ensures !Hopeless(t[j..])
  {
    var f := t[j..];
    var g := (t + more)[j..j + 18];
    if |f| >= 18 {
      assert f[..18] == g;
    } else {
      assert f == g[..|f|];
    }
  }

  /** What makes the scanner refuse makes every continuation of the document refusable. */
  lemma BadMarkerIsForever(t: string, more: string, j: int)
    requires At(t, j, MARKER) && Hopeless(t[j..])
    ensures !Permitted(t + more)
  {
    AtPrefix(t, more, j, MARKER);
    if At(t + more, j, CANONICAL) {
      GrowsIntoCanonical(t, more, j);
    }
  }

  lemma EntityIsForever(t: string, more: string, j: int)
    requires At(t, j, ENTITY)
    ensures !Permitted(t + more)
  {
    AtPrefix(t, more, j, ENTITY);
  }

  lemma {:induction false} UpperAppend(s: string, t: string)
    ensures Upper(s + t) == Upper(s) + Upper(t) && |Upper(s)| == |s|
  {
    if t == [] {
      assert s + t == s;
      if s != [] {
        assert s[..|s| - 1] + [s[|s| - 1]] == s;
        UpperAppend(s[..|s| - 1], []);
        assert s[..|s| - 1] + [] == s[..|s| - 1];
      }
    } else {
      assert (s + t)[..|s + t| - 1] == s + t[..|t| - 1];
      UpperAppend(s, t[..|t| - 1]);
    }
  }

  lemma {:induction false} FlattenPrefix(chunks: seq<string>, k: nat) returns (rest: string)
    requires k <= |chunks|
    ensures Flatten(chunks) == Flatten(chunks[..k]) + rest
  {
    if k == |chunks| {
      assert chunks[..k] == chunks;
      rest := [];
    } else {
      var n := |chunks| - 1;
      assert chunks[..n][..k] == chunks[..k];
      var r := FlattenPrefix(chunks[..n], k);
      rest := r + chunks[n];
    }
  }

  ghost predicate Refusable(t: string) {
    forall more :: !Permitted(t + more)
  }

  /** One turn of the chunk loop. */
  method ScanChunk(declarationTail: string, pendingDoctype: string, chunk: string, ghost seen: string)
    returns (ok: bool, tail: string, pending: string)
    requires Carried(seen, declarationTail, pendingDoctype)
    ensures ok ==> Carried(seen + chunk, tail, pending)
    ensures !ok ==> Refusable(seen + chunk)
  {
    hide Permitted, Carried, Searched, Hopeless;
    var window := Window(declarationTail, pendingDoctype, chunk);
    WindowIsSuffix(seen, declarationTail, pendingDoctype, chunk);
    FindIsFirst(window, ENTITY, 0);
    if Find(window, ENTITY, 0) >= 0 {
      EntityInWindow(seen + chunk, window, Find(window, ENTITY, 0));
      return false, "", "";
    }
    NoEntityInWindow(seen, declarationTail, pendingDoctype, chunk);
    ok, pending := SearchWindow(window);
    if !ok {
      BadMarkerInWindow(seen + chunk, window);
      return false, "", "";
    }
    WindowSearched(seen, declarationTail, pendingDoctype, chunk, pending);
    tail := if pending != [] then "" else if |window| >= 8 then window[|window| - 8..] else window;
    CarryOn(seen, declarationTail, pendingDoctype, chunk, tail, pending);
  }

  lemma CarryOn(
    seen: string, tail: string, pending: string, chunk: string, nextTail: string, nextPending: string)
    requires Carried(seen, tail, pending) && Searched(seen + chunk, nextPending)
    requires forall i :: !At(seen + chunk, i, ENTITY)
    requires var w := Window(tail, pending, chunk);
             nextPending == [] ==> nextTail == if |w| >= 8 then w[|w| - 8..] else w
    ensures Carried(seen + chunk, nextTail, nextPending)
  {
    WindowIsSuffix(seen, tail, pending, chunk);
  }

  lemma EntityInWindow(t: string, window: string, j: int)
    requires |window| <= |t| && window == t[|t| - |window|..] && At(window, j, ENTITY)
    ensures Refusable(t)
  {
    AtSuffix(t, window, j, ENTITY);
    forall more ensures !Permitted(t + more) {
      EntityIsForever(t, more, j + |t| - |window|);
    }
  }

  lemma BadMarkerInWindow(t: string, window: string)
    requires |window| <= |t| && window == t[|t| - |window|..]
    requires exists j :: At(window, j, MARKER) && Hopeless(window[j..])
    ensures Refusable(t)
  {
    var j :| At(window, j, MARKER) && Hopeless(window[j..]);
    var i := j + |t| - |window|;
    AtSuffix(t, window, j, MARKER);
    assert t[i..] == window[j..];
    forall more ensures !Permitted(t + more) {
      BadMarkerIsForever(t, more, i);
    }
  }

  /** The whole document is what was seen, the next chunk and a rest. */
  lemma DocumentSplits(chunks: seq<string>, k: nat)
    requires k < |chunks|
    ensures Flatten(chunks[..k + 1]) == Flatten(chunks[..k]) + chunks[k]
    ensures Upper(Flatten(chunks[..k + 1])) == Upper(Flatten(chunks[..k])) + Upper(chunks[k])
    ensures Upper(Flatten(chunks[..k + 1])) <= Upper(Flatten(chunks))
    ensures |Flatten(chunks[..k + 1])| <= |Flatten(chunks)|
  {
    assert chunks[..k + 1][..k] == chunks[..k];
    UpperAppend(Flatten(chunks[..k]), chunks[k]);
    var rest := FlattenPrefix(chunks, k + 1);
    UpperAppend(Flatten(chunks[..k + 1]), rest);
  }

  /** The scan accepts exactly the acceptable documents, however they are cut into chunks. */
  method Scan(chunks: seq<string>, maxBytes: nat) returns (accepted: bool)
    requires forall c :: c in chunks ==> c != []
    ensures accepted <==> Acceptable(Flatten(chunks), maxBytes)
  {
    hide Carried, Searched, Permitted;
    var total := 0;
    var declarationTail, pendingDoctype := "", "";
    assert Carried("", "", "") by { NothingSeen(); }
    for k := 0 to |chunks|
      invariant total == |Flatten(chunks[..k])| <= maxBytes
      invariant Carried(Upper(Flatten(chunks[..k])), declarationTail, pendingDoctype)
    {
      hide Flatten, Upper, Acceptable;
      var chunk := chunks[k];
      DocumentSplits(chunks, k);
      total := total + |chunk|;
      if total > maxBytes {
        TooLong(chunks, maxBytes);
        return false;
      }
      var ok;
      ok, declarationTail, pendingDoctype :=
        ScanChunk(declarationTail, pendingDoctype, Upper(chunk), Upper(Flatten(chunks[..k])));
      if !ok {
        RefusedForGood(chunks, k + 1, maxBytes);
        return false;
      }
    }
    assert chunks[..|chunks|] == chunks;
    UpperAppend(Flatten(chunks), "");
    if total == 0 {
      return false;
    }
    if pendingDoctype != [] {
      IncompleteIsRefused(Upper(Flatten(chunks)), declarationTail, pendingDoctype);
      return false;
    }
    CompleteIsPermitted(Upper(Flatten(chunks)), declarationTail);
    accepted := true;
  }

  lemma NothingSeen()
    ensures Carried("", "", "")
  {
  }

  lemma TooLong(chunks: seq<string>, maxBytes: nat)
    requires |Flatten(chunks)| > maxBytes
    ensures !Acceptable(Flatten(chunks), maxBytes)
  {
  }

  lemma RefusedForGood(chunks: seq<string>, k: nat, maxBytes: nat)
    requires k <= |chunks| && Refusable(Upper(Flatten(chunks[..k])))
    requires Upper(Flatten(chunks[..k])) <= Upper(Flatten(chunks))
    ensures !Acceptable(Flatten(chunks), maxBytes)
  {
    hide Permitted, Upper, Flatten;
    var t, whole := Upper(Flatten(chunks[..k])), Upper(Flatten(chunks));
    assert whole == t + whole[|t|..];
  }

  lemma CompleteIsPermitted(t: string, tail: string)
    requires Carried(t, tail, "")
    ensures Permitted(t)
  {
  }

  lemma IncompleteIsRefused(t: string, tail: string, pending: string)
    requires Carried(t, tail, pending) && pending != []
    ensures !Permitted(t)
  {
    var i := |t| - |pending|;
    assert t[i..i + 9] == t[i..][..9] == pending[..9] == MARKER;
    assert At(t, i, MARKER);
  }

  /** Cutting the same bytes differently never changes the verdict. */
  method CutIndependent(a: seq<string>, b: seq<string>, maxBytes: nat) returns (first: bool, second: bool)
    requires (forall c :: c in a ==> c != []) && (forall c :: c in b ==> c != []) && Flatten(a) == Flatten(b)
    ensures first == second
  {
    first := Scan(a, maxBytes);
    second := Scan(b, maxBytes);
  }
}
