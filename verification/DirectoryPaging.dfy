/** Active Directory paging (`ActiveDirectoryCollector._run_query`, ad_collection.py): entries arrive in
    pages, are keyed and merged, and the query stops at a number of records. An entry is what
    `_sanitize_entry` makes of it: its key if it has one, its kept attributes, how many were removed. */
module DirectoryPaging {
  import opened Options

  datatype Entry = Entry(key: Option<nat>, attributes: map<nat, nat>, removed: nat)
  datatype Page = Page(entries: seq<Entry>, cookie: nat)   // cookie 0 is the empty one
  datatype Record = Record(key: nat, attributes: map<nat, nat>)

  /** The records so far, where each key stands, how many attributes and entries were left out. */
  datatype Query = Query(records: seq<Record>, positions: map<nat, nat>, filtered: nat, omitted: nat)
  datatype Result = Found(query: Query, limited: bool) | CookieRepeated | ServerFailed

  const START := Query([], map[], 0, 0)

  // ----- one entry, and a stream of entries

  function Step(q: Query, e: Entry): Query {
    var filtered := q.filtered + e.removed;
    if e.key.None? then q.(filtered := filtered, omitted := q.omitted + 1)
    else if e.key.value in q.positions && q.positions[e.key.value] < |q.records| then
      var i := q.positions[e.key.value];
      q.(records := q.records[i := Record(e.key.value, q.records[i].attributes + e.attributes)], filtered := filtered)
    else
      q.(records := q.records + [Record(e.key.value, e.attributes)],
         positions := q.positions[e.key.value := |q.records|], filtered := filtered)
  }

  /** All of a stream, one entry after the other. */
  function Plain(entries: seq<Entry>): Query {
    if entries == [] then START else Step(Plain(entries[..|entries| - 1]), entries[|entries| - 1])
  }

  /** Where a stream is cut: behind the entry with which the records first number `max`. */
  function Cut(entries: seq<Entry>, max: nat): nat {
    if entries == [] then 0 else
      var c := Cut(entries[..|entries| - 1], max);
      if c < |entries| - 1 || |Plain(entries[..|entries| - 1]).records| >= max then c else |entries|
  }

  /** The answer for a stream: its records up to the cut. */
  function Answer(entries: seq<Entry>, max: nat): Query {
    var c := Cut(entries, max);
    Plain(if c <= |entries| then entries[..c] else entries)
  }

  lemma PlainStep(entries: seq<Entry>, e: Entry)
    ensures Plain(entries + [e]) == Step(Plain(entries), e)
  {
    assert (entries + [e])[..|entries|] == entries;
  }

  function Flatten(pages: seq<Page>): seq<Entry> {
    if pages == [] then [] else Flatten(pages[..|pages| - 1]) + pages[|pages| - 1].entries
  }

  // ----- the loop over pages

  /** The records behind what was before do not number `max` at any of the first places. */
  ghost predicate Below(before: seq<Entry>, entries: seq<Entry>, places: nat, max: nat)
    requires places <= |entries| + 1
  {
    forall n :: 0 <= n < places ==> |Plain(before + entries[..n]).records| < max
  }

  lemma EntryTaken(before: seq<Entry>, entries: seq<Entry>, i: nat, max: nat)
    requires i < |entries| && Below(before, entries, i, max) && |Plain(before + entries[..i]).records| < max
    ensures Plain(before + entries[..i + 1]) == Step(Plain(before + entries[..i]), entries[i])
    ensures Below(before, entries, i + 1, max)
  {
    hide Step, Plain;
    PlainStep(before + entries[..i], entries[i]);
    assert before + entries[..i] + [entries[i]] == before + entries[..i + 1];
  }

  /** The records of a page, entry by entry, up to the limit. */
  method TakePage(q: Query, page: Page, max: nat, ghost before: seq<Entry>)
    returns (r: Query, ghost taken: nat)
    requires q == Plain(before) && |q.records| < max
    ensures taken <= |page.entries| && r == Plain(before + page.entries[..taken])
    ensures Below(before, page.entries, taken, max)
    ensures |r.records| < max ==> taken == |page.entries|
  {
    r, taken := q, 0;
    assert before + page.entries[..0] == before;
    assert Below(before, page.entries, 0, max);
    hide Plain, Step, Below;
    for i := 0 to |page.entries|
      invariant taken == i && r == Plain(before + page.entries[..i])
      invariant |r.records| < max && Below(before, page.entries, i, max)
    {
      EntryTaken(before, page.entries, i, max);
      r := Merge(r, page.entries[i]);
      taken := i + 1;
      if |r.records| >= max {
        return;
      }
    }
  }

  method Merge(q: Query, e: Entry) returns (r: Query)
    ensures r == Step(q, e)
  {
    r := q.(filtered := q.filtered + e.removed);
    if e.key.None? {
      return r.(omitted := r.omitted + 1);
    }
    var key := e.key.value;
    if key in r.positions && r.positions[key] < |r.records| {
      var position := r.positions[key];
      var combined := r.records[position].attributes + e.attributes;
      return r.(records := r.records[position := Record(key, combined)]);
    }
    return r.(positions := r.positions[key := |r.records|], records := r.records + [Record(key, e.attributes)]);
  }

  /** How a query over given answers ends: at the page with the empty cookie, or where the limit is
      reached, or at a repeated cookie, or because the server gives no further answer. */
  function Outcome(pages: seq<Page>, k: nat, max: nat, seen: set<nat>): Result
    requires k <= |pages|
    decreases |pages| - k
  {
    if k == |pages| then ServerFailed
    else
      var all := Flatten(pages[..k + 1]);
      if |Plain(all).records| >= max then Found(Answer(all, max), true)
      else if pages[k].cookie == 0 then Found(Plain(all), false)
      else if pages[k].cookie in seen then CookieRepeated
      else Outcome(pages, k + 1, max, seen + {pages[k].cookie})
  }

  lemma FlattenStep(pages: seq<Page>, k: nat)
    requires k < |pages|
    ensures Flatten(pages[..k + 1]) == Flatten(pages[..k]) + pages[k].entries
  {
    assert pages[..k + 1][..k] == pages[..k];
  }

  /** The cookie sent with request `i`: the empty one first, then that of the answer before. */
  function Cookie(pages: seq<Page>, i: nat): nat
    requires i <= |pages|
  {
    if i == 0 then 0 else pages[i - 1].cookie
  }

  /** Cookies that were sent in this order, none of them twice. */
  ghost predicate Requests(pages: seq<Page>, requested: seq<nat>) {
    && (forall i :: 0 <= i < |requested| ==> i <= |pages| && requested[i] == Cookie(pages, i))
    && forall i, j :: 0 <= i < j < |requested| ==> requested[i] != requested[j]
  }

  /** `_run_query`, given the answers the server gives one after the other. */
  method RunQuery(pages: seq<Page>, max: nat) returns (r: Result, ghost requested: seq<nat>)
    requires max >= 1
    ensures r == Outcome(pages, 0, max, {})
    ensures Requests(pages, requested)
    ensures r.Found? ==> 1 <= |requested| <= |pages|
  {
    var query := START;
    var cookie: nat, seen: set<nat> := 0, {};
    var k := 0;
    requested := [];
    assert pages[..0] == [];
    hide Plain, Flatten, Answer, Outcome, Asked, Requests, Below;
    while k < |pages|
      invariant 0 <= k <= |pages| && Outcome(pages, 0, max, {}) == Outcome(pages, k, max, seen)
      invariant query == Plain(Flatten(pages[..k])) && |query.records| < max
      invariant |requested| == k && Asked(pages, k, requested, cookie, seen)
    {
      AskedDiffer(pages, k, requested, cookie, seen);
      AskedStep(pages, k, requested, cookie, seen);
      requested := requested + [cookie];
      ghost var before := Flatten(pages[..k]);
      FlattenStep(pages, k);
      ghost var taken;
      query, taken := TakePage(query, pages[k], max, before);
      OutcomeStep(pages, k, max, seen);
      if |query.records| >= max {
        LimitReached(before, pages[k].entries, taken, max);
        return Found(query, true), requested;
      }
      assert pages[k].entries[..taken] == pages[k].entries;
      if pages[k].cookie == 0 {
        return Found(query, false), requested;
      }
      if pages[k].cookie in seen {
        return CookieRepeated, requested;
      }
      seen := seen + {pages[k].cookie};
      cookie := pages[k].cookie;
      k := k + 1;
    }
    OutcomeEnd(pages, max, seen);
    AskedDiffer(pages, k, requested, cookie, seen);
    r := ServerFailed;
  }

  /** The requests made before page `k` comes, and the cookie for it. */
  ghost predicate Asked(pages: seq<Page>, k: nat, requested: seq<nat>, cookie: nat, seen: set<nat>) {
    && k <= |pages| && |requested| == k && cookie == Cookie(pages, k) && 0 !in seen
    && (if k == 0 then seen == {} else cookie in seen)
    && (forall i :: 0 <= i < k ==> requested[i] == Cookie(pages, i))
    && (forall i :: 0 <= i < k ==> (requested[i] in seen || requested[i] == 0) && requested[i] != cookie)
    && forall i, j :: 0 <= i < j < k ==> requested[i] != requested[j]
  }

  lemma AskedDiffer(pages: seq<Page>, k: nat, requested: seq<nat>, cookie: nat, seen: set<nat>)
    requires Asked(pages, k, requested, cookie, seen)
    ensures Requests(pages, requested) && Requests(pages, requested + [cookie])
  {
  }

  lemma AskedStep(pages: seq<Page>, k: nat, requested: seq<nat>, cookie: nat, seen: set<nat>)
    requires Asked(pages, k, requested, cookie, seen) && k < |pages|
    ensures pages[k].cookie != 0 && pages[k].cookie !in seen ==>
              Asked(pages, k + 1, requested + [cookie], pages[k].cookie, seen + {pages[k].cookie})
  {
  }

  lemma OutcomeStep(pages: seq<Page>, k: nat, max: nat, seen: set<nat>)
    requires k < |pages|
    ensures var all := Flatten(pages[..k + 1]);
            Outcome(pages, k, max, seen) ==
              if |Plain(all).records| >= max then Found(Answer(all, max), true)
              else if pages[k].cookie == 0 then Found(Plain(all), false)
              else if pages[k].cookie in seen then CookieRepeated
              else Outcome(pages, k + 1, max, seen + {pages[k].cookie})
  {
    hide Plain, Flatten, Answer;
  }

  lemma OutcomeEnd(pages: seq<Page>, max: nat, seen: set<nat>)
    ensures Outcome(pages, |pages|, max, seen) == ServerFailed
  {
  }

  // ----- the cut

  /** The records of a stream never become fewer. */
  lemma {:induction false} RecordsGrow(entries: seq<Entry>, n: nat)
    requires n <= |entries|
    ensures |Plain(entries[..n]).records| <= |Plain(entries).records|
  {
    if n < |entries| {
      assert entries[..|entries| - 1][..n] == entries[..n];
      RecordsGrow(entries[..|entries| - 1], n);
    } else {
      assert entries[..n] == entries;
    }
  }

  /** The cut is the first place where the records number `max`, or the end if they never do. */
  lemma {:induction false} CutIsFirst(entries: seq<Entry>, max: nat)
    ensures Cut(entries, max) <= |entries|
    ensures Cut(entries, max) == |entries| || |Plain(entries[..Cut(entries, max)]).records| >= max
    ensures forall n :: 0 <= n < Cut(entries, max) ==> |Plain(entries[..n]).records| < max
  {
    if entries != [] {
      var m := |entries| - 1;
      CutIsFirst(entries[..m], max);
      var c := Cut(entries[..m], max);
      assert entries[..m][..c] == entries[..c];
      hide Plain;
      forall n | 0 <= n < Cut(entries, max) ensures |Plain(entries[..n]).records| < max {
        if n < m {
          assert entries[..m][..n] == entries[..n];
        }
      }
    }
  }

  lemma CutIsUnique(entries: seq<Entry>, max: nat, c: nat)
    requires c <= |entries| && |Plain(entries[..c]).records| >= max
    requires forall n :: 0 <= n < c ==> |Plain(entries[..n]).records| < max
    ensures Cut(entries, max) == c
  {
    CutIsFirst(entries, max);
    hide Plain, Cut;
  }

  lemma LimitReached(before: seq<Entry>, entries: seq<Entry>, taken: nat, max: nat)
    requires taken <= |entries| && |Plain(before).records| < max
    requires |Plain(before + entries[..taken]).records| >= max
    requires Below(before, entries, taken, max)
    ensures var all := before + entries;
            |Plain(all).records| >= max && Plain(before + entries[..taken]) == Answer(all, max)
  {
    var all := before + entries;
    var c := |before| + taken;
    assert all[..c] == before + entries[..taken];
    RecordsGrow(all, c);
    hide Plain;
    forall n | 0 <= n < c ensures |Plain(all[..n]).records| < max {
      if n >= |before| {
        assert all[..n] == before + entries[..n - |before|];
      } else {
        assert all[..n] == before[..n];
        RecordsGrow(before, n);
      }
    }
    CutIsUnique(all, max, c);
  }

  // ----- page boundaries

  /** Pages as an honest server sends them: a new cookie with each but the last. */
  ghost predicate Proper(pages: seq<Page>) {
    && pages != [] && pages[|pages| - 1].cookie == 0
    && (forall i :: 0 <= i < |pages| - 1 ==> pages[i].cookie != 0)
    && forall i, j :: 0 <= i < j < |pages| - 1 ==> pages[i].cookie != pages[j].cookie
  }

  lemma {:induction false} FlattenPrefix(pages: seq<Page>, k: nat)
    requires k <= |pages|
    ensures |Flatten(pages[..k])| <= |Flatten(pages)| && Flatten(pages)[..|Flatten(pages[..k])|] == Flatten(pages[..k])
  {
    if k == |pages| {
      assert pages[..k] == pages;
    } else {
      assert pages[..|pages| - 1][..k] == pages[..k];
      FlattenPrefix(pages[..|pages| - 1], k);
    }
  }

  /** What comes behind the limit does not matter. */
  lemma AnswerOfPrefix(entries: seq<Entry>, n: nat, max: nat)
    requires n <= |entries| && |Plain(entries[..n]).records| >= max
    ensures Answer(entries[..n], max) == Answer(entries, max)
  {
    var c := Cut(entries[..n], max);
    CutIsFirst(entries[..n], max);
    assert entries[..n][..c] == entries[..c];
    forall m | 0 <= m < c ensures |Plain(entries[..m]).records| < max {
      assert entries[..n][..m] == entries[..m];
    }
    CutIsUnique(entries, max, c);
  }

  lemma {:induction false} OutcomeFrom(pages: seq<Page>, k: nat, max: nat, seen: set<nat>)
    requires Proper(pages) && k < |pages|
    requires forall c :: c in seen ==> exists i :: 0 <= i < k && pages[i].cookie == c
    ensures var all := Flatten(pages);
            Outcome(pages, k, max, seen) == Found(Answer(all, max), |Plain(all).records| >= max)
    decreases |pages| - k
  {
    var all := Flatten(pages);
    var n := |Flatten(pages[..k + 1])|;
    FlattenPrefix(pages, k + 1);
    OutcomeStep(pages, k, max, seen);
    hide Plain, Flatten, Outcome, Answer;
    if |Plain(all[..n]).records| >= max {
      AnswerOfPrefix(all, n, max);
      RecordsGrow(all, n);
    } else if k + 1 == |pages| {
      assert pages[..k + 1] == pages;
      UnlimitedAnswer(all, max);
    } else {
      assert pages[k].cookie != 0;
      CookieIsNew(pages, k, seen);
      var more := seen + {pages[k].cookie};
      forall c | c in more ensures exists i :: 0 <= i < k + 1 && pages[i].cookie == c {
        if c in seen {
          var i :| 0 <= i < k && pages[i].cookie == c;
          assert pages[i].cookie == c;
        } else {
          assert pages[k].cookie == c;
        }
      }
      OutcomeFrom(pages, k + 1, max, more);
    }
  }

  lemma CookieIsNew(pages: seq<Page>, k: nat, seen: set<nat>)
    requires Proper(pages) && k < |pages| - 1
    requires forall c :: c in seen ==> exists i :: 0 <= i < k && pages[i].cookie == c
    ensures pages[k].cookie !in seen
  {
  }

  lemma UnlimitedAnswer(entries: seq<Entry>, max: nat)
    requires |Plain(entries).records| < max
    ensures Answer(entries, max) == Plain(entries)
  {
    CutIsFirst(entries, max);
    var c := Cut(entries, max);
    RecordsGrow(entries, c);
    assert entries[..|entries|] == entries;
  }

  /** Page boundaries do not matter: over any proper paging of a stream the query returns the answer
      for the stream. */
  lemma PagesDoNotMatter(pages: seq<Page>, max: nat)
    requires Proper(pages)
    ensures var all := Flatten(pages);
            Outcome(pages, 0, max, {}) == Found(Answer(all, max), |Plain(all).records| >= max)
  {
    OutcomeFrom(pages, 0, max, {});
  }

  /** How many pages there are up to the one that ends a result, from a page on. */
  function Closing(pages: seq<Page>, k: nat): nat
    decreases |pages| - k
  {
    if k >= |pages| then |pages|
    else if pages[k].cookie == 0 then k + 1
    else Closing(pages, k + 1)
  }

  /** The entries of the pages of a result, whatever the server would send behind it. */
  function Stream(pages: seq<Page>): seq<Entry> {
    ClosingIsInside(pages, 0);
    Flatten(pages[..Closing(pages, 0)])
  }

  lemma {:induction false} ClosingIsInside(pages: seq<Page>, k: nat)
    ensures Closing(pages, k) <= |pages|
    ensures k < |pages| ==> k < Closing(pages, k)
    decreases |pages| - k
  {
    if k < |pages| {
      ClosingIsInside(pages, k + 1);
    }
  }

  lemma StreamContains(pages: seq<Page>, k: nat)
    requires k < |pages| && Closing(pages, 0) == Closing(pages, k)
    ensures var all, s := Flatten(pages[..k + 1]), Stream(pages); |all| <= |s| && s[..|all|] == all
  {
    ClosingIsInside(pages, k);
    var n := Closing(pages, 0);
    assert pages[..n][..k + 1] == pages[..k + 1];
    FlattenPrefix(pages[..n], k + 1);
  }

  lemma {:induction false} FoundFrom(pages: seq<Page>, k: nat, max: nat, seen: set<nat>)
    requires k <= |pages| && Closing(pages, 0) == Closing(pages, k) && Outcome(pages, k, max, seen).Found?
    ensures var all := Stream(pages);
            Outcome(pages, k, max, seen) == Found(Answer(all, max), |Plain(all).records| >= max)
    decreases |pages| - k
  {
    OutcomeEnd(pages, max, seen);
    OutcomeStep(pages, k, max, seen);
    StreamContains(pages, k);
    var all := Stream(pages);
    var n := |Flatten(pages[..k + 1])|;
    hide Plain, Flatten, Outcome, Answer, Stream;
    if |Plain(all[..n]).records| >= max {
      AnswerOfPrefix(all, n, max);
      RecordsGrow(all, n);
    } else if pages[k].cookie == 0 {
      assert Stream(pages) == Flatten(pages[..k + 1]) by {
        StreamEnds(pages, k);
      }
      UnlimitedAnswer(all, max);
    } else {
      FoundFrom(pages, k + 1, max, seen + {pages[k].cookie});
    }
  }

  lemma StreamEnds(pages: seq<Page>, k: nat)
    requires k < |pages| && Closing(pages, 0) == Closing(pages, k) && pages[k].cookie == 0
    ensures Stream(pages) == Flatten(pages[..k + 1])
  {
  }

  /** Whenever a query ends without an error, and whatever would come behind, its result is the answer for
      the stream of entries: page boundaries do not matter. */
  lemma FoundIsTheAnswer(pages: seq<Page>, max: nat)
    requires Outcome(pages, 0, max, {}).Found?
    ensures var all := Stream(pages);
            Outcome(pages, 0, max, {}) == Found(Answer(all, max), |Plain(all).records| >= max)
  {
    FoundFrom(pages, 0, max, {});
  }

  /** The query ends well at a page: the limit is reached or the result ends there, and the pages before
      it came with cookies that are new and not empty. */
  ghost predicate EndsAt(pages: seq<Page>, k: nat, max: nat, n: nat, seen: set<nat>) {
    && k <= n < |pages| && (|Plain(Flatten(pages[..n + 1])).records| >= max || pages[n].cookie == 0)
    && (forall i :: k <= i < n ==> pages[i].cookie != 0 && pages[i].cookie !in seen)
    && forall i, j :: k <= i < j < n ==> pages[i].cookie != pages[j].cookie
  }

  lemma {:induction false} FoundWhere(pages: seq<Page>, k: nat, max: nat, seen: set<nat>)
    requires k <= |pages|
    ensures Outcome(pages, k, max, seen).Found? <==> exists n: nat :: EndsAt(pages, k, max, n, seen)
    decreases |pages| - k
  {
    hide Plain, Flatten, Answer;
    if k == |pages| {
      OutcomeEnd(pages, max, seen);
    } else {
      OutcomeStep(pages, k, max, seen);
      hide Outcome;
      var all, cookie := Flatten(pages[..k + 1]), pages[k].cookie;
      if |Plain(all).records| >= max || cookie == 0 {
        assert EndsAt(pages, k, max, k, seen);
      } else if cookie in seen {
        forall n: nat ensures !EndsAt(pages, k, max, n, seen) {
        }
      } else {
        var next, more := k + 1, seen + {cookie};
        FoundWhere(pages, next, max, more);
        if n: nat :| EndsAt(pages, k, max, n, seen) {
          EndsLater(pages, k, max, n, seen);
        }
        if n: nat :| EndsAt(pages, next, max, n, more) {
          EndsLater(pages, k, max, n, seen);
        }
      }
    }
  }

  lemma EndsLater(pages: seq<Page>, k: nat, max: nat, n: nat, seen: set<nat>)
    requires k < |pages| && |Plain(Flatten(pages[..k + 1])).records| < max
    requires pages[k].cookie != 0 && pages[k].cookie !in seen
    ensures EndsAt(pages, k, max, n, seen) <==> EndsAt(pages, k + 1, max, n, seen + {pages[k].cookie})
  {
    hide Plain, Flatten;
  }

  /** A query ends without an error if and only if some page ends it and the cookies before that page are
      new and not empty. */
  lemma FoundExactly(pages: seq<Page>, max: nat)
    ensures Outcome(pages, 0, max, {}).Found? <==> exists n: nat :: EndsAt(pages, 0, max, n, {})
  {
    FoundWhere(pages, 0, max, {});
  }

  /** The query comes to a page that does not end it and whose cookie is one of the pages before. */
  ghost predicate RepeatsAt(pages: seq<Page>, k: nat, max: nat, n: nat, seen: set<nat>) {
    && k <= n < |pages| && |Plain(Flatten(pages[..n + 1])).records| < max && pages[n].cookie != 0
    && (pages[n].cookie in seen || exists i :: k <= i < n && pages[i].cookie == pages[n].cookie)
    && (forall i :: k <= i < n ==> pages[i].cookie != 0 && pages[i].cookie !in seen)
    && forall i, j :: k <= i < j < n ==> pages[i].cookie != pages[j].cookie
  }

  lemma {:induction false} RepeatWhere(pages: seq<Page>, k: nat, max: nat, seen: set<nat>)
    requires k <= |pages|
    ensures Outcome(pages, k, max, seen).CookieRepeated? <==> exists n: nat :: RepeatsAt(pages, k, max, n, seen)
    decreases |pages| - k
  {
    hide Plain, Flatten, Answer;
    if k == |pages| {
      OutcomeEnd(pages, max, seen);
    } else {
      OutcomeStep(pages, k, max, seen);
      hide Outcome;
      var all, cookie := Flatten(pages[..k + 1]), pages[k].cookie;
      if |Plain(all).records| >= max {
        forall n: nat ensures !RepeatsAt(pages, k, max, n, seen) {
          if k <= n < |pages| {
            PlainGrows(pages, k, n);
          }
        }
      } else if cookie == 0 {
        forall n: nat ensures !RepeatsAt(pages, k, max, n, seen) {
        }
      } else if cookie in seen {
        assert RepeatsAt(pages, k, max, k, seen);
      } else {
        var next, more := k + 1, seen + {cookie};
        RepeatWhere(pages, next, max, more);
        if n: nat :| RepeatsAt(pages, k, max, n, seen) {
          RepeatsLater(pages, k, max, n, seen);
        }
        if n: nat :| RepeatsAt(pages, next, max, n, more) {
          RepeatsLater(pages, k, max, n, seen);
        }
      }
    }
  }

  lemma PlainGrows(pages: seq<Page>, k: nat, n: nat)
    requires k <= n < |pages|
    ensures |Plain(Flatten(pages[..k + 1])).records| <= |Plain(Flatten(pages[..n + 1])).records|
  {
    assert pages[..n + 1][..k + 1] == pages[..k + 1];
    FlattenPrefix(pages[..n + 1], k + 1);
    RecordsGrow(Flatten(pages[..n + 1]), |Flatten(pages[..k + 1])|);
  }

  lemma RepeatsLater(pages: seq<Page>, k: nat, max: nat, n: nat, seen: set<nat>)
    requires k < |pages| && pages[k].cookie != 0 && pages[k].cookie !in seen
    ensures RepeatsAt(pages, k, max, n, seen) <==> RepeatsAt(pages, k + 1, max, n, seen + {pages[k].cookie})
  {
    hide Plain, Flatten;
  }

  /** A query fails over a repeated cookie if and only if it comes to a page that neither reaches the limit nor has the
      empty cookie, whose cookie came before; in all other cases that end without a result the server gave
      no further answer. */
  lemma RepeatedExactly(pages: seq<Page>, max: nat)
    ensures Outcome(pages, 0, max, {}).CookieRepeated? <==> exists n: nat :: RepeatsAt(pages, 0, max, n, {})
  {
    RepeatWhere(pages, 0, max, {});
  }

  // ----- what the records of a stream are

  /** The keys of a stream in the order of their first appearance. */
  function FirstKeys(entries: seq<Entry>): seq<nat> {
    if entries == [] then [] else
      var before, e := FirstKeys(entries[..|entries| - 1]), entries[|entries| - 1];
      if e.key.None? || e.key.value in before then before else before + [e.key.value]
  }

  /** The attributes of all entries of a key, later ones winning. */
  function Union(entries: seq<Entry>, key: nat): map<nat, nat> {
    if entries == [] then map[] else
      var before, e := Union(entries[..|entries| - 1], key), entries[|entries| - 1];
      if e.key == Some(key) then before + e.attributes else before
  }

  lemma {:induction false} NoEntryNoUnion(entries: seq<Entry>, key: nat)
    requires key !in FirstKeys(entries)
    ensures Union(entries, key) == map[]
  {
    if entries != [] {
      NoEntryNoUnion(entries[..|entries| - 1], key);
    }
  }

  /** How many attributes were removed, and how many entries have no key. */
  function Removed(entries: seq<Entry>): nat {
    if entries == [] then 0 else Removed(entries[..|entries| - 1]) + entries[|entries| - 1].removed
  }

  function Keyless(entries: seq<Entry>): nat {
    if entries == [] then 0 else Keyless(entries[..|entries| - 1]) + if entries[|entries| - 1].key.None? then 1 else 0
  }

  lemma {:induction false} LeftOutIsCounted(entries: seq<Entry>)
    ensures Plain(entries).filtered == Removed(entries) && Plain(entries).omitted == Keyless(entries)
  {
    if entries != [] {
      LeftOutIsCounted(entries[..|entries| - 1]);
    }
  }

  ghost predicate Exact(q: Query, entries: seq<Entry>) {
    && |q.records| == |FirstKeys(entries)|
    && (forall i :: 0 <= i < |q.records| ==> q.records[i] == Record(FirstKeys(entries)[i], Union(entries, FirstKeys(entries)[i])))
    && (forall i :: 0 <= i < |q.records| ==> Stands(q.positions, FirstKeys(entries)[i], i))
    && forall k :: k in q.positions ==> q.positions[k] < |q.records| && q.records[q.positions[k]].key == k
  }

  predicate Stands(positions: map<nat, nat>, key: nat, i: nat) {
    key in positions && positions[key] == i
  }

  lemma {:induction false} RecordsAreExact(entries: seq<Entry>)
    ensures Exact(Plain(entries), entries)
  {
    if entries != [] {
      var n := |entries| - 1;
      RecordsAreExact(entries[..n]);
      StepIsExact(Plain(entries[..n]), entries[..n], entries[n], entries);
    }
  }

  lemma StepIsExact(q: Query, before: seq<Entry>, e: Entry, entries: seq<Entry>)
    requires entries != [] && before == entries[..|entries| - 1] && e == entries[|entries| - 1] && Exact(q, before)
    ensures Exact(Step(q, e), entries)
  {
    if e.key.Some? {
      var key, keys := e.key.value, FirstKeys(before);
      if key in keys {
        var i :| 0 <= i < |keys| && keys[i] == key;
        assert Stands(q.positions, keys[i], i);
        forall j | 0 <= j < |keys| && j != i ensures keys[j] != key {
          assert Stands(q.positions, keys[j], j);
        }
      } else {
        forall k | k in q.positions ensures k != key {
          assert q.records[q.positions[k]].key == keys[q.positions[k]];
        }
        NoEntryNoUnion(before, key);
        assert map[] + e.attributes == e.attributes;
      }
    }
  }

  /** Keys are unique and in first-seen order, each record is the union of its key's entries with later
      ones winning, the position index is exact, and what was left out is counted. */
  lemma AnswerIsExact(entries: seq<Entry>, max: nat)
    ensures Cut(entries, max) <= |entries| && Exact(Answer(entries, max), entries[..Cut(entries, max)])
    ensures var kept := entries[..Cut(entries, max)];
            Answer(entries, max).filtered == Removed(kept) && Answer(entries, max).omitted == Keyless(kept)
    ensures var keys := FirstKeys(entries[..Cut(entries, max)]); forall i, j :: 0 <= i < j < |keys| ==> keys[i] != keys[j]
  {
    CutIsFirst(entries, max);
    var kept := entries[..Cut(entries, max)];
    RecordsAreExact(kept);
    LeftOutIsCounted(kept);
    var q := Plain(kept);
    forall i, j | 0 <= i < j < |FirstKeys(kept)| ensures FirstKeys(kept)[i] != FirstKeys(kept)[j] {
      assert Stands(q.positions, FirstKeys(kept)[i], i) && Stands(q.positions, FirstKeys(kept)[j], j);
    }
  }
}
