/** What any series of `migrate` calls leaves behind, with failures wherever they please. */
module MigrationHistory {
  import opened Options
  import opened Migrations

  /** The database that a list of migrations makes, applied in order to an empty one. */
  function Built(applied: seq<Migration>): Database {
    ApplyAll(Opened(EMPTY), applied)
  }

  function Statements(ms: seq<Migration>): seq<nat> {
    if ms == [] then [] else Statements(ms[..|ms| - 1]) + ms[|ms| - 1].script.statements
  }

  lemma ValidPrefix(ms: seq<Migration>, n: nat)
    requires ValidSet(ms) && n <= |ms|
    ensures ValidSet(ms[..n])
  {
  }

  lemma {:induction false} BuiltIsOpened(ms: seq<Migration>)
    ensures Built(ms).bootstrapped && Opened(Built(ms)) == Built(ms)
  {
    if ms != [] {
      BuiltIsOpened(ms[..|ms| - 1]);
    }
  }

  /** The schema is the fold of the list, and the history is exactly its versions 1 to n, each with
      its own name and checksum. */
  lemma {:induction false} BuiltIsExact(ms: seq<Migration>)
    requires ValidSet(ms)
    ensures var db := Built(ms);
            && db.schema == Statements(ms) && db.userVersion == |ms|
            && db.history.Keys == Versions(|ms|) && |db.history| == |ms|
            && forall i :: 0 <= i < |ms| ==> Matches(db.history, ms[i])
  {
    if ms != [] {
      var n := |ms| - 1;
      ValidPrefix(ms, n);
      BuiltIsExact(ms[..n]);
      VersionsAre(n);
      var before, db := Built(ms[..n]), Built(ms);
      assert db.history.Keys == before.history.Keys + {ms[n].version};
      assert |db.history.Keys| == |before.history.Keys| + 1;
      forall i | 0 <= i < |ms| ensures Matches(db.history, ms[i]) {
        if i < n {
          assert ms[..n][i] == ms[i] && Matches(before.history, ms[i]);
        }
      }
    } else {
      assert EMPTY.history.Keys == {};
    }
  }

  /** A list fits a built database exactly when it continues the list that built it. */
  lemma FitsIsContinuation(applied: seq<Migration>, ms: seq<Migration>)
    requires ValidSet(applied) && ValidSet(ms)
    ensures Fits(Built(applied).history, ms) <==> applied <= ms
    ensures |Built(applied).history| == |applied|
  {
    BuiltIsExact(applied);
    var h := Built(applied).history;
    if Fits(h, ms) {
      forall i | 0 <= i < |applied| ensures applied[i] == ms[i] {
        assert Matches(h, ms[i]) && Matches(h, applied[i]);
      }
    }
    if applied <= ms {
      forall i | 0 <= i < |h| ensures Matches(h, ms[i]) {
        assert Matches(h, applied[i]);
      }
    }
    hide Built, Matches;
  }

  lemma {:induction false} ApplyAllAppend(db: Database, a: seq<Migration>, b: seq<Migration>)
    ensures ApplyAll(ApplyAll(db, a), b) == ApplyAll(db, a + b)
  {
    if b == [] {
      assert a + b == a;
    } else {
      assert (a + b)[..|a + b| - 1] == a + b[..|b| - 1];
      ApplyAllAppend(db, a, b[..|b| - 1]);
    }
  }

  lemma {:induction false} ProgressStaysInside(ms: seq<Migration>, i: nat, b: Budget)
    requires i <= |ms|
    ensures i + Progress(ms, i, b) <= |ms|
    decreases |ms| - i
  {
    hide Commits;
    if i < |ms| {
      ProgressStaysInside(ms, i + 1, Spend(b, Cost(ms[i])));
    }
  }

  lemma {:induction false} UnlimitedProgress(ms: seq<Migration>, i: nat)
    requires i <= |ms| && forall j :: i <= j < |ms| ==> ms[j].script.complete
    ensures i + Progress(ms, i, None) == |ms|
    decreases |ms| - i
  {
    if i < |ms| {
      UnlimitedProgress(ms, i + 1);
    }
  }

  // ----- one call

  predicate Accepts(applied: seq<Migration>, ms: seq<Migration>) {
    ValidSet(ms) && applied <= ms
  }

  /** What has been applied after one more call. */
  function Extended(applied: seq<Migration>, ms: seq<Migration>, b: Budget): seq<Migration> {
    var k := |applied| + Progress(ms, |applied|, Spend(b, 2));
    if Accepts(applied, ms) && Allows(b, 2) && k <= |ms| then ms[..k] else applied
  }

  /** The database as `migrate` finds it: built from a list, with or without its history table. */
  predicate IsBuilt(db: Database, applied: seq<Migration>) {
    ValidSet(applied) && Opened(db) == Built(applied)
  }

  /** One call takes a built database to a built one: a list that does not continue what was applied
      is refused and changes nothing; a list that does is applied up to the first failure, one whole
      migration at a time, and the call succeeds exactly when it reaches the end. */
  lemma CallExtends(db: Database, applied: seq<Migration>, ms: seq<Migration>, b: Budget)
    requires IsBuilt(db, applied)
    ensures var (after, r) := Run(db, ms, b);
            && IsBuilt(after, Extended(applied, ms, b))
            && (!Accepts(applied, ms) ==> !r.Migrated? && after.schema == db.schema && after.history == db.history)
            && (r.Migrated? <==> Accepts(applied, ms) && Allows(b, 2) && Extended(applied, ms, b) == ms)
  {
    hide IsBuilt, Extended, Accepts, Run;
    if Accepts(applied, ms) && Allows(b, 2) {
      AcceptedCall(db, applied, ms, b);
    } else {
      RefusedCall(db, applied, ms, b);
    }
  }

  /** The loop on a built database with a list that continues what built it. */
  lemma LoopContinues(applied: seq<Migration>, ms: seq<Migration>, b: Budget, k: nat)
    requires ValidSet(applied) && ValidSet(ms) && applied <= ms && k == |applied| + Progress(ms, |applied|, b)
    ensures k <= |ms| && Loop(Built(applied), ms, b) == (Built(ms[..k]), Finished(ms, k))
  {
    hide Built, Fits, Progress, ValidSet, ApplyAll, Finished;
    FitsIsContinuation(applied, ms);
    ProgressStaysInside(ms, |applied|, b);
    BuiltThenApplied(applied, ms, k);
  }

  lemma AcceptedCall(db: Database, applied: seq<Migration>, ms: seq<Migration>, b: Budget)
    requires IsBuilt(db, applied) && Accepts(applied, ms) && Allows(b, 2)
    ensures Accepts(applied, ms) && IsBuilt(Run(db, ms, b).0, Extended(applied, ms, b))
    ensures Run(db, ms, b).1.Migrated? <==> Extended(applied, ms, b) == ms
  {
    hide Built, Loop, Progress, ValidSet;
    var k := |applied| + Progress(ms, |applied|, Spend(b, 2));
    LoopContinues(applied, ms, Spend(b, 2), k);
    ValidPrefix(ms, k);
    BuiltIsOpened(ms[..k]);
    assert ms[..|ms|] == ms;
  }

  lemma RefusedCall(db: Database, applied: seq<Migration>, ms: seq<Migration>, b: Budget)
    requires IsBuilt(db, applied) && !(Accepts(applied, ms) && Allows(b, 2))
    ensures var (after, r) := Run(db, ms, b);
            && Extended(applied, ms, b) == applied && IsBuilt(after, applied) && !r.Migrated?
            && after.schema == db.schema && after.history == db.history
  {
    if ValidSet(ms) {
      FitsIsContinuation(applied, ms);
    }
    hide Fits, Progress, ValidSet, Built, ApplyAll;
  }

  lemma BuiltThenApplied(applied: seq<Migration>, ms: seq<Migration>, k: nat)
    requires applied <= ms && |applied| <= k <= |ms|
    ensures ApplyAll(Built(applied), ms[|applied|..k]) == Built(ms[..k]) && Opened(Built(ms[..k])) == Built(ms[..k])
  {
    ApplyAllAppend(Opened(EMPTY), applied, ms[|applied|..k]);
    assert applied + ms[|applied|..k] == ms[..k];
    BuiltIsOpened(ms[..k]);
  }

  /** Without failures a list that continues what was applied is applied to its end. */
  lemma UnhinderedCallSucceeds(db: Database, applied: seq<Migration>, ms: seq<Migration>)
    requires IsBuilt(db, applied) && Accepts(applied, ms)
    requires forall i :: 0 <= i < |ms| ==> ms[i].script.complete
    ensures Run(db, ms, None) == (Built(ms), Migrated(|ms|))
  {
    UnlimitedProgress(ms, |applied|);
    assert ms[..|ms|] == ms;
    FitsIsContinuation(applied, ms);
    BuiltThenApplied(applied, ms, |ms|);
    hide Fits, Progress, ApplyAll, Built;
  }

  // ----- series of calls

  datatype Call = Call(ms: seq<Migration>, budget: Budget)

  function After(calls: seq<Call>): Database {
    if calls == [] then EMPTY else Run(After(calls[..|calls| - 1]), calls[|calls| - 1].ms, calls[|calls| - 1].budget).0
  }

  function AppliedBy(calls: seq<Call>): seq<Migration> {
    if calls == [] then [] else
      Extended(AppliedBy(calls[..|calls| - 1]), calls[|calls| - 1].ms, calls[|calls| - 1].budget)
  }

  /** After any series of calls, whatever their lists and wherever they failed, the database is that
      of a list of migrations, each applied once and in order. */
  lemma {:induction false} SeriesIsBuilt(calls: seq<Call>)
    ensures IsBuilt(After(calls), AppliedBy(calls))
  {
    if calls == [] {
      assert Opened(EMPTY) == Built([]);
    } else {
      var last := calls[|calls| - 1];
      SeriesIsBuilt(calls[..|calls| - 1]);
      hide IsBuilt, Run, Extended;
      CallExtends(After(calls[..|calls| - 1]), AppliedBy(calls[..|calls| - 1]), last.ms, last.budget);
    }
  }

  /** Each list continues the one before it. */
  ghost predicate Growing(calls: seq<Call>) {
    forall i, j :: 0 <= i <= j < |calls| ==> calls[i].ms <= calls[j].ms
  }

  lemma ExtendedStays(applied: seq<Migration>, ms: seq<Migration>, b: Budget)
    requires applied <= ms
    ensures applied <= Extended(applied, ms, b) <= ms
  {
  }

  /** Over growing lists the schema is the fold of a prefix of the last list, and its history is
      exactly the versions of that prefix; no call ever undoes what an earlier one applied. */
  lemma {:induction false} GrowingListsApplyAPrefix(calls: seq<Call>)
    requires Growing(calls) && calls != []
    ensures var k := |AppliedBy(calls)|;
            var last := calls[|calls| - 1].ms;
            && AppliedBy(calls[..|calls| - 1]) <= AppliedBy(calls) && AppliedBy(calls) <= last
            && After(calls).schema == Statements(last[..k]) && After(calls).history == Built(last[..k]).history
            && After(calls).history.Keys == Versions(k)
  {
    var n := |calls| - 1;
    var before, last := calls[..n], calls[n];
    if before != [] {
      forall i, j | 0 <= i <= j < |before| ensures before[i].ms <= before[j].ms {
        assert calls[i].ms <= calls[j].ms;
      }
      GrowingListsApplyAPrefix(before);
      assert calls[n - 1].ms <= calls[n].ms;
      PrefixOfPrefix(AppliedBy(before), before[n - 1].ms, last.ms);
    }
    SeriesIsBuilt(calls);
    ExtendedStays(AppliedBy(before), last.ms, last.budget);
    hide Extended, Run;
    var applied := AppliedBy(calls);
    assert last.ms[..|applied|] == applied;
    BuiltIsExact(applied);
    hide ValidSet, Built;
  }

  lemma PrefixOfPrefix(a: seq<Migration>, b: seq<Migration>, c: seq<Migration>)
    requires a <= b && b <= c
    ensures a <= c
  {
  }

  /** On any database at all, a call gets past the checks exactly when the history consists of the
      versions 1 to n with the names and checksums of the list's first n migrations. */
  lemma ForeignHistoryIsRefused(db: Database, ms: seq<Migration>)
    requires ValidSet(ms) && forall i :: 0 <= i < |ms| ==> ms[i].script.complete
    ensures Run(db, ms, None).1.Migrated? <==> Fits(db.history, ms)
    ensures !Fits(db.history, ms) ==> Run(db, ms, None).0 == Opened(db)
  {
    if Fits(db.history, ms) {
      UnlimitedProgress(ms, |db.history|);
    }
    hide ApplyAll, Progress, Fits;
  }
}
