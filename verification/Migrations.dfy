/** Schema migration (`migrate`, `_apply_one`, `_validate_migration_set`, database.py). A schema is the
    sequence of SQL statements that made it; a checksum stands for the script it is taken from. Any
    database operation may fail: `budget` operations succeed, and the next one does not. */
module Migrations {
  import opened Options

  /** A script whose last statement may be incomplete; the rest of it then runs before it is refused. */
  datatype Script = Script(statements: seq<nat>, complete: bool)
  datatype Migration = Migration(version: int, name: nat, script: Script, empty: bool)
  datatype Entry = Entry(name: nat, checksum: Script)
  datatype Database = Database(schema: seq<nat>, history: map<int, Entry>, userVersion: int, bootstrapped: bool)
  type Budget = Option<nat>

  datatype Result = Migrated(version: int) | Refused | Failed

  const EMPTY := Database([], map[], 0, false)

  // ----- what one call does

  predicate ValidSet(ms: seq<Migration>) {
    forall i :: 0 <= i < |ms| ==> ms[i].version == i + 1 && !ms[i].empty
  }

  function EntryOf(m: Migration): Entry {
    Entry(m.name, m.script)
  }

  function Versions(n: nat): set<int> {
    if n == 0 then {} else Versions(n - 1) + {n}
  }

  predicate Contiguous(history: map<int, Entry>) {
    history.Keys == Versions(|history|)
  }

  predicate Matches(history: map<int, Entry>, m: Migration) {
    m.version in history && history[m.version] == EntryOf(m)
  }

  /** The checks made before the loop: no unknown version, and no gap. */
  predicate Known(history: map<int, Entry>, ms: seq<Migration>) {
    (forall v :: v in history ==> 1 <= v <= |ms|) && Contiguous(history)
  }

  /** A history that is exactly the beginning of a list. */
  predicate Fits(history: map<int, Entry>, ms: seq<Migration>) {
    Contiguous(history) && |history| <= |ms| && forall i :: 0 <= i < |history| ==> Matches(history, ms[i])
  }

  function Applied(db: Database, m: Migration): Database {
    Database(db.schema + m.script.statements, db.history[m.version := EntryOf(m)], m.version, db.bootstrapped)
  }

  /** BEGIN, the statements, INSERT, PRAGMA, COMMIT. */
  function Cost(m: Migration): nat {
    |m.script.statements| + 4
  }

  predicate Allows(b: Budget, n: nat) {
    b.None? || b.value >= n
  }

  function Spend(b: Budget, n: nat): Budget {
    if b.Some? && b.value >= n then Some(b.value - n) else if b.None? then None else Some(0)
  }

  predicate Commits(m: Migration, b: Budget) {
    m.script.complete && Allows(b, Cost(m))
  }

  /** How many migrations from `i` on are applied before the first failure. */
  function Progress(ms: seq<Migration>, i: nat, b: Budget): nat
    decreases |ms| - i
  {
    if i >= |ms| || !Commits(ms[i], b) then 0 else 1 + Progress(ms, i + 1, Spend(b, Cost(ms[i])))
  }

  function ApplyAll(db: Database, ms: seq<Migration>): Database {
    if ms == [] then db else Applied(ApplyAll(db, ms[..|ms| - 1]), ms[|ms| - 1])
  }

  function Opened(db: Database): Database {
    db.(bootstrapped := true)
  }

  function Finished(ms: seq<Migration>, reached: nat): Result {
    if reached == |ms| then Migrated(|ms|) else Failed
  }

  /** What the loop leaves behind, on a database whose versions are known. */
  function Loop(db: Database, ms: seq<Migration>, b: Budget): (Database, Result) {
    var n, k := |db.history|, Progress(ms, |db.history|, b);
    if !Fits(db.history, ms) || n + k > |ms| then (db, Refused)
    else (ApplyAll(db, ms[n..n + k]), Finished(ms, n + k))
  }

  /** `migrate` as a whole: the database and the result. */
  function Run(db: Database, ms: seq<Migration>, b: Budget): (Database, Result) {
    if !ValidSet(ms) then (db, Refused)
    else if !Allows(b, 1) then (db, Failed)
    else if !Allows(b, 2) then (Opened(db), Failed)
    else Loop(Opened(db), ms, Spend(b, 2))
  }

  class Connection {
    var db: Database
    var saved: Option<Database>
    var budget: Budget

    constructor (db: Database, budget: Budget)
      ensures this.db == db && this.saved == None && this.budget == budget
    {
      this.db, this.saved, this.budget := db, None, budget;
    }

    /** One database operation, which may fail. */
    method Operate() returns (ok: bool)
      modifies this`budget
      ensures ok == Allows(old(budget), 1) && budget == Spend(old(budget), 1)
    {
      if budget.None? {
        return true;
      }
      ok := budget.value >= 1;
      budget := Some(if ok then budget.value - 1 else 0);
    }

    method Rollback()
      modifies this
      ensures saved == None && budget == old(budget)
      ensures db == if old(saved).Some? then old(saved).value else old(db)
    {
      if saved.Some? {
        db := saved.value;
      }
      saved := None;
    }

    /** `_apply_one`: the transaction commits as a whole or leaves nothing behind. */
    method ApplyOne(m: Migration) returns (ok: bool)
      requires saved == None
      modifies this
      ensures saved == None
      ensures ok == Commits(m, old(budget))
      ensures db == if ok then Applied(old(db), m) else old(db)
      ensures ok ==> budget == Spend(old(budget), Cost(m))
    {
      var statements := m.script.statements;
      var ran := Operate();
      if !ran {
        return false;
      }
      saved := Some(db);
      var i := 0;
      while i < |statements|
        invariant 0 <= i <= |statements| && saved == Some(old(db))
        invariant Allows(old(budget), i + 1) && budget == Spend(old(budget), i + 1)
        invariant db == old(db).(schema := old(db).schema + statements[..i])
      {
        ran := Operate();
        if !ran {
          Rollback();
          return false;
        }
        assert statements[..i + 1] == statements[..i] + [statements[i]];
        db := db.(schema := db.schema + [statements[i]]);
        i := i + 1;
      }
      assert statements[..i] == statements;
      if !m.script.complete {
        Rollback();
        return false;
      }
      ran := Operate();
      if !ran {
        Rollback();
        return false;
      }
      db := db.(history := db.history[m.version := EntryOf(m)]);
      ran := Operate();
      if !ran {
        Rollback();
        return false;
      }
      db := db.(userVersion := m.version);
      ran := Operate();
      if !ran {
        Rollback();
        return false;
      }
      saved := None;
      ok := true;
    }

    /** The history is created and read, and its versions are checked against the list. */
    method ReadHistory(ms: seq<Migration>) returns (r: Option<Result>)
      modifies this
      ensures saved == old(saved)
      ensures db == if Allows(old(budget), 1) then Opened(old(db)) else old(db)
      ensures r == if !Allows(old(budget), 2) then Some(Failed)
                   else if !Known(db.history, ms) then Some(Refused)
                   else None
      ensures r == None ==> budget == Spend(old(budget), 2)
    {
      var ran := Operate();
      if !ran {
        return Some(Failed);
      }
      db := Opened(db);
      ran := Operate();
      if !ran {
        return Some(Failed);
      }
      if exists v :: v in db.history && !(1 <= v <= |ms|) {
        return Some(Refused);
      }
      if !Contiguous(db.history) {
        return Some(Refused);
      }
      return None;
    }

    /** `migrate`. */
    method Migrate(ms: seq<Migration>) returns (r: Result)
      requires saved == None
      modifies this
      ensures saved == None && (db, r) == Run(old(db), ms, old(budget))
    {
      if !ValidSet(ms) {
        return Refused;
      }
      var early := ReadHistory(ms);
      KnownButNotFitting(db.history, ms);
      if early.Some? {
        return early.value;
      }
      r := ApplyMissing(ms);
    }

    /** The loop over the list: what is applied has to match, and the rest is applied. */
    method ApplyMissing(ms: seq<Migration>) returns (r: Result)
      requires saved == None && ValidSet(ms) && Known(db.history, ms)
      modifies this
      ensures saved == None && (db, r) == Loop(old(db), ms, old(budget))
    {
      var applied := db.history;
      ghost var start, b := db, budget;
      ReachedFirst(start, ms, b);
      hide Reached, Loop, Commits, Applied, ValidSet, Known;
      var i := 0;
      while i < |ms|
        invariant 0 <= i <= |ms| && saved == None && Reached(start, ms, b, i, db, budget)
      {
        HistoryHas(applied, ms, i);
        if ms[i].version in applied {
          if applied[ms[i].version] != EntryOf(ms[i]) {
            ReachedMismatch(start, ms, b, i, db, budget);
            return Refused;
          }
          ReachedMatch(start, ms, b, i, db, budget);
        } else {
          ReachedMissing(start, ms, b, i, db, budget);
          var ok := ApplyOne(ms[i]);
          if !ok {
            return Failed;
          }
        }
        i := i + 1;
      }
      ReachedEnd(start, ms, b, db, budget);
      r := Migrated(|ms|);
    }
  }

  // ----- lemmas of the loop

  lemma {:induction false} VersionsAre(n: nat)
    ensures forall v: int :: v in Versions(n) <==> 1 <= v <= n
    ensures |Versions(n)| == n
  {
    if n > 0 {
      VersionsAre(n - 1);
    }
  }

  lemma KnownButNotFitting(history: map<int, Entry>, ms: seq<Migration>)
    ensures !Known(history, ms) ==> !Fits(history, ms)
  {
    VersionsAre(|history|);
    if Fits(history, ms) {
      forall v | v in history ensures 1 <= v <= |ms| {
        assert v in history.Keys;
      }
    }
  }

  lemma KnownFitInNumber(history: map<int, Entry>, ms: seq<Migration>)
    requires Known(history, ms)
    ensures |history| <= |ms| && (|history| == 0 ==> Fits(history, ms))
  {
    VersionsAre(|history|);
    if |history| > 0 {
      assert |history| in history.Keys;
    }
  }

  lemma HistoryHas(history: map<int, Entry>, ms: seq<Migration>, i: nat)
    requires ValidSet(ms) && Known(history, ms) && i < |ms|
    ensures ms[i].version in history <==> i < |history|
    ensures ms[i].version == i + 1
  {
    VersionsAre(|history|);
    assert ms[i].version in history <==> ms[i].version in history.Keys;
  }

  predicate MatchesUpTo(history: map<int, Entry>, ms: seq<Migration>, i: nat) {
    i <= |ms| && forall j :: 0 <= j < i ==> Matches(history, ms[j])
  }

  /** The state of the loop before the migration at `i`: up to the length of the history only checks
      were made, behind it every migration has been applied. */
  predicate Reached(start: Database, ms: seq<Migration>, b: Budget, i: nat, db: Database, left: Budget) {
    var n := |start.history|;
    n <= |ms| && i <= |ms| && Contiguous(start.history)
    && if i < n then db == start && left == b && MatchesUpTo(start.history, ms, i)
       else Fits(start.history, ms) && db == ApplyAll(start, ms[n..i])
            && Progress(ms, n, b) == i - n + Progress(ms, i, left)
  }

  lemma ReachedFirst(start: Database, ms: seq<Migration>, b: Budget)
    requires Known(start.history, ms)
    ensures Reached(start, ms, b, 0, start, b)
  {
    KnownFitInNumber(start.history, ms);
    ApplyNothing(start, ms, |start.history|);
    hide Progress, ApplyAll, Contiguous, Known;
  }

  lemma ReachedMismatch(start: Database, ms: seq<Migration>, b: Budget, i: nat, db: Database, left: Budget)
    requires Reached(start, ms, b, i, db, left) && i < |start.history|
    requires ms[i].version in start.history && start.history[ms[i].version] != EntryOf(ms[i])
    ensures Loop(start, ms, b) == (db, Refused)
  {
    hide Progress, ApplyAll, Contiguous;
    assert !Matches(start.history, ms[i]);
  }

  lemma ReachedMatch(start: Database, ms: seq<Migration>, b: Budget, i: nat, db: Database, left: Budget)
    requires Reached(start, ms, b, i, db, left) && i < |start.history| && Matches(start.history, ms[i])
    ensures Reached(start, ms, b, i + 1, db, left)
  {
    ApplyNothing(start, ms, |start.history|);
    hide Progress, ApplyAll, Contiguous, Matches;
  }

  /** A migration that is missing is applied, or stops the loop. */
  lemma ReachedMissing(start: Database, ms: seq<Migration>, b: Budget, i: nat, db: Database, left: Budget)
    requires Reached(start, ms, b, i, db, left) && |start.history| <= i < |ms|
    ensures Commits(ms[i], left) ==> Reached(start, ms, b, i + 1, Applied(db, ms[i]), Spend(left, Cost(ms[i])))
    ensures !Commits(ms[i], left) ==> Loop(start, ms, b) == (db, Failed)
  {
    var n := |start.history|;
    ProgressStep(ms, i, left, i + 1);
    ApplyOneMore(start, ms, n, i);
    hide Progress, ApplyAll, Contiguous, Matches, Commits, Applied, Spend, Cost, Fits;
  }

  lemma ReachedEnd(start: Database, ms: seq<Migration>, b: Budget, db: Database, left: Budget)
    requires Reached(start, ms, b, |ms|, db, left)
    ensures Loop(start, ms, b) == (db, Migrated(|ms|))
  {
    ProgressEnd(ms, left);
    hide Progress, ApplyAll, Contiguous, Fits;
  }

  lemma ApplyNothing(db: Database, ms: seq<Migration>, n: nat)
    requires n <= |ms|
    ensures ApplyAll(db, ms[n..n]) == db
  {
  }

  lemma ApplyOneMore(db: Database, ms: seq<Migration>, n: nat, i: nat)
    requires n <= i < |ms|
    ensures ApplyAll(db, ms[n..i + 1]) == Applied(ApplyAll(db, ms[n..i]), ms[i])
  {
    assert ms[n..i + 1][..i - n] == ms[n..i];
  }

  lemma ProgressStep(ms: seq<Migration>, i: nat, b: Budget, next: nat)
    requires i < |ms| && next == i + 1
    ensures Progress(ms, i, b) == if Commits(ms[i], b) then 1 + Progress(ms, next, Spend(b, Cost(ms[i]))) else 0
  {
    hide Commits;
  }

  lemma ProgressEnd(ms: seq<Migration>, b: Budget)
    ensures Progress(ms, |ms|, b) == 0
  {
  }
}
