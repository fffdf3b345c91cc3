/** Database migrations through a service that may fail at any call, also after
    the call took effect. */
module Migrations {

  /** A call that failed may still have done its work. */
  datatype Fate = Done | Failed(effect: bool)

  /** How one run's calls go, those about a migration by its place in the list. */
  datatype Service = Service(create: Fate, check: nat -> bool, apply: nat -> Fate, record: nat -> Fate)

  /** The recorded names, in the order of recording, and every migration whose
      SQL took effect, by its place in the list. */
  datatype Database = Database(ledger: seq<string>, ran: seq<nat>)

  datatype Outcome = Outcome(db: Database, applied: nat, ok: bool)

  const FRESH := Database([], [])

  predicate TookEffect(f: Fate)
  {
    f.Done? || f.effect
  }

  function Ran(db: Database, i: nat, f: Fate): Database
  {
    if TookEffect(f) then db.(ran := db.ran + [i]) else db
  }

  function Recorded(db: Database, name: string, f: Fate): Database
  {
    if TookEffect(f) then db.(ledger := db.ledger + [name]) else db
  }

  /** A run over the migrations from the i-th on. */
  function RunFrom(db: Database, migrations: seq<string>, i: nat, s: Service): Outcome
    requires i <= |migrations|
    decreases |migrations| - i
  {
    if i == |migrations| then Outcome(db, 0, true)
    else if !s.check(i) then Outcome(db, 0, false)
    else if migrations[i] in db.ledger then RunFrom(db, migrations, i + 1, s)
    else
      var db1 := Ran(db, i, s.apply(i));
      if s.apply(i).Failed? then Outcome(db1, 0, false)
      else
        var db2 := Recorded(db1, migrations[i], s.record(i));
        if s.record(i).Failed? then Outcome(db2, 0, false)
        else
          var rest := RunFrom(db2, migrations, i + 1, s);
          rest.(applied := rest.applied + 1)
  }

  function Run(db: Database, migrations: seq<string>, s: Service): Outcome
  {
    if s.create.Failed? then Outcome(db, 0, false) else RunFrom(db, migrations, 0, s)
  }

  method ApplyMigrations(start: Database, migrations: seq<string>, s: Service) returns (db: Database, applied: nat, ok: bool)
    ensures Outcome(db, applied, ok) == Run(start, migrations, s)
  {
    db, applied := start, 0;
    if s.create.Failed? {
      return db, 0, false;
    }
    for i := 0 to |migrations|
      invariant var rest := RunFrom(db, migrations, i, s);
        Run(start, migrations, s) == rest.(applied := applied + rest.applied)
    {
      var name := migrations[i];
      if !s.check(i) {
        return db, applied, false;
      }
      if name in db.ledger {
        continue;
      }
      db := Ran(db, i, s.apply(i));
      if s.apply(i).Failed? {
        return db, applied, false;
      }
      db := Recorded(db, name, s.record(i));
      if s.record(i).Failed? {
        return db, applied, false;
      }
      applied := applied + 1;
    }
    return db, applied, true;
  }

  // ---- what holds of any ledger ----

  /** A run that ends without an error leaves every listed migration recorded;
      it never takes a name off the ledger. */
  lemma {:induction false} OkRecordsAll(db: Database, migrations: seq<string>, i: nat, s: Service)
    requires i <= |migrations|
    ensures db.ledger <= RunFrom(db, migrations, i, s).db.ledger
    ensures RunFrom(db, migrations, i, s).ok ==> forall k :: i <= k < |migrations| ==> migrations[k] in RunFrom(db, migrations, i, s).db.ledger
    decreases |migrations| - i
  {
    if i < |migrations| && s.check(i) {
      if migrations[i] in db.ledger {
        OkRecordsAll(db, migrations, i + 1, s);
      } else if s.apply(i).Done? && s.record(i).Done? {
        var db2 := Recorded(Ran(db, i, Done), migrations[i], Done);
        assert db2.ledger[|db.ledger|] == migrations[i];
        OkRecordsAll(db2, migrations, i + 1, s);
      }
    }
  }

  /** The i-th call for a migration goes well: it is answered, and if it is not
      recorded yet both its SQL and its record are. */
  ghost predicate GoesWell(db: Database, migrations: seq<string>, i: nat, s: Service)
    requires i < |migrations|
  {
    s.check(i) && (migrations[i] !in db.ledger ==> s.apply(i).Done? && s.record(i).Done?)
  }

  ghost predicate Distinct(names: seq<string>)
  {
    forall i, j :: 0 <= i < j < |names| ==> names[i] != names[j]
  }

  lemma RecordedElsewhere(db: Database, migrations: seq<string>, i: nat, k: nat, s: Service)
    requires Distinct(migrations) && i < k < |migrations|
    ensures var db2 := Recorded(Ran(db, i, s.apply(i)), migrations[i], s.record(i));
      GoesWell(db2, migrations, k, s) <==> GoesWell(db, migrations, k, s)
  {
  }

  lemma {:induction false} RunFromOkIff(db: Database, migrations: seq<string>, i: nat, s: Service)
    requires Distinct(migrations) && i <= |migrations|
    ensures RunFrom(db, migrations, i, s).ok <==> forall k :: i <= k < |migrations| ==> GoesWell(db, migrations, k, s)
    decreases |migrations| - i
  {
    if i < |migrations| {
      if !s.check(i) {
        assert !GoesWell(db, migrations, i, s);
      } else if migrations[i] in db.ledger {
        assert GoesWell(db, migrations, i, s);
        RunFromOkIff(db, migrations, i + 1, s);
      } else if s.apply(i).Done? && s.record(i).Done? {
        assert GoesWell(db, migrations, i, s);
        var db2 := Recorded(Ran(db, i, s.apply(i)), migrations[i], s.record(i));
        RunFromOkIff(db2, migrations, i + 1, s);
        forall k | i < k < |migrations|
          ensures GoesWell(db2, migrations, k, s) <==> GoesWell(db, migrations, k, s)
        {
          RecordedElsewhere(db, migrations, i, k, s);
        }
      } else {
        assert !GoesWell(db, migrations, i, s);
      }
    }
  }

  /** On any ledger, a run reports no error exactly when none of its calls
      failed: the table's creation, every check, and for each migration not yet
      recorded its SQL and its record. */
  lemma OkIff(db: Database, migrations: seq<string>, s: Service)
    requires Distinct(migrations)
    ensures Run(db, migrations, s).ok <==>
      s.create.Done? && forall i :: 0 <= i < |migrations| ==>
        s.check(i) && (migrations[i] !in db.ledger ==> s.apply(i).Done? && s.record(i).Done?)
  {
    RunFromOkIff(db, migrations, 0, s);
    assert forall i :: 0 <= i < |migrations| ==>
      (GoesWell(db, migrations, i, s) <==>
        s.check(i) && (migrations[i] !in db.ledger ==> s.apply(i).Done? && s.record(i).Done?));
  }

  /** Everything from the i-th migration up to the j-th goes well. */
  ghost predicate Through(db: Database, migrations: seq<string>, i: nat, j: nat, s: Service)
    requires j <= |migrations|
  {
    forall k :: i <= k < j ==> GoesWell(db, migrations, k, s)
  }

  /** A run from the i-th migration on comes to execute the j-th. */
  ghost predicate Comes(db: Database, migrations: seq<string>, i: nat, j: nat, s: Service)
    requires j < |migrations|
  {
    i <= j && Through(db, migrations, i, j, s) && s.check(j) && migrations[j] !in db.ledger
  }

  /** What a run from the i-th migration on executed, and whether it recorded the j-th. */
  ghost predicate Executed(db: Database, o: Database, migrations: seq<string>, i: nat, j: nat, s: Service)
    requires i <= |migrations| && j < |migrations|
  {
    && db.ran <= o.ran
    && (j in o.ran[|db.ran|..] <==> Comes(db, migrations, i, j, s) && TookEffect(s.apply(j)))
    && (migrations[j] in o.ledger <==>
        migrations[j] in db.ledger || (Comes(db, migrations, i, j, s) && s.apply(j).Done? && TookEffect(s.record(j))))
  }

  lemma {:induction false} RunFromExecuted(db: Database, migrations: seq<string>, i: nat, j: nat, s: Service)
    requires Distinct(migrations) && i <= |migrations| && j < |migrations|
    ensures Executed(db, RunFrom(db, migrations, i, s).db, migrations, i, j, s)
    decreases |migrations| - i
  {
    if i < |migrations| {
      if !s.check(i) {
        assert i < j ==> !GoesWell(db, migrations, i, s);
      } else if migrations[i] in db.ledger {
        RunFromExecuted(db, migrations, i + 1, j, s);
        ThroughNext(db, migrations, i, j, s);
      } else if s.apply(i).Done? && s.record(i).Done? {
        var db2 := Recorded(Ran(db, i, s.apply(i)), migrations[i], s.record(i));
        RunFromExecuted(db2, migrations, i + 1, j, s);
        ExecutedOneMore(db, db2, RunFrom(db2, migrations, i + 1, s).db, migrations, i, j, s);
      } else {
        assert i < j ==> !GoesWell(db, migrations, i, s);
        StoppedExecuted(db, migrations, i, j, s);
      }
    }
  }

  lemma ThroughNext(db: Database, migrations: seq<string>, i: nat, j: nat, s: Service)
    requires i < |migrations| && j < |migrations|
    ensures i < j ==> (Through(db, migrations, i, j, s) <==> GoesWell(db, migrations, i, s) && Through(db, migrations, i + 1, j, s))
    ensures j <= i ==> Through(db, migrations, i, j, s)
  {
  }

  lemma ThroughElsewhere(db: Database, migrations: seq<string>, i: nat, j: nat, s: Service)
    requires Distinct(migrations) && i < |migrations| && j < |migrations|
    ensures var db2 := Recorded(Ran(db, i, s.apply(i)), migrations[i], s.record(i));
      Through(db2, migrations, i + 1, j, s) <==> Through(db, migrations, i + 1, j, s)
  {
    var db2 := Recorded(Ran(db, i, s.apply(i)), migrations[i], s.record(i));
    forall k | i < k < j
      ensures GoesWell(db2, migrations, k, s) <==> GoesWell(db, migrations, k, s)
    {
      RecordedElsewhere(db, migrations, i, k, s);
    }
  }

  lemma StoppedExecuted(db: Database, migrations: seq<string>, i: nat, j: nat, s: Service)
    requires Distinct(migrations) && i < |migrations| && j < |migrations|
    requires s.check(i) && migrations[i] !in db.ledger && (s.apply(i).Failed? || s.record(i).Failed?)
    ensures Executed(db, RunFrom(db, migrations, i, s).db, migrations, i, j, s)
  {
    ThroughNext(db, migrations, i, j, s);
  }

  lemma ExecutedOneMore(db: Database, db2: Database, o: Database, migrations: seq<string>, i: nat, j: nat, s: Service)
    requires Distinct(migrations) && i < |migrations| && j < |migrations|
    requires s.check(i) && migrations[i] !in db.ledger && s.apply(i).Done? && s.record(i).Done?
    requires db2 == Recorded(Ran(db, i, s.apply(i)), migrations[i], s.record(i))
    requires Executed(db2, o, migrations, i + 1, j, s)
    ensures Executed(db, o, migrations, i, j, s)
  {
    ThroughNext(db, migrations, i, j, s);
    ThroughElsewhere(db, migrations, i, j, s);
    assert o.ran[|db.ran|..] == [i] + o.ran[|db2.ran|..];
  }

  ghost function Counts(db: Database, migrations: seq<string>, i: nat, s: Service): set<nat>
    requires i <= |migrations|
  {
    set j | 0 <= j < |migrations| && Comes(db, migrations, i, j, s) && s.apply(j).Done? && s.record(j).Done?
  }

  lemma CountsNext(db: Database, migrations: seq<string>, i: nat, s: Service)
    requires Distinct(migrations) && i < |migrations| && s.check(i)
    ensures migrations[i] in db.ledger ==> Counts(db, migrations, i, s) == Counts(db, migrations, i + 1, s)
    ensures migrations[i] !in db.ledger && !(s.apply(i).Done? && s.record(i).Done?) ==> Counts(db, migrations, i, s) == {}
    ensures migrations[i] !in db.ledger && s.apply(i).Done? && s.record(i).Done? ==>
      var db2 := Recorded(Ran(db, i, s.apply(i)), migrations[i], s.record(i));
      Counts(db, migrations, i, s) == {i} + Counts(db2, migrations, i + 1, s)
  {
    var db2 := Recorded(Ran(db, i, s.apply(i)), migrations[i], s.record(i));
    forall j | 0 <= j < |migrations|
      ensures migrations[i] in db.ledger ==> (Comes(db, migrations, i, j, s) <==> Comes(db, migrations, i + 1, j, s))
      ensures migrations[i] !in db.ledger && !(s.apply(i).Done? && s.record(i).Done?) && i != j ==> !Comes(db, migrations, i, j, s)
      ensures migrations[i] !in db.ledger && s.apply(i).Done? && s.record(i).Done? && i != j ==>
        (Comes(db, migrations, i, j, s) <==> Comes(db2, migrations, i + 1, j, s))
    {
      ThroughNext(db, migrations, i, j, s);
      ThroughElsewhere(db, migrations, i, j, s);
    }
  }

  lemma {:induction false} RunFromCounts(db: Database, migrations: seq<string>, i: nat, s: Service)
    requires Distinct(migrations) && i <= |migrations|
    ensures RunFrom(db, migrations, i, s).applied == |Counts(db, migrations, i, s)|
    decreases |migrations| - i
  {
    if i == |migrations| {
      assert Counts(db, migrations, i, s) == {};
    } else if !s.check(i) {
      assert !GoesWell(db, migrations, i, s);
      assert Counts(db, migrations, i, s) == {};
    } else {
      CountsNext(db, migrations, i, s);
      if migrations[i] in db.ledger {
        RunFromCounts(db, migrations, i + 1, s);
      } else if s.apply(i).Done? && s.record(i).Done? {
        RunFromCounts(Recorded(Ran(db, i, s.apply(i)), migrations[i], s.record(i)), migrations, i + 1, s);
      }
    }
  }

  /** A run comes to execute the j-th migration: it is not recorded, every check
      up to it is answered, and everything unrecorded before it goes through. */
  ghost predicate ComesTo(db: Database, list: seq<string>, s: Service, j: nat)
    requires j < |list|
  {
    && s.create.Done?
    && list[j] !in db.ledger
    && (forall m :: 0 <= m <= j ==> s.check(m))
    && (forall m :: 0 <= m < j && list[m] !in db.ledger ==> s.apply(m).Done? && s.record(m).Done?)
  }

  lemma ComesFromStart(db: Database, list: seq<string>, s: Service, j: nat)
    requires j < |list|
    ensures ComesTo(db, list, s, j) <==> s.create.Done? && Comes(db, list, 0, j, s)
  {
    if Comes(db, list, 0, j, s) {
      forall m | 0 <= m < j
        ensures s.check(m) && (list[m] !in db.ledger ==> s.apply(m).Done? && s.record(m).Done?)
      {
        assert GoesWell(db, list, m, s);
      }
    }
  }

  /** On any ledger, what a run comes to is executed if its SQL takes effect,
      recorded if its SQL succeeds and the record takes effect, and counted if
      both calls succeed; nothing else is, and nothing is taken away. */
  lemma RunDoesExactly(db: Database, list: seq<string>, s: Service)
    requires Distinct(list)
    ensures var o := Run(db, list, s);
      && db.ledger <= o.db.ledger && db.ran <= o.db.ran
      && (forall j :: 0 <= j < |list| ==> (j in o.db.ran[|db.ran|..] <==> ComesTo(db, list, s, j) && TookEffect(s.apply(j))))
      && (forall j :: 0 <= j < |list| ==>
        (list[j] in o.db.ledger <==> list[j] in db.ledger || (ComesTo(db, list, s, j) && s.apply(j).Done? && TookEffect(s.record(j)))))
      && o.applied == |set j | 0 <= j < |list| && ComesTo(db, list, s, j) && s.apply(j).Done? && s.record(j).Done?|
  {
    var o := Run(db, list, s);
    if s.create.Done? {
      OkRecordsAll(db, list, 0, s);
      RunFromCounts(db, list, 0, s);
    }
    forall j | 0 <= j < |list|
      ensures ComesTo(db, list, s, j) <==> s.create.Done? && Comes(db, list, 0, j, s)
      ensures s.create.Done? ==> Executed(db, o.db, list, 0, j, s)
    {
      ComesFromStart(db, list, s, j);
      RunFromExecuted(db, list, 0, j, s);
    }
    assert (set j | 0 <= j < |list| && ComesTo(db, list, s, j) && s.apply(j).Done? && s.record(j).Done?)
      == if s.create.Done? then Counts(db, list, 0, s) else {};
  }

  // ---- over any number of runs ----

  function UpTo(from: nat, to: nat): (r: seq<nat>)
    requires from <= to
    ensures |r| == to - from && forall i :: 0 <= i < |r| ==> r[i] == from + i
  {
    seq(to - from, i requires 0 <= i < to - from => from + i)
  }

  /** What a run over list did to a database holding its first k migrations:
      it executed the ones from k on, each once and in order, recorded all of
      them but perhaps the last, and counted all it recorded but perhaps the last. */
  ghost predicate RanOn(db: Database, o: Outcome, list: seq<string>)
  {
    var k, k2, e := |db.ledger|, |o.db.ledger|, |db.ledger| + |o.db.ran| - |db.ran|;
    && k <= k2 <= |list| && o.db.ledger == list[..k2]
    && k2 - 1 <= k + o.applied <= k2
    && k2 <= e <= k2 + 1 && e <= |list| && o.db.ran == db.ran + UpTo(k, e)
    && (o.ok ==> e == k2 == |list| && o.applied == k2 - k)
  }

  lemma RecordedIffBelow(db: Database, list: seq<string>, i: nat)
    requires Distinct(list) && db.ledger <= list && i < |list|
    ensures list[i] in db.ledger <==> i < |db.ledger|
  {
  }

  lemma {:induction false} RunFromPrefix(db: Database, list: seq<string>, i: nat, s: Service)
    requires Distinct(list) && i <= |db.ledger| && db.ledger <= list
    ensures RanOn(db, RunFrom(db, list, i, s), list)
    decreases |list| - i
  {
    var k := |db.ledger|;
    assert db.ran + UpTo(k, k) == db.ran;
    if i < |list| {
      RecordedIffBelow(db, list, i);
      if i < k {
        if s.check(i) {
          RunFromPrefix(db, list, i + 1, s);
        }
      } else {
        RunFirstUnrecorded(db, list, s);
      }
    }
  }

  lemma RunFirstUnrecorded(db: Database, list: seq<string>, s: Service)
    requires Distinct(list) && db.ledger <= list && |db.ledger| < |list|
    requires list[|db.ledger|] !in db.ledger
    ensures RanOn(db, RunFrom(db, list, |db.ledger|, s), list)
    decreases |list| - |db.ledger|, 1
  {
    var k := |db.ledger|;
    if s.check(k) && s.apply(k).Done? && s.record(k).Done? {
      RunGoesOn(db, list, s);
    } else {
      RunStops(db, list, s);
    }
  }

  /** At most the first unrecorded migration was executed, and if so perhaps recorded. */
  lemma StoppedThere(db: Database, o: Outcome, list: seq<string>)
    requires db.ledger <= list && |db.ledger| < |list| && o.applied == 0 && !o.ok
    requires o.db.ran == db.ran || o.db.ran == db.ran + [|db.ledger|]
    requires o.db.ledger == db.ledger || (o.db.ledger == db.ledger + [list[|db.ledger|]] && o.db.ran != db.ran)
    ensures RanOn(db, o, list)
  {
    var k := |db.ledger|;
    assert db.ran + UpTo(k, k) == db.ran && UpTo(k, k + 1) == [k];
    assert list[..k + 1] == db.ledger + [list[k]];
  }

  lemma RunStops(db: Database, list: seq<string>, s: Service)
    requires db.ledger <= list && |db.ledger| < |list| && list[|db.ledger|] !in db.ledger
    requires !(s.check(|db.ledger|) && s.apply(|db.ledger|).Done? && s.record(|db.ledger|).Done?)
    ensures RanOn(db, RunFrom(db, list, |db.ledger|, s), list)
  {
    StoppedThere(db, RunFrom(db, list, |db.ledger|, s), list);
  }

  lemma RunGoesOn(db: Database, list: seq<string>, s: Service)
    requires Distinct(list) && db.ledger <= list && |db.ledger| < |list| && list[|db.ledger|] !in db.ledger
    requires s.check(|db.ledger|) && s.apply(|db.ledger|).Done? && s.record(|db.ledger|).Done?
    ensures RanOn(db, RunFrom(db, list, |db.ledger|, s), list)
    decreases |list| - |db.ledger|, 0
  {
    PrefixGrows(db.ledger, list);
    RunFromPrefix(WithFirst(db, list), list, |db.ledger| + 1, s);
    GoesOnFrom(db, list, s);
  }

  /** The first unrecorded migration executed and recorded. */
  ghost function WithFirst(db: Database, list: seq<string>): Database
    requires |db.ledger| < |list|
  {
    Database(db.ledger + [list[|db.ledger|]], db.ran + [|db.ledger|])
  }

  lemma GoesOnFrom(db: Database, list: seq<string>, s: Service)
    requires db.ledger <= list && |db.ledger| < |list| && list[|db.ledger|] !in db.ledger
    requires s.check(|db.ledger|) && s.apply(|db.ledger|).Done? && s.record(|db.ledger|).Done?
    requires RanOn(WithFirst(db, list), RunFrom(WithFirst(db, list), list, |db.ledger| + 1, s), list)
    ensures RanOn(db, RunFrom(db, list, |db.ledger|, s), list)
  {
    FirstGoesWell(db, list, s);
    OneMore(db, RunFrom(WithFirst(db, list), list, |db.ledger| + 1, s), list);
  }

  lemma PrefixGrows(a: seq<string>, list: seq<string>)
    requires a <= list && |a| < |list|
    ensures a + [list[|a|]] <= list
  {
  }

  lemma FirstGoesWell(db: Database, list: seq<string>, s: Service)
    requires |db.ledger| < |list| && list[|db.ledger|] !in db.ledger && s.check(|db.ledger|)
    requires s.apply(|db.ledger|).Done? && s.record(|db.ledger|).Done?
    ensures var k := |db.ledger|;
      var rest := RunFrom(WithFirst(db, list), list, k + 1, s);
      RunFrom(db, list, k, s) == rest.(applied := rest.applied + 1)
  {
  }

  /** Executing and recording one migration before the rest of a run. */
  lemma OneMore(db: Database, rest: Outcome, list: seq<string>)
    requires db.ledger <= list && |db.ledger| < |list|
    requires RanOn(WithFirst(db, list), rest, list)
    ensures RanOn(db, rest.(applied := rest.applied + 1), list)
  {
  }

  /** An older program, whose list the ledger already covers, runs nothing. */
  lemma {:induction false} OlderRunsNothing(db: Database, list: seq<string>, n: nat, i: nat, s: Service)
    requires Distinct(list) && db.ledger <= list && i <= n <= |db.ledger|
    ensures RunFrom(db, list[..n], i, s).db == db && RunFrom(db, list[..n], i, s).applied == 0
    decreases n - i
  {
    if i < n {
      RecordedIffBelow(db, list, i);
      OlderRunsNothing(db, list, n, i + 1, s);
    }
  }

  ghost predicate Climbs(ran: seq<nat>)
  {
    forall i :: 0 <= i < |ran| - 1 ==> ran[i] <= ran[i + 1] <= ran[i] + 1
  }

  lemma ClimbsOn(a: seq<nat>, b: seq<nat>)
    requires Climbs(a) && Climbs(b)
    requires a != [] && b != [] ==> a[|a| - 1] <= b[0] <= a[|a| - 1] + 1
    ensures Climbs(a + b)
  {
  }

  /** The executed migrations climb the list one at a time from its start, up
      to the last recorded one or the one after it. */
  ghost predicate Orderly(db: Database, list: seq<string>)
  {
    var k := |db.ledger|;
    && db.ledger <= list
    && (forall i :: 0 <= i < |db.ran| ==> db.ran[i] <= k)
    && Climbs(db.ran)
    && (forall j :: 0 <= j < k ==> j in db.ran)
    && if db.ran == [] then k == 0 else db.ran[0] == 0 && k - 1 <= db.ran[|db.ran| - 1] < |list|
  }

  lemma RunKeepsOrder(db: Database, o: Outcome, list: seq<string>, all: seq<string>)
    requires Orderly(db, all) && list <= all && RanOn(db, o, list)
    ensures Orderly(o.db, all)
  {
    var k, e := |db.ledger|, |db.ledger| + |o.db.ran| - |db.ran|;
    var more := UpTo(k, e);
    ClimbsOn(db.ran, more);
    forall j | 0 <= j < |o.db.ledger|
      ensures j in o.db.ran
    {
      if j >= k {
        assert more[j - k] == j && j in more;
      } else {
        assert j in db.ran;
      }
    }
  }

  /** A run of a program whose list is the first n migrations. */
  datatype Attempt = Attempt(n: nat, s: Service)

  function AfterRuns(db: Database, all: seq<string>, runs: seq<Attempt>): Database
    requires forall a :: a in runs ==> a.n <= |all|
  {
    if runs == [] then db
    else
      var last := |runs| - 1;
      Run(AfterRuns(db, all, runs[..last]), all[..runs[last].n], runs[last].s).db
  }

  lemma OneRun(db: Database, all: seq<string>, n: nat, s: Service)
    requires Distinct(all) && Orderly(db, all) && n <= |all|
    ensures var o := Run(db, all[..n], s);
      && Orderly(o.db, all)
      && (if n >= |db.ledger| then RanOn(db, o, all[..n]) else o.db == db && o.applied == 0)
      && (o.ok ==> forall k :: 0 <= k < n ==> all[k] in o.db.ledger)
  {
    var list := all[..n];
    assert db.ran + UpTo(|db.ledger|, |db.ledger|) == db.ran;
    if s.create.Done? {
      OkRecordsAll(db, list, 0, s);
      if n >= |db.ledger| {
        RunFromPrefix(db, list, 0, s);
        RunKeepsOrder(db, RunFrom(db, list, 0, s), list, all);
      } else {
        OlderRunsNothing(db, all, n, 0, s);
      }
    }
  }

  /** Whatever fails, and whichever program runs: the ledger is always a prefix
      of the migrations, and what was executed climbed them without a gap. */
  lemma {:induction false} EveryRunIsOrderly(all: seq<string>, runs: seq<Attempt>)
    requires Distinct(all) && forall a :: a in runs ==> a.n <= |all|
    ensures Orderly(AfterRuns(FRESH, all, runs), all)
  {
    if runs != [] {
      var last := |runs| - 1;
      EveryRunIsOrderly(all, runs[..last]);
      OneRun(AfterRuns(FRESH, all, runs[..last]), all, runs[last].n, runs[last].s);
    }
  }

  /** A later run executes again at most one migration: the first unrecorded
      one, when its SQL had taken effect before; and none of them twice. */
  lemma OnlyFirstUnrecordedAgain(all: seq<string>, runs: seq<Attempt>, n: nat, s: Service, i: nat, j: nat)
    requires Distinct(all) && n <= |all| && forall a :: a in runs ==> a.n <= |all|
    requires var db := AfterRuns(FRESH, all, runs);
      var db2 := Run(db, all[..n], s).db;
      i < j < |db2.ran| && j >= |db.ran| && db2.ran[i] == db2.ran[j]
    ensures var db := AfterRuns(FRESH, all, runs);
      var db2 := Run(db, all[..n], s).db;
      db.ran <= db2.ran && i < |db.ran| && db2.ran[j] == |db.ledger| && j == |db.ran|
  {
    EveryRunIsOrderly(all, runs);
    var db := AfterRuns(FRESH, all, runs);
    OneRun(db, all, n, s);
  }

  // ---- the status check ----

  datatype CountReply = CountFailed | NoCount | Counted(count: nat)

  function CountAppliedMigrations(reply: CountReply): CountReply
  {
    if reply.NoCount? then Counted(0) else reply
  }

  function MigrationsReady(embedded: nat, reply: CountReply): bool
  {
    var applied := CountAppliedMigrations(reply);
    applied.Counted? && applied.count >= embedded
  }

  /** Counting is enough: after any runs, the status is ready exactly when every
      migration the program embeds is recorded; never by a count that failed, and
      by one that is missing only when there is nothing to record. */
  lemma ReadyIffAllRecorded(all: seq<string>, runs: seq<Attempt>, n: nat)
    requires Distinct(all) && n <= |all| && forall a :: a in runs ==> a.n <= |all|
    ensures var db := AfterRuns(FRESH, all, runs);
      MigrationsReady(n, Counted(|db.ledger|)) <==> forall k :: 0 <= k < n ==> all[k] in db.ledger
    ensures !MigrationsReady(n, CountFailed) && (MigrationsReady(n, NoCount) <==> n == 0)
  {
    EveryRunIsOrderly(all, runs);
    var db := AfterRuns(FRESH, all, runs);
    if |db.ledger| < n {
      RecordedIffBelow(db, all, |db.ledger|);
    }
    forall k | 0 <= k < n && |db.ledger| >= n
      ensures all[k] in db.ledger
    {
      assert db.ledger[k] == all[k];
    }
  }
}