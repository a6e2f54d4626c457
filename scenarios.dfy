/**
 * Concrete runs of the model that retrace the scenarios of
 * spec/models/challenge_spec.rb: the availability timeline of four rows
 * as the clock advances, and a three-step quest contested to completion
 * (the quest `QuestTest0` over `SimpleChallenge`, `SimpleChallenge2` and
 * `SimpleChallenge3`, each won as soon as it is contested).
 */
module Scenarios {
  import opened Challenges
  import opened Registries
  import opened Stores
  import opened Availability
  import Quests
  import Lifecycle

  // -------------------------------------------------------------------
  // Availability timeline
  // -------------------------------------------------------------------

  /**
   * User `u`'s rows at `t0`: an `A` with no dates, a `B` locked out for two
   * hours, a `C` locked out for 72 hours and a `D` active for two weeks.
   */
  function TimelineDb(u: UserId, t0: Time): (db: Db)
    ensures Bounded(db) && db.recs.Keys == {0, 1, 2, 3}
  {
    Db(map[0 := NewChallenge("A", u, None, None, None),
           1 := NewChallenge("B", u, None, None, None).(lockedOutTill := Some(t0 + 2 * Hour)),
           2 := NewChallenge("C", u, None, None, None).(lockedOutTill := Some(t0 + 72 * Hour)),
           3 := NewChallenge("D", u, None, Some(t0 + 2 * Week), None)], 4)
  }

  /** Whether type `t` is offered to `u` at `now`, as `challenge_types` reports it. */
  predicate Offered(db: Db, u: UserId, t: TypeName, now: Time) {
    IsChallengeTypeAvailable(LockedOutChallengeTypes(db, u, now), ActiveChallengeTypes(db, u, now), t)
  }

  /** At the start `B` and `C` are locked out until their lockout times, `D` is active, only `A` is offered. */
  lemma TimelineAtStart(u: UserId, t0: Time)
    ensures var db := TimelineDb(u, t0);
      && LockedOutChallengeTypes(db, u, t0) == {"B", "C"}
      && LockedOutChallengeTime(db, u, "B", t0) == Some(t0 + 2 * Hour)
      && LockedOutChallengeTime(db, u, "C", t0) == Some(t0 + 72 * Hour)
      && ActiveChallengeTypes(db, u, t0) == {"D"}
      && Offered(db, u, "A", t0) && !Offered(db, u, "B", t0)
      && !Offered(db, u, "C", t0) && !Offered(db, u, "D", t0)
  {
    StartLocks(u, t0);
    StartActive(u, t0);
  }

  lemma StartLocks(u: UserId, t0: Time)
    ensures var db := TimelineDb(u, t0);
      && LockedOutChallengeTypes(db, u, t0) == {"B", "C"}
      && LockedOutChallengeTime(db, u, "B", t0) == Some(t0 + 2 * Hour)
      && LockedOutChallengeTime(db, u, "C", t0) == Some(t0 + 72 * Hour)
  {
    var db := TimelineDb(u, t0);
    assert LocksOut(db.recs[1], u, "B", t0) && LocksOut(db.recs[2], u, "C", t0);
  }

  lemma StartActive(u: UserId, t0: Time)
    ensures ActiveChallengeTypes(TimelineDb(u, t0), u, t0) == {"D"}
  {
    var db := TimelineDb(u, t0);
    assert ActiveOfType(db.recs[3], u, "D", t0);
  }

  /** 45 hours later `B` is free, `C` stays locked for 27 more hours, `D` is still active. */
  lemma TimelineAfter45Hours(u: UserId, t0: Time)
    ensures var db := TimelineDb(u, t0);
      var now := t0 + 45 * Hour;
      && LockedOutChallengeTypes(db, u, now) == {"C"}
      && LockedOutChallengeTime(db, u, "B", now) == None
      && LockedOutChallengeTime(db, u, "C", now) == Some(now + 27 * Hour)
      && ActiveChallengeTypes(db, u, now) == {"D"}
      && Offered(db, u, "A", now) && Offered(db, u, "B", now)
      && !Offered(db, u, "C", now) && !Offered(db, u, "D", now)
  {
    var db := TimelineDb(u, t0);
    var now := t0 + 45 * Hour;
    assert LocksOut(db.recs[2], u, "C", now);
    assert ActiveOfType(db.recs[3], u, "D", now);
  }

  /** 145 hours after the start nothing is locked out; only the active `D` is not offered. */
  lemma TimelineAfter145Hours(u: UserId, t0: Time)
    ensures var db := TimelineDb(u, t0);
      var now := t0 + 145 * Hour;
      && LockedOutChallengeTypes(db, u, now) == {}
      && LockedOutChallengeTime(db, u, "B", now) == None
      && LockedOutChallengeTime(db, u, "C", now) == None
      && ActiveChallengeTypes(db, u, now) == {"D"}
      && Offered(db, u, "A", now) && Offered(db, u, "B", now)
      && Offered(db, u, "C", now) && !Offered(db, u, "D", now)
  {
    var db := TimelineDb(u, t0);
    var now := t0 + 145 * Hour;
    assert ActiveOfType(db.recs[3], u, "D", now);
  }

  /** Two weeks after that `D` has run out as well and every type is offered. */
  lemma TimelineAfterTwoMoreWeeks(u: UserId, t0: Time)
    ensures var db := TimelineDb(u, t0);
      var now := t0 + 145 * Hour + 2 * Week;
      && LockedOutChallengeTypes(db, u, now) == {}
      && ActiveChallengeTypes(db, u, now) == {}
      && Offered(db, u, "A", now) && Offered(db, u, "B", now)
      && Offered(db, u, "C", now) && Offered(db, u, "D", now)
  {
  }

  // -------------------------------------------------------------------
  // A three-step quest
  // -------------------------------------------------------------------

  /** `SimpleChallenge` and its two subclasses: always won, never lost, locked out 71 hours, 5 points. */
  ghost predicate SimpleLike(d: Definition) {
    && d.kind == Plain && d.workflow == [] && d.successPoints == 5 && d.lockedOutDuration == 71 * Hour
    && forall c, t :: d.won(c, t) && !d.lost(c, t)
  }

  const Steps: seq<TypeName> := ["SimpleChallenge", "SimpleChallenge2", "SimpleChallenge3"]

  /** `QuestTest0`: a quest over the three simple steps worth 101 points. */
  ghost predicate QuestLike(d: Definition) {
    && d.kind == Quest && d.workflow == Steps && d.successPoints == 101
    && d.duration == QuestDuration && d.lockedOutDuration == DefaultLockedOutDuration
    && (forall c, t :: d.won(c, t) && !d.lost(c, t))
    && forall t :: d.calcBeginsOn(t) == t
  }

  /** A registry whose folder holds only `QuestTest0`, with the three simple steps defined. */
  ghost predicate QuestSetup(reg: Registry) {
    && reg.Valid() && reg.folder == ["QuestTest0"]
    && "QuestTest0" in reg.defs && QuestLike(reg.defs["QuestTest0"])
    && Steps[0] in reg.defs && SimpleLike(reg.defs[Steps[0]])
    && Steps[1] in reg.defs && SimpleLike(reg.defs[Steps[1]])
    && Steps[2] in reg.defs && SimpleLike(reg.defs[Steps[2]])
  }

  /** Such a registry exists. */
  lemma QuestSetupExists()
    ensures QuestSetup(Registry(map["QuestTest0" := QuestDefinition(Steps, 101, 1),
                                    Steps[0] := SimpleDefinition(), Steps[1] := SimpleDefinition(),
                                    Steps[2] := SimpleDefinition()],
                                ["QuestTest0"]))
  {
  }

  function SimpleDefinition(): (d: Definition)
    ensures SimpleLike(d)
  {
    Definition(Plain, true, 0, 6 * Week, 71 * Hour, 5, [], (c, t) => true, (c, t) => false, t => t)
  }

  /** A step's row as `build_child_challenge` creates it. */
  function Fresh(t: TypeName, u: UserId): Challenge {
    NewChallenge(t, u, None, None, None)
  }

  /** A simple row once won at `now`. */
  function WonSimple(c: Challenge, now: Time): Challenge {
    c.(status := Won, points := 5, endsOn := Some(now), lockedOutTill := Some(now + 71 * Hour))
  }

  /** The quest's row at `cursor`, linked to the row `child`. */
  function QuestRow(u: UserId, t0: Time, cursor: nat, child: Id): Challenge {
    NewChallenge("QuestTest0", u, Some(t0), Some(t0 + QuestDuration), Some(child)).(cursor := cursor)
  }

  /** The table after the creation at `t0` and after each of the three passes at `now`. */
  function QuestDb(u: UserId, t0: Time, now: Time, pass: nat): Db
    requires pass <= 3
  {
    if pass == 0 then
      Db(map[0 := Fresh(Steps[0], u), 1 := QuestRow(u, t0, 0, 0)], 2)
    else if pass == 1 then
      Db(map[0 := WonSimple(Fresh(Steps[0], u), now), 1 := QuestRow(u, t0, 1, 2), 2 := Fresh(Steps[1], u)], 3)
    else if pass == 2 then
      Db(map[0 := WonSimple(Fresh(Steps[0], u), now), 1 := QuestRow(u, t0, 2, 3),
             2 := WonSimple(Fresh(Steps[1], u), now), 3 := Fresh(Steps[2], u)], 4)
    else
      Db(map[0 := WonSimple(Fresh(Steps[0], u), now),
             1 := QuestRow(u, t0, 3, 3).(status := Won, points := 101, endsOn := Some(now),
                                         lockedOutTill := Some(now + DefaultLockedOutDuration)),
             2 := WonSimple(Fresh(Steps[1], u), now), 3 := WonSimple(Fresh(Steps[2], u), now)], 4)
  }

  /** The gate admits `QuestTest0` for a user with an empty table. */
  lemma GateOpenOnEmpty(reg: Registry, u: UserId, t0: Time)
    requires QuestSetup(reg)
    ensures Lifecycle.GateFailure(Db(map[], 0), reg, u, Lifecycle.Sym("QuestTest0"), t0) == None
    ensures Lifecycle.GateFailure(Db(map[], 0), reg, u, Lifecycle.Str("QuestTest0"), t0) == None
  {
    assert Filter(Db(map[], 0), u, ActiveScope, t0) == {};
    assert LockedOutChallengeTypes(Db(map[], 0), u, t0) == {};
  }

  /** The quest begins when it is created and ends a hundred years later. */
  lemma QuestDates(reg: Registry, t0: Time)
    requires QuestSetup(reg)
    ensures CalcBeginsOn(reg.defs["QuestTest0"], t0) == t0
    ensures CalcEndsOn(reg.defs["QuestTest0"], t0) == t0 + QuestDuration
  {
  }

  /**
   * `create!` of `QuestTest0` with those dates in an empty table adds two
   * rows: the undated first step (id 0) and the quest linked to it (id 1).
   */
  lemma QuestCreation(reg: Registry, u: UserId, t0: Time)
    requires QuestSetup(reg)
    ensures DbValid(Db(map[], 0), reg)
    ensures Quests.CreateRecord(Db(map[], 0), reg, "QuestTest0", u, Some(t0), Some(t0 + QuestDuration))
         == (QuestDb(u, t0, t0, 0), 1)
  {
    var db0 := Db(map[], 0);
    var db1 := Db(map[0 := Fresh(Steps[0], u)], 1);
    assert Quests.CreateRecord(db0, reg, Steps[0], u, None, None) == (db1, 0);
    assert Insert(db1, QuestRow(u, t0, 0, 0)) == QuestDb(u, t0, t0, 0);
  }

  /** Contesting a simple row wins it and saves it. */
  lemma SimpleWins(db: Db, reg: Registry, id: Id, c: Challenge, now: Time)
    requires reg.Valid() && DbValid(db, reg) && SelfAt(db, id, c) && SelfOk(db, reg, c)
    requires SimpleLike(reg.defs[c.typeName])
    ensures Quests.Contest(db, reg, id, c, now) == Quests.Step(Ok(true), Save(db, id, WonSimple(c, now)))
  {
  }

  /** A quest row of `QuestTest0` whose child is stored, at a step before the last. */
  ghost predicate QuestAt(db: Db, reg: Registry, id: Id, c: Challenge)
  {
    && QuestSetup(reg) && DbValid(db, reg) && SelfAt(db, id, c) && SelfOk(db, reg, c)
    && c.typeName == "QuestTest0" && c.child.Some?
  }

  /** The table once the quest's current child has been won. */
  function ChildWon(db: Db, c: Challenge, now: Time): Db
    requires c.child.Some? && c.child.value in db.recs
  {
    Save(db, c.child.value, WonSimple(db.recs[c.child.value], now))
  }

  /** Before the last step, a won child moves the quest on to a fresh child for the next step. */
  lemma QuestAdvances(db: Db, reg: Registry, id: Id, c: Challenge, now: Time)
    requires QuestAt(db, reg, id, c) && c.cursor + 1 < |Steps|
    ensures var db1 := ChildWon(db, c, now);
      Quests.Contest(db, reg, id, c, now)
      == Quests.Step(Ok(false), Save(Insert(db1, Fresh(Steps[c.cursor + 1], c.user)), id,
                                     c.(cursor := c.cursor + 1, child := Some(db.next))))
  {
    var k := c.child.value;
    Quests.ContestQuest(db, reg, id, c, now);
    SimpleWins(db, reg, k, db.recs[k], now);
    var db1 := ChildWon(db, c, now);
    assert Quests.Contest(db, reg, id, c, now) == Quests.QuestTail(db1, reg, id, c, now, true);
    StepIncrement(db1, reg, id, c);
    Quests.TailContinues(db1, reg, id, c, now);
  }

  /** Moving the quest to the next step inserts a fresh row for that step and links it. */
  lemma StepIncrement(db: Db, reg: Registry, id: Id, c: Challenge)
    requires QuestSetup(reg) && DbValid(db, reg) && SelfAt(db, id, c) && SelfOk(db, reg, c)
    requires c.typeName == "QuestTest0" && c.cursor + 1 < |Steps|
    ensures Quests.IncrementCursor(db, reg, id, c)
         == (c.(cursor := c.cursor + 1, child := Some(db.next)),
             Save(Insert(db, Fresh(Steps[c.cursor + 1], c.user)), id, c.(cursor := c.cursor + 1, child := Some(db.next))))
  {
    assert Quests.CreateRecord(db, reg, Steps[c.cursor + 1], c.user, None, None)
        == (Insert(db, Fresh(Steps[c.cursor + 1], c.user)), db.next);
  }

  /** At the last step, a won child finishes the workflow and the quest itself is won. */
  lemma QuestCompletes(db: Db, reg: Registry, id: Id, c: Challenge, now: Time)
    requires QuestAt(db, reg, id, c) && c.cursor + 1 == |Steps|
    ensures var db1 := ChildWon(db, c, now);
      Quests.Contest(db, reg, id, c, now)
      == Quests.Step(Ok(true), Save(db1, id, c.(cursor := |Steps|, status := Won, points := 101,
                                                endsOn := Some(now),
                                                lockedOutTill := Some(now + DefaultLockedOutDuration))))
  {
    var k := c.child.value;
    Quests.ContestQuest(db, reg, id, c, now);
    SimpleWins(db, reg, k, db.recs[k], now);
    var db1 := ChildWon(db, c, now);
    assert Quests.Contest(db, reg, id, c, now) == Quests.QuestTail(db1, reg, id, c, now, true);
    TailCompletes(db1, reg, id, c, now);
  }

  /** After the last child is won, the quest moves past its last step and is won. */
  lemma TailCompletes(db: Db, reg: Registry, id: Id, c: Challenge, now: Time)
    requires QuestSetup(reg) && DbValid(db, reg) && SelfAt(db, id, c) && SelfOk(db, reg, c)
    requires c.typeName == "QuestTest0" && c.cursor + 1 == |Steps|
    ensures Quests.QuestTail(db, reg, id, c, now, true)
         == Quests.Step(Ok(true), Save(db, id, c.(cursor := |Steps|, status := Won, points := 101,
                                                  endsOn := Some(now),
                                                  lockedOutTill := Some(now + DefaultLockedOutDuration))))
  {
    Quests.TailFinishes(db, reg, id, c, now);
    FinishIncrement(db, reg, id, c);
    var c1 := c.(cursor := |Steps|);
    var won := c1.(status := Won, points := 101, endsOn := Some(now),
                   lockedOutTill := Some(now + DefaultLockedOutDuration));
    Quests.LeafWins(Save(db, id, c1), reg, id, c1, now);
    SaveTwice(db, id, c1, won);
  }

  /** Moving the quest past its last step saves it with no new row. */
  lemma FinishIncrement(db: Db, reg: Registry, id: Id, c: Challenge)
    requires QuestSetup(reg) && DbValid(db, reg) && SelfAt(db, id, c) && SelfOk(db, reg, c)
    requires c.typeName == "QuestTest0" && c.cursor + 1 == |Steps|
    ensures Quests.IncrementCursor(db, reg, id, c) == (c.(cursor := |Steps|), Save(db, id, c.(cursor := |Steps|)))
  {
  }

  /** When no row but row 1 is active, row 1 is the only candidate root. */
  lemma {:induction false} RootsBelowOne(db: Db, u: UserId, now: Time, n: nat)
    requires 1 in db.recs && forall k :: k in db.recs && k != 1 ==> !IsActive(db.recs[k], now)
    ensures RootsBelow(db, u, now, n) == if 1 < n && IsActiveRootOf(db, u, now, 1) then [(1, db.recs[1])] else []
  {
    if n > 0 {
      RootsBelowOne(db, u, now, n - 1);
    }
  }

  /** A table whose only active row is the user's root 1 has that row as its one active root. */
  lemma SoleActiveRoot(db: Db, u: UserId, now: Time)
    requires Bounded(db) && 1 in db.recs && db.recs[1].user == u && IsRoot(db, 1)
    requires forall k :: k in db.recs && k != 1 ==> !IsActive(db.recs[k], now)
    ensures ActiveRoots(db, u, now) == if IsActive(db.recs[1], now) then [(1, db.recs[1])] else []
  {
    RootsBelowOne(db, u, now, db.next);
  }

  /** The quest row is the table's only active root until it is won, and then there is none. */
  lemma QuestRoots(u: UserId, t0: Time, now: Time, pass: nat)
    requires pass <= 3 && now < t0 + QuestDuration
    ensures var db := QuestDb(u, t0, now, pass);
      && Bounded(db)
      && ActiveRoots(db, u, now) == if pass < 3 then [(1, db.recs[1])] else []
  {
    var db := QuestDb(u, t0, now, pass);
    assert IsRoot(db, 1);
    if pass == 0 {
      assert !IsActive(db.recs[0], now) && IsActive(db.recs[1], now);
    } else if pass == 1 {
      assert !IsActive(db.recs[0], now) && IsActive(db.recs[1], now) && !IsActive(db.recs[2], now);
    } else if pass == 2 {
      assert !IsActive(db.recs[0], now) && IsActive(db.recs[1], now);
      assert !IsActive(db.recs[2], now) && !IsActive(db.recs[3], now);
    } else {
      assert !IsActive(db.recs[0], now) && !IsActive(db.recs[1], now);
      assert !IsActive(db.recs[2], now) && !IsActive(db.recs[3], now);
    }
    SoleActiveRoot(db, u, now);
  }

  /** A pass over a single active root contests that root alone. */
  lemma SingleRootPass(db: Db, reg: Registry, u: UserId, now: Time, id: Id, c: Challenge)
    requires reg.Valid() && DbValid(db, reg) && ActiveRoots(db, u, now) == [(id, c)]
    ensures SelfAt(db, id, c) && SelfOk(db, reg, c)
    ensures Quests.Contest(db, reg, id, c, now).result.Ok? ==>
      Lifecycle.ContestUser(db, reg, u, now) == Lifecycle.Pass(None, Quests.Contest(db, reg, id, c, now).db)
  {
    Lifecycle.ActiveRootsLoaded(db, reg, u, now);
    Lifecycle.ContestAllOne(db, reg, u, id, c, now);
  }

  /** The tables of the scenario are well formed under the quest registry. */
  lemma QuestDbValid(reg: Registry, u: UserId, t0: Time, now: Time, pass: nat)
    requires QuestSetup(reg) && pass <= 3
    ensures DbValid(QuestDb(u, t0, now, pass), reg)
  {
  }

  /** The table `QuestAdvances` leaves after the first and the second pass. */
  lemma AdvancedTable(u: UserId, t0: Time, now: Time, pass: nat)
    requires pass < 2
    ensures var db := QuestDb(u, t0, now, pass);
      var q := db.recs[1];
      && q.cursor == pass && q.user == u
      && Save(Insert(ChildWon(db, q, now), Fresh(Steps[q.cursor + 1], q.user)), 1,
              q.(cursor := q.cursor + 1, child := Some(db.next)))
         == QuestDb(u, t0, now, pass + 1)
  {
  }

  /** The table `QuestCompletes` leaves after the third pass. */
  lemma CompletedTable(u: UserId, t0: Time, now: Time)
    ensures var db := QuestDb(u, t0, now, 2);
      var q := db.recs[1];
      Save(ChildWon(db, q, now), 1,
           q.(cursor := |Steps|, status := Won, points := 101, endsOn := Some(now),
              lockedOutTill := Some(now + DefaultLockedOutDuration)))
      == QuestDb(u, t0, now, 3)
  {
  }

  /**
   * Each of the first two runs of `Challenge.contest(user)` after the
   * creation wins the current step and moves the quest on to a fresh child
   * for the next one.
   */
  lemma QuestPassAdvances(reg: Registry, u: UserId, t0: Time, now: Time, pass: nat)
    requires QuestSetup(reg) && pass < 2 && now < t0 + QuestDuration
    ensures DbValid(QuestDb(u, t0, now, pass), reg)
    ensures Lifecycle.ContestUser(QuestDb(u, t0, now, pass), reg, u, now)
         == Lifecycle.Pass(None, QuestDb(u, t0, now, pass + 1))
  {
    var db := QuestDb(u, t0, now, pass);
    var q := db.recs[1];
    QuestDbValid(reg, u, t0, now, pass);
    QuestRoots(u, t0, now, pass);
    SingleRootPass(db, reg, u, now, 1, q);
    QuestAdvances(db, reg, 1, q, now);
    AdvancedTable(u, t0, now, pass);
  }

  /** The third run wins the last step and, its workflow finished, the quest itself. */
  lemma QuestPassCompletes(reg: Registry, u: UserId, t0: Time, now: Time)
    requires QuestSetup(reg) && now < t0 + QuestDuration
    ensures DbValid(QuestDb(u, t0, now, 2), reg)
    ensures Lifecycle.ContestUser(QuestDb(u, t0, now, 2), reg, u, now)
         == Lifecycle.Pass(None, QuestDb(u, t0, now, 3))
  {
    var db := QuestDb(u, t0, now, 2);
    var q := db.recs[1];
    QuestDbValid(reg, u, t0, now, 2);
    QuestRoots(u, t0, now, 2);
    SingleRootPass(db, reg, u, now, 1, q);
    QuestCompletes(db, reg, 1, q, now);
    CompletedTable(u, t0, now);
  }

  /**
   * After the third pass no active root is left, all four rows are won,
   * and the user's points are the three steps' 5 each plus the quest's 101.
   */
  lemma QuestFinished(u: UserId, t0: Time, now: Time)
    requires now < t0 + QuestDuration
    ensures var db := QuestDb(u, t0, now, 3);
      && ActiveRoots(db, u, now) == []
      && Filter(db, u, WonScope, now) == {0, 1, 2, 3}
      && ChallengePoints(db, u) == 3 * 5 + 101
  {
    QuestRoots(u, t0, now, 3);
    var db := QuestDb(u, t0, now, 3);
    assert PointsBelow(db.recs, u, 1) == 5;
    assert PointsBelow(db.recs, u, 2) == 5 + 101;
    assert PointsBelow(db.recs, u, 3) == 5 + 101 + 5;
  }
}
