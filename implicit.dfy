/**
 * Implicit challenges (lib/acts_as_challenged/implicit_challenge.rb): each
 * pass builds a fresh, unsaved instance of every enabled implicit class
 * for the user, with nil dates, and contests it once; `save!` persists the
 * instance only when it was resolved. The registry passed in is the one
 * seen from `ImplicitChallenge`, whose folder is the implicit folder.
 */
module Implicits {
  import opened Challenges
  import opened Registries
  import opened Stores
  import opened Availability
  import opened Quests
  import opened Lifecycle

  /** `challenge_class.new` with `user_id` set and nil `begins_on`/`ends_on`. */
  function Transient(t: TypeName, u: UserId): (a: Challenge)
    ensures a == NewChallenge(t, u, None, None, None)
  {
    Challenge(t, u, Active, 0, None, None, None, 0, None)
  }

  /**
   * `a.contest` on the transient instance of type `t`. A quest type raises,
   * since its nil child cannot be contested; otherwise the leaf `contest`
   * runs and a resolved instance is inserted as a new row.
   */
  function ContestTransient(db: Db, reg: Registry, t: TypeName, u: UserId, now: Time): (s: Step)
    requires reg.Valid() && DbValid(db, reg) && t in reg.defs
    ensures DbValid(s.db, reg) && Extends(db, s.db)
    ensures var d := reg.defs[t];
      var r := Resolve(Transient(t, u), d, now);
      && (d.kind == Quest ==> s == Step(Err(NoChild), db))
      && (d.kind != Quest ==> (s.result.Err? <==> r.Err?) && (s.result == Ok(true) <==> r.Ok? && r.value.Some?))
      && (s.result != Ok(true) ==> s.db == db)
      && (s.result == Ok(true) ==> s.db == Insert(db, r.value.value))
  {
    var d := reg.defs[t];
    if d.kind == Quest then Step(Err(NoChild), db)
    else
      match Resolve(Transient(t, u), d, now)
      case Err(e) => Step(Err(e), db)
      case Ok(None) => Step(Ok(false), db)
      case Ok(Some(a)) =>
        InsertValid(db, reg, a);
        Step(Ok(true), Insert(db, a))
  }

  /** `challenge_classes.each { ... a.contest }`; an exception ends the pass. */
  function ContestClasses(db: Db, reg: Registry, u: UserId, classes: seq<TypeName>, now: Time): (p: Pass)
    requires reg.Valid() && DbValid(db, reg)
    requires forall i :: 0 <= i < |classes| ==> classes[i] in reg.defs
    ensures DbValid(p.db, reg) && Extends(db, p.db)
    ensures forall k :: k in db.recs ==> p.db.recs[k] == db.recs[k]
    decreases |classes|
  {
    if classes == [] then Pass(None, db)
    else
      var prev := ContestClasses(db, reg, u, classes[..|classes| - 1], now);
      if prev.failure.Some? then prev
      else
        var s := ContestTransient(prev.db, reg, classes[|classes| - 1], u, now);
        Pass(if s.result.Err? then Some(s.result.error) else None, s.db)
  }

  /** `ImplicitChallenge.contest(user)` */
  function ContestImplicit(db: Db, reg: Registry, u: UserId, now: Time): (p: Pass)
    requires reg.Valid() && DbValid(db, reg)
    ensures DbValid(p.db, reg) && Extends(db, p.db)
    ensures forall k :: k in db.recs ==> p.db.recs[k] == db.recs[k]
  {
    var classes := ChallengeClasses(reg);
    assert forall i :: 0 <= i < |classes| ==> classes[i] in classes;
    ContestClasses(db, reg, u, classes, now)
  }

  /** A pass that has not raised over the first `i` classes goes on with the fresh instance of class `i`. */
  lemma ContestClassesStep(db0: Db, db: Db, reg: Registry, u: UserId, classes: seq<TypeName>, i: nat, now: Time)
    requires reg.Valid() && DbValid(db0, reg)
    requires forall j :: 0 <= j < |classes| ==> classes[j] in reg.defs
    requires i < |classes|
    requires ContestClasses(db0, reg, u, classes[..i], now) == Pass(None, db)
    ensures DbValid(db, reg) && classes[i] in reg.defs
    ensures var s := ContestTransient(db, reg, classes[i], u, now);
      ContestClasses(db0, reg, u, classes[..i + 1], now) == Pass(if s.result.Err? then Some(s.result.error) else None, s.db)
  {
    assert classes[..i + 1][..i] == classes[..i];
  }

  /** Once a class fails, the rest of the pass contests nothing. */
  lemma {:induction false} FailureEndsClassPass(db: Db, reg: Registry, u: UserId, classes: seq<TypeName>, i: nat, now: Time)
    requires reg.Valid() && DbValid(db, reg)
    requires forall j :: 0 <= j < |classes| ==> classes[j] in reg.defs
    requires i <= |classes|
    requires ContestClasses(db, reg, u, classes[..i], now).failure.Some?
    ensures ContestClasses(db, reg, u, classes, now) == ContestClasses(db, reg, u, classes[..i], now)
    decreases |classes| - i
  {
    if i < |classes| {
      var front := classes[..|classes| - 1];
      assert front[..i] == classes[..i];
      FailureEndsClassPass(db, reg, u, front, i, now);
    } else {
      assert classes[..i] == classes;
    }
  }

  // -------------------------------------------------------------------
  // Properties
  // -------------------------------------------------------------------

  /** The class's `lost?` is constantly false, as `ImplicitChallenge#lost?` is. */
  ghost predicate NeverLost(d: Definition) {
    forall c: Challenge, t: Time :: !d.lost(c, t)
  }

  /** `t` is a defined leaf type that can never be lost. */
  ghost predicate ImplicitClass(reg: Registry, t: TypeName) {
    t in reg.defs && reg.defs[t].kind != Quest && NeverLost(reg.defs[t])
  }

  /** Every class of the list is one. */
  ghost predicate ImplicitClasses(reg: Registry, classes: seq<TypeName>) {
    forall i :: 0 <= i < |classes| ==> ImplicitClass(reg, classes[i])
  }

  /** The row a won transient instance of `t` is saved as. */
  function Award(d: Definition, t: TypeName, u: UserId, now: Time): (a: Challenge)
    ensures a.typeName == t && a.user == u && a.status == Won && a.points == d.successPoints
    ensures a.beginsOn == None && a.endsOn == Some(now) && a.lockedOutTill == Some(now + d.lockedOutDuration)
    ensures a.cursor == 0 && a.child == None
  {
    Challenge(t, u, Won, d.successPoints, None, Some(now), Some(now + d.lockedOutDuration), 0, None)
  }

  /** The classes of the list whose transient instance is won at `now`, in order. */
  function WonClasses(reg: Registry, u: UserId, classes: seq<TypeName>, now: Time): (w: seq<TypeName>)
    requires forall i :: 0 <= i < |classes| ==> classes[i] in reg.defs
    ensures |w| <= |classes|
    ensures forall t :: t in w <==> t in classes && reg.defs[t].won(Transient(t, u), now)
    ensures forall i :: 0 <= i < |w| ==> w[i] in reg.defs
    decreases |classes|
  {
    if classes == [] then []
    else
      var t := classes[|classes| - 1];
      var prefix := classes[..|classes| - 1];
      assert forall t' :: t' in classes <==> t' in prefix || t' == t;
      WonClasses(reg, u, prefix, now) + (if reg.defs[t].won(Transient(t, u), now) then [t] else [])
  }

  lemma {:induction false} NoneWon(reg: Registry, u: UserId, classes: seq<TypeName>, now: Time)
    requires forall i :: 0 <= i < |classes| ==> classes[i] in reg.defs
    requires forall t :: t in classes ==> !reg.defs[t].won(Transient(t, u), now)
    ensures WonClasses(reg, u, classes, now) == []
    decreases |classes|
  {
    if classes != [] {
      var prefix := classes[..|classes| - 1];
      assert forall i :: 0 <= i < |prefix| ==> prefix[i] == classes[i];
      assert forall t :: t in prefix ==> t in classes;
      NoneWon(reg, u, prefix, now);
      assert classes[|classes| - 1] in classes;
    }
  }

  /** Whether the transient instance of `t` is won: one element or none. */
  function WonPart(reg: Registry, u: UserId, t: TypeName, now: Time): seq<TypeName>
    requires t in reg.defs
  {
    if reg.defs[t].won(Transient(t, u), now) then [t] else []
  }

  /**
   * Appending a class to the list appends it to the won classes when its
   * transient instance is won and leaves them as they were otherwise: the
   * list's order is kept.
   */
  lemma WonClassesSnoc(reg: Registry, u: UserId, classes: seq<TypeName>, t: TypeName, now: Time)
    requires forall i :: 0 <= i < |classes| ==> classes[i] in reg.defs
    requires t in reg.defs
    ensures forall i :: 0 <= i < |classes + [t]| ==> (classes + [t])[i] in reg.defs
    ensures WonClasses(reg, u, classes + [t], now) == WonClasses(reg, u, classes, now) + WonPart(reg, u, t, now)
  {
    assert (classes + [t])[..|classes|] == classes;
  }

  /** The total `success_points` of the listed classes. */
  function SuccessPoints(reg: Registry, classes: seq<TypeName>): int
    requires forall i :: 0 <= i < |classes| ==> classes[i] in reg.defs
    decreases |classes|
  {
    if classes == [] then 0
    else SuccessPoints(reg, classes[..|classes| - 1]) + reg.defs[classes[|classes| - 1]].successPoints
  }

  /**
   * One class: the transient instance is saved as the award exactly when
   * `won?` holds, which adds its `success_points` to the user's total.
   */
  lemma TransientStep(db: Db, reg: Registry, t: TypeName, u: UserId, now: Time)
    requires reg.Valid() && DbValid(db, reg) && ImplicitClass(reg, t)
    ensures var d := reg.defs[t];
      var s := ContestTransient(db, reg, t, u, now);
      && s.result == Ok(d.won(Transient(t, u), now))
      && s.db == (if d.won(Transient(t, u), now) then Insert(db, Award(d, t, u, now)) else db)
      && ChallengePoints(s.db, u)
         == ChallengePoints(db, u) + (if d.won(Transient(t, u), now) then d.successPoints else 0)
  {
    var d := reg.defs[t];
    assert !d.lost(Transient(t, u), now);
    if d.won(Transient(t, u), now) {
      InsertPoints(db, u, Award(d, t, u, now));
    }
  }

  /** One more class: the pass so far, then that class's transient contest unless the pass already raised. */
  lemma PassStep(db: Db, reg: Registry, u: UserId, classes: seq<TypeName>, now: Time)
    requires reg.Valid() && DbValid(db, reg) && ImplicitClasses(reg, classes) && classes != []
    ensures forall i :: 0 <= i < |classes| - 1 ==> classes[..|classes| - 1][i] == classes[i]
    ensures var prev := ContestClasses(db, reg, u, classes[..|classes| - 1], now);
      var t := classes[|classes| - 1];
      && ImplicitClass(reg, t)
      && (prev.failure.None? ==>
            ContestClasses(db, reg, u, classes, now) == Pass(None, ContestTransient(prev.db, reg, t, u, now).db))
      && WonClasses(reg, u, classes, now)
         == if reg.defs[t].won(Transient(t, u), now) then WonClasses(reg, u, classes[..|classes| - 1], now) + [t]
            else WonClasses(reg, u, classes[..|classes| - 1], now)
  {
    var prev := ContestClasses(db, reg, u, classes[..|classes| - 1], now);
    var t := classes[|classes| - 1];
    var wp := WonClasses(reg, u, classes[..|classes| - 1], now);
    if !reg.defs[t].won(Transient(t, u), now) {
      assert wp + [] == wp;
    }
  }

  /** The rows of `db` are those of `db0` and the ids handed out since; inserting keeps it so. */
  lemma InsertKeys(db0: Db, db: Db, c: Challenge)
    requires forall k :: k in db.recs <==> k in db0.recs || db0.next <= k < db.next
    requires db0.next <= db.next
    ensures forall k :: k in Insert(db, c).recs <==> k in db0.recs || db0.next <= k < Insert(db, c).next
  {
  }

  /** Saving the award of `t` after the awards of `wp` lays out the awards of `wp + [t]`. */
  lemma AppendAward(db: Db, prev: Db, reg: Registry, u: UserId, wp: seq<TypeName>, t: TypeName, now: Time)
    requires forall i :: 0 <= i < |wp| ==> wp[i] in reg.defs
    requires t in reg.defs
    requires prev.next == db.next + |wp|
    requires forall k :: k in prev.recs <==> k in db.recs || db.next <= k < prev.next
    requires forall i :: 0 <= i < |wp| ==> prev.recs[db.next + i] == Award(reg.defs[wp[i]], wp[i], u, now)
    ensures var s := Insert(prev, Award(reg.defs[t], t, u, now));
      var w := wp + [t];
      && s.next == db.next + |w|
      && (forall k :: k in s.recs <==> k in db.recs || db.next <= k < s.next)
      && (forall i :: 0 <= i < |w| ==> s.recs[db.next + i] == Award(reg.defs[w[i]], w[i], u, now))
  {
    var s := Insert(prev, Award(reg.defs[t], t, u, now));
    var w := wp + [t];
    InsertKeys(db, prev, Award(reg.defs[t], t, u, now));
    forall i | 0 <= i < |w| ensures s.recs[db.next + i] == Award(reg.defs[w[i]], w[i], u, now) {
      if i < |wp| {
        assert w[i] == wp[i];
        assert db.next + i in prev.recs;
      }
    }
  }

  lemma SuccessPointsSnoc(reg: Registry, w: seq<TypeName>, t: TypeName)
    requires forall i :: 0 <= i < |w| ==> w[i] in reg.defs
    requires t in reg.defs
    ensures SuccessPoints(reg, w + [t]) == SuccessPoints(reg, w) + reg.defs[t].successPoints
  {
    assert (w + [t])[..|w|] == w;
  }

  /**
   * A pass over implicit classes never raises and appends, in class order,
   * one won row per class whose `won?` holds, worth that class's
   * `success_points`; nothing else changes.
   */
  lemma {:induction false} ImplicitPassAwards(db: Db, reg: Registry, u: UserId, classes: seq<TypeName>, now: Time)
    requires reg.Valid() && DbValid(db, reg) && ImplicitClasses(reg, classes)
    ensures var p := ContestClasses(db, reg, u, classes, now);
      var w := WonClasses(reg, u, classes, now);
      && p.failure.None?
      && p.db.next == db.next + |w|
      && (forall k :: k in p.db.recs <==> k in db.recs || db.next <= k < p.db.next)
      && (forall i :: 0 <= i < |w| ==> p.db.recs[db.next + i] == Award(reg.defs[w[i]], w[i], u, now))
    decreases |classes|
  {
    if classes != [] {
      var prefix := classes[..|classes| - 1];
      var t := classes[|classes| - 1];
      PassStep(db, reg, u, classes, now);
      ImplicitPassAwards(db, reg, u, prefix, now);
      var prev := ContestClasses(db, reg, u, prefix, now);
      TransientStep(prev.db, reg, t, u, now);
      var s := ContestTransient(prev.db, reg, t, u, now);
      var wp := WonClasses(reg, u, prefix, now);
      var w := WonClasses(reg, u, classes, now);
      assert ContestClasses(db, reg, u, classes, now) == Pass(None, s.db);
      if reg.defs[t].won(Transient(t, u), now) {
        AppendAward(db, prev.db, reg, u, wp, t, now);
      } else {
        assert w == wp && s.db == prev.db;
      }
    }
  }

  /** A pass over implicit classes never raises. */
  lemma ImplicitPassRaisesNothing(db: Db, reg: Registry, u: UserId, classes: seq<TypeName>, now: Time)
    requires reg.Valid() && DbValid(db, reg) && ImplicitClasses(reg, classes)
    ensures ContestClasses(db, reg, u, classes, now).failure.None?
  {
    ImplicitPassAwards(db, reg, u, classes, now);
  }

  /** The user's points grow by exactly the `success_points` of the classes won in the pass. */
  lemma {:induction false} ImplicitPassPoints(db: Db, reg: Registry, u: UserId, classes: seq<TypeName>, now: Time)
    requires reg.Valid() && DbValid(db, reg) && ImplicitClasses(reg, classes)
    ensures ChallengePoints(ContestClasses(db, reg, u, classes, now).db, u)
         == ChallengePoints(db, u) + SuccessPoints(reg, WonClasses(reg, u, classes, now))
    decreases |classes|
  {
    if classes != [] {
      var prefix := classes[..|classes| - 1];
      var t := classes[|classes| - 1];
      PassStep(db, reg, u, classes, now);
      ImplicitPassPoints(db, reg, u, prefix, now);
      ImplicitPassRaisesNothing(db, reg, u, prefix, now);
      var prev := ContestClasses(db, reg, u, prefix, now);
      TransientStep(prev.db, reg, t, u, now);
      if reg.defs[t].won(Transient(t, u), now) {
        SuccessPointsSnoc(reg, WonClasses(reg, u, prefix, now), t);
      }
    }
  }

  /** A pass in which no class is won leaves the table, and so the points, as they were. */
  lemma ImplicitPassWithoutWin(db: Db, reg: Registry, u: UserId, now: Time)
    requires reg.Valid() && DbValid(db, reg) && ImplicitClasses(reg, ChallengeClasses(reg))
    requires forall t :: t in ChallengeClasses(reg) ==> !reg.defs[t].won(Transient(t, u), now)
    ensures ContestImplicit(db, reg, u, now) == Pass(None, db)
  {
    var classes := ChallengeClasses(reg);
    ImplicitPassAwards(db, reg, u, classes, now);
    NoneWon(reg, u, classes, now);
    SameTable(db, ContestImplicit(db, reg, u, now).db);
  }

  /** A table with the same next id, the same ids and the same rows is the same table. */
  lemma SameTable(db: Db, db': Db)
    requires db'.next == db.next
    requires forall k :: k in db'.recs <==> k in db.recs || db.next <= k < db'.next
    requires forall k :: k in db.recs ==> db'.recs[k] == db.recs[k]
    ensures db' == db
  {
    assert db'.recs.Keys == db.recs.Keys;
  }

  /** Every row a pass adds is of an enabled class: a disabled class is never contested. */
  lemma {:induction false} OnlyEnabledClassesAwarded(db: Db, reg: Registry, u: UserId, now: Time)
    requires reg.Valid() && DbValid(db, reg) && ImplicitClasses(reg, ChallengeClasses(reg))
    ensures var p := ContestImplicit(db, reg, u, now);
      forall k :: k in p.db.recs && k !in db.recs ==>
        p.db.recs[k].typeName in reg.folder && reg.defs[p.db.recs[k].typeName].enabled
  {
    var classes := ChallengeClasses(reg);
    ImplicitPassAwards(db, reg, u, classes, now);
    var w := WonClasses(reg, u, classes, now);
    var p := ContestImplicit(db, reg, u, now);
    AddedRows(db, p.db, reg, u, w, now);
  }

  /** The rows added after the awards of `w` are won rows of the classes of `w`. */
  lemma AddedRows(db: Db, p: Db, reg: Registry, u: UserId, w: seq<TypeName>, now: Time)
    requires forall i :: 0 <= i < |w| ==> w[i] in reg.defs
    requires p.next == db.next + |w|
    requires forall k :: k in p.recs <==> k in db.recs || db.next <= k < p.next
    requires forall i :: 0 <= i < |w| ==> p.recs[db.next + i] == Award(reg.defs[w[i]], w[i], u, now)
    ensures forall k :: k in p.recs && k !in db.recs ==> p.recs[k].typeName in w && p.recs[k].status == Won
  {
    forall k | k in p.recs && k !in db.recs
      ensures p.recs[k].typeName in w && p.recs[k].status == Won
    {
      var i := k - db.next;
      assert p.recs[k] == Award(reg.defs[w[i]], w[i], u, now);
    }
  }

  /**
   * Every row a pass adds is won, so it never shows up among the user's
   * rows of status active (`active_challenges`) nor in the `active` scope.
   */
  lemma ImplicitAwardsNeverActive(db: Db, reg: Registry, u: UserId, now: Time, later: Time)
    requires reg.Valid() && DbValid(db, reg) && ImplicitClasses(reg, ChallengeClasses(reg))
    ensures var p := ContestImplicit(db, reg, u, now);
      forall k :: k in p.db.recs && k !in db.recs ==>
        p.db.recs[k].status == Won && !IsActive(p.db.recs[k], later)
  {
    var classes := ChallengeClasses(reg);
    ImplicitPassAwards(db, reg, u, classes, now);
    var w := WonClasses(reg, u, classes, now);
    var p := ContestImplicit(db, reg, u, now);
    forall k | k in p.db.recs && k !in db.recs
      ensures p.db.recs[k].status == Won && !IsActive(p.db.recs[k], later)
    {
      assert p.db.recs[k] == Award(reg.defs[w[k - db.next]], w[k - db.next], u, now);
    }
  }
}
