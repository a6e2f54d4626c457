/**
 * The read-only availability calculator of lib/acts_as_challenged/base.rb:
 * locked-out types, the time a type stays locked, active types,
 * availability, the points total and the per-type listing, all computed
 * from one user's rows at the instant `now`.
 */
module Availability {
  import opened Challenges
  import opened Registries
  import opened Stores

  /** Row `c` of user `u` locks type `t` out at `now`: its lockout lies strictly in the future. */
  predicate LocksOut(c: Challenge, u: UserId, t: TypeName, now: Time) {
    c.user == u && c.typeName == t && c.lockedOutTill.Some? && c.lockedOutTill.value > now
  }

  /** Row `c` of user `u` is an active challenge of type `t` at `now`. */
  predicate ActiveOfType(c: Challenge, u: UserId, t: TypeName, now: Time) {
    c.user == u && c.typeName == t && IsActive(c, now)
  }

  /** `locked_out_challenge_types`: the distinct types of the user's rows still locked out. */
  function LockedOutChallengeTypes(db: Db, u: UserId, now: Time): (r: set<TypeName>)
    ensures forall t :: t in r <==> exists k :: k in db.recs && LocksOut(db.recs[k], u, t, now)
  {
    set k | k in db.recs && LocksOut(db.recs[k], u, db.recs[k].typeName, now) :: db.recs[k].typeName
  }

  /** `challenge_locked_out?` */
  predicate ChallengeLockedOut(db: Db, u: UserId, t: TypeName, now: Time)
    ensures ChallengeLockedOut(db, u, t, now) <==> exists k :: k in db.recs && LocksOut(db.recs[k], u, t, now)
  {
    t in LockedOutChallengeTypes(db, u, now)
  }

  /** `active_challenge_types`: the types of the user's rows in the `active` scope. */
  function ActiveChallengeTypes(db: Db, u: UserId, now: Time): (r: set<TypeName>)
    ensures forall t :: t in r <==> exists k :: k in db.recs && ActiveOfType(db.recs[k], u, t, now)
  {
    set k | k in Filter(db, u, ActiveScope, now) :: db.recs[k].typeName
  }

  /** `is_challenge_type_available?` */
  predicate IsChallengeTypeAvailable(locked: set<TypeName>, active: set<TypeName>, name: TypeName) {
    name !in locked && name !in active
  }

  /**
   * What availability means for the user's rows: no row of the type is
   * locked out and none is active.
   */
  lemma AvailableIff(db: Db, u: UserId, t: TypeName, now: Time)
    ensures IsChallengeTypeAvailable(LockedOutChallengeTypes(db, u, now), ActiveChallengeTypes(db, u, now), t)
        <==> (forall k :: k in db.recs ==> !LocksOut(db.recs[k], u, t, now) && !ActiveOfType(db.recs[k], u, t, now))
  {
  }

  /** The largest element of a finite set that has an element. */
  function Max(s: set<int>): (m: int)
    requires exists x :: x in s
    ensures m in s && forall x :: x in s ==> x <= m
  {
    var a :| a in s;
    MaxExists(s, a);
    var m :| m in s && forall x :: x in s ==> x <= m;
    m
  }

  lemma {:induction false} MaxExists(s: set<int>, a: int)
    requires a in s
    ensures exists m :: m in s && forall x :: x in s ==> x <= m
    decreases s
  {
    if b :| b in s && b != a {
      var s' := s - {a};
      MaxExists(s', b);
      var m :| m in s' && forall x :: x in s' ==> x <= m;
      var top := if a > m then a else m;
      forall x | x in s ensures x <= top {
        if x != a { assert x in s'; }
      }
    } else {
      assert forall x :: x in s ==> x <= a;
    }
  }

  /** The lockout times of the user's rows of type `t` still in the future. */
  function LockTimes(db: Db, u: UserId, t: TypeName, now: Time): set<Time> {
    set k | k in db.recs && LocksOut(db.recs[k], u, t, now) :: db.recs[k].lockedOutTill.value
  }

  /**
   * `locked_out_challenge_time`: the lockout of a row of type `t` that is
   * still in the future (the latest one when there are several), `None`
   * (the source's "") when there is none.
   */
  function LockedOutChallengeTime(db: Db, u: UserId, t: TypeName, now: Time): (r: Option<Time>)
    ensures r.None? <==> t !in LockedOutChallengeTypes(db, u, now)
    ensures r.Some? ==> r.value > now
    ensures r.Some? ==>
      exists k :: k in db.recs && LocksOut(db.recs[k], u, t, now) && db.recs[k].lockedOutTill == Some(r.value)
    ensures r.Some? ==> forall k :: k in db.recs && LocksOut(db.recs[k], u, t, now) ==>
      db.recs[k].lockedOutTill.value <= r.value
  {
    if !exists k :: k in db.recs && LocksOut(db.recs[k], u, t, now) then None
    else
      var times := LockTimes(db, u, t, now);
      var k0 :| k0 in db.recs && LocksOut(db.recs[k0], u, t, now);
      assert db.recs[k0].lockedOutTill.value in times;
      var m := Max(times);
      var k :| k in db.recs && LocksOut(db.recs[k], u, t, now) && db.recs[k].lockedOutTill.value == m;
      assert t in LockedOutChallengeTypes(db, u, now);
      assert forall j :: j in db.recs && LocksOut(db.recs[j], u, t, now) ==> db.recs[j].lockedOutTill.value in times;
      Some(m)
  }

  /**
   * The reported lockout time is exact: from `now` on, the type stays
   * locked out precisely until that instant, as long as no row changes.
   */
  lemma {:induction false} LockedTillIsExact(db: Db, u: UserId, t: TypeName, now: Time, later: Time)
    requires now <= later
    requires LockedOutChallengeTime(db, u, t, now).Some?
    ensures ChallengeLockedOut(db, u, t, later) <==> later < LockedOutChallengeTime(db, u, t, now).value
  {
    var till := LockedOutChallengeTime(db, u, t, now).value;
    if later < till {
      var k :| k in db.recs && LocksOut(db.recs[k], u, t, now) && db.recs[k].lockedOutTill == Some(till);
      assert LocksOut(db.recs[k], u, t, later);
    } else {
      forall k | k in db.recs && db.recs[k].user == u && db.recs[k].typeName == t && db.recs[k].lockedOutTill.Some?
        ensures db.recs[k].lockedOutTill.value <= later
      {
        if db.recs[k].lockedOutTill.value > now {
          assert LocksOut(db.recs[k], u, t, now);
        }
      }
    }
  }

  /** As the clock advances, the locked-out and active sets only shrink. */
  lemma {:induction false} AvailabilityGrowsWithTime(db: Db, u: UserId, now: Time, later: Time)
    requires now <= later
    ensures LockedOutChallengeTypes(db, u, later) <= LockedOutChallengeTypes(db, u, now)
    ensures ActiveChallengeTypes(db, u, later) <= ActiveChallengeTypes(db, u, now)
  {
    forall t | t in LockedOutChallengeTypes(db, u, later)
      ensures t in LockedOutChallengeTypes(db, u, now)
    {
      var k :| k in db.recs && LocksOut(db.recs[k], u, t, later);
      assert LocksOut(db.recs[k], u, t, now);
    }
    forall t | t in ActiveChallengeTypes(db, u, later)
      ensures t in ActiveChallengeTypes(db, u, now)
    {
      var k :| k in db.recs && ActiveOfType(db.recs[k], u, t, later);
      assert ActiveOfType(db.recs[k], u, t, now);
    }
  }

  // -------------------------------------------------------------------
  // Points
  // -------------------------------------------------------------------

  /** What a row adds to user `u`'s total: its points if it is `u`'s and won. */
  function Contribution(c: Challenge, u: UserId): int {
    if c.user == u && c.status == Won then c.points else 0
  }

  function PointsBelow(recs: map<Id, Challenge>, u: UserId, n: nat): int {
    if n == 0 then 0
    else PointsBelow(recs, u, n - 1) + (if n - 1 in recs then Contribution(recs[n - 1], u) else 0)
  }

  /** `challenge_points`: the sum of `points` over the user's won rows. */
  function ChallengePoints(db: Db, u: UserId): int {
    PointsBelow(db.recs, u, db.next)
  }

  /** Only the contributions of the rows below `n` count. */
  lemma {:induction false} PointsBelowFrame(r1: map<Id, Challenge>, r2: map<Id, Challenge>, u: UserId, n: nat)
    requires forall k :: k < n ==> (k in r1 <==> k in r2)
    requires forall k :: k < n && k in r1 ==> Contribution(r1[k], u) == Contribution(r2[k], u)
    ensures PointsBelow(r1, u, n) == PointsBelow(r2, u, n)
  {
    if n > 0 { PointsBelowFrame(r1, r2, u, n - 1); }
  }

  lemma {:induction false} PointsBelowUpdate(recs: map<Id, Challenge>, u: UserId, n: nat, id: Id, c: Challenge)
    requires id in recs && id < n
    ensures PointsBelow(recs[id := c], u, n)
         == PointsBelow(recs, u, n) - Contribution(recs[id], u) + Contribution(c, u)
  {
    if id < n - 1 {
      PointsBelowUpdate(recs, u, n - 1, id, c);
    } else {
      PointsBelowFrame(recs[id := c], recs, u, n - 1);
    }
  }

  /** Saving row `id` changes the total by the change in that row's contribution. */
  lemma SavePoints(db: Db, u: UserId, id: Id, c: Challenge)
    requires Bounded(db) && id in db.recs
    ensures ChallengePoints(Save(db, id, c), u)
         == ChallengePoints(db, u) - Contribution(db.recs[id], u) + Contribution(c, u)
  {
    PointsBelowUpdate(db.recs, u, db.next, id, c);
  }

  /** Inserting a row adds its contribution. */
  lemma InsertPoints(db: Db, u: UserId, c: Challenge)
    requires Bounded(db)
    ensures ChallengePoints(Insert(db, c), u) == ChallengePoints(db, u) + Contribution(c, u)
  {
    PointsBelowFrame(Insert(db, c).recs, db.recs, u, db.next);
  }

  // -------------------------------------------------------------------
  // Listing
  // -------------------------------------------------------------------

  /**
   * One entry of `challenge_types`: the class, its availability and its
   * lockout time (the translated name, description and category are left out).
   */
  datatype TypeEntry = TypeEntry(className: TypeName, available: bool, lockedTill: Option<Time>)

  /** `challenge_types`: one entry per enabled class, in folder order. */
  function ChallengeTypes(db: Db, reg: Registry, u: UserId, now: Time): (r: seq<TypeEntry>)
    requires reg.Valid()
    ensures |r| == |ChallengeClasses(reg)|
    ensures forall i :: 0 <= i < |r| ==>
      var t := ChallengeClasses(reg)[i];
      && r[i].className == t
      && (r[i].available <==>
            forall k :: k in db.recs ==> !LocksOut(db.recs[k], u, t, now) && !ActiveOfType(db.recs[k], u, t, now))
      && r[i].lockedTill == LockedOutChallengeTime(db, u, t, now)
  {
    var locked := LockedOutChallengeTypes(db, u, now);
    var active := ActiveChallengeTypes(db, u, now);
    var classes := ChallengeClasses(reg);
    seq(|classes|, i requires 0 <= i < |classes| =>
      TypeEntry(classes[i], IsChallengeTypeAvailable(locked, active, classes[i]),
                LockedOutChallengeTime(db, u, classes[i], now)))
  }

  /** A class is listed exactly when it is in the folder and not disabled. */
  lemma ListedIff(db: Db, reg: Registry, u: UserId, now: Time, name: TypeName)
    requires reg.Valid()
    ensures (exists i :: 0 <= i < |ChallengeTypes(db, reg, u, now)| && ChallengeTypes(db, reg, u, now)[i].className == name)
        <==> name in reg.folder && reg.defs[name].enabled
  {
    var r := ChallengeTypes(db, reg, u, now);
    var cs := ChallengeClasses(reg);
    if name in reg.folder && reg.defs[name].enabled {
      assert name in cs;
      var i :| 0 <= i < |cs| && cs[i] == name;
      assert r[i].className == name;
    }
  }
}
