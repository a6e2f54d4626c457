/**
 * The challenges table as the mutable object the Ruby code works on: a
 * `Store` whose rows are updated in place by `save!`, `create!`,
 * `cancel`, `contest`, `increment_cursor` and the two passes. Every method
 * is proved to leave the table exactly as the function named in its
 * postcondition describes, so the properties proved about those functions
 * hold of the methods.
 */
module Engine {
  import opened Challenges
  import opened Registries
  import opened Stores
  import opened Availability
  import Quests
  import Lifecycle
  import Implicits

  class Store {
    /** The rows by id. */
    var records: map<Id, Challenge>
    /** The id the database hands out next. */
    var nextId: Id

    /** The table as a value. */
    function Snapshot(): Db
      reads this
    {
      Db(records, nextId)
    }

    /** An empty table. */
    constructor ()
      ensures Snapshot() == Db(map[], 0)
    {
      records := map[];
      nextId := 0;
    }

    /** `save!` of a new row: it gets the next id. */
    method InsertRow(c: Challenge) returns (id: Id)
      modifies this
      ensures id == old(nextId)
      ensures Snapshot() == Insert(old(Snapshot()), c)
    {
      id := nextId;
      records := records[id := c];
      nextId := nextId + 1;
    }

    /** `save!` of the existing row `id`. */
    method SaveRow(id: Id, c: Challenge)
      requires id in records
      modifies this
      ensures Snapshot() == Save(old(Snapshot()), id, c)
    {
      records := records[id := c];
    }

    /** `cancel` on row `id`, followed by the caller's `save!`. */
    method Cancel(id: Id, now: Time) returns (failure: Option<Error>)
      requires id in records
      modifies this
      ensures Challenges.Cancel(old(records[id]), now).Ok? ==>
        failure.None? && Snapshot() == Save(old(Snapshot()), id, Challenges.Cancel(old(records[id]), now).value)
      ensures Challenges.Cancel(old(records[id]), now).Err? ==>
        failure == Some(Challenges.Cancel(old(records[id]), now).error) && Snapshot() == old(Snapshot())
    {
      var c := records[id];
      if c.status == Active {
        c := c.(status := Canceled);
        c := c.(endsOn := Some(now));
        SaveRow(id, c);
        failure := None;
      } else {
        failure := Some(Forbidden(NotActive));
      }
    }

    /**
     * `create!` of a row of type `t`; a quest's `before_create` first
     * creates the child for step 0.
     */
    method CreateRecord(reg: Registry, t: TypeName, u: UserId, beginsOn: Option<Time>, endsOn: Option<Time>)
      returns (id: Id)
      requires reg.Valid() && DbValid(Snapshot(), reg) && t in reg.defs
      modifies this
      ensures (Snapshot(), id) == Quests.CreateRecord(old(Snapshot()), reg, t, u, beginsOn, endsOn)
      decreases reg.defs[t].depth
    {
      var d := reg.defs[t];
      var child: Option<Id> := None;
      if d.kind == Quest && 0 < |d.workflow| {
        var childId := CreateRecord(reg, d.workflow[0], u, None, None);
        child := Some(childId);
      }
      id := InsertRow(NewChallenge(t, u, beginsOn, endsOn, child));
    }

    /** `increment_cursor` on the in-memory row `c` stored as `id`. */
    method IncrementCursor(reg: Registry, id: Id, c: Challenge) returns (c': Challenge)
      requires reg.Valid() && DbValid(Snapshot(), reg) && SelfAt(Snapshot(), id, c) && SelfOk(Snapshot(), reg, c)
      modifies this
      ensures (c', Snapshot()) == Quests.IncrementCursor(old(Snapshot()), reg, id, c)
    {
      var d := reg.defs[c.typeName];
      c' := c.(cursor := c.cursor + 1);
      if !FinishedWorkflow(c', d) {
        var childId := CreateRecord(reg, d.workflow[c'.cursor], c.user, None, None);
        c' := c'.(child := Some(childId));
      }
      SaveRow(id, c');
    }

    /**
     * The assignments of `Challenge#contest` on a copy of `c`: the
     * resolved record to save, none, or the logic error. Nothing is written.
     */
    method Decide(d: Definition, c: Challenge, now: Time) returns (r: Result<Option<Challenge>>)
      ensures r == Resolve(c, d, now)
    {
      var won := d.won(c, now);
      var lost := d.lost(c, now);
      if won && lost {
        return Err(LogicError);
      }
      var c' := c;
      if won || lost {
        c' := c'.(endsOn := Some(now));
      }
      if lost {
        c' := c'.(status := Lost, lockedOutTill := c'.endsOn);
      }
      if won {
        c' := c'.(status := Won, points := d.successPoints, lockedOutTill := Some(CalcLockedOutTill(d, now)));
      }
      r := if won || lost then Ok(Some(c')) else Ok(None);
    }

    /** `Challenge#contest` on the in-memory row `c` stored as `id`. */
    method ContestLeaf(reg: Registry, id: Id, c: Challenge, now: Time) returns (r: Result<bool>)
      requires reg.Valid() && DbValid(Snapshot(), reg) && SelfAt(Snapshot(), id, c) && SelfOk(Snapshot(), reg, c)
      modifies this
      ensures Quests.Step(r, Snapshot()) == Quests.ContestLeaf(old(Snapshot()), reg, id, c, now)
    {
      var decided := Decide(reg.defs[c.typeName], c, now);
      match decided {
        case Err(e) => r := Err(e);
        case Ok(None) => r := Ok(false);
        case Ok(Some(c')) =>
          SaveRow(id, c');
          r := Ok(true);
      }
    }

    /** `contest` on the in-memory row `c` stored as `id`: `Quest#contest` for a quest. */
    method Contest(reg: Registry, id: Id, c: Challenge, now: Time) returns (r: Result<bool>)
      requires reg.Valid() && DbValid(Snapshot(), reg) && SelfAt(Snapshot(), id, c) && SelfOk(Snapshot(), reg, c)
      modifies this
      ensures Quests.Step(r, Snapshot()) == Quests.Contest(old(Snapshot()), reg, id, c, now)
      decreases reg.defs[c.typeName].depth
    {
      var d := reg.defs[c.typeName];
      if d.kind != Quest {
        r := ContestLeaf(reg, id, c, now);
        return;
      }
      if c.child.None? {
        return Err(NoChild);
      }
      ghost var db0 := Snapshot();
      var k := c.child.value;
      assert SelfOk(db0, reg, records[k]);
      var sub := Contest(reg, k, records[k], now);
      if sub.Err? {
        return sub;
      }
      SelfOkExtends(db0, Snapshot(), reg, c);
      ghost var db1 := Snapshot();
      var self := c;
      if sub.value {
        self := IncrementCursor(reg, id, c);
      }
      if FinishedWorkflow(self, d) {
        r := ContestLeaf(reg, id, self, now);
      } else {
        r := Ok(false);
      }
      assert Quests.Step(r, Snapshot()) == Quests.QuestTail(db1, reg, id, c, now, sub.value);
    }

    /** `create_from_challenge_name` */
    method CreateFromChallengeName(reg: Registry, u: UserId, name: Lifecycle.Name, now: Time) returns (r: Result<Id>)
      requires reg.Valid() && DbValid(Snapshot(), reg)
      modifies this
      ensures var spec := Lifecycle.CreateFromChallengeName(old(Snapshot()), reg, u, name, now);
        && (r.Ok? <==> spec.Ok?)
        && (r.Ok? ==> (Snapshot(), r.value) == spec.value)
        && (r.Err? ==> r.error == spec.error && Snapshot() == old(Snapshot()))
    {
      if !ValidateChallengeName(reg, name.text) {
        return Err(NotFound);
      }
      if ActiveCount(Snapshot(), u, now) == MaxActiveChallenges {
        return Err(Forbidden(TooManyActive));
      }
      if Lifecycle.NameLockedOut(Snapshot(), u, name, now) {
        return Err(Forbidden(LockedOut));
      }
      var t := name.text;
      var d := reg.defs[t];
      var beginsOn := CalcBeginsOn(d, now);
      var id := CreateRecord(reg, t, u, Some(beginsOn), Some(CalcEndsOn(d, beginsOn)));
      r := Ok(id);
    }

    /** `Challenge.contest(user)`: contests the active roots as loaded at the start, in id order. */
    method ContestUser(reg: Registry, u: UserId, now: Time) returns (failure: Option<Error>)
      requires reg.Valid() && DbValid(Snapshot(), reg)
      modifies this
      ensures Lifecycle.Pass(failure, Snapshot()) == Lifecycle.ContestUser(old(Snapshot()), reg, u, now)
    {
      ghost var db0 := Snapshot();
      Lifecycle.ActiveRootsLoaded(db0, reg, u, now);
      var roots := ActiveRoots(Snapshot(), u, now);
      failure := None;
      var i := 0;
      while i < |roots| && failure.None?
        invariant 0 <= i <= |roots|
        invariant Lifecycle.LoadedRows(db0, reg, u, roots[..i])
        invariant Lifecycle.Pass(failure, Snapshot()) == Lifecycle.ContestAll(db0, reg, u, roots[..i], now)
        invariant DbValid(Snapshot(), reg) && Extends(db0, Snapshot())
      {
        var (id, c) := roots[i];
        Lifecycle.LoadedPrefix(db0, reg, u, roots, i + 1);
        Lifecycle.ContestAllStep(db0, Snapshot(), reg, u, roots, i, now);
        var result := Contest(reg, id, c, now);
        if result.Err? {
          failure := Some(result.error);
        }
        i := i + 1;
      }
      if failure.Some? {
        Lifecycle.FailureEndsPass(db0, reg, u, roots, i, now);
      } else {
        assert roots[..i] == roots;
      }
    }

    /** `contest` on the fresh instance of type `t` built for user `u`: `save!` inserts it. */
    method ContestNew(reg: Registry, t: TypeName, u: UserId, now: Time) returns (r: Result<bool>)
      requires reg.Valid() && DbValid(Snapshot(), reg) && t in reg.defs
      modifies this
      ensures Quests.Step(r, Snapshot()) == Implicits.ContestTransient(old(Snapshot()), reg, t, u, now)
    {
      var d := reg.defs[t];
      if d.kind == Quest {
        return Err(NoChild);
      }
      var decided := Decide(d, Implicits.Transient(t, u), now);
      match decided {
        case Err(e) => r := Err(e);
        case Ok(None) => r := Ok(false);
        case Ok(Some(a)) =>
          var _ := InsertRow(a);
          r := Ok(true);
      }
    }

    /** `ImplicitChallenge.contest(user)`: one fresh instance per enabled implicit class. */
    method ContestImplicit(reg: Registry, u: UserId, now: Time) returns (failure: Option<Error>)
      requires reg.Valid() && DbValid(Snapshot(), reg)
      modifies this
      ensures Lifecycle.Pass(failure, Snapshot()) == Implicits.ContestImplicit(old(Snapshot()), reg, u, now)
    {
      ghost var db0 := Snapshot();
      var classes := ChallengeClasses(reg);
      assert forall j :: 0 <= j < |classes| ==> classes[j] in classes;
      failure := None;
      var i := 0;
      while i < |classes| && failure.None?
        invariant 0 <= i <= |classes|
        invariant Lifecycle.Pass(failure, Snapshot()) == Implicits.ContestClasses(db0, reg, u, classes[..i], now)
        invariant DbValid(Snapshot(), reg)
      {
        Implicits.ContestClassesStep(db0, Snapshot(), reg, u, classes, i, now);
        var result := ContestNew(reg, classes[i], u, now);
        if result.Err? {
          failure := Some(result.error);
        }
        i := i + 1;
      }
      if failure.Some? {
        Implicits.FailureEndsClassPass(db0, reg, u, classes, i, now);
      } else {
        assert classes[..i] == classes;
      }
    }
  }
}
