/**
 * The two class methods of lib/acts_as_challenged/challenge.rb that drive a
 * user's challenges: the admission gate `create_from_challenge_name` (name
 * check, then the cap of three active challenges, then the lockout, then
 * `create!`) and the pass `contest(user)` over the user's active root
 * challenges.
 */
module Lifecycle {
  import opened Challenges
  import opened Registries
  import opened Stores
  import opened Availability
  import opened Quests

  // -------------------------------------------------------------------
  // create_from_challenge_name
  // -------------------------------------------------------------------

  /**
   * The class-name argument of `create_from_challenge_name`, as the caller
   * passes it: a String or a Symbol. The name check and `constantize` use
   * its text (`to_s`).
   */
  datatype Name = Str(text: TypeName) | Sym(text: TypeName)

  /**
   * `user.challenge_locked_out?` on the raw argument: `include?` on the set
   * of locked-out type strings, which never contains a Symbol.
   */
  predicate NameLockedOut(db: Db, u: UserId, name: Name, now: Time) {
    match name
    case Str(t) => ChallengeLockedOut(db, u, t, now)
    case Sym(_) => false
  }

  /** What the gate raises for `name`, or `None` when it admits the creation. */
  function GateFailure(db: Db, reg: Registry, u: UserId, name: Name, now: Time): (e: Option<Error>)
    ensures e == Some(NotFound) <==> !ValidateChallengeName(reg, name.text)
    ensures e == Some(Forbidden(TooManyActive)) <==>
      ValidateChallengeName(reg, name.text) && ActiveCount(db, u, now) == MaxActiveChallenges
    ensures e == Some(Forbidden(LockedOut)) <==>
      && ValidateChallengeName(reg, name.text) && ActiveCount(db, u, now) != MaxActiveChallenges
      && name.Str? && ChallengeLockedOut(db, u, name.text, now)
    ensures e.None? <==>
      && ValidateChallengeName(reg, name.text) && ActiveCount(db, u, now) != MaxActiveChallenges
      && !(name.Str? && ChallengeLockedOut(db, u, name.text, now))
  {
    if !ValidateChallengeName(reg, name.text) then Some(NotFound)
    else if ActiveCount(db, u, now) == MaxActiveChallenges then Some(Forbidden(TooManyActive))
    else if NameLockedOut(db, u, name, now) then Some(Forbidden(LockedOut))
    else None
  }

  /**
   * A locked-out type is refused when named by a String and admitted when
   * named by a Symbol: the lockout test compares the raw argument with
   * type strings.
   */
  lemma SymbolSkipsLockout(db: Db, reg: Registry, u: UserId, t: TypeName, now: Time)
    requires ValidateChallengeName(reg, t) && ActiveCount(db, u, now) != MaxActiveChallenges
    requires ChallengeLockedOut(db, u, t, now)
    ensures GateFailure(db, reg, u, Str(t), now) == Some(Forbidden(LockedOut))
    ensures GateFailure(db, reg, u, Sym(t), now) == None
  {
  }

  /**
   * `create_from_challenge_name`: on success the table with the new row
   * (and, for a quest, its first child) and the new row's id. On failure
   * nothing is created.
   */
  function CreateFromChallengeName(db: Db, reg: Registry, u: UserId, name: Name, now: Time): (r: Result<(Db, Id)>)
    requires reg.Valid() && DbValid(db, reg)
    ensures r.Err? <==> GateFailure(db, reg, u, name, now).Some?
    ensures r.Err? ==> Some(r.error) == GateFailure(db, reg, u, name, now)
    ensures r.Ok? ==>
      var (db', id) := r.value;
      var d := reg.defs[name.text];
      var beginsOn := CalcBeginsOn(d, now);
      && DbValid(db', reg) && Extends(db, db')
      && db.next <= id && id in db'.recs
      && db'.recs[id] == NewChallenge(name.text, u, Some(beginsOn), Some(CalcEndsOn(d, beginsOn)), db'.recs[id].child)
      && (forall k :: k in db.recs ==> db'.recs[k] == db.recs[k])
      && (forall k :: k in db'.recs && k !in db.recs && k != id ==>
            db'.recs[k].user == u && db'.recs[k].endsOn.None?)
  {
    match GateFailure(db, reg, u, name, now)
    case Some(e) => Err(e)
    case None =>
      var t := name.text;
      var d := reg.defs[t];
      var beginsOn := CalcBeginsOn(d, now);
      Ok(CreateRecord(db, reg, t, u, Some(beginsOn), Some(CalcEndsOn(d, beginsOn))))
  }

  /**
   * A successful creation adds exactly one active row to the user's count,
   * and only when the new row ends after `now`: children are undated and
   * existing rows are untouched.
   */
  lemma CreateCountsOne(db: Db, reg: Registry, u: UserId, name: Name, now: Time)
    requires reg.Valid() && DbValid(db, reg)
    requires CreateFromChallengeName(db, reg, u, name, now).Ok?
    ensures var (db', id) := CreateFromChallengeName(db, reg, u, name, now).value;
      ActiveCount(db', u, now) == ActiveCount(db, u, now) + (if IsActive(db'.recs[id], now) then 1 else 0)
  {
    var r := CreateFromChallengeName(db, reg, u, name, now).value;
    ActiveCountAfterAdding(db, r.0, u, now, r.1);
  }

  /**
   * The cap is compared with `==`, yet creating through the gate can never
   * take a user from at most three active challenges to more than three.
   */
  lemma CapHolds(db: Db, reg: Registry, u: UserId, name: Name, now: Time)
    requires reg.Valid() && DbValid(db, reg)
    requires ActiveCount(db, u, now) <= MaxActiveChallenges
    requires CreateFromChallengeName(db, reg, u, name, now).Ok?
    ensures ActiveCount(CreateFromChallengeName(db, reg, u, name, now).value.0, u, now) <= MaxActiveChallenges
  {
    CreateCountsOne(db, reg, u, name, now);
  }

  /**
   * Because the cap is compared with `==`, a user who already has more than
   * three active challenges (rows not created through the gate) is admitted
   * again.
   */
  lemma CapIsEquality(db: Db, reg: Registry, u: UserId, name: Name, now: Time)
    requires reg.Valid() && DbValid(db, reg)
    requires ValidateChallengeName(reg, name.text) && !NameLockedOut(db, u, name, now)
    requires ActiveCount(db, u, now) > MaxActiveChallenges
    ensures CreateFromChallengeName(db, reg, u, name, now).Ok?
  {
  }

  // -------------------------------------------------------------------
  // contest(user)
  // -------------------------------------------------------------------

  /** The outcome of a pass: the exception that ended it, if any, and the table afterwards. */
  datatype Pass = Pass(failure: Option<Error>, db: Db)

  /** The loaded rows are in-memory copies of rows of `u` that are stored in `db`. */
  ghost predicate LoadedRows(db: Db, reg: Registry, u: UserId, rows: seq<(Id, Challenge)>) {
    forall i :: 0 <= i < |rows| ==>
      SelfAt(db, rows[i].0, rows[i].1) && SelfOk(db, reg, rows[i].1) && rows[i].1.user == u
  }

  lemma LoadedRowsExtend(db: Db, db': Db, reg: Registry, u: UserId, rows: seq<(Id, Challenge)>)
    requires LoadedRows(db, reg, u, rows) && Extends(db, db')
    ensures LoadedRows(db', reg, u, rows)
  {
    forall i | 0 <= i < |rows| ensures SelfOk(db', reg, rows[i].1) {
      SelfOkExtends(db, db', reg, rows[i].1);
    }
  }

  /**
   * `each { |challenge| challenge.contest }` over the loaded rows, in order.
   * An exception ends the pass; what was saved before it stays saved.
   */
  function ContestAll(db: Db, reg: Registry, u: UserId, rows: seq<(Id, Challenge)>, now: Time): (p: Pass)
    requires reg.Valid() && DbValid(db, reg) && LoadedRows(db, reg, u, rows)
    ensures DbValid(p.db, reg) && Extends(db, p.db)
    ensures NewRowsOf(db, p.db, u) && OthersUntouched(db, p.db, u)
    decreases |rows|
  {
    if rows == [] then Pass(None, db)
    else
      var prev := ContestAll(db, reg, u, rows[..|rows| - 1], now);
      if prev.failure.Some? then prev
      else
        LoadedRowsExtend(db, prev.db, reg, u, rows);
        var (id, c) := rows[|rows| - 1];
        var s := Contest(prev.db, reg, id, c, now);
        ExtendsTransitive(db, prev.db, s.db);
        Pass(if s.result.Err? then Some(s.result.error) else None, s.db)
  }

  /** A pass that has not raised over the first `i` rows goes on with the `contest` of row `i`. */
  lemma ContestAllStep(db0: Db, db: Db, reg: Registry, u: UserId, rows: seq<(Id, Challenge)>, i: nat, now: Time)
    requires reg.Valid() && DbValid(db0, reg) && LoadedRows(db0, reg, u, rows) && i < |rows|
    requires LoadedRows(db0, reg, u, rows[..i]) && LoadedRows(db0, reg, u, rows[..i + 1])
    requires ContestAll(db0, reg, u, rows[..i], now) == Pass(None, db)
    ensures DbValid(db, reg) && Extends(db0, db)
    ensures SelfAt(db, rows[i].0, rows[i].1) && SelfOk(db, reg, rows[i].1)
    ensures var s := Contest(db, reg, rows[i].0, rows[i].1, now);
      ContestAll(db0, reg, u, rows[..i + 1], now) == Pass(if s.result.Err? then Some(s.result.error) else None, s.db)
  {
    assert rows[..i + 1][..i] == rows[..i];
    LoadedRowsExtend(db0, db, reg, u, rows);
  }

  /** A prefix of loaded rows is loaded rows. */
  lemma LoadedPrefix(db: Db, reg: Registry, u: UserId, rows: seq<(Id, Challenge)>, n: nat)
    requires LoadedRows(db, reg, u, rows) && n <= |rows|
    ensures LoadedRows(db, reg, u, rows[..n])
  {
    assert forall i :: 0 <= i < n ==> rows[..n][i] == rows[i];
  }

  /** A pass over one row is that row's `contest`. */
  lemma ContestAllOne(db: Db, reg: Registry, u: UserId, id: Id, c: Challenge, now: Time)
    requires reg.Valid() && DbValid(db, reg) && LoadedRows(db, reg, u, [(id, c)])
    ensures SelfAt(db, id, c) && SelfOk(db, reg, c)
    ensures var s := Contest(db, reg, id, c, now);
      ContestAll(db, reg, u, [(id, c)], now) == Pass(if s.result.Err? then Some(s.result.error) else None, s.db)
  {
    var rows := [(id, c)];
    assert rows[..|rows| - 1] == [];
    assert ContestAll(db, reg, u, rows[..|rows| - 1], now) == Pass(None, db);
    assert rows[|rows| - 1] == (id, c);
  }

  /** The active roots as loaded are in-memory copies of the user's stored rows. */
  lemma ActiveRootsLoaded(db: Db, reg: Registry, u: UserId, now: Time)
    requires DbValid(db, reg)
    ensures LoadedRows(db, reg, u, ActiveRoots(db, u, now))
  {
    var roots := ActiveRoots(db, u, now);
    forall i | 0 <= i < |roots| ensures SelfOk(db, reg, roots[i].1) {
      assert roots[i].1 == db.recs[roots[i].0];
    }
  }

  /** `Challenge.contest(user)`: contests each of `user.challenges.active.root.all`. */
  function ContestUser(db: Db, reg: Registry, u: UserId, now: Time): (p: Pass)
    requires reg.Valid() && DbValid(db, reg)
    ensures DbValid(p.db, reg) && Extends(db, p.db)
    ensures NewRowsOf(db, p.db, u) && OthersUntouched(db, p.db, u)
  {
    ActiveRootsLoaded(db, reg, u, now);
    ContestAll(db, reg, u, ActiveRoots(db, u, now), now)
  }

  /**
   * Once a contest has raised, the rest of the rows are never contested:
   * the pass ends with the table as it was at the exception.
   */
  lemma {:induction false} FailureEndsPass(db: Db, reg: Registry, u: UserId, rows: seq<(Id, Challenge)>, i: nat, now: Time)
    requires reg.Valid() && DbValid(db, reg) && LoadedRows(db, reg, u, rows)
    requires i <= |rows|
    requires ContestAll(db, reg, u, rows[..i], now).failure.Some?
    ensures ContestAll(db, reg, u, rows, now) == ContestAll(db, reg, u, rows[..i], now)
    decreases |rows| - i
  {
    if i < |rows| {
      var rows' := rows[..|rows| - 1];
      assert rows'[..i] == rows[..i];
      FailureEndsPass(db, reg, u, rows', i, now);
    } else {
      assert rows[..i] == rows;
    }
  }

  /** The ids of the loaded rows. */
  function Ids(rows: seq<(Id, Challenge)>): (r: set<Id>)
    ensures forall k :: k in r <==> exists i :: 0 <= i < |rows| && rows[i].0 == k
  {
    set i | 0 <= i < |rows| :: rows[i].0
  }

  /** The loaded rows are distinct roots of `db`, each exactly as stored. */
  ghost predicate DistinctRoots(db: Db, rows: seq<(Id, Challenge)>) {
    && (forall i :: 0 <= i < |rows| ==>
          rows[i].0 in db.recs && rows[i].1 == db.recs[rows[i].0] && IsRoot(db, rows[i].0))
    && (forall i, j :: 0 <= i < j < |rows| ==> rows[i].0 != rows[j].0)
  }

  /**
   * Contesting the root `id` as loaded leaves every other root of an
   * earlier table `db0` as it was, and links only rows it created.
   */
  lemma OneRootFrame(db0: Db, db: Db, reg: Registry, id: Id, c: Challenge, now: Time)
    requires reg.Valid() && DbValid(db, reg) && SelfAt(db, id, c) && SelfOk(db, reg, c) && db.recs[id] == c
    requires Bounded(db0) && db0.next <= db.next && LinksKept(db0, db)
    ensures var s := Contest(db, reg, id, c, now);
      && LinksKept(db0, s.db)
      && forall k :: k in db0.recs && k in db.recs && IsRoot(db0, k) && k != id ==> s.db.recs[k] == db.recs[k]
  {
    ContestFrame(db, reg, id, c, now);
    var s := Contest(db, reg, id, c, now);
    forall k | k in db0.recs && k in db.recs && IsRoot(db0, k) && k != id
      ensures s.db.recs[k] == db.recs[k]
    {
      RootsStay(db0, db, k);
      if c.child.Some? {
        ChainFacts(db, reg, c.child.value);
        assert !IsRoot(db, c.child.value);
      }
      assert k !in {id} + Below(db, reg, c);
    }
    LinksKeptTransitive(db0, db, s.db);
  }

  /**
   * Contesting distinct roots one after the other leaves every other root
   * as it was: each contest writes only its own row and the rows below it,
   * which are no roots, and it links only rows it created.
   */
  lemma {:induction false} ContestAllFrame(db: Db, reg: Registry, u: UserId, rows: seq<(Id, Challenge)>, now: Time)
    requires reg.Valid() && DbValid(db, reg) && LoadedRows(db, reg, u, rows) && DistinctRoots(db, rows)
    ensures var p := ContestAll(db, reg, u, rows, now);
      && LinksKept(db, p.db)
      && forall k :: k in db.recs && IsRoot(db, k) && k !in Ids(rows) ==> p.db.recs[k] == db.recs[k]
    decreases |rows|
  {
    if rows != [] {
      var prefix := rows[..|rows| - 1];
      assert forall i :: 0 <= i < |prefix| ==> prefix[i] == rows[i];
      ContestAllFrame(db, reg, u, prefix, now);
      var prev := ContestAll(db, reg, u, prefix, now);
      if prev.failure.None? {
        var (id, c) := rows[|rows| - 1];
        assert id !in Ids(prefix);
        LoadedRowsExtend(db, prev.db, reg, u, rows);
        OneRootFrame(db, prev.db, reg, id, c, now);
      }
    }
  }

  /**
   * `contest(user)` contests only active root challenges: every root that
   * is not an active root of the user (expired, won, lost, canceled, or
   * another user's) is left exactly as it was.
   */
  lemma ContestUserLeavesOtherRoots(db: Db, reg: Registry, u: UserId, now: Time, k: Id)
    requires reg.Valid() && DbValid(db, reg)
    requires k in db.recs && IsRoot(db, k) && !IsActiveRootOf(db, u, now, k)
    ensures ContestUser(db, reg, u, now).db.recs[k] == db.recs[k]
  {
    var roots := ActiveRoots(db, u, now);
    ActiveRootsLoaded(db, reg, u, now);
    ActiveRootsDistinct(db, u, now);
    assert k !in Ids(roots);
    ContestAllFrame(db, reg, u, roots, now);
  }

  /** The active roots are distinct roots, each as stored. */
  lemma ActiveRootsDistinct(db: Db, u: UserId, now: Time)
    requires Bounded(db)
    ensures DistinctRoots(db, ActiveRoots(db, u, now))
  {
    var roots := ActiveRoots(db, u, now);
    assert forall i, j :: 0 <= i < j < |roots| ==> roots[i].0 < roots[j].0;
  }
}
