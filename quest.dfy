/**
 * Creating rows and contesting them: `create!` with the quest's
 * `before_create` child build, `build_child_challenge` and
 * `increment_cursor` (lib/acts_as_challenged/quest.rb, duplicated in
 * lib/acts_as_challenged/challenge.rb), the leaf `Challenge#contest` with
 * its `save!`, and `Quest#contest`, which contests its current child first
 * and evaluates its own predicates only once its workflow is finished.
 *
 * These functions are the specification the Engine.Store methods are
 * proved against.
 */
module Quests {
  import opened Challenges
  import opened Registries
  import opened Stores

  /** What one `contest` call returns (truthy, falsy, or the exception raised) and the table afterwards. */
  datatype Step = Step(result: Result<bool>, db: Db)

  /** The rows `db'` added to `db` all belong to `u`. */
  ghost predicate NewRowsOf(db: Db, db': Db, u: UserId) {
    forall k :: k in db'.recs && k !in db.recs ==> db'.recs[k].user == u
  }

  /** `db'` changes no row of a user other than `u`. */
  ghost predicate OthersUntouched(db: Db, db': Db, u: UserId)
    requires Extends(db, db')
  {
    forall k :: k in db.recs && db.recs[k].user != u ==> db'.recs[k] == db.recs[k]
  }

  /**
   * `create!` of a row of type `t` for user `u` with the given dates. For a
   * quest with a non-empty workflow, `before_create` first creates the
   * child for step 0 (dates nil, same user), so the child gets the smaller
   * id, and links it. Existing rows are untouched; of the new rows only the
   * requested one carries dates.
   */
  function CreateRecord(db: Db, reg: Registry, t: TypeName, u: UserId,
                        beginsOn: Option<Time>, endsOn: Option<Time>): (r: (Db, Id))
    requires reg.Valid() && DbValid(db, reg) && t in reg.defs
    ensures DbValid(r.0, reg) && Extends(db, r.0)
    ensures forall k :: k in db.recs ==> r.0.recs[k] == db.recs[k]
    ensures forall k :: k in r.0.recs <==> k in db.recs || db.next <= k < r.0.next
    ensures db.next <= r.1 && r.1 == r.0.next - 1
    ensures r.0.recs[r.1] == NewChallenge(t, u, beginsOn, endsOn, r.0.recs[r.1].child)
    ensures r.0.recs[r.1].child.Some? <==> reg.defs[t].kind == Quest && |reg.defs[t].workflow| > 0
    ensures r.0.recs[r.1].child.Some? ==>
      var k := r.0.recs[r.1].child.value;
      db.next <= k < r.1 && r.0.recs[k].typeName == reg.defs[t].workflow[0]
    ensures forall k :: db.next <= k < r.1 ==>
      r.0.recs[k].user == u && r.0.recs[k].status == Active && r.0.recs[k].points == 0
      && r.0.recs[k].endsOn.None? && r.0.recs[k].beginsOn.None?
    ensures LinksKept(db, r.0)
    decreases reg.defs[t].depth
  {
    var d := reg.defs[t];
    if d.kind == Quest && 0 < |d.workflow| then
      var sub := CreateRecord(db, reg, d.workflow[0], u, None, None);
      var c := NewChallenge(t, u, beginsOn, endsOn, Some(sub.1));
      InsertCreated(db, sub.0, reg, u, c);
      (Insert(sub.0, c), sub.0.next)
    else
      var c := NewChallenge(t, u, beginsOn, endsOn, None);
      InsertCreated(db, db, reg, u, c);
      (Insert(db, c), db.next)
  }

  /**
   * Inserting `c` after the undated rows of `u` created since `db` keeps
   * the facts `CreateRecord` promises about the rows before it.
   */
  lemma InsertCreated(db: Db, db1: Db, reg: Registry, u: UserId, c: Challenge)
    requires DbValid(db1, reg) && Extends(db, db1) && SelfOk(db1, reg, c) && LinksKept(db, db1)
    requires forall k :: k in db.recs ==> db1.recs[k] == db.recs[k]
    requires forall k :: k in db1.recs <==> k in db.recs || db.next <= k < db1.next
    requires forall k :: db.next <= k < db1.next ==>
      db1.recs[k].user == u && db1.recs[k].status == Active && db1.recs[k].points == 0
      && db1.recs[k].endsOn.None? && db1.recs[k].beginsOn.None?
    requires c.child.Some? ==> db.next <= c.child.value
    ensures var r := Insert(db1, c);
      && DbValid(r, reg) && Extends(db, r) && LinksKept(db, r)
      && (forall k :: k in db.recs ==> r.recs[k] == db.recs[k])
      && (forall k :: k in r.recs <==> k in db.recs || db.next <= k < r.next)
      && (forall k :: db.next <= k < db1.next ==>
            r.recs[k].user == u && r.recs[k].status == Active && r.recs[k].points == 0
            && r.recs[k].endsOn.None? && r.recs[k].beginsOn.None?)
  {
    InsertValid(db1, reg, c);
    InsertLinksKept(db, db1, c);
    ExtendsTransitive(db, db1, Insert(db1, c));
  }

  /**
   * `increment_cursor` on the in-memory quest `c` stored as row `id`:
   * advance the cursor by one, build the child for the new step unless the
   * workflow is finished (the old child stays linked otherwise), and
   * `save!` the quest.
   */
  function IncrementCursor(db: Db, reg: Registry, id: Id, c: Challenge): (r: (Challenge, Db))
    requires reg.Valid() && DbValid(db, reg) && SelfAt(db, id, c) && SelfOk(db, reg, c)
    ensures DbValid(r.1, reg) && Extends(db, r.1) && SelfAt(r.1, id, r.0) && SelfOk(r.1, reg, r.0)
    ensures NewRowsOf(db, r.1, c.user) && OthersUntouched(db, r.1, c.user)
    ensures r.1.recs[id] == r.0
    ensures r.0 == c.(cursor := c.cursor + 1, child := r.0.child)
    ensures FinishedWorkflow(r.0, reg.defs[c.typeName]) ==> r.0.child == c.child && r.1.next == db.next
    ensures !FinishedWorkflow(r.0, reg.defs[c.typeName]) ==>
      && r.0.child.Some? && db.next <= r.0.child.value
      && r.1.recs[r.0.child.value].typeName == reg.defs[c.typeName].workflow[c.cursor + 1]
      && r.1.recs[r.0.child.value].user == c.user
      && r.1.recs[r.0.child.value].endsOn.None?
    ensures UntouchedOutside(db, r.1, {id})
    ensures db.recs[id].child == c.child ==> LinksKept(db, r.1)
  {
    var d := reg.defs[c.typeName];
    var advanced := c.(cursor := c.cursor + 1);
    if !FinishedWorkflow(advanced, d) then
      var (db1, childId) := CreateRecord(db, reg, d.workflow[advanced.cursor], c.user, None, None);
      var c' := advanced.(child := Some(childId));
      SaveValid(db1, reg, id, c');
      SaveLinksKept(db, db1, id, c');
      (c', Save(db1, id, c'))
    else
      SaveValid(db, reg, id, advanced);
      var r := (advanced, Save(db, id, advanced));
      if db.recs[id].child == c.child then
        SaveLinksKept(db, db, id, advanced);
        r
      else r
  }

  /**
   * `Challenge#contest` on the in-memory row `c` stored as `id`: resolve it
   * and, when it was won or lost, `save!` it; the result is truthy exactly
   * when something was saved.
   */
  function ContestLeaf(db: Db, reg: Registry, id: Id, c: Challenge, now: Time): (s: Step)
    requires reg.Valid() && DbValid(db, reg) && SelfAt(db, id, c) && SelfOk(db, reg, c)
    ensures DbValid(s.db, reg) && Extends(db, s.db) && s.db.next == db.next
    ensures NewRowsOf(db, s.db, c.user) && OthersUntouched(db, s.db, c.user)
    ensures s.result.Ok? && s.result.value <==> Resolve(c, reg.defs[c.typeName], now).Ok? && Resolve(c, reg.defs[c.typeName], now).value.Some?
    ensures s.result.Err? <==> Resolve(c, reg.defs[c.typeName], now).Err?
    ensures s.result.Err? ==> s.result.error == LogicError
    ensures s.result != Ok(true) ==> s.db == db
    ensures s.result == Ok(true) ==> s.db == Save(db, id, Resolve(c, reg.defs[c.typeName], now).value.value)
  {
    match Resolve(c, reg.defs[c.typeName], now)
    case Err(e) => Step(Err(e), db)
    case Ok(None) => Step(Ok(false), db)
    case Ok(Some(c')) =>
      SaveValid(db, reg, id, c');
      Step(Ok(true), Save(db, id, c'))
  }

  /** What `Quest#contest` does after its child's `contest` returned `truthy`. */
  function QuestTail(db: Db, reg: Registry, id: Id, c: Challenge, now: Time, truthy: bool): (s: Step)
    requires reg.Valid() && DbValid(db, reg) && SelfAt(db, id, c) && SelfOk(db, reg, c)
    ensures DbValid(s.db, reg) && Extends(db, s.db)
    ensures NewRowsOf(db, s.db, c.user) && OthersUntouched(db, s.db, c.user)
    ensures db.recs[id].child == c.child ==> UntouchedOutside(db, s.db, {id}) && LinksKept(db, s.db)
  {
    var (c1, db1) := if truthy then IncrementCursor(db, reg, id, c) else (c, db);
    if FinishedWorkflow(c1, reg.defs[c.typeName]) then
      var s := ContestLeaf(db1, reg, id, c1, now);
      ExtendsTransitive(db, db1, s.db);
      if db.recs[id].child == c.child then
        LeafFrame(db1, reg, id, c1, now);
        UntouchedTransitive(db, db1, s.db, {id}, {id});
        LinksKeptTransitive(db, db1, s.db);
        s
      else s
    else Step(Ok(false), db1)
  }

  /**
   * `contest` sent to the in-memory row `c` stored as `id`. A quest first
   * contests its child (loaded from the table), advances when that returns
   * truthy, and resolves itself only once its workflow is finished; a quest
   * without a child raises. Every other type takes the leaf path.
   */
  function Contest(db: Db, reg: Registry, id: Id, c: Challenge, now: Time): (s: Step)
    requires reg.Valid() && DbValid(db, reg) && SelfAt(db, id, c) && SelfOk(db, reg, c)
    ensures DbValid(s.db, reg) && Extends(db, s.db)
    ensures NewRowsOf(db, s.db, c.user) && OthersUntouched(db, s.db, c.user)
    decreases reg.defs[c.typeName].depth
  {
    var d := reg.defs[c.typeName];
    if d.kind != Quest then ContestLeaf(db, reg, id, c, now)
    else if c.child.None? then Step(Err(NoChild), db)
    else
      var k := c.child.value;
      var sub := Contest(db, reg, k, db.recs[k], now);
      if sub.result.Err? then sub
      else
        SelfOkExtends(db, sub.db, reg, c);
        var s := QuestTail(sub.db, reg, id, c, now, sub.result.value);
        ExtendsTransitive(db, sub.db, s.db);
        s
  }

  // -------------------------------------------------------------------
  // Properties
  // -------------------------------------------------------------------

  /** A type whose rows have no workflow children. */
  predicate IsLeaf(d: Definition) {
    d.kind != Quest || |d.workflow| == 0
  }

  /**
   * Creating a quest whose first step is a leaf type adds exactly two rows:
   * the child for `workflow[0]` (same user, no dates) and the quest linked
   * to it. The quest is a root and the child is not.
   */
  lemma CreateQuestAddsChild(db: Db, reg: Registry, t: TypeName, u: UserId,
                             beginsOn: Option<Time>, endsOn: Option<Time>)
    requires reg.Valid() && DbValid(db, reg) && t in reg.defs
    requires reg.defs[t].kind == Quest && |reg.defs[t].workflow| > 0
    requires IsLeaf(reg.defs[reg.defs[t].workflow[0]])
    ensures var (db', id) := CreateRecord(db, reg, t, u, beginsOn, endsOn);
      && db'.next == db.next + 2 && id == db.next + 1
      && db'.recs[id].child == Some(db.next)
      && db'.recs[db.next].typeName == reg.defs[t].workflow[0]
      && db'.recs[db.next].user == u && db'.recs[db.next].endsOn.None?
      && IsRoot(db', id) && !IsRoot(db', db.next)
  {
    var (db', id) := CreateRecord(db, reg, t, u, beginsOn, endsOn);
    var d := reg.defs[t];
    var (db1, childId) := CreateRecord(db, reg, d.workflow[0], u, None, None);
    assert db1.recs[childId].child.None?;
    forall j | j in db'.recs ensures db'.recs[j].child != Some(id) {
      if j in db.recs {
        assert SelfOk(db, reg, db.recs[j]);
      }
    }
  }

  /** In an empty table, creating such a quest leaves two rows of which exactly one is a root. */
  lemma CreateQuestInEmptyTable(reg: Registry, t: TypeName, u: UserId,
                                beginsOn: Option<Time>, endsOn: Option<Time>)
    requires reg.Valid() && t in reg.defs
    requires reg.defs[t].kind == Quest && |reg.defs[t].workflow| > 0
    requires IsLeaf(reg.defs[reg.defs[t].workflow[0]])
    ensures var (db', id) := CreateRecord(Db(map[], 0), reg, t, u, beginsOn, endsOn);
      && db'.recs.Keys == {0, 1}
      && (set k | k in db'.recs && IsRoot(db', k)) == {id}
  {
    var db := Db(map[], 0);
    CreateQuestAddsChild(db, reg, t, u, beginsOn, endsOn);
    var (db', id) := CreateRecord(db, reg, t, u, beginsOn, endsOn);
    assert db'.recs.Keys == {0, 1};
  }

  /**
   * When the child's `contest` returns truthy, the quest's cursor advances
   * by exactly one; while the workflow is not finished the quest now links
   * a new, undated child for `workflow[cursor]`, otherwise it keeps its old
   * child. A quest that has not finished returns falsy.
   */
  lemma QuestAdvancesOnTruthyChild(db: Db, reg: Registry, id: Id, c: Challenge, now: Time)
    requires reg.Valid() && DbValid(db, reg) && SelfAt(db, id, c) && SelfOk(db, reg, c)
    requires reg.defs[c.typeName].kind == Quest && c.child.Some?
    requires Contest(db, reg, c.child.value, db.recs[c.child.value], now).result == Ok(true)
    ensures var d := reg.defs[c.typeName];
      var sub := Contest(db, reg, c.child.value, db.recs[c.child.value], now);
      var s := Contest(db, reg, id, c, now);
      && s.db.recs[id].cursor == c.cursor + 1
      && (c.cursor + 1 < |d.workflow| ==>
            && s.result == Ok(false)
            && s.db.recs[id].child.Some? && s.db.recs[id].child.value >= sub.db.next
            && s.db.recs[s.db.recs[id].child.value].typeName == d.workflow[c.cursor + 1]
            && s.db.recs[s.db.recs[id].child.value].user == c.user)
      && (c.cursor + 1 >= |d.workflow| ==> s.db.recs[id].child == c.child)
  {
    ContestQuest(db, reg, id, c, now);
    var sub := Contest(db, reg, c.child.value, db.recs[c.child.value], now);
    TailAdvances(sub.db, reg, id, c, now);
  }

  /** A quest with a child: its child's `contest`, then, unless that raised, the quest's tail. */
  lemma ContestQuest(db: Db, reg: Registry, id: Id, c: Challenge, now: Time)
    requires reg.Valid() && DbValid(db, reg) && SelfAt(db, id, c) && SelfOk(db, reg, c)
    requires reg.defs[c.typeName].kind == Quest && c.child.Some?
    ensures SelfOk(db, reg, db.recs[c.child.value])
    ensures var sub := Contest(db, reg, c.child.value, db.recs[c.child.value], now);
      && DbValid(sub.db, reg) && SelfAt(sub.db, id, c) && SelfOk(sub.db, reg, c)
      && (sub.result.Err? ==> Contest(db, reg, id, c, now) == sub)
      && (sub.result.Ok? ==> Contest(db, reg, id, c, now) == QuestTail(sub.db, reg, id, c, now, sub.result.value))
  {
    var sub := Contest(db, reg, c.child.value, db.recs[c.child.value], now);
    SelfOkExtends(db, sub.db, reg, c);
  }

  /** The tail after a truthy child: the cursor moves on, and a child is built for the next step if there is one. */
  lemma TailAdvances(db: Db, reg: Registry, id: Id, c: Challenge, now: Time)
    requires reg.Valid() && DbValid(db, reg) && SelfAt(db, id, c) && SelfOk(db, reg, c)
    ensures var d := reg.defs[c.typeName];
      var s := QuestTail(db, reg, id, c, now, true);
      && s.db.recs[id].cursor == c.cursor + 1
      && (c.cursor + 1 < |d.workflow| ==>
            && s.result == Ok(false)
            && s.db.recs[id].child.Some? && s.db.recs[id].child.value >= db.next
            && s.db.recs[s.db.recs[id].child.value].typeName == d.workflow[c.cursor + 1]
            && s.db.recs[s.db.recs[id].child.value].user == c.user)
      && (c.cursor + 1 >= |d.workflow| ==> s.db.recs[id].child == c.child)
  {
    if c.cursor + 1 >= |reg.defs[c.typeName].workflow| {
      TailFinishes(db, reg, id, c, now);
    } else {
      TailContinues(db, reg, id, c, now);
      IncrementLinks(db, reg, id, c);
    }
  }

  /** Before the last step, the tail after a truthy child is the saved quest with a new child for the next step. */
  lemma TailContinues(db: Db, reg: Registry, id: Id, c: Challenge, now: Time)
    requires reg.Valid() && DbValid(db, reg) && SelfAt(db, id, c) && SelfOk(db, reg, c)
    requires c.cursor + 1 < |reg.defs[c.typeName].workflow|
    ensures var r := IncrementCursor(db, reg, id, c);
      QuestTail(db, reg, id, c, now, true) == Step(Ok(false), r.1)
  {
  }

  /** Before the last step, `increment_cursor` moves the cursor and links a new child for the next step. */
  lemma IncrementLinks(db: Db, reg: Registry, id: Id, c: Challenge)
    requires reg.Valid() && DbValid(db, reg) && SelfAt(db, id, c) && SelfOk(db, reg, c)
    requires c.cursor + 1 < |reg.defs[c.typeName].workflow|
    ensures var db' := IncrementCursor(db, reg, id, c).1;
      db'.recs[id].cursor == c.cursor + 1 && db'.recs[id].child.Some? && db'.recs[id].child.value >= db.next
    ensures var db' := IncrementCursor(db, reg, id, c).1;
      && db'.recs[id].child.Some?
      && db'.recs[db'.recs[id].child.value].typeName == reg.defs[c.typeName].workflow[c.cursor + 1]
      && db'.recs[db'.recs[id].child.value].user == c.user
  {
    var r := IncrementCursor(db, reg, id, c);
    assert !FinishedWorkflow(r.0, reg.defs[c.typeName]);
    assert r.1.recs[id] == r.0 && r.0.cursor == c.cursor + 1;
  }

  /** The tail after a truthy child at the last step keeps the quest's child and moves its cursor. */
  lemma TailFinishes(db: Db, reg: Registry, id: Id, c: Challenge, now: Time)
    requires reg.Valid() && DbValid(db, reg) && SelfAt(db, id, c) && SelfOk(db, reg, c)
    requires c.cursor + 1 >= |reg.defs[c.typeName].workflow|
    ensures var r := IncrementCursor(db, reg, id, c);
      && r.0 == c.(cursor := c.cursor + 1)
      && QuestTail(db, reg, id, c, now, true) == ContestLeaf(r.1, reg, id, r.0, now)
    ensures var s := QuestTail(db, reg, id, c, now, true);
      s.db.recs[id].cursor == c.cursor + 1 && s.db.recs[id].child == c.child
  {
    var r := IncrementCursor(db, reg, id, c);
    assert QuestTail(db, reg, id, c, now, true) == ContestLeaf(r.1, reg, id, r.0, now);
    LeafKeepsCursor(r.1, reg, id, r.0, now);
  }

  /** The leaf `contest` of a row as stored keeps its cursor and its child. */
  lemma LeafKeepsCursor(db: Db, reg: Registry, id: Id, c: Challenge, now: Time)
    requires reg.Valid() && DbValid(db, reg) && SelfAt(db, id, c) && SelfOk(db, reg, c) && db.recs[id] == c
    ensures var s := ContestLeaf(db, reg, id, c, now);
      s.db.recs[id].cursor == c.cursor && s.db.recs[id].child == c.child
  {
  }

  /**
   * When the child's `contest` returns falsy, the quest neither advances nor
   * changes its child; it only resolves itself if its workflow was already
   * finished, and otherwise writes nothing.
   */
  lemma QuestHoldsOnFalsyChild(db: Db, reg: Registry, id: Id, c: Challenge, now: Time)
    requires reg.Valid() && DbValid(db, reg) && SelfAt(db, id, c) && SelfOk(db, reg, c)
    requires reg.defs[c.typeName].kind == Quest && c.child.Some?
    requires Contest(db, reg, c.child.value, db.recs[c.child.value], now).result == Ok(false)
    ensures var sub := Contest(db, reg, c.child.value, db.recs[c.child.value], now);
      var s := Contest(db, reg, id, c, now);
      && (!FinishedWorkflow(c, reg.defs[c.typeName]) ==> s == Step(Ok(false), sub.db))
      && (s.db.recs[id] == sub.db.recs[id] || (s.db.recs[id].cursor == c.cursor && s.db.recs[id].child == c.child))
  {
    var sub := Contest(db, reg, c.child.value, db.recs[c.child.value], now);
    SelfOkExtends(db, sub.db, reg, c);
  }

  /**
   * A quest's `contest` is truthy only in the pass in which its workflow is
   * finished and its own predicates resolve it: what an enclosing quest sees.
   */
  lemma QuestTruthyOnlyWhenFinished(db: Db, reg: Registry, id: Id, c: Challenge, now: Time)
    requires reg.Valid() && DbValid(db, reg) && SelfAt(db, id, c) && SelfOk(db, reg, c)
    requires reg.defs[c.typeName].kind == Quest
    requires Contest(db, reg, id, c, now).result == Ok(true)
    ensures var s := Contest(db, reg, id, c, now);
      && FinishedWorkflow(s.db.recs[id], reg.defs[c.typeName])
      && (s.db.recs[id].status == Won || s.db.recs[id].status == Lost)
      && s.db.recs[id].endsOn == Some(now)
  {
    var d := reg.defs[c.typeName];
    var k := c.child.value;
    var sub := Contest(db, reg, k, db.recs[k], now);
    SelfOkExtends(db, sub.db, reg, c);
    var (c1, db1) := if sub.result.value then IncrementCursor(sub.db, reg, id, c) else (c, sub.db);
    var r := Resolve(c1, d, now);
    assert r.Ok? && r.value.Some?;
  }

  /**
   * For a type that is not a quest, `contest` is truthy exactly when one of
   * `won?`/`lost?` holds, raises when both do, and otherwise saves nothing.
   */
  lemma LeafContestOutcome(db: Db, reg: Registry, id: Id, c: Challenge, now: Time)
    requires reg.Valid() && DbValid(db, reg) && SelfAt(db, id, c) && SelfOk(db, reg, c)
    requires reg.defs[c.typeName].kind != Quest
    ensures var d := reg.defs[c.typeName];
      var s := Contest(db, reg, id, c, now);
      && (s.result == Ok(true) <==> d.won(c, now) != d.lost(c, now))
      && (s.result == Err(LogicError) <==> d.won(c, now) && d.lost(c, now))
      && (s.result == Ok(false) <==> !d.won(c, now) && !d.lost(c, now))
      && (s.result != Ok(true) ==> s.db == db)
  {
  }

  /**
   * A row whose `won?` holds and `lost?` does not is saved won, with the
   * type's success points, ending now and locked out for the lockout duration.
   */
  lemma LeafWins(db: Db, reg: Registry, id: Id, c: Challenge, now: Time)
    requires reg.Valid() && DbValid(db, reg) && SelfAt(db, id, c) && SelfOk(db, reg, c)
    requires reg.defs[c.typeName].won(c, now) && !reg.defs[c.typeName].lost(c, now)
    ensures var d := reg.defs[c.typeName];
      ContestLeaf(db, reg, id, c, now)
      == Step(Ok(true), Save(db, id, c.(status := Won, points := d.successPoints, endsOn := Some(now),
                                        lockedOutTill := Some(now + d.lockedOutDuration))))
  {
  }

  /**
   * A lost child advances its quest exactly as a won one does, because
   * `Challenge#contest` returns the truthy value of `save!` either way.
   */
  lemma LostChildAdvancesQuest(db: Db, reg: Registry, id: Id, c: Challenge, now: Time)
    requires reg.Valid() && DbValid(db, reg) && SelfAt(db, id, c) && SelfOk(db, reg, c)
    requires reg.defs[c.typeName].kind == Quest && c.child.Some?
    requires var child := db.recs[c.child.value]; var cd := reg.defs[child.typeName];
      cd.kind != Quest && cd.lost(child, now) && !cd.won(child, now)
    ensures Contest(db, reg, c.child.value, db.recs[c.child.value], now).db.recs[c.child.value].status == Lost
    ensures Contest(db, reg, id, c, now).db.recs[id].cursor == c.cursor + 1
  {
    var k := c.child.value;
    assert SelfOk(db, reg, db.recs[k]);
    LeafContestOutcome(db, reg, k, db.recs[k], now);
    QuestAdvancesOnTruthyChild(db, reg, id, c, now);
  }

  /**
   * A quest that has finished its workflow but whose own `won?` and `lost?`
   * stay false re-contests its last child on every pass: a child that was
   * already won is resolved and saved again, and the cursor moves past the
   * end of the workflow.
   */
  lemma FinishedQuestOvershoots(db: Db, reg: Registry, id: Id, c: Challenge, now: Time)
    requires reg.Valid() && DbValid(db, reg) && SelfAt(db, id, c) && SelfOk(db, reg, c)
    requires reg.defs[c.typeName].kind == Quest && c.child.Some? && FinishedWorkflow(c, reg.defs[c.typeName])
    requires var child := db.recs[c.child.value]; var cd := reg.defs[child.typeName];
      child.status == Won && cd.kind != Quest && cd.won(child, now) && !cd.lost(child, now)
    requires !reg.defs[c.typeName].won(c.(cursor := c.cursor + 1), now)
    requires !reg.defs[c.typeName].lost(c.(cursor := c.cursor + 1), now)
    ensures var s := Contest(db, reg, id, c, now);
      && s.result == Ok(false)
      && s.db.recs[id].cursor == c.cursor + 1 > |reg.defs[c.typeName].workflow|
      && s.db.recs[id].child == c.child
      && s.db.recs[c.child.value].status == Won
      && s.db.recs[c.child.value].endsOn == Some(now)
  {
    var k := c.child.value;
    assert SelfOk(db, reg, db.recs[k]);
    LeafContestOutcome(db, reg, k, db.recs[k], now);
    QuestAdvancesOnTruthyChild(db, reg, id, c, now);
    var sub := Contest(db, reg, k, db.recs[k], now);
    SelfOkExtends(db, sub.db, reg, c);
    var (c1, db1) := IncrementCursor(sub.db, reg, id, c);
    assert c1 == c.(cursor := c.cursor + 1);
  }

  // -------------------------------------------------------------------
  // Frame of a contest
  // -------------------------------------------------------------------

  /** The rows below the in-memory row `c`: its child's chain, if it has a child. */
  ghost function Below(db: Db, reg: Registry, c: Challenge): set<Id>
    requires reg.Valid() && DbValid(db, reg) && SelfOk(db, reg, c)
  {
    if c.child.Some? then Chain(db, reg, c.child.value) else {}
  }

  /** The leaf `contest` writes at most its own row, with the link it had. */
  lemma LeafFrame(db: Db, reg: Registry, id: Id, c: Challenge, now: Time)
    requires reg.Valid() && DbValid(db, reg) && SelfAt(db, id, c) && SelfOk(db, reg, c)
    requires db.recs[id].child == c.child
    ensures var s := ContestLeaf(db, reg, id, c, now);
      UntouchedOutside(db, s.db, {id}) && LinksKept(db, s.db)
  {
    var s := ContestLeaf(db, reg, id, c, now);
    if s.result == Ok(true) {
      SaveLinksKept(db, db, id, Resolve(c, reg.defs[c.typeName], now).value.value);
    }
  }

  /**
   * `contest` on a row as loaded writes only that row and the rows below
   * it, and every link it sets points at a row it created.
   */
  lemma {:induction false} ContestFrame(db: Db, reg: Registry, id: Id, c: Challenge, now: Time)
    requires reg.Valid() && DbValid(db, reg) && SelfAt(db, id, c) && SelfOk(db, reg, c)
    requires db.recs[id].child == c.child
    ensures var s := Contest(db, reg, id, c, now);
      UntouchedOutside(db, s.db, {id} + Below(db, reg, c)) && LinksKept(db, s.db)
    decreases reg.defs[c.typeName].depth
  {
    var d := reg.defs[c.typeName];
    if d.kind != Quest {
      LeafFrame(db, reg, id, c, now);
    } else if c.child.Some? {
      var k := c.child.value;
      var child := db.recs[k];
      assert SelfOk(db, reg, child);
      ContestFrame(db, reg, k, child, now);
      var sub := Contest(db, reg, k, child, now);
      var chain := Chain(db, reg, k);
      assert chain == {k} + Below(db, reg, child);
      if sub.result.Ok? {
        ChainFacts(db, reg, k);
        assert id !in chain;
        SelfOkExtends(db, sub.db, reg, c);
        var s := QuestTail(sub.db, reg, id, c, now, sub.result.value);
        assert s == Contest(db, reg, id, c, now);
        UntouchedTransitive(db, sub.db, s.db, chain, {id});
        LinksKeptTransitive(db, sub.db, s.db);
      }
    }
  }
}
