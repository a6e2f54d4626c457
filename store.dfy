/**
 * The challenges table as a map from id to record, its well-formedness,
 * and the queries of lib/acts_as_challenged/challenge.rb over it: the
 * `active`, `expired`, `won`, `lost` and `canceled` scopes, `root`, and
 * the active count the creation gate compares with the cap.
 */
module Stores {
  import opened Challenges
  import opened Registries

  /** The table: its rows by id, and the next id the database hands out. */
  datatype Db = Db(recs: map<Id, Challenge>, next: Id)

  ghost predicate Bounded(db: Db) {
    forall k :: k in db.recs ==> k < db.next
  }

  /**
   * A record's child link points at a stored record of the same user whose
   * type is a step of the record's workflow.
   */
  ghost predicate ChildOk(db: Db, reg: Registry, c: Challenge)
    requires c.typeName in reg.defs
  {
    c.child.Some? ==>
      && c.child.value in db.recs
      && db.recs[c.child.value].typeName in reg.defs[c.typeName].workflow
      && db.recs[c.child.value].user == c.user
  }

  ghost predicate SelfOk(db: Db, reg: Registry, c: Challenge) {
    c.typeName in reg.defs && ChildOk(db, reg, c)
  }

  ghost predicate DbValid(db: Db, reg: Registry) {
    Bounded(db) && forall k :: k in db.recs ==> SelfOk(db, reg, db.recs[k])
  }

  /** `c` is an in-memory copy of the row `id`: same type, same owner. */
  ghost predicate SelfAt(db: Db, id: Id, c: Challenge) {
    id in db.recs && db.recs[id].typeName == c.typeName && db.recs[id].user == c.user
  }

  /** `db'` is a later state of `db`: no row deleted, no row changes its type or owner. */
  ghost predicate Extends(db: Db, db': Db) {
    && db.next <= db'.next
    && forall k :: k in db.recs ==>
         k in db'.recs && db'.recs[k].typeName == db.recs[k].typeName && db'.recs[k].user == db.recs[k].user
  }

  lemma ExtendsTransitive(db1: Db, db2: Db, db3: Db)
    requires Extends(db1, db2) && Extends(db2, db3)
    ensures Extends(db1, db3)
  {
  }

  lemma SelfOkExtends(db: Db, db': Db, reg: Registry, c: Challenge)
    requires SelfOk(db, reg, c) && Extends(db, db')
    ensures SelfOk(db', reg, c)
  {
  }

  /** `save!` of a new row: it gets the next id. */
  function Insert(db: Db, c: Challenge): (r: Db)
    ensures r.next == db.next + 1 && db.next in r.recs && r.recs[db.next] == c
    ensures forall k :: k in db.recs && k != db.next ==> k in r.recs && r.recs[k] == db.recs[k]
    ensures r.recs.Keys == db.recs.Keys + {db.next}
  {
    Db(db.recs[db.next := c], db.next + 1)
  }

  /** `save!` of an existing row. */
  function Save(db: Db, id: Id, c: Challenge): (r: Db)
    requires id in db.recs
    ensures r.next == db.next && r.recs.Keys == db.recs.Keys && r.recs[id] == c
    ensures forall k :: k in db.recs && k != id ==> r.recs[k] == db.recs[k]
  {
    Db(db.recs[id := c], db.next)
  }

  lemma InsertValid(db: Db, reg: Registry, c: Challenge)
    requires DbValid(db, reg) && SelfOk(db, reg, c)
    ensures DbValid(Insert(db, c), reg) && Extends(db, Insert(db, c))
  {
    var r := Insert(db, c);
    forall k | k in r.recs ensures SelfOk(r, reg, r.recs[k]) {
      if k != db.next { SelfOkExtends(db, r, reg, db.recs[k]); }
      else { SelfOkExtends(db, r, reg, c); }
    }
  }

  /** A second `save!` of the same row overwrites the first. */
  lemma SaveTwice(db: Db, id: Id, a: Challenge, b: Challenge)
    requires id in db.recs
    ensures Save(Save(db, id, a), id, b) == Save(db, id, b)
  {
    assert Save(Save(db, id, a), id, b).recs == db.recs[id := b];
  }

  lemma SaveValid(db: Db, reg: Registry, id: Id, c: Challenge)
    requires DbValid(db, reg) && SelfAt(db, id, c) && SelfOk(db, reg, c)
    ensures DbValid(Save(db, id, c), reg) && Extends(db, Save(db, id, c))
  {
    var r := Save(db, id, c);
    forall k | k in r.recs ensures SelfOk(r, reg, r.recs[k]) {
      if k != id { SelfOkExtends(db, r, reg, db.recs[k]); }
      else { SelfOkExtends(db, r, reg, c); }
    }
  }

  // -------------------------------------------------------------------
  // Scopes
  // -------------------------------------------------------------------

  /** `active`: status active and `ends_on` strictly after now (a nil `ends_on` never is). */
  predicate IsActive(c: Challenge, now: Time) {
    c.status == Active && c.endsOn.Some? && c.endsOn.value > now
  }

  /** `expired`: status active and `ends_on` strictly before now. */
  predicate IsExpired(c: Challenge, now: Time) {
    c.status == Active && c.endsOn.Some? && c.endsOn.value < now
  }

  datatype Scope = ActiveScope | ExpiredScope | WonScope | LostScope | CanceledScope

  predicate InScope(c: Challenge, s: Scope, now: Time) {
    match s
    case ActiveScope => IsActive(c, now)
    case ExpiredScope => IsExpired(c, now)
    case WonScope => c.status == Won
    case LostScope => c.status == Lost
    case CanceledScope => c.status == Canceled
  }

  /** `user.challenges.<scope>`: the ids of the user's rows in the scope. */
  function Filter(db: Db, u: UserId, s: Scope, now: Time): (r: set<Id>)
    ensures r <= db.recs.Keys
    ensures forall k :: k in r ==> db.recs[k].user == u
    ensures s == ActiveScope || s == ExpiredScope ==>
      forall k :: k in r ==> db.recs[k].status == Active && db.recs[k].endsOn.Some? && db.recs[k].endsOn.value != now
  {
    set k | k in db.recs && db.recs[k].user == u && InScope(db.recs[k], s, now)
  }

  /**
   * The scopes partition nothing twice: no row is both active and expired,
   * a row ending exactly now is neither, a row with nil `ends_on` is
   * neither, and an active-status row with a date is one of active, expired
   * or ending exactly now.
   */
  lemma ScopesAtBoundary(c: Challenge, now: Time)
    ensures !(IsActive(c, now) && IsExpired(c, now))
    ensures c.endsOn == Some(now) ==> !IsActive(c, now) && !IsExpired(c, now)
    ensures c.endsOn.None? ==> !IsActive(c, now) && !IsExpired(c, now)
    ensures c.status == Active && c.endsOn.Some? ==>
      IsActive(c, now) || IsExpired(c, now) || c.endsOn == Some(now)
    ensures IsExpired(c, now) <==> c.status == Active && Expired(c, now) == Ok(true)
  {
  }

  /**
   * Canceling is final: the canceled row is in the `canceled` scope and in
   * no other at any time, its message is the abandon text, and canceling
   * it again raises.
   */
  lemma CancelIsFinal(c: Challenge, now: Time, later: Time)
    requires Cancel(c, now).Ok?
    ensures var c' := Cancel(c, now).value;
      && InScope(c', CanceledScope, later)
      && !InScope(c', ActiveScope, later) && !InScope(c', ExpiredScope, later)
      && !InScope(c', WonScope, later) && !InScope(c', LostScope, later)
      && Message(c') == AbandonMessage
      && Cancel(c', later) == Err(Forbidden(NotActive))
  {
  }

  /** `root`: no row names this one as its child. */
  predicate IsRoot(db: Db, k: Id) {
    forall j :: j in db.recs ==> db.recs[j].child != Some(k)
  }

  /** `user.challenges.active.count` */
  function ActiveCount(db: Db, u: UserId, now: Time): nat {
    |Filter(db, u, ActiveScope, now)|
  }

  /**
   * Adding rows to the table, of which at most `id` is active, and changing
   * no existing row raises the user's active count by one exactly when `id`
   * is an active row of the user.
   */
  lemma ActiveCountAfterAdding(db: Db, db': Db, u: UserId, now: Time, id: Id)
    requires id !in db.recs && id in db'.recs
    requires forall k :: k in db.recs ==> k in db'.recs && db'.recs[k] == db.recs[k]
    requires forall k :: k in db'.recs && k !in db.recs && k != id ==> !IsActive(db'.recs[k], now)
    ensures ActiveCount(db', u, now)
         == ActiveCount(db, u, now) + (if db'.recs[id].user == u && IsActive(db'.recs[id], now) then 1 else 0)
  {
    var before := Filter(db, u, ActiveScope, now);
    var after := Filter(db', u, ActiveScope, now);
    var added := if db'.recs[id].user == u && IsActive(db'.recs[id], now) then {id} else {};
    forall k ensures k in after <==> k in before + added {
      if k in db.recs {
        assert db'.recs[k] == db.recs[k];
      }
    }
    assert after == before + added;
    assert id !in before;
  }

  /** An active root of user `u`, as `user.challenges.active.root` selects it. */
  predicate IsActiveRootOf(db: Db, u: UserId, now: Time, k: Id)
    requires k in db.recs
  {
    db.recs[k].user == u && IsActive(db.recs[k], now) && IsRoot(db, k)
  }

  /**
   * `user.challenges.active.root.all`: the active roots of the user, with
   * the rows as loaded, in id order.
   */
  function ActiveRoots(db: Db, u: UserId, now: Time): (r: seq<(Id, Challenge)>)
    requires Bounded(db)
    ensures forall i :: 0 <= i < |r| ==>
      r[i].0 in db.recs && r[i].1 == db.recs[r[i].0] && IsActiveRootOf(db, u, now, r[i].0)
    ensures forall k :: k in db.recs && IsActiveRootOf(db, u, now, k) ==>
      exists i :: 0 <= i < |r| && r[i].0 == k
    ensures forall i, j :: 0 <= i < j < |r| ==> r[i].0 < r[j].0
  {
    RootsBelow(db, u, now, db.next)
  }

  function RootsBelow(db: Db, u: UserId, now: Time, n: nat): (r: seq<(Id, Challenge)>)
    ensures forall i :: 0 <= i < |r| ==>
      r[i].0 < n && r[i].0 in db.recs && r[i].1 == db.recs[r[i].0] && IsActiveRootOf(db, u, now, r[i].0)
    ensures forall k :: k < n && k in db.recs && IsActiveRootOf(db, u, now, k) ==>
      exists i :: 0 <= i < |r| && r[i].0 == k
    ensures forall i, j :: 0 <= i < j < |r| ==> r[i].0 < r[j].0
  {
    if n == 0 then []
    else
      var k := n - 1;
      var prefix := RootsBelow(db, u, now, k);
      if k in db.recs && IsActiveRootOf(db, u, now, k) then
        RootsSnoc(db, u, now, k, prefix);
        prefix + [(k, db.recs[k])]
      else prefix
  }

  /** An active root `k` appended to the active roots below `k` gives those below `k + 1`. */
  lemma RootsSnoc(db: Db, u: UserId, now: Time, k: nat, prefix: seq<(Id, Challenge)>)
    requires k in db.recs && IsActiveRootOf(db, u, now, k)
    requires forall i :: 0 <= i < |prefix| ==>
      prefix[i].0 < k && prefix[i].0 in db.recs && prefix[i].1 == db.recs[prefix[i].0]
      && IsActiveRootOf(db, u, now, prefix[i].0)
    requires forall j :: j < k && j in db.recs && IsActiveRootOf(db, u, now, j) ==>
      exists i :: 0 <= i < |prefix| && prefix[i].0 == j
    requires forall i, j :: 0 <= i < j < |prefix| ==> prefix[i].0 < prefix[j].0
    ensures var r := prefix + [(k, db.recs[k])];
      && (forall i :: 0 <= i < |r| ==>
            r[i].0 < k + 1 && r[i].0 in db.recs && r[i].1 == db.recs[r[i].0] && IsActiveRootOf(db, u, now, r[i].0))
      && (forall j :: j < k + 1 && j in db.recs && IsActiveRootOf(db, u, now, j) ==>
            exists i :: 0 <= i < |r| && r[i].0 == j)
      && (forall i, j :: 0 <= i < j < |r| ==> r[i].0 < r[j].0)
  {
    var r := prefix + [(k, db.recs[k])];
    assert forall i :: 0 <= i < |prefix| ==> r[i] == prefix[i];
    assert r[|prefix|].0 == k;
  }

  // -------------------------------------------------------------------
  // Frames
  // -------------------------------------------------------------------

  /** `db'` leaves every stored row outside `s` as it was. */
  ghost predicate UntouchedOutside(db: Db, db': Db, s: set<Id>) {
    forall k :: k in db.recs && k !in s ==> k in db'.recs && db'.recs[k] == db.recs[k]
  }

  /** Every child link of `db'` is a link `db` already had or points at a row added since. */
  ghost predicate LinksKept(db: Db, db': Db) {
    forall j :: j in db'.recs && db'.recs[j].child.Some? ==>
      db'.recs[j].child.value >= db.next || (j in db.recs && db'.recs[j].child == db.recs[j].child)
  }

  lemma LinksKeptTransitive(db1: Db, db2: Db, db3: Db)
    requires db1.next <= db2.next && LinksKept(db1, db2) && LinksKept(db2, db3)
    ensures LinksKept(db1, db3)
  {
  }

  lemma UntouchedTransitive(db1: Db, db2: Db, db3: Db, s1: set<Id>, s2: set<Id>)
    requires UntouchedOutside(db1, db2, s1) && UntouchedOutside(db2, db3, s2)
    ensures UntouchedOutside(db1, db3, s1 + s2)
  {
  }

  /** Inserting a row whose link, if any, points at a row added since `db0` keeps the links. */
  lemma InsertLinksKept(db0: Db, db: Db, c: Challenge)
    requires db0.next <= db.next && LinksKept(db0, db)
    requires c.child.Some? ==> c.child.value >= db0.next
    ensures LinksKept(db0, Insert(db, c))
  {
  }

  /** Saving a row with its old link, or with a link to a row added since `db0`, keeps the links. */
  lemma SaveLinksKept(db0: Db, db: Db, id: Id, c: Challenge)
    requires LinksKept(db0, db) && id in db.recs
    requires c.child.Some? ==> c.child.value >= db0.next || (id in db0.recs && c.child == db0.recs[id].child)
    ensures LinksKept(db0, Save(db, id, c))
  {
  }

  /** No row becomes the child of an old root: a root stays a root. */
  lemma RootsStay(db: Db, db': Db, k: Id)
    requires Bounded(db) && LinksKept(db, db') && k in db.recs && IsRoot(db, k)
    ensures IsRoot(db', k)
  {
    forall j | j in db'.recs ensures db'.recs[j].child != Some(k) {
      if j in db.recs { assert db.recs[j].child != Some(k); }
    }
  }

  /** The row `k` and every row below it along child links. */
  ghost function Chain(db: Db, reg: Registry, k: Id): set<Id>
    requires reg.Valid() && DbValid(db, reg) && k in db.recs
    decreases reg.defs[db.recs[k].typeName].depth
  {
    var c := db.recs[k];
    assert SelfOk(db, reg, c);
    {k} + (if c.child.Some? then Chain(db, reg, c.child.value) else {})
  }

  /**
   * A chain is made of stored rows, none of a deeper type than its head,
   * and every row of it but the head is some row's child, so not a root.
   */
  lemma {:induction false} ChainFacts(db: Db, reg: Registry, k: Id)
    requires reg.Valid() && DbValid(db, reg) && k in db.recs
    ensures forall j :: j in Chain(db, reg, k) ==>
      j in db.recs && reg.defs[db.recs[j].typeName].depth <= reg.defs[db.recs[k].typeName].depth
    ensures forall j :: j in Chain(db, reg, k) && j != k ==> !IsRoot(db, j)
    decreases reg.defs[db.recs[k].typeName].depth
  {
    var c := db.recs[k];
    assert SelfOk(db, reg, c);
    if c.child.Some? {
      var k0 := c.child.value;
      ChainFacts(db, reg, k0);
      assert !IsRoot(db, k0);
    }
  }
}
