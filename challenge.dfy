/**
 * Challenge records, challenge-type definitions and the per-record
 * behaviour of lib/acts_as_challenged/challenge.rb: the DSL defaults, the
 * time hooks, `finished_workflow?`, `expired?`, `message` and the
 * won/lost resolution that `Challenge#contest` writes.
 *
 * Time is an integer number of seconds on an injected clock `now`;
 * durations are integer seconds.
 */
module Challenges {

  type Time = int
  type Duration = int
  type Id = nat
  type UserId = nat
  type TypeName = string

  const Minute: Duration := 60
  const Hour: Duration := 60 * Minute
  const Day: Duration := 24 * Hour
  const Week: Duration := 7 * Day
  /** A year as a fixed number of seconds: 365.25 days. */
  const Year: Duration := 36525 * Day / 100

  /** `MaxActiveChallenges` */
  const MaxActiveChallenges: nat := 3
  /** `duration`, `locked_out_duration` and `success_points` of the base class */
  const DefaultDuration: Duration := 24 * Hour
  const DefaultLockedOutDuration: Duration := 24 * Hour
  const DefaultSuccessPoints: int := 0
  /** `Quest#duration` */
  const QuestDuration: Duration := 100 * Year

  datatype Option<T> = None | Some(value: T)

  /** The three situations in which the source raises `ForbiddenException`. */
  datatype ForbiddenReason = NotActive | TooManyActive | LockedOut

  datatype Error =
    | NotFound                          // NotFoundException: unknown challenge name
    | Forbidden(reason: ForbiddenReason) // ForbiddenException
    | LogicError                        // won? and lost? both true
    | NoChild                           // `contest` sent to a quest's nil child
    | NilTime                           // a time comparison against a nil `ends_on`

  datatype Result<T> = Ok(value: T) | Err(error: Error)

  /** `STATUS_LIST` */
  datatype Status = Active | Won | Lost | Canceled

  /** One row of the challenges table (the columns the core uses). */
  datatype Challenge = Challenge(
    typeName: TypeName,
    user: UserId,
    status: Status,
    points: int,
    beginsOn: Option<Time>,
    endsOn: Option<Time>,
    lockedOutTill: Option<Time>,
    cursor: nat,
    child: Option<Id>)

  /** Which base class a challenge type derives from. */
  datatype Kind = Plain | Quest | Implicit

  /**
   * A challenge type: the class-level configuration and the overridable
   * DSL methods of one subclass. `won` and `lost` are the subclass's
   * predicates, given the record and the clock. `depth` bounds how deeply
   * quests of this type nest (see Registries.Registry.Valid).
   */
  datatype Definition = Definition(
    kind: Kind,
    enabled: bool,
    depth: nat,
    duration: Duration,
    lockedOutDuration: Duration,
    successPoints: int,
    workflow: seq<TypeName>,
    won: (Challenge, Time) -> bool,
    lost: (Challenge, Time) -> bool,
    calcBeginsOn: Time -> Time)

  /**
   * A plain challenge type with the base class's defaults: 24 hours long,
   * a 24-hour lockout, no points, no workflow, beginning at `now`.
   */
  function PlainDefinition(won: (Challenge, Time) -> bool, lost: (Challenge, Time) -> bool): (d: Definition)
    ensures d.kind == Plain && d.enabled && d.workflow == []
    ensures d.duration == DefaultDuration && d.lockedOutDuration == DefaultLockedOutDuration
    ensures d.successPoints == DefaultSuccessPoints
    ensures forall t :: d.calcBeginsOn(t) == t
    ensures forall c, t :: d.won(c, t) == won(c, t) && d.lost(c, t) == lost(c, t)
  {
    Definition(Plain, true, 0, DefaultDuration, DefaultLockedOutDuration, DefaultSuccessPoints,
               [], won, lost, t => t)
  }

  /**
   * A quest type: `won?` is always true, `lost?` always false and it lasts
   * 100 years; the workflow and points are the subclass's.
   */
  function QuestDefinition(workflow: seq<TypeName>, successPoints: int, depth: nat): (d: Definition)
    ensures d.kind == Quest && d.enabled && d.workflow == workflow
    ensures d.duration == QuestDuration && d.lockedOutDuration == DefaultLockedOutDuration
    ensures forall c, t :: d.won(c, t) && !d.lost(c, t)
    ensures forall t :: d.calcBeginsOn(t) == t
  {
    Definition(Quest, true, depth, QuestDuration, DefaultLockedOutDuration, successPoints,
               workflow, (c, t) => true, (c, t) => false, t => t)
  }

  /** An implicit challenge type: it can never be lost. */
  function ImplicitDefinition(won: (Challenge, Time) -> bool, successPoints: int): (d: Definition)
    ensures d.kind == Implicit && d.enabled && d.workflow == []
    ensures forall c, t :: !d.lost(c, t)
    ensures forall c, t :: d.won(c, t) == won(c, t)
  {
    Definition(Implicit, true, 0, DefaultDuration, DefaultLockedOutDuration, successPoints,
               [], won, (c, t) => false, t => t)
  }

  /** `calc_begins_on`: the definition's hook applied to the clock. */
  function CalcBeginsOn(d: Definition, now: Time): Time {
    d.calcBeginsOn(now)
  }

  /**
   * `calc_ends_on`: the begin time plus the duration, except for implicit
   * challenges, which end when they begin.
   */
  function CalcEndsOn(d: Definition, beginsOn: Time): (r: Time)
    ensures d.kind != Implicit ==> r - beginsOn == d.duration
    ensures d.kind == Implicit ==> r == beginsOn
  {
    if d.kind == Implicit then beginsOn else beginsOn + d.duration
  }

  /** `calc_locked_out_till`: `ends_on` plus the lockout duration. */
  function CalcLockedOutTill(d: Definition, endsOn: Time): (r: Time)
    ensures r - endsOn == d.lockedOutDuration
  {
    endsOn + d.lockedOutDuration
  }

  /** A freshly created row: the column defaults plus what the creator sets. */
  function NewChallenge(t: TypeName, u: UserId, beginsOn: Option<Time>, endsOn: Option<Time>,
                        child: Option<Id>): (c: Challenge)
    ensures c.status == Active && c.points == 0 && c.cursor == 0 && c.lockedOutTill == None
    ensures c.typeName == t && c.user == u && c.beginsOn == beginsOn && c.endsOn == endsOn
    ensures c.child == child
  {
    Challenge(t, u, Active, 0, beginsOn, endsOn, None, 0, child)
  }

  /**
   * `cancel`: an active challenge becomes canceled and ends now; any other
   * status raises `ForbiddenException` and leaves the record as it was.
   */
  function Cancel(c: Challenge, now: Time): (r: Result<Challenge>)
    ensures r.Ok? <==> c.status == Active
    ensures r.Err? ==> r.error == Forbidden(NotActive)
    ensures r.Ok? ==> r.value.status == Canceled && r.value.endsOn == Some(now)
    ensures r.Ok? ==> r.value.(status := c.status, endsOn := c.endsOn) == c
  {
    if c.status == Active then Ok(c.(status := Canceled, endsOn := Some(now)))
    else Err(Forbidden(NotActive))
  }

  /** `finished_workflow?` */
  predicate FinishedWorkflow(c: Challenge, d: Definition) {
    c.cursor >= |d.workflow|
  }

  /** `expired?`: comparing the clock with a nil `ends_on` raises. */
  function Expired(c: Challenge, now: Time): (r: Result<bool>)
    ensures r.Err? <==> c.endsOn.None?
    ensures r.Err? ==> r.error == NilTime
    ensures r.Ok? ==> (r.value <==> c.endsOn.value < now)
  {
    match c.endsOn
    case None => Err(NilTime)
    case Some(e) => Ok(now > e)
  }

  /** Which translated text `message` looks up. */
  datatype MessageKind = NoMessage | SuccessMessage | FailMessage | AbandonMessage

  /** `message`: empty while active, otherwise the text for the outcome. */
  function Message(c: Challenge): (m: MessageKind)
    ensures m == NoMessage <==> c.status == Active
    ensures m == SuccessMessage <==> c.status == Won
    ensures m == FailMessage <==> c.status == Lost
    ensures m == AbandonMessage <==> c.status == Canceled
  {
    match c.status
    case Active => NoMessage
    case Won => SuccessMessage
    case Lost => FailMessage
    case Canceled => AbandonMessage
  }

  /**
   * The record-level part of `Challenge#contest`: evaluates `won?` and
   * `lost?` once each. Both true is a logic error; neither leaves the record
   * alone (`Ok(None)`); otherwise the resolved record to be saved.
   */
  function Resolve(c: Challenge, d: Definition, now: Time): (r: Result<Option<Challenge>>)
    ensures r.Err? <==> d.won(c, now) && d.lost(c, now)
    ensures r.Err? ==> r.error == LogicError
    ensures r == Ok(None) <==> !d.won(c, now) && !d.lost(c, now)
    ensures r.Ok? && r.value.Some? ==>
      var c' := r.value.value;
      && c'.endsOn == Some(now)
      && c'.typeName == c.typeName && c'.user == c.user && c'.beginsOn == c.beginsOn
      && c'.cursor == c.cursor && c'.child == c.child
    ensures d.won(c, now) && !d.lost(c, now) ==>
      r.Ok? && r.value.Some? && r.value.value.status == Won
      && r.value.value.points == d.successPoints
      && r.value.value.lockedOutTill == Some(now + d.lockedOutDuration)
    ensures d.lost(c, now) && !d.won(c, now) ==>
      r.Ok? && r.value.Some? && r.value.value.status == Lost
      && r.value.value.points == c.points
      && r.value.value.lockedOutTill == Some(now)
  {
    var isWon := d.won(c, now);
    var isLost := d.lost(c, now);
    if isWon && isLost then Err(LogicError)
    else if !isWon && !isLost then Ok(None)
    else
      var ended := c.(endsOn := Some(now));
      if isLost then Ok(Some(ended.(status := Lost, lockedOutTill := ended.endsOn)))
      else Ok(Some(ended.(status := Won, points := d.successPoints,
                          lockedOutTill := Some(CalcLockedOutTill(d, now)))))
  }
}
