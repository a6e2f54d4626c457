# acts_as_challenged, modelled in Dafny

`acts_as_challenged` is a Rails plugin. It gives a user *challenges*:
rows of one `challenges` table, one per accepted challenge. Each
challenge type is a subclass that says when an instance is won (`won?`) or
lost (`lost?`), how long it lasts, how long the type stays locked out
afterwards and how many points it is worth. This project models the core
life cycle of those rows:

- **Creation.** `create_from_challenge_name` validates the name, enforces
  the cap of three active challenges and refuses a locked-out type. The
  name check uses `to_s`, but the lockout test compares the argument itself
  with the locked-out type strings, so a type named by a Symbol is never
  refused as locked out. The creation then runs `create!`, where a quest's `before_create` first creates the
  child for its first workflow step.
- **Contesting.** `Challenge#contest` resolves one row to won or lost, or
  leaves it alone, and raises when both predicates hold. `Quest#contest`
  contests its current child, advances its cursor when the child returns
  truthy, and resolves itself once its workflow is finished.
  `Challenge.contest(user)` contests every active root row of the user.
  `ImplicitChallenge.contest(user)` contests a fresh, unsaved instance of
  every enabled implicit class.
- **Cancel**, the `active`/`expired`/`won`/`lost`/`canceled` scopes, `root`
  and `message`.
- **Availability** in `ActsAsChallenged::Base`: the locked-out types, the
  active types, the lockout time, the availability test, the
  `challenge_types` listing and `challenge_points`.
- **The class registry**: `challenge_class_names`, `challenge_classes`,
  `validate_challenge_name` and `disable`.

Time is an integer count of seconds, passed as the clock `now`. The table
is a value `Db`: a map from id to row, plus the next id the database hands
out. The modules are:

- `Challenges`: rows, type definitions, the per-row logic.
- `Registries`: the class registry.
- `Stores`: the table, the scopes and the frame predicates.
- `Availability`: the user-facing queries.
- `Quests`: creating and contesting rows, as functions.
- `Lifecycle`: the creation gate and the user pass.
- `Implicits`: the implicit pass.
- `Engine`: a `Store` class whose methods update the table in place, step
  by step as the Ruby code does. Each method is proved to leave exactly
  the table that the function its row in the table below names describes.
- `Scenarios`: concrete runs of the quest and availability scenarios from
  `spec/models/challenge_spec.rb`.

A subclass's `won?`/`lost?` are functions of the row and the clock, held in
a `Definition`. Every definition carries a nesting `depth`, and
`Registry.Valid` requires each workflow step to have a smaller depth than
its quest, so that building and contesting children terminates.

## Model

| member | source | states |
|---|---|---|
| Challenges.PlainDefinition | lib/acts_as_challenged/challenge.rb:313-351 | the base class's DSL defaults: 24-hour duration and lockout, 0 success points, empty workflow, begins at `now` |
| Challenges.QuestDefinition | lib/acts_as_challenged/quest.rb:24-40 | a quest is always won and never lost, and lasts 100 years |
| Challenges.ImplicitDefinition | lib/acts_as_challenged/implicit_challenge.rb:31-35 | an implicit class can never be lost |
| Challenges.CalcEndsOn | lib/acts_as_challenged/challenge.rb:345-347 | the end is the begin plus the duration; for an implicit class (implicit_challenge.rb:23-25) it is the begin itself |
| Challenges.CalcLockedOutTill | lib/acts_as_challenged/challenge.rb:326-328 | the lockout ends `locked_out_duration` after the given end |
| Challenges.NewChallenge | lib/generators/acts_as_challenged/migration/templates/active_record/migration.rb:4-16 | a new row has status active, 0 points, cursor 0 and no lockout, with the creator's type, user, dates and child |
| Challenges.Cancel | lib/acts_as_challenged/challenge.rb:138-145 | succeeds iff the row is active; the result is canceled, ends now, and is otherwise unchanged; any other status gives ForbiddenException |
| Challenges.CalcBeginsOn | lib/acts_as_challenged/challenge.rb:349-351 | the class's begin hook applied to the clock; the base class begins now |
| Challenges.FinishedWorkflow | lib/acts_as_challenged/challenge.rb:146-148 | the workflow is finished once the cursor reaches its length (as in quest.rb:42-44) |
| Challenges.Expired | lib/acts_as_challenged/challenge.rb:124-126 | true iff `ends_on` is before now; a nil `ends_on` raises |
| Challenges.Message | lib/acts_as_challenged/challenge.rb:79-90 | no message iff active; the success, fail and abandon texts iff won, lost and canceled |
| Challenges.Resolve | lib/acts_as_challenged/challenge.rb:152-180 | LogicError iff both `won?` and `lost?`; no change iff neither; otherwise ends now, and a win sets status won, the success points and the lockout `locked_out_duration` later; a loss sets status lost and locks out until now; type, user, begin, cursor and child are kept |
| Registries.ChallengeClasses | lib/acts_as_challenged/challenge.rb:262-266 | a name is listed iff it is in the folder and its class is not disabled |
| Registries.EnabledOfSnoc | lib/acts_as_challenged/challenge.rb:262-266 | a folder name appended at the end is appended to the listed classes iff its class is enabled, so the listing keeps folder order |
| Registries.ValidateChallengeName | lib/acts_as_challenged/challenge.rb:270-272 | a name validates iff its text is in the folder, whether or not its class is disabled; every class `challenge_classes` lists validates |
| Registries.Disable | lib/acts_as_challenged/challenge.rb:39-41 | the named class becomes disabled and keeps every other field; no other class and not the folder changes; a valid registry stays valid |
| Registries.DisabledIsHiddenButValid | spec/models/implicit_award_spec.rb:99-111 | after `disable`, the class is missing from `challenge_classes` but its name still passes `validate_challenge_name` (challenge.rb:270-272) |
| Stores.Insert | lib/acts_as_challenged/challenge.rb:291-296 | `create!` stores the row under the next id and changes no other row |
| Stores.Save | lib/acts_as_challenged/challenge.rb:176-178 | `save!` replaces row `id` and changes no other row or id |
| Stores.Filter | lib/acts_as_challenged/challenge.rb:216-234 | every id in a scope is a stored row of the user; a row in the active or expired scope has status active and an `ends_on` that is set and differs from now, so a nil or exactly-now `ends_on` keeps a row out of both |
| Stores.IsRoot | lib/acts_as_challenged/challenge.rb:202-206 | a row is a root iff no stored row names it as its child |
| Stores.ActiveCount | lib/acts_as_challenged/challenge.rb:283 | the number of the user's rows in the `active` scope, children included |
| Stores.ScopesAtBoundary | lib/acts_as_challenged/challenge.rb:216-222 | no row is both active and expired; a row ending exactly now, or with nil `ends_on`, is in neither; the `expired` scope agrees with `expired?` |
| Stores.CancelIsFinal | spec/models/challenge_spec.rb:426-450 | a canceled row is in the canceled scope only, shows the abandon message, and canceling it again raises |
| Stores.ActiveCountAfterAdding | lib/acts_as_challenged/challenge.rb:283 | adding rows of which only `id` can be active raises the active count by one exactly when `id` is the user's and active |
| Stores.ActiveRoots | lib/acts_as_challenged/challenge.rb:202-206 | exactly the user's active rows that no row names as child, loaded as stored, in id order |
| Availability.LockedOutChallengeTypes | lib/acts_as_challenged/base.rb:41-44 | a type is listed iff some row of the user of that type is locked out past now |
| Availability.ActiveChallengeTypes | lib/acts_as_challenged/base.rb:63-65 | a type is listed iff the user has an active row of that type |
| Availability.ChallengeLockedOut | lib/acts_as_challenged/base.rb:59-61 | a type is locked out iff some row of the user of that type is locked out past now |
| Availability.IsChallengeTypeAvailable | lib/acts_as_challenged/base.rb:18-20 | a name is available iff it is in neither the locked-out nor the active list |
| Availability.AvailableIff | lib/acts_as_challenged/base.rb:18-20 | a type is available iff no row of the user locks it out and no active row has that type |
| Availability.LockedOutChallengeTime | lib/acts_as_challenged/base.rb:46-53 | none iff the type is not locked out; otherwise a lockout instant after now, taken from a locking row and not earlier than any other |
| Availability.LockedTillIsExact | spec/models/challenge_spec.rb:183-201 | from now on, the type stays locked out exactly until the reported time |
| Availability.AvailabilityGrowsWithTime | spec/models/challenge_spec.rb:183-222 | as the clock advances, the locked-out and active type sets only shrink |
| Availability.ChallengePoints | lib/acts_as_challenged/base.rb:55-57 | the sum of `points` over the user's won rows, row by row in id order |
| Availability.SavePoints | lib/acts_as_challenged/base.rb:55-57 | saving a row changes `challenge_points` by exactly the change in that row's won points |
| Availability.InsertPoints | lib/acts_as_challenged/base.rb:55-57 | inserting a row adds its points if it is the user's and won |
| Availability.ChallengeTypes | lib/acts_as_challenged/base.rb:26-39 | one entry per enabled class, in order; available iff no row locks the type out or is active of it; `locked_till` as `locked_out_challenge_time` |
| Availability.ListedIff | lib/acts_as_challenged/base.rb:26-39 | a class is listed iff it is in the folder and not disabled |
| Quests.CreateRecord | lib/acts_as_challenged/quest.rb:57-73 | `create!` adds a new row with the given dates; a quest with a workflow first creates an undated child for step 0 with a smaller id; existing rows are untouched |
| Quests.IncrementCursor | lib/acts_as_challenged/quest.rb:75-79 | the cursor goes up by one; if the workflow is unfinished a child for the new step is created and linked; the row is saved and no other existing row changes |
| Quests.ContestLeaf | lib/acts_as_challenged/challenge.rb:152-180 | truthy iff the row resolved, and then the resolved row is saved; LogicError iff both predicates hold; otherwise the table is unchanged |
| Quests.QuestTail | lib/acts_as_challenged/quest.rb:47-54 | after the child's answer, the quest writes at most its own row and keeps every link, when contested as stored |
| Quests.Contest | lib/acts_as_challenged/quest.rb:46-55 | the table stays well formed and only grows; new rows belong to the same user and other users' rows are untouched |
| Quests.CreateQuestAddsChild | lib/acts_as_challenged/quest.rb:57-73 | creating a quest over leaf steps adds two rows: the step-0 child, then the quest, which is a root and links the child |
| Quests.CreateQuestInEmptyTable | spec/models/challenge_spec.rb:465-472 | in an empty table, creating a quest leaves two rows and the quest as the only root |
| Quests.QuestAdvancesOnTruthyChild | lib/acts_as_challenged/quest.rb:46-49 | when the child returns truthy the cursor goes up by one; before the last step the quest returns falsy with a new child of the next step's type |
| Quests.QuestHoldsOnFalsyChild | lib/acts_as_challenged/quest.rb:46-54 | when the child returns falsy an unfinished quest returns falsy and changes nothing more |
| Quests.QuestTruthyOnlyWhenFinished | lib/acts_as_challenged/quest.rb:51-53 | a quest returns truthy only when its workflow is finished, and it is then won or lost and ends now |
| Quests.LeafContestOutcome | lib/acts_as_challenged/challenge.rb:152-180 | truthy iff exactly one of `won?`/`lost?` holds; LogicError iff both; falsy with no change iff neither |
| Quests.LostChildAdvancesQuest | lib/acts_as_challenged/quest.rb:46-49 | a lost child is also truthy, so the quest advances past the lost step |
| Quests.FinishedQuestOvershoots | lib/acts_as_challenged/quest.rb:46-54 | a finished quest whose own predicates are false re-contests its last child and moves its cursor past the workflow length |
| Quests.ContestFrame | lib/acts_as_challenged/quest.rb:46-55 | a contest writes only its own row and the rows of its child chain, and every new link points at a row it created |
| Lifecycle.GateFailure | lib/acts_as_challenged/challenge.rb:279-289 | NotFound iff the name's text is not in the folder; else TooManyActive iff the active count equals 3; else LockedOut iff the name is a String whose type is locked out; no failure otherwise |
| Lifecycle.SymbolSkipsLockout | lib/acts_as_challenged/challenge.rb:287-289 | with a valid name and room under the cap, a locked-out type is refused when named by a String and admitted when named by a Symbol, because `challenge_locked_out?` (base.rb:59-61) looks the raw argument up among type strings |
| Lifecycle.CreateFromChallengeName | lib/acts_as_challenged/challenge.rb:278-298 | fails iff the gate fails, with the gate's error and no new row; otherwise one new active row of the named type, String or Symbol, dated by `calc_begins_on`/`calc_ends_on`, with existing rows untouched |
| Lifecycle.CreateCountsOne | lib/acts_as_challenged/challenge.rb:278-298 | a successful creation raises the user's active count by one exactly when the new row ends after now |
| Lifecycle.CapHolds | lib/acts_as_challenged/challenge.rb:283-285 | starting from at most 3 active rows, a creation never leaves more than 3 |
| Lifecycle.CapIsEquality | lib/acts_as_challenged/challenge.rb:283 | the cap is tested with `==`: a user who already has more than 3 active rows is admitted again |
| Lifecycle.ContestAll | lib/acts_as_challenged/challenge.rb:304-306 | contests the loaded rows in order; an exception ends the pass with what was saved so far; other users' rows are untouched |
| Lifecycle.ContestUser | lib/acts_as_challenged/challenge.rb:303-307 | contests the user's active roots as loaded; only the user's rows change or are added |
| Lifecycle.FailureEndsPass | lib/acts_as_challenged/challenge.rb:304-306 | once a contest raises, the rest of the rows are not contested |
| Lifecycle.ContestAllFrame | lib/acts_as_challenged/challenge.rb:304-306 | every root outside the contested rows keeps its stored value, and every new link points at a new row |
| Lifecycle.ContestUserLeavesOtherRoots | lib/acts_as_challenged/challenge.rb:303-307 | a root that is not an active root of the user is left unchanged by the user pass |
| Implicits.Transient | lib/acts_as_challenged/implicit_challenge.rb:39-43 | the instance built for the pass is a new row of the class with nil dates and no child |
| Implicits.ContestTransient | lib/acts_as_challenged/implicit_challenge.rb:44 | a quest class raises; otherwise truthy iff the instance resolved, and the resolved instance is then inserted as a new row; nothing is written otherwise |
| Implicits.ContestClasses | lib/acts_as_challenged/implicit_challenge.rb:38-45 | the table stays well formed and only grows; existing rows are untouched |
| Implicits.ContestImplicit | lib/acts_as_challenged/implicit_challenge.rb:37-46 | the pass over the enabled classes only adds rows |
| Implicits.FailureEndsClassPass | lib/acts_as_challenged/implicit_challenge.rb:38-45 | once a class raises, the remaining classes are not contested |
| Implicits.Award | lib/acts_as_challenged/challenge.rb:161-174 | a won transient instance is saved won, with the class's points, ending now, locked out for the lockout duration, undated begin |
| Implicits.WonClasses | lib/acts_as_challenged/implicit_challenge.rb:38-45 | a class is listed iff it is among the contested classes and its `won?` holds |
| Implicits.WonClassesSnoc | lib/acts_as_challenged/implicit_challenge.rb:38-45 | a class contested last is listed last iff its transient instance is won, so the won classes keep class order |
| Implicits.TransientStep | lib/acts_as_challenged/implicit_challenge.rb:44 | for an implicit class the contest is truthy iff `won?`; the award row is inserted then, and the points grow by the class's success points |
| Implicits.ImplicitPassAwards | lib/acts_as_challenged/implicit_challenge.rb:37-46 | a pass over implicit classes never raises and appends one award row per won class, in class order, and nothing else |
| Implicits.ImplicitPassPoints | spec/models/implicit_award_spec.rb:57-72 | `challenge_points` grow by exactly the success points of the classes won in the pass |
| Implicits.ImplicitPassWithoutWin | spec/models/implicit_award_spec.rb:57-66 | a pass in which no class is won leaves the table as it was |
| Implicits.OnlyEnabledClassesAwarded | spec/models/implicit_award_spec.rb:99-111 | every row a pass adds is of a class in the folder that is not disabled |
| Implicits.ImplicitAwardsNeverActive | spec/models/implicit_award_spec.rb:74-76 | every row a pass adds is won, so it is never in the `active` scope |
| Engine.Store.constructor | lib/generators/acts_as_challenged/migration/templates/active_record/migration.rb:4-16 | an empty table |
| Engine.Store.InsertRow | lib/acts_as_challenged/challenge.rb:291-296 | the row is stored under the next id, as `Stores.Insert` |
| Engine.Store.SaveRow | lib/acts_as_challenged/challenge.rb:176-178 | row `id` is replaced, as `Stores.Save` |
| Engine.Store.Cancel | lib/acts_as_challenged/challenge.rb:138-145 | an active row is saved as `Challenges.Cancel` gives it; any other status returns ForbiddenException and leaves the table unchanged |
| Engine.Store.CreateRecord | lib/acts_as_challenged/quest.rb:57-73 | the table and id are those of `Quests.CreateRecord` |
| Engine.Store.IncrementCursor | lib/acts_as_challenged/quest.rb:75-79 | the row and table are those of `Quests.IncrementCursor` |
| Engine.Store.Decide | lib/acts_as_challenged/challenge.rb:152-175 | the field-by-field assignments give exactly `Challenges.Resolve` |
| Engine.Store.ContestLeaf | lib/acts_as_challenged/challenge.rb:152-180 | the answer and table are those of `Quests.ContestLeaf` |
| Engine.Store.Contest | lib/acts_as_challenged/quest.rb:46-55 | the answer and table are those of `Quests.Contest` |
| Engine.Store.CreateFromChallengeName | lib/acts_as_challenged/challenge.rb:278-298 | succeeds iff `Lifecycle.CreateFromChallengeName` does, with its table and id; on failure returns its error and leaves the table unchanged |
| Engine.Store.ContestUser | lib/acts_as_challenged/challenge.rb:303-307 | the loop gives the failure and table of `Lifecycle.ContestUser` |
| Engine.Store.ContestNew | lib/acts_as_challenged/implicit_challenge.rb:39-44 | the answer and table are those of `Implicits.ContestTransient` |
| Engine.Store.ContestImplicit | lib/acts_as_challenged/implicit_challenge.rb:37-46 | the loop gives the failure and table of `Implicits.ContestImplicit` |
| Scenarios.TimelineAtStart | spec/models/challenge_spec.rb:157-180 | with rows A, B (locked 2 h), C (locked 72 h) and D (active 2 weeks): B and C locked out until those times, D active, only A offered |
| Scenarios.TimelineAfter45Hours | spec/models/challenge_spec.rb:183-194 | 45 hours on: only C is locked, for 27 more hours; A and B are offered |
| Scenarios.TimelineAfter145Hours | spec/models/challenge_spec.rb:197-208 | 100 hours later: nothing is locked, and everything but the active D is offered |
| Scenarios.TimelineAfterTwoMoreWeeks | spec/models/challenge_spec.rb:211-220 | two weeks later: nothing is locked or active, and all four types are offered |
| Scenarios.GateOpenOnEmpty | spec/models/challenge_spec.rb:456-458 | creating `QuestTest0` for a user with no rows passes the gate, whether it is named by the Symbol the test passes or by a String |
| Scenarios.QuestDates | spec/models/challenge_spec.rb:461-463 | the quest begins now and ends 100 years later |
| Scenarios.QuestCreation | spec/models/challenge_spec.rb:465-472 | `create!` of the quest in an empty table gives the step-0 child as row 0 and the quest as row 1 |
| Scenarios.SimpleWins | spec/models/challenge_spec.rb:474-479 | contesting a step row wins it for 5 points and saves it |
| Scenarios.QuestAdvances | spec/models/challenge_spec.rb:479-489 | before the last step, a won child moves the quest to the next step with a fresh child |
| Scenarios.QuestCompletes | spec/models/challenge_spec.rb:491-495 | at the last step, the won child finishes the workflow and the quest is won for 101 points |
| Scenarios.QuestRoots | spec/models/challenge_spec.rb:475-493 | before the last pass the quest is the one active root; afterwards there is none |
| Scenarios.QuestPassAdvances | spec/models/challenge_spec.rb:479-489 | each of the first two user passes leaves the next table of the scenario |
| Scenarios.QuestPassCompletes | spec/models/challenge_spec.rb:491 | the third user pass completes the quest |
| Scenarios.QuestFinished | spec/models/challenge_spec.rb:493-495 | after the third pass: no active root, all four rows won, and 3 × 5 + 101 points |

## Left out

- Persistence is a map from id to row. The real database, squeel queries, `reload`, validations and partial saves are not modelled.
- `api_accessible`, the I18n names, descriptions, categories and message texts are not modelled. `message` returns which text is looked up, not the text.
- Class discovery from the folder (`Dir[challenge_glob]`, `classify`, `constantize`) is not modelled. The registry's folder list is given.
- `logs`, `owned_by?`, `ago` and the `previous_*_challenges` queries are not part of the core and are not modelled.
- Durations are whole seconds and a year is 365.25 days. Calendar arithmetic is not modelled.
- The clock is the parameter `now`. The test suite's time helper (spec/support/time_helper.rb) is not part of this model.
- Type matching (`=~` in base.rb:47) is modelled as equality of type names.
- Concurrency between requests is not modelled.
- Quest nesting needs a `depth` that decreases along workflows. Ruby would recurse forever on a quest that contains itself, and the model does not cover that case.
- Engine.Store.Cancel: the model saves the canceled row. Ruby's `cancel` only changes the in-memory object and leaves the `save!` to the caller.
- Availability.LockedOutChallengeTime: returns the latest lockout instant among the locking rows. Ruby returns the first row the database gives, which is that instant only when one row locks the type.
- `won?` and `lost?` are pure functions of the row and the clock. A predicate with side effects, such as the counting `won?` in spec/models/implicit_award_spec.rb:32-35, is not modelled, so that test is covered only through Implicits.ImplicitPassPoints and Implicits.ImplicitPassWithoutWin.
- The cap counts all of the user's active rows, not only roots, and compares with `==`, as the code does. A design that counts active roots with `<` would differ (see Lifecycle.CapIsEquality).
- `Challenge.contest(user)` visits the user's active roots in id order. Ruby's `active.root.all.each` has no ORDER BY, so the database decides the order; it matters only for which roots were contested before an exception.
- An exception in one root's contest ends the rest of `Challenge.contest(user)`, as Ruby's `each` does. A design in which the engine goes on with the remaining roots would differ (see Lifecycle.FailureEndsPass).
- The quest scenario proves the gate (Scenarios.GateOpenOnEmpty) and `create!` (Scenarios.QuestCreation) separately, not as one call of `create_from_challenge_name`.
