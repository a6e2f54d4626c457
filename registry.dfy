/**
 * The registry of challenge classes of lib/acts_as_challenged/challenge.rb:
 * `challenge_class_names` (the class names found in a challenge folder),
 * `challenge_classes` (those not disabled), `validate_challenge_name` and
 * the class-level `disable`. The folder listing itself is given.
 */
module Registries {
  import opened Challenges

  /**
   * `defs` holds every challenge class the program defines (what
   * `constantize` can resolve); `folder` lists, in directory order, the
   * class names found in the challenge folder.
   */
  datatype Registry = Registry(defs: map<TypeName, Definition>, folder: seq<TypeName>) {

    /**
     * Every listed name and every workflow step names a defined class, and
     * a workflow step is always of a smaller nesting depth than its quest,
     * so that building and contesting child challenges terminates.
     */
    ghost predicate Valid() {
      && (forall i :: 0 <= i < |folder| ==> folder[i] in defs)
      && (forall n, w :: n in defs && w in defs[n].workflow ==>
            w in defs && defs[w].depth < defs[n].depth)
    }
  }

  /** `validate_challenge_name`: only names found in the folder, disabled or not. */
  predicate ValidateChallengeName(reg: Registry, name: TypeName)
    ensures reg.Valid() && name in ChallengeClasses(reg) ==> ValidateChallengeName(reg, name)
  {
    name in reg.folder
  }

  /** `challenge_classes`: the folder's classes without the disabled ones, in folder order. */
  function ChallengeClasses(reg: Registry): (r: seq<TypeName>)
    requires reg.Valid()
    ensures |r| <= |reg.folder|
    ensures forall n :: n in r <==> n in reg.folder && reg.defs[n].enabled
  {
    EnabledOf(reg.defs, reg.folder)
  }

  /** Keeps the names of `names` whose class is enabled, in order. */
  function EnabledOf(defs: map<TypeName, Definition>, names: seq<TypeName>): (r: seq<TypeName>)
    requires forall i :: 0 <= i < |names| ==> names[i] in defs
    ensures |r| <= |names|
    ensures forall n :: n in r <==> n in names && defs[n].enabled
  {
    if names == [] then []
    else
      var rest := EnabledOf(defs, names[1..]);
      if defs[names[0]].enabled then [names[0]] + rest else rest
  }

  /**
   * Appending a name to the folder appends it to the enabled classes when
   * it is enabled and leaves them as they were otherwise: the folder's order
   * is kept.
   */
  lemma {:induction false} EnabledOfSnoc(defs: map<TypeName, Definition>, names: seq<TypeName>, n: TypeName)
    requires forall i :: 0 <= i < |names| ==> names[i] in defs
    requires n in defs
    ensures EnabledOf(defs, names + [n]) == EnabledOf(defs, names) + (if defs[n].enabled then [n] else [])
    decreases |names|
  {
    if names == [] {
      assert names + [n] == [n];
    } else {
      assert (names + [n])[1..] == names[1..] + [n];
      EnabledOfSnoc(defs, names[1..], n);
    }
  }

  /** `disable`: sets the class's disabled flag; nothing else changes. */
  function Disable(reg: Registry, name: TypeName): (r: Registry)
    requires name in reg.defs
    ensures r.folder == reg.folder && r.defs.Keys == reg.defs.Keys
    ensures r.defs[name] == reg.defs[name].(enabled := false)
    ensures forall n :: n in reg.defs && n != name ==> r.defs[n] == reg.defs[n]
    ensures reg.Valid() ==> r.Valid()
  {
    Registry(reg.defs[name := reg.defs[name].(enabled := false)], reg.folder)
  }

  /** A disabled class is no longer among `challenge_classes`, but its name still validates. */
  lemma DisabledIsHiddenButValid(reg: Registry, name: TypeName)
    requires reg.Valid() && name in reg.folder
    ensures Disable(reg, name).Valid()
    ensures name !in ChallengeClasses(Disable(reg, name))
    ensures ValidateChallengeName(Disable(reg, name), name)
  {
  }
}
