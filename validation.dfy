/**
 * src/validation.js: the ordered check of a candidate exercise definition.
 * The name is checked first, then the target reps, the target sets and the
 * hold time; the first rule that fails decides the message.
 */
module Validation {
  import opened Wrappers
  import opened JsString

  const NameError := "Please enter an exercise name"
  const RepsError := "Target reps must be at least 1"
  const SetsError := "Target sets must be at least 1"
  const HoldError := "Hold time cannot be negative"

  /** `{ valid: true }` or `{ valid: false, error }`. */
  datatype Verdict = Valid | Invalid(error: string)

  /** A name is missing when it is null/undefined or holds only whitespace. */
  predicate NameMissing(name: Option<string>) {
    name.None? || IsBlank(name.value)
  }

  /** Every rule holds. */
  predicate Acceptable(name: Option<string>, targetReps: int, targetSets: int, holdTime: int) {
    !NameMissing(name) && targetReps >= 1 && targetSets >= 1 && holdTime >= 0
  }

  /**
   * `validateExercise({name, targetReps, targetSets, holdTime})`.
   * `!name || !name.trim()` is read as "no name, or the trimmed name is empty".
   */
  function ValidateExercise(name: Option<string>, targetReps: int, targetSets: int, holdTime: int): (r: Verdict)
    ensures r.Valid? <==> Acceptable(name, targetReps, targetSets, holdTime)
    ensures r.Invalid? ==> r.error in {NameError, RepsError, SetsError, HoldError}
  {
    if name.None? || Trim(name.value) == [] then Invalid(NameError)
    else if targetReps < 1 then Invalid(RepsError)
    else if targetSets < 1 then Invalid(SetsError)
    else if holdTime < 0 then Invalid(HoldError)
    else Valid
  }

  /** One rule of the definition: whether it is broken, and the message it reports. */
  datatype Rule = Rule(broken: bool, message: string)

  /** The rules in the order they are checked. */
  function Rules(name: Option<string>, targetReps: int, targetSets: int, holdTime: int): (rs: seq<Rule>)
    ensures |rs| == 4
  {
    [ Rule(NameMissing(name), NameError),
      Rule(targetReps < 1, RepsError),
      Rule(targetSets < 1, SetsError),
      Rule(holdTime < 0, HoldError) ]
  }

  /** Reference definition of an ordered validator: the message of the first broken rule, if any. */
  function FirstBroken(rules: seq<Rule>): (m: Option<string>)
    ensures m.None? <==> forall k :: 0 <= k < |rules| ==> !rules[k].broken
    ensures m.Some? ==> exists k :: 0 <= k < |rules| && rules[k].broken && rules[k].message == m.value
                                    && forall j :: 0 <= j < k ==> !rules[j].broken
  {
    if rules == [] then None
    else if rules[0].broken then Some(rules[0].message)
    else
      var m := FirstBroken(rules[1..]);
      assert forall k :: 1 <= k < |rules| ==> rules[k] == rules[1..][k - 1];
      if m.Some? then
        var k :| 0 <= k < |rules[1..]| && rules[1..][k].broken && rules[1..][k].message == m.value
                 && forall j :: 0 <= j < k ==> !rules[1..][j].broken;
        assert rules[k + 1].broken && rules[k + 1].message == m.value;
        m
      else m
  }

  /** The validator reports exactly the first broken rule, in the order name, reps, sets, hold. */
  lemma FirstBrokenRuleDecides(name: Option<string>, targetReps: int, targetSets: int, holdTime: int)
    ensures ValidateExercise(name, targetReps, targetSets, holdTime)
            == match FirstBroken(Rules(name, targetReps, targetSets, holdTime))
               case None => Valid
               case Some(m) => Invalid(m)
  {
    var rs := Rules(name, targetReps, targetSets, holdTime);
    assert rs[1..][1..][1..][1..] == [];
    assert FirstBroken(rs) == if rs[0].broken then Some(NameError) else FirstBroken(rs[1..]);
    assert FirstBroken(rs[1..]) == if rs[1].broken then Some(RepsError) else FirstBroken(rs[1..][1..]);
    assert FirstBroken(rs[1..][1..]) == if rs[2].broken then Some(SetsError) else FirstBroken(rs[1..][1..][1..]);
    assert FirstBroken(rs[1..][1..][1..]) == if rs[3].broken then Some(HoldError) else None;
  }

  /** A rule that is broken while every earlier rule holds decides the message. */
  lemma EarliestBrokenRuleWins(name: Option<string>, targetReps: int, targetSets: int, holdTime: int, k: nat)
    requires k < 4
    requires Rules(name, targetReps, targetSets, holdTime)[k].broken
    requires forall j :: 0 <= j < k ==> !Rules(name, targetReps, targetSets, holdTime)[j].broken
    ensures ValidateExercise(name, targetReps, targetSets, holdTime)
            == Invalid(Rules(name, targetReps, targetSets, holdTime)[k].message)
  {
    var rs := Rules(name, targetReps, targetSets, holdTime);
    FirstBrokenRuleDecides(name, targetReps, targetSets, holdTime);
    var m := FirstBroken(rs);
    var k' :| 0 <= k' < |rs| && rs[k'].broken && rs[k'].message == m.value
              && forall j :: 0 <= j < k' ==> !rs[j].broken;
    assert k' == k;
  }

  /** A definition that breaks exactly one rule is rejected with that rule's message. */
  lemma SingleViolationNamesItsRule(name: Option<string>, targetReps: int, targetSets: int, holdTime: int, k: nat)
    requires k < 4
    requires forall j :: 0 <= j < 4 ==> (Rules(name, targetReps, targetSets, holdTime)[j].broken <==> j == k)
    ensures ValidateExercise(name, targetReps, targetSets, holdTime)
            == Invalid(Rules(name, targetReps, targetSets, holdTime)[k].message)
  {
    EarliestBrokenRuleWins(name, targetReps, targetSets, holdTime, k);
  }

  /** The smallest accepted values: one rep, one set, no hold. */
  lemma BoundaryValuesAccepted(name: string)
    requires !IsBlank(name)
    ensures ValidateExercise(Some(name), 1, 1, 0) == Valid
    ensures ValidateExercise(Some(name), 0, 1, 0) == Invalid(RepsError)
    ensures ValidateExercise(Some(name), 1, 0, 0) == Invalid(SetsError)
    ensures ValidateExercise(Some(name), 1, 1, -1) == Invalid(HoldError)
  {
  }
}
