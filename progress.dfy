/**
 * The changes src/app.js makes to one exercise's progress and definition:
 * a rep up or down, a completed set, a restart, an edit, and a new exercise.
 * The controller in `App` applies these at an index of the exercise list.
 */
module Progress {
  import opened Records
  import Form

  /** `currentReps++`. */
  function WithRep(e: Exercise): (r: Exercise)
    ensures DefinitionOf(r) == DefinitionOf(e) && r.currentSet == e.currentSet
    ensures r.currentReps == e.currentReps + 1
  {
    e.(currentReps := e.currentReps + 1)
  }

  /** `subtractRep`: one rep fewer, but never below zero. */
  function WithoutRep(e: Exercise): (r: Exercise)
    ensures DefinitionOf(r) == DefinitionOf(e) && r.currentSet == e.currentSet
    ensures e.currentReps > 0 ==> r.currentReps == e.currentReps - 1
    ensures e.currentReps <= 0 ==> r == e
  {
    if e.currentReps > 0 then e.(currentReps := e.currentReps - 1) else e
  }

  /** `completeSet`: the next set, with no reps yet. */
  function NextSet(e: Exercise): (r: Exercise)
    ensures DefinitionOf(r) == DefinitionOf(e)
    ensures r.currentSet == e.currentSet + 1 && r.currentReps == 0
  {
    e.(currentSet := e.currentSet + 1, currentReps := 0)
  }

  /** `resetExercise`: back to the first set, with no reps. */
  function Restarted(e: Exercise): (r: Exercise)
    ensures DefinitionOf(r) == DefinitionOf(e) && Sane(r)
    ensures r.currentSet == 1 && r.currentReps == 0
  {
    e.(currentSet := 1, currentReps := 0)
  }

  /** An edit overwrites the name and the three targets, and keeps the progress. */
  function Edited(e: Exercise, d: Form.Definition): (r: Exercise)
    ensures DefinitionOf(r) == d
    ensures r.currentSet == e.currentSet && r.currentReps == e.currentReps
  {
    e.(name := d.name, targetReps := d.targetReps, targetSets := d.targetSets, holdTime := d.holdTime)
  }

  /** A new exercise starts on its first set with no reps. */
  function Created(d: Form.Definition): (r: Exercise)
    ensures DefinitionOf(r) == d && Sane(r)
    ensures r.currentSet == 1 && r.currentReps == 0
  {
    Exercise(d.name, d.targetReps, d.targetSets, d.holdTime, 1, 0)
  }

  /** After a completed set, `completeSet` starts a rest when sets remain, and logs the exercise otherwise. */
  predicate StartsRest(e: Exercise) {
    NextSet(e).currentSet <= NextSet(e).targetSets
  }

  /** Every set has been done: the card offers "Start Again" only. */
  predicate Finished(e: Exercise) {
    e.currentSet > e.targetSets
  }

  /** Progress the operations keep: a set number from 1 up and a rep count from 0 up. */
  predicate Sane(e: Exercise) {
    e.currentSet >= 1 && e.currentReps >= 0
  }

  /** What the user defined, as the form would read it. */
  function DefinitionOf(e: Exercise): Form.Definition {
    Form.Definition(e.name, e.targetReps, e.targetSets, e.holdTime)
  }

  /** Every operation keeps progress sane, and a new exercise starts sane; so the rep count never goes negative. */
  lemma OperationsKeepProgressSane(e: Exercise, d: Form.Definition)
    ensures Sane(Created(d))
    ensures Sane(e) ==> Sane(WithRep(e)) && Sane(WithoutRep(e)) && Sane(NextSet(e))
                        && Sane(Restarted(e)) && Sane(Edited(e, d))
    ensures Sane(Restarted(e))
  {
  }

  /** Taking a rep away undoes adding one, and adding one undoes taking one away when there was one. */
  lemma RepChangesUndo(e: Exercise)
    ensures e.currentReps >= 0 ==> WithoutRep(WithRep(e)) == e
    ensures e.currentReps > 0 ==> WithRep(WithoutRep(e)) == e
    ensures e.currentReps <= 0 ==> WithoutRep(e) == e
  {
  }

  /** Rep, set and restart changes leave the definition alone; an edit leaves the progress alone. */
  lemma DefinitionAndProgressSeparate(e: Exercise, d: Form.Definition)
    ensures DefinitionOf(WithRep(e)) == DefinitionOf(WithoutRep(e)) == DefinitionOf(e)
    ensures DefinitionOf(NextSet(e)) == DefinitionOf(Restarted(e)) == DefinitionOf(e)
    ensures DefinitionOf(Edited(e, d)) == d && DefinitionOf(Created(d)) == d
    ensures Edited(e, d).currentSet == e.currentSet && Edited(e, d).currentReps == e.currentReps
  {
  }

  /** The exercise after `k` completed sets in a row. */
  function Completions(e: Exercise, k: nat): Exercise
    decreases k
  {
    if k == 0 then e else Completions(NextSet(e), k - 1)
  }

  /** `k >= 1` completed sets put the exercise `k` sets further on, with no reps, and keep its definition. */
  lemma {:induction false} CompletionsAdvance(e: Exercise, k: nat)
    requires k >= 1
    ensures Completions(e, k) == e.(currentSet := e.currentSet + k, currentReps := 0)
    decreases k
  {
    if k > 1 {
      CompletionsAdvance(NextSet(e), k - 1);
    }
  }

  /**
   * From the first set, completion `j + 1` starts a rest exactly when
   * `j + 1 < targetSets`, and leaves the exercise finished exactly when
   * `j + 1 >= targetSets`: with `n >= 1` target sets the first `n - 1`
   * completions rest and the `n`-th is logged.
   */
  lemma RestsThenLogs(e: Exercise, j: nat)
    requires e.currentSet == 1
    ensures StartsRest(Completions(e, j)) <==> j + 1 < e.targetSets
    ensures Finished(Completions(e, j + 1)) <==> j + 1 >= e.targetSets
  {
    CompletionsAdvance(e, j + 1);
    if j >= 1 {
      CompletionsAdvance(e, j);
    }
  }

  /** A restarted exercise taken through all its sets is finished, and restarting it again gives the same start. */
  lemma FullCycle(e: Exercise)
    requires e.targetSets >= 1
    ensures Finished(Completions(Restarted(e), e.targetSets))
    ensures Restarted(Completions(Restarted(e), e.targetSets)) == Restarted(e)
  {
    CompletionsAdvance(Restarted(e), e.targetSets);
  }
}
