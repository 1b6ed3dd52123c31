/**
 * src/app.js: the single-file build's controller. It keeps the exercise
 * list, the history, the history-editing flag, the index being edited, the
 * two timer maps and the screen wake lock, and every handler changes them
 * in place and saves what it changed.
 *
 * The inline hold and rest timers behave like those of src/timers.js, so
 * the two maps are a `TimerCoordinator`; what app.js adds on top is the
 * progress update when a hold completes and the wake-lock bookkeeping.
 * Saves are taken to succeed, so storage always equals the live list.
 * Whether the browser grants a wake lock, the answer to `confirm()` and the
 * clock are parameters. A handler that reads a missing exercise throws a
 * `TypeError` in the source; the model stops there, with what the handler
 * had already done kept.
 */
module App {
  import opened Wrappers
  import opened Records
  import opened Progress
  import Form
  import Timers
  import Constants

  class Session {
    var exercises: seq<Exercise>
    var history: seq<HistoryEntry>
    var editingHistory: bool
    /** The exercise the modal is editing, `None` (`null`) when it adds one. */
    var editingIndex: Option<int>
    /** Whether the `wakeLock` variable refers to a sentinel. */
    var wakeLock: bool
    /**
     * Sentinels granted and not yet released. A second grant overwrites the
     * variable without releasing the first, so this can exceed one, and
     * stay above zero after the variable was released and cleared.
     */
    var sentinels: nat
    /** `timers` and `holdTimers`, and the callbacks the host still holds for them. */
    const timers: Timers.TimerCoordinator

    ghost var storedExercises: seq<Exercise>
    ghost var storedHistory: seq<HistoryEntry>

    ghost predicate Valid()
      reads this, timers
    {
      timers.Valid() && storedExercises == exercises && storedHistory == history && SentinelsCounted()
    }

    /** The sentinel the variable refers to is among the live ones. */
    predicate SentinelsCounted()
      reads this
    {
      wakeLock ==> sentinels > 0
    }

    /** Whether exercise `index` exists; a handler reading one that does not throws. */
    predicate Exists(index: int)
      reads this
    {
      0 <= index < |exercises|
    }

    /**
     * Page load: the stored lists, or empty ones when nothing is stored
     * (`None`); no timers, no wake lock, nothing being edited.
     */
    constructor (stored: Option<seq<Exercise>>, storedLog: Option<seq<HistoryEntry>>)
      ensures Valid() && fresh(timers)
      ensures exercises == stored.GetOr([]) && history == storedLog.GetOr([])
      ensures !editingHistory && editingIndex == None && !wakeLock && sentinels == 0
      ensures timers.rest == map[] && timers.hold == map[] && timers.jobs == map[] && timers.nextId == 1
    {
      exercises := stored.GetOr([]);
      history := storedLog.GetOr([]);
      editingHistory := false;
      editingIndex := None;
      wakeLock := false;
      sentinels := 0;
      timers := new Timers.TimerCoordinator();
      storedExercises := stored.GetOr([]);
      storedHistory := storedLog.GetOr([]);
    }

    // -------------------------------------------------------------------
    // Wake lock

    /**
     * `requestWakeLock()`: a granted request stores a new sentinel in the
     * variable, over any it held; a refused one (or no API) changes nothing.
     */
    method RequestWakeLock(granted: bool)
      modifies this`wakeLock, this`sentinels
      ensures wakeLock == (old(wakeLock) || granted)
      ensures sentinels == old(sentinels) + (if granted then 1 else 0)
    {
      if granted {
        wakeLock := true;
        sentinels := sentinels + 1;
      }
    }

    /** `releaseWakeLock()`: releases the sentinel the variable refers to, and only that one. */
    method ReleaseWakeLock()
      requires SentinelsCounted()
      modifies this`wakeLock, this`sentinels
      ensures !wakeLock
      ensures sentinels == old(sentinels) - (if old(wakeLock) then 1 else 0)
    {
      if wakeLock {
        sentinels := sentinels - 1;
        wakeLock := false;
      }
    }

    /** The `visibilitychange` handler: back in view with a timer running, the lock is requested again. */
    method OnVisibilityChange(visible: bool, granted: bool)
      modifies this`wakeLock, this`sentinels
      ensures wakeLock == (old(wakeLock) || (visible && timers.HasActiveTimers() && granted))
      ensures sentinels == old(sentinels) + (if visible && timers.HasActiveTimers() && granted then 1 else 0)
    {
      if visible && timers.HasActiveTimers() {
        RequestWakeLock(granted);
      }
    }

    // -------------------------------------------------------------------
    // History

    /** `logCompletion(name)`: the entry goes first and the log is cut to its cap; the flag stays, as the log is not empty. */
    method LogCompletion(name: string, now: int)
      requires Valid()
      modifies this`history, this`storedHistory
      ensures Valid()
      ensures history == Logged(old(history), HistoryEntry(name, now))
    {
      history := [HistoryEntry(name, now)] + history;
      if |history| > Constants.MaxHistoryEntries {
        history := history[..Constants.MaxHistoryEntries];
      }
      storedHistory := history;
    }

    /** `toggleEditHistory()`, then the reset `renderHistory` applies when the log is empty. */
    method ToggleEditHistory()
      modifies this`editingHistory
      ensures editingHistory == (!old(editingHistory) && history != [])
    {
      editingHistory := !editingHistory;
      if |history| == 0 {
        editingHistory := false;
      }
    }

    /** `clearHistory()`: only when confirmed; the log empties and editing stops. */
    method ClearHistory(confirmed: bool)
      requires Valid()
      modifies this`history, this`storedHistory, this`editingHistory
      ensures Valid()
      ensures confirmed ==> history == [] && !editingHistory
      ensures !confirmed ==> history == old(history) && editingHistory == old(editingHistory)
    {
      if confirmed {
        history := [];
        editingHistory := false;
        storedHistory := history;
      }
    }

    /** `deleteHistoryEntry(index)`: only when confirmed; editing stops once the log is empty. */
    method DeleteHistoryEntry(index: int, confirmed: bool)
      requires Valid()
      modifies this`history, this`storedHistory, this`editingHistory
      ensures Valid()
      ensures confirmed ==> history == SpliceOne(old(history), index)
                            && editingHistory == (old(editingHistory) && history != [])
      ensures !confirmed ==> history == old(history) && editingHistory == old(editingHistory)
    {
      if confirmed {
        history := SpliceOne(history, index);
        storedHistory := history;
        if |history| == 0 {
          editingHistory := false;
        }
      }
    }

    // -------------------------------------------------------------------
    // The exercise form

    /** The state `showModal(index)` sets: which exercise the form edits (`None` to add one). */
    method ShowModal(index: Option<int>)
      modifies this`editingIndex
      ensures editingIndex == index
    {
      editingIndex := index;
    }

    /** The state `hideModal()` resets. */
    method HideModal()
      modifies this`editingIndex
      ensures editingIndex == None
    {
      editingIndex := None;
    }

    /**
     * The body of `saveExercise()` once the form is read: nothing without a
     * name. Editing overwrites the definition of the exercise being edited
     * (a missing one throws before any change); adding appends a new
     * exercise. Then the form closes.
     */
    method SaveDefinition(d: Form.Definition) returns (saved: bool)
      requires Valid()
      modifies this`exercises, this`storedExercises, this`editingIndex
      ensures Valid()
      ensures saved <==> d.name != [] && (old(editingIndex).Some? ==> old(Exists(editingIndex.value)))
      ensures saved && old(editingIndex).None? ==> exercises == old(exercises) + [Created(d)]
      ensures saved && old(editingIndex).Some? ==>
                exercises == old(exercises)[old(editingIndex).value := Edited(old(exercises)[old(editingIndex).value], d)]
      ensures saved ==> editingIndex == None
      ensures !saved ==> exercises == old(exercises) && editingIndex == old(editingIndex)
    {
      if d.name == [] {
        return false;
      }
      if editingIndex.Some? {
        var i := editingIndex.value;
        if !(0 <= i < |exercises|) {
          return false;
        }
        exercises := exercises[i := Edited(exercises[i], d)];
      } else {
        exercises := exercises + [Created(d)];
      }
      storedExercises := exercises;
      editingIndex := None;
      saved := true;
    }

    /** `saveExercise()`: reads the form (trimmed name, defaulted numbers) and saves what it read. */
    method SaveExercise(fields: Form.Fields) returns (saved: bool, d: Form.Definition)
      requires Valid()
      modifies this`exercises, this`storedExercises, this`editingIndex
      ensures Valid()
      ensures d == Form.ReadForm(fields)
      ensures saved <==> d.name != [] && (old(editingIndex).Some? ==> old(Exists(editingIndex.value)))
      ensures saved && old(editingIndex).None? ==> exercises == old(exercises) + [Created(d)]
      ensures saved && old(editingIndex).Some? ==>
                exercises == old(exercises)[old(editingIndex).value := Edited(old(exercises)[old(editingIndex).value], d)]
      ensures saved ==> editingIndex == None
      ensures !saved ==> exercises == old(exercises) && editingIndex == old(editingIndex)
    {
      d := Form.ReadForm(fields);
      saved := SaveDefinition(d);
    }

    // -------------------------------------------------------------------
    // Reps and sets

    /**
     * `startHoldTimer(index)`: nothing when a hold record exists; otherwise
     * the countdown of the exercise's hold time is started, with the chime,
     * and the wake lock is requested.
     */
    method StartHoldTimer(index: int, granted: bool) returns (chime: bool)
      requires Valid()
      modifies this`wakeLock, this`sentinels, timers
      ensures Valid()
      ensures chime <==> !old(timers.IsHolding(index)) && Exists(index)
      ensures chime ==> && timers.hold == old(timers.hold)[index := Timers.Placeholder]
                        && timers.jobs == old(timers.jobs)[old(timers.nextId) := Timers.ArmHold(index, exercises[index].holdTime)]
                        && timers.nextId == old(timers.nextId) + 1
                        && wakeLock == (old(wakeLock) || granted)
                        && sentinels == old(sentinels) + (if granted then 1 else 0)
      ensures !chime ==> && timers.hold == old(timers.hold) && timers.jobs == old(timers.jobs)
                         && timers.nextId == old(timers.nextId) && wakeLock == old(wakeLock)
                         && sentinels == old(sentinels)
      ensures timers.rest == old(timers.rest)
    {
      if timers.IsHolding(index) || !(0 <= index < |exercises|) {
        return false;
      }
      chime := timers.StartHold(index, exercises[index].holdTime);
      RequestWakeLock(granted);
    }

    /** `addRep(index)`: an exercise with a hold starts its hold; any other gains one rep. */
    method AddRep(index: int, granted: bool) returns (chime: bool)
      requires Valid()
      modifies this, timers
      ensures Valid()
      ensures timers.rest == old(timers.rest) && history == old(history)
      ensures !old(Exists(index)) ==> && exercises == old(exercises) && !chime
                                      && wakeLock == old(wakeLock) && sentinels == old(sentinels)
                                      && timers.hold == old(timers.hold) && timers.jobs == old(timers.jobs)
                                      && timers.nextId == old(timers.nextId)
      ensures old(Exists(index)) && old(exercises[index]).holdTime > 0 ==>
                && exercises == old(exercises)
                && (chime <==> !old(timers.IsHolding(index)))
                && timers.IsHolding(index)
                && (chime ==> && timers.hold == old(timers.hold)[index := Timers.Placeholder]
                              && timers.jobs == old(timers.jobs)[old(timers.nextId) := Timers.ArmHold(index, old(exercises[index]).holdTime)]
                              && timers.nextId == old(timers.nextId) + 1
                              && wakeLock == (old(wakeLock) || granted)
                              && sentinels == old(sentinels) + (if granted then 1 else 0))
                && (!chime ==> && timers.hold == old(timers.hold) && timers.jobs == old(timers.jobs)
                               && timers.nextId == old(timers.nextId)
                               && wakeLock == old(wakeLock) && sentinels == old(sentinels))
      ensures old(Exists(index)) && old(exercises[index]).holdTime <= 0 ==>
                exercises == old(exercises)[index := WithRep(old(exercises)[index])]
                && !chime && timers.hold == old(timers.hold) && timers.jobs == old(timers.jobs)
                && timers.nextId == old(timers.nextId)
                && wakeLock == old(wakeLock) && sentinels == old(sentinels)
      ensures editingIndex == old(editingIndex) && editingHistory == old(editingHistory)
    {
      if !(0 <= index < |exercises|) {
        return false;
      }
      if exercises[index].holdTime > 0 {
        chime := StartHoldTimer(index, granted);
      } else {
        exercises := exercises[index := WithRep(exercises[index])];
        storedExercises := exercises;
        chime := false;
      }
    }

    /** The hold's arming callback, as `Timers.TimerCoordinator.Arm`. */
    method ArmHold(id: nat, displayPresent: bool) returns (shown: Option<int>)
      requires Valid() && id in timers.jobs && timers.jobs[id].ArmHold?
      modifies timers
      ensures Valid()
      ensures var job := old(timers.jobs[id]);
              && (shown.Some? <==> displayPresent)
              && (displayPresent ==>
                    && shown.value == job.seconds
                    && timers.hold == old(timers.hold)[job.index := Timers.Interval(old(timers.nextId))]
                    && timers.jobs == (old(timers.jobs) - {id})[old(timers.nextId) := Timers.HoldTick(job.index, job.seconds)]
                    && timers.nextId == old(timers.nextId) + 1)
              && (!displayPresent ==> && timers.hold == old(timers.hold) - {job.index} && timers.jobs == old(timers.jobs) - {id}
                                      && timers.nextId == old(timers.nextId))
      ensures timers.rest == old(timers.rest)
    {
      shown := timers.Arm(id, displayPresent);
    }

    /**
     * One tick of a hold interval. On completion the hold's exercise gains
     * a rep and the bell rings; the sentinel the variable refers to is
     * released when no timer is left. When the index no longer names an
     * exercise the rep update throws, after the records were cleared and
     * before the bell.
     */
    method TickHold(id: nat) returns (shown: int, bell: bool)
      requires Valid() && id in timers.jobs && timers.jobs[id].HoldTick?
      modifies this`exercises, this`storedExercises, this`wakeLock, this`sentinels, timers
      ensures Valid()
      ensures var job := old(timers.jobs[id]);
              && shown == job.seconds - 1
              && (bell <==> job.seconds - 1 <= 0 && old(Exists(job.index)))
              && (bell ==> exercises == old(exercises)[job.index := WithRep(old(exercises)[job.index])]
                           && wakeLock == (old(wakeLock) && timers.HasActiveTimers())
                           && sentinels == old(sentinels) - (if old(wakeLock) && !timers.HasActiveTimers() then 1 else 0))
              && (!bell ==> exercises == old(exercises) && wakeLock == old(wakeLock) && sentinels == old(sentinels))
              && (job.seconds - 1 > 0 ==>
                    && timers.hold == old(timers.hold)
                    && timers.jobs == old(timers.jobs)[id := Timers.HoldTick(job.index, job.seconds - 1)])
              && (job.seconds - 1 <= 0 ==>
                    && timers.hold == old(timers.hold) - {job.index}
                    && timers.jobs == old(timers.jobs)[id := Timers.HoldTick(job.index, job.seconds - 1)]
                                      - Timers.HoldIntervalOf(old(timers.hold), job.index))
      ensures history == old(history) && timers.rest == old(timers.rest) && timers.nextId == old(timers.nextId)
    {
      var index := timers.jobs[id].index;
      var completed;
      shown, completed := timers.TickHold(id);
      bell := false;
      if completed && 0 <= index < |exercises| {
        exercises := exercises[index := WithRep(exercises[index])];
        storedExercises := exercises;
        bell := true;
        if !timers.HasActiveTimers() {
          ReleaseWakeLock();
        }
      }
    }

    /** `subtractRep(index)`: one rep fewer when there is one. */
    method SubtractRep(index: int)
      requires Valid()
      modifies this`exercises, this`storedExercises
      ensures Valid()
      ensures old(Exists(index)) ==> exercises == old(exercises)[index := WithoutRep(old(exercises)[index])]
      ensures !old(Exists(index)) ==> exercises == old(exercises)
    {
      if 0 <= index < |exercises| && exercises[index].currentReps > 0 {
        exercises := exercises[index := WithoutRep(exercises[index])];
        storedExercises := exercises;
      }
    }

    /** `startRestTimer(index)`: as `Timers.TimerCoordinator.StartRest`, then the wake-lock request once the timer is shown. */
    method StartRestTimer(index: int, elementsPresent: bool, granted: bool) returns (started: bool)
      requires Valid()
      modifies this`wakeLock, this`sentinels, timers
      ensures Valid()
      ensures started == elementsPresent
      ensures started ==> && timers.rest == old(timers.rest)[index := old(timers.nextId)]
                          && timers.jobs == (old(timers.jobs) - Timers.RestIntervalOf(old(timers.rest), index))
                                              [old(timers.nextId) := Timers.RestTick(index, Constants.RestTimerSeconds)]
                          && timers.nextId == old(timers.nextId) + 1
                          && wakeLock == (old(wakeLock) || granted)
                          && sentinels == old(sentinels) + (if granted then 1 else 0)
      ensures !started ==> && timers.rest == old(timers.rest) && wakeLock == old(wakeLock)
                           && timers.nextId == old(timers.nextId)
                           && sentinels == old(sentinels)
                           && timers.jobs == old(timers.jobs) - Timers.RestIntervalOf(old(timers.rest), index)
      ensures timers.hold == old(timers.hold)
    {
      started := timers.StartRest(index, elementsPresent);
      if started {
        RequestWakeLock(granted);
      }
    }

    /**
     * `completeSet(index)`: the next set with no reps; then a rest when sets
     * remain, and otherwise the exercise is logged. The rest display exists,
     * as the card was just drawn for a set still to do.
     */
    method CompleteSet(index: int, granted: bool, now: int) returns (rested: bool, logged: bool)
      requires Valid()
      modifies this`exercises, this`storedExercises, this`history, this`storedHistory, this`wakeLock, this`sentinels, timers
      ensures Valid()
      ensures !old(Exists(index)) ==> && exercises == old(exercises) && history == old(history) && !rested && !logged
                                      && wakeLock == old(wakeLock) && sentinels == old(sentinels)
                                      && timers.rest == old(timers.rest) && timers.jobs == old(timers.jobs)
                                      && timers.nextId == old(timers.nextId)
      ensures old(Exists(index)) ==>
                var e := old(exercises[index]);
                && exercises == old(exercises)[index := NextSet(e)]
                && (rested <==> StartsRest(e))
                && (logged <==> !StartsRest(e))
                && (rested ==> && history == old(history)
                               && timers.rest == old(timers.rest)[index := old(timers.nextId)]
                               && timers.jobs == (old(timers.jobs) - Timers.RestIntervalOf(old(timers.rest), index))
                                                   [old(timers.nextId) := Timers.RestTick(index, Constants.RestTimerSeconds)]
                               && timers.nextId == old(timers.nextId) + 1
                               && wakeLock == (old(wakeLock) || granted)
                               && sentinels == old(sentinels) + (if granted then 1 else 0))
                && (logged ==> && history == Logged(old(history), HistoryEntry(e.name, now))
                               && timers.rest == old(timers.rest) && timers.jobs == old(timers.jobs)
                               && timers.nextId == old(timers.nextId)
                               && wakeLock == old(wakeLock) && sentinels == old(sentinels))
      ensures timers.hold == old(timers.hold)
    {
      rested, logged := false, false;
      if !(0 <= index < |exercises|) {
        return;
      }
      exercises := exercises[index := NextSet(exercises[index])];
      storedExercises := exercises;
      if exercises[index].currentSet <= exercises[index].targetSets {
        rested := StartRestTimer(index, true, granted);
      } else {
        LogCompletion(exercises[index].name, now);
        logged := true;
      }
    }

    /**
     * One tick of a rest interval; on completion the bell rings and, when
     * no timer is left, the sentinel the variable refers to is released.
     */
    method TickRest(id: nat) returns (shown: int, bell: bool)
      requires Valid() && id in timers.jobs && timers.jobs[id].RestTick?
      modifies this`wakeLock, this`sentinels, timers
      ensures Valid()
      ensures var job := old(timers.jobs[id]);
              && shown == job.seconds
              && (bell <==> job.seconds <= 0)
              && (bell ==> && wakeLock == (old(wakeLock) && timers.HasActiveTimers())
                           && sentinels == old(sentinels) - (if old(wakeLock) && !timers.HasActiveTimers() then 1 else 0)
                           && timers.rest == old(timers.rest) - {job.index} && timers.jobs == old(timers.jobs) - {id})
              && (!bell ==> && wakeLock == old(wakeLock) && sentinels == old(sentinels) && timers.rest == old(timers.rest)
                            && timers.jobs == old(timers.jobs)[id := Timers.RestTick(job.index, job.seconds - 1)])
      ensures timers.hold == old(timers.hold) && timers.nextId == old(timers.nextId)
    {
      shown, bell := timers.TickRest(id);
      if bell && !timers.HasActiveTimers() {
        ReleaseWakeLock();
      }
    }

    /** `resetExercise(index)`: back to the first set with no reps, and the exercise's timers stop; the wake lock is left as it is. */
    method ResetExercise(index: int)
      requires Valid()
      modifies this`exercises, this`storedExercises, timers
      ensures Valid()
      ensures old(Exists(index)) ==>
                && exercises == old(exercises)[index := Restarted(old(exercises)[index])]
                && timers.rest == old(timers.rest) - {index} && timers.hold == old(timers.hold) - {index}
                && timers.jobs == old(timers.jobs) - Timers.RestIntervalOf(old(timers.rest), index)
                                                   - Timers.HoldIntervalOf(old(timers.hold), index)
      ensures !old(Exists(index)) ==>
                && exercises == old(exercises) && timers.rest == old(timers.rest) && timers.hold == old(timers.hold)
                && timers.jobs == old(timers.jobs)
      ensures timers.nextId == old(timers.nextId)
    {
      if !(0 <= index < |exercises|) {
        return;
      }
      exercises := exercises[index := Restarted(exercises[index])];
      timers.ClearTimer(index);
      storedExercises := exercises;
    }

    /**
     * `removeExercise(index)`: only when confirmed; its timers stop and it
     * is spliced out. Timers of later exercises keep their index, which now
     * names the exercise after theirs.
     */
    method RemoveExercise(index: int, confirmed: bool)
      requires Valid()
      modifies this`exercises, this`storedExercises, timers
      ensures Valid()
      ensures confirmed ==> && exercises == SpliceOne(old(exercises), index)
                            && timers.rest == old(timers.rest) - {index}
                            && timers.hold == old(timers.hold) - {index}
                            && timers.jobs == old(timers.jobs) - Timers.RestIntervalOf(old(timers.rest), index)
                                                               - Timers.HoldIntervalOf(old(timers.hold), index)
      ensures !confirmed ==> exercises == old(exercises) && timers.rest == old(timers.rest)
                             && timers.hold == old(timers.hold) && timers.jobs == old(timers.jobs)
      ensures timers.nextId == old(timers.nextId)
    {
      if confirmed {
        timers.ClearTimer(index);
        exercises := SpliceOne(exercises, index);
        storedExercises := exercises;
      }
    }
  }

  /** Three exercises; the middle one has a one-second hold. */
  function ThreeExercises(): seq<Exercise> {
    [Exercise("A", 10, 3, 0, 1, 0), Exercise("B", 10, 3, 1, 1, 0), Exercise("C", 10, 3, 0, 1, 0)]
  }

  /** B's hold is started and armed: its countdown runs as job 2 under index 1. */
  method HoldOnB() returns (s: Session)
    ensures fresh(s) && fresh(s.timers) && s.Valid()
    ensures s.exercises == ThreeExercises()
    ensures s.timers.jobs == map[2 := Timers.HoldTick(1, 1)] && s.timers.hold == map[1 := Timers.Interval(2)]
  {
    s := new Session(Some(ThreeExercises()), None);
    var chime := s.AddRep(1, true);
    assert s.timers.jobs == map[1 := Timers.ArmHold(1, 1)];
    var shown := s.ArmHold(1, true);
  }

  /**
   * Removing A while B holds: the hold keeps index 1, which now names C,
   * so when it completes C gains the rep and B does not.
   */
  method RemovalRedirectsHoldCredit() returns (after: seq<Exercise>, bell: bool)
    ensures bell && |after| == 2
    ensures after[0].name == "B" && after[0].currentReps == 0
    ensures after[1].name == "C" && after[1].currentReps == 1
  {
    var s := HoldOnB();
    s.RemoveExercise(0, true);
    assert s.exercises == ThreeExercises()[1..];
    var shown;
    shown, bell := s.TickHold(2);
    after := s.exercises;
  }

  /** Resetting an exercise during its rest stops the timer but keeps the screen awake. */
  method ResetLeavesWakeLockHeld() returns (held: bool, running: bool)
    ensures held && !running
  {
    var s := new Session(Some([Exercise("A", 10, 3, 0, 1, 0)]), None);
    var rested, logged := s.CompleteSet(0, true, 0);
    s.ResetExercise(0);
    held, running := s.wakeLock, s.timers.HasActiveTimers();
  }

  /** A Plank of one 30-second rep per set, its hold started and armed (job 2) with the wake lock granted. */
  method PlankArmed() returns (s: Session)
    ensures fresh(s) && fresh(s.timers) && s.Valid()
    ensures s.exercises == [Exercise("Plank", 1, 3, 30, 1, 0)] && s.wakeLock && s.sentinels == 1
    ensures s.timers.jobs == map[2 := Timers.HoldTick(0, 30)] && s.timers.hold == map[0 := Timers.Interval(2)]
    ensures s.timers.rest == map[]
  {
    s := new Session(Some([Exercise("Plank", 1, 3, 30, 1, 0)]), None);
    var chime := s.AddRep(0, true);
    assert s.timers.jobs == map[1 := Timers.ArmHold(0, 30)];
    var shown := s.ArmHold(1, true);
  }

  /** The Plank's running hold, its counter at `c`. */
  ghost predicate PlankHolding(s: Session, c: int)
    reads s, s.timers
  {
    && s.Valid()
    && s.exercises == [Exercise("Plank", 1, 3, 30, 1, 0)] && s.wakeLock && s.sentinels == 1
    && s.timers.jobs == map[2 := Timers.HoldTick(0, c)] && s.timers.hold == map[0 := Timers.Interval(2)]
    && s.timers.rest == map[]
  }

  /** A tick of the Plank's hold above one second only counts down. */
  method PlankTick(s: Session, c: int)
    requires PlankHolding(s, c) && c > 1
    modifies s, s.timers
    ensures PlankHolding(s, c - 1)
  {
    var shown, bell := s.TickHold(2);
    assert s.timers.jobs == map[2 := Timers.HoldTick(0, c - 1)];
  }

  /** The tick at one second left completes the hold: the rep is credited and, no timer being left, the only sentinel released. */
  method PlankLastTick(s: Session) returns (reps: int, bell: bool, held: bool, live: nat)
    requires PlankHolding(s, 1)
    modifies s, s.timers
    ensures reps == 1 && bell && !held && live == 0
  {
    var shown;
    shown, bell := s.TickHold(2);
    assert s.timers.rest == map[] && s.timers.hold == map[];
    reps, held, live := s.exercises[0].currentReps, s.wakeLock, s.sentinels;
  }

  /**
   * The Plank hold end to end: the first 29 ticks change nothing but the
   * counter, and the 30th credits the rep, rings the bell and, with no
   * other timer running, releases the wake lock, leaving no sentinel.
   */
  method PlankHoldCompletes() returns (reps: int, bell: bool, held: bool, live: nat)
    ensures reps == 1 && bell && !held && live == 0
  {
    var s := PlankArmed();
    var k := 0;
    while k < 29
      invariant 0 <= k <= 29 && PlankHolding(s, 30 - k)
    {
      PlankTick(s, 30 - k);
      k := k + 1;
    }
    reps, bell, held, live := PlankLastTick(s);
  }

  /** Two exercises with a one-second hold each. */
  function TwoHolds(): seq<Exercise> {
    [Exercise("A", 10, 3, 1, 1, 0), Exercise("B", 10, 3, 1, 1, 0)]
  }

  /** Both holds started, each with a granted wake lock: the second grant overwrites the first sentinel. */
  method TwoHoldsStarted() returns (s: Session)
    ensures fresh(s) && fresh(s.timers) && s.Valid()
    ensures s.exercises == TwoHolds() && s.wakeLock && s.sentinels == 2
    ensures s.timers.jobs == map[1 := Timers.ArmHold(0, 1), 2 := Timers.ArmHold(1, 1)]
    ensures s.timers.hold == map[0 := Timers.Placeholder, 1 := Timers.Placeholder]
    ensures s.timers.rest == map[] && s.timers.nextId == 3
  {
    s := new Session(Some(TwoHolds()), None);
    var chime := s.StartHoldTimer(0, true);
    assert s.timers.jobs == map[1 := Timers.ArmHold(0, 1)] && s.timers.hold == map[0 := Timers.Placeholder];
    chime := s.StartHoldTimer(1, true);
  }

  /** Both holds armed: A ticks as job 3, B as job 4. */
  method TwoHoldsArmed() returns (s: Session)
    ensures fresh(s) && fresh(s.timers) && s.Valid()
    ensures s.exercises == TwoHolds() && s.wakeLock && s.sentinels == 2
    ensures s.timers.jobs == map[3 := Timers.HoldTick(0, 1), 4 := Timers.HoldTick(1, 1)]
    ensures s.timers.hold == map[0 := Timers.Interval(3), 1 := Timers.Interval(4)] && s.timers.rest == map[]
  {
    s := TwoHoldsStarted();
    var shown := s.ArmHold(1, true);
    assert s.timers.jobs == map[2 := Timers.ArmHold(1, 1), 3 := Timers.HoldTick(0, 1)];
    assert s.timers.hold == map[0 := Timers.Interval(3), 1 := Timers.Placeholder];
    shown := s.ArmHold(2, true);
  }

  /** A's hold completes while B's runs: the lock is kept. */
  method FirstOfTwoHoldsCompletes(s: Session)
    requires s.Valid() && s.exercises == TwoHolds() && s.wakeLock && s.sentinels == 2
    requires s.timers.jobs == map[3 := Timers.HoldTick(0, 1), 4 := Timers.HoldTick(1, 1)]
    requires s.timers.hold == map[0 := Timers.Interval(3), 1 := Timers.Interval(4)] && s.timers.rest == map[]
    modifies s, s.timers
    ensures s.Valid() && |s.exercises| == 2 && s.wakeLock && s.sentinels == 2
    ensures s.timers.jobs == map[4 := Timers.HoldTick(1, 1)] && s.timers.hold == map[1 := Timers.Interval(4)]
    ensures s.timers.rest == map[]
  {
    assert Timers.HoldIntervalOf(s.timers.hold, 0) == {3} by {
      assert s.timers.hold[0] == Timers.Interval(3);
    }
    var shown, bell := s.TickHold(3);
    assert 1 in s.timers.hold;
  }

  /** B's hold completes last: no timer is left, so the variable's sentinel is released. */
  method LastOfTwoHoldsCompletes(s: Session) returns (held: bool, running: bool, live: nat)
    requires s.Valid() && |s.exercises| == 2 && s.wakeLock && s.sentinels == 2
    requires s.timers.jobs == map[4 := Timers.HoldTick(1, 1)] && s.timers.hold == map[1 := Timers.Interval(4)]
    requires s.timers.rest == map[]
    modifies s, s.timers
    ensures !held && !running && live == 1
  {
    var shown, bell := s.TickHold(4);
    assert s.timers.rest == map[] && s.timers.hold == map[];
    held, running, live := s.wakeLock, s.timers.HasActiveTimers(), s.sentinels;
  }

  /**
   * Both holds complete. The release after the last one reaches only the
   * second sentinel: the first stays live, with no timer running.
   */
  method TwoHoldsLeakASentinel() returns (held: bool, running: bool, live: nat)
    ensures !held && !running && live == 1
  {
    var s := TwoHoldsArmed();
    FirstOfTwoHoldsCompletes(s);
    held, running, live := LastOfTwoHoldsCompletes(s);
  }
}
