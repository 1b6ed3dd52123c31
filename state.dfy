/**
 * src/state.js: the in-memory exercise list, the history log and the two
 * editing flags. Every exercise or history mutator writes the whole
 * collection straight through to storage.
 *
 * Storage is abstracted as two ghost snapshots, `savedExercises` and
 * `savedHistory`: what the next load would return. A write either succeeds
 * (the snapshot becomes the live collection) or fails, as a full quota
 * makes `saveToStorage` return false; which one happens is the
 * environment's choice and is passed in as `writeOk`.
 */
module State {
  import opened Wrappers
  import opened Records

  class Store {
    var exercises: seq<Exercise>
    var history: seq<HistoryEntry>
    var editingIndex: Option<int>
    var editingHistory: bool

    ghost var savedExercises: seq<Exercise>
    ghost var savedHistory: seq<HistoryEntry>

    /** Both collections are as durable as they are in memory. */
    ghost predicate Persisted()
      reads this
    {
      savedExercises == exercises && savedHistory == history
    }

    /**
     * Module initialisation: `loadExercises()` / `loadHistory()` give the
     * stored collection, or an empty one when nothing (or nothing readable)
     * is stored (`None`).
     */
    constructor (storedExercises: Option<seq<Exercise>>, storedHistory: Option<seq<HistoryEntry>>)
      ensures exercises == storedExercises.GetOr([])
      ensures history == storedHistory.GetOr([])
      ensures editingIndex == None && !editingHistory
      ensures Persisted()
    {
      exercises := storedExercises.GetOr([]);
      history := storedHistory.GetOr([]);
      editingIndex := None;
      editingHistory := false;
      savedExercises := exercises;
      savedHistory := history;
    }

    /** `saveExercises(exercises)`. */
    method SaveExercises(writeOk: bool)
      modifies this`savedExercises
      ensures savedExercises == if writeOk then exercises else old(savedExercises)
    {
      if writeOk {
        savedExercises := exercises;
      }
    }

    /** `saveHistory(history)`. */
    method SaveHistory(writeOk: bool)
      modifies this`savedHistory
      ensures savedHistory == if writeOk then history else old(savedHistory)
    {
      if writeOk {
        savedHistory := history;
      }
    }

    method SetExercises(newExercises: seq<Exercise>, writeOk: bool)
      modifies this`exercises, this`savedExercises
      ensures exercises == newExercises
      ensures savedExercises == if writeOk then exercises else old(savedExercises)
    {
      exercises := newExercises;
      SaveExercises(writeOk);
    }

    /** `exercises.push(exercise)`: one more element at the end, the earlier ones untouched. */
    method AddExercise(exercise: Exercise, writeOk: bool)
      modifies this`exercises, this`savedExercises
      ensures exercises == old(exercises) + [exercise]
      ensures savedExercises == if writeOk then exercises else old(savedExercises)
    {
      exercises := exercises + [exercise];
      SaveExercises(writeOk);
    }

    /**
     * `Object.assign(exercises[index], updates)`. An index outside the list
     * makes `Object.assign` throw, so callers must pass one inside it.
     */
    method UpdateExercise(index: int, updates: ExercisePatch, writeOk: bool)
      requires 0 <= index < |exercises|
      modifies this`exercises, this`savedExercises
      ensures exercises == old(exercises)[index := Assign(old(exercises)[index], updates)]
      ensures savedExercises == if writeOk then exercises else old(savedExercises)
    {
      exercises := exercises[index := Assign(exercises[index], updates)];
      SaveExercises(writeOk);
    }

    /** `exercises.splice(index, 1)`. */
    method RemoveExercise(index: int, writeOk: bool)
      modifies this`exercises, this`savedExercises
      ensures exercises == SpliceOne(old(exercises), index)
      ensures savedExercises == if writeOk then exercises else old(savedExercises)
    {
      exercises := SpliceOne(exercises, index);
      SaveExercises(writeOk);
    }

    /** `exercises[index]`, which is `undefined` outside the list. */
    function GetExercise(index: int): (r: Option<Exercise>)
      reads this
      ensures r.Some? <==> 0 <= index < |exercises|
      ensures r.Some? ==> r.value == exercises[index]
    {
      if 0 <= index < |exercises| then Some(exercises[index]) else None
    }

    method SetHistory(newHistory: seq<HistoryEntry>, writeOk: bool)
      modifies this`history, this`savedHistory
      ensures history == newHistory
      ensures savedHistory == if writeOk then history else old(savedHistory)
    {
      history := newHistory;
      SaveHistory(writeOk);
    }

    /** `history.unshift({name, timestamp: Date.now()})`, then the cut to `MAX_HISTORY_ENTRIES`; `now` is `Date.now()`. */
    method AddHistoryEntry(name: string, now: int, writeOk: bool)
      modifies this`history, this`savedHistory
      ensures history == Logged(old(history), HistoryEntry(name, now))
      ensures savedHistory == if writeOk then history else old(savedHistory)
    {
      history := [HistoryEntry(name, now)] + history;
      if |history| > Constants.MaxHistoryEntries {
        history := history[..Constants.MaxHistoryEntries];
      }
      SaveHistory(writeOk);
    }

    /** `history.splice(index, 1)`. */
    method RemoveHistoryEntry(index: int, writeOk: bool)
      modifies this`history, this`savedHistory
      ensures history == SpliceOne(old(history), index)
      ensures savedHistory == if writeOk then history else old(savedHistory)
    {
      history := SpliceOne(history, index);
      SaveHistory(writeOk);
    }

    method ClearHistory(writeOk: bool)
      modifies this`history, this`savedHistory
      ensures history == []
      ensures savedHistory == if writeOk then [] else old(savedHistory)
    {
      history := [];
      SaveHistory(writeOk);
    }

    function GetEditingIndex(): Option<int>
      reads this
    {
      editingIndex
    }

    method SetEditingIndex(index: Option<int>)
      modifies this`editingIndex
      ensures GetEditingIndex() == index
    {
      editingIndex := index;
    }

    function GetEditingHistory(): bool
      reads this
    {
      editingHistory
    }

    method ToggleEditingHistory()
      modifies this`editingHistory
      ensures GetEditingHistory() == !old(GetEditingHistory())
    {
      editingHistory := !editingHistory;
    }
  }

  /** A call of one of the store's mutators, with its arguments. */
  datatype Mutation =
    | SetExercisesTo(newExercises: seq<Exercise>)
    | AddExerciseOf(exercise: Exercise)
    | UpdateExerciseAt(index: int, updates: ExercisePatch)
    | RemoveExerciseAt(index: int)
    | SetHistoryTo(newHistory: seq<HistoryEntry>)
    | AddHistoryEntryOf(name: string, now: int)
    | RemoveHistoryEntryAt(index: int)
    | ClearAllHistory
    | SetEditingIndexTo(editing: Option<int>)
    | ToggleEditing

  /**
   * One mutator call. Only an update outside the list throws, before it
   * changes anything. A successful write keeps storage equal to memory; a
   * failed one leaves storage as it was.
   */
  method Perform(s: Store, m: Mutation, writeOk: bool) returns (threw: bool)
    modifies s
    ensures threw <==> m.UpdateExerciseAt? && !(0 <= m.index < |old(s.exercises)|)
    ensures threw ==> && s.exercises == old(s.exercises) && s.history == old(s.history)
                      && s.savedExercises == old(s.savedExercises) && s.savedHistory == old(s.savedHistory)
    ensures writeOk && old(s.Persisted()) ==> s.Persisted()
    ensures !writeOk ==> s.savedExercises == old(s.savedExercises) && s.savedHistory == old(s.savedHistory)
  {
    threw := false;
    match m
    case SetExercisesTo(xs) => s.SetExercises(xs, writeOk);
    case AddExerciseOf(e) => s.AddExercise(e, writeOk);
    case UpdateExerciseAt(i, p) =>
      if 0 <= i < |s.exercises| {
        s.UpdateExercise(i, p, writeOk);
      } else {
        threw := true;
      }
    case RemoveExerciseAt(i) => s.RemoveExercise(i, writeOk);
    case SetHistoryTo(hs) => s.SetHistory(hs, writeOk);
    case AddHistoryEntryOf(name, now) => s.AddHistoryEntry(name, now, writeOk);
    case RemoveHistoryEntryAt(i) => s.RemoveHistoryEntry(i, writeOk);
    case ClearAllHistory => s.ClearHistory(writeOk);
    case SetEditingIndexTo(x) => s.SetEditingIndex(x);
    case ToggleEditing => s.ToggleEditingHistory();
  }

  /**
   * The write-through guarantee: after any sequence of mutator calls whose
   * writes succeed, storage equals memory. The run stops at an update that
   * throws; `performed` counts the calls made before it, and only an update
   * can cut the run short.
   */
  method WritesThrough(s: Store, ms: seq<Mutation>) returns (performed: nat)
    requires s.Persisted()
    modifies s
    decreases |ms|
    ensures performed <= |ms| && s.Persisted()
    ensures performed < |ms| ==> ms[performed].UpdateExerciseAt?
  {
    if ms == [] {
      return 0;
    }
    var threw := Perform(s, ms[0], true);
    if threw {
      return 0;
    }
    var later := WritesThrough(s, ms[1..]);
    performed := later + 1;
  }

  /** Two toggles restore the history-editing flag; a set index reads back unchanged. */
  method FlagsRoundTrip(s: Store, x: Option<int>)
    modifies s
    ensures s.GetEditingHistory() == old(s.GetEditingHistory())
    ensures s.GetEditingIndex() == x
    ensures s.exercises == old(s.exercises) && s.history == old(s.history)
  {
    s.ToggleEditingHistory();
    s.ToggleEditingHistory();
    s.SetEditingIndex(x);
  }

  /** A failed write leaves the stored copy behind the live one until the next successful write. */
  method FailedWriteIsCaughtUp(s: Store, e: Exercise)
    requires s.Persisted()
    modifies s
    ensures s.exercises == old(s.exercises) + [e, e] && s.Persisted()
  {
    s.AddExercise(e, false);
    assert s.savedExercises == old(s.exercises);
    s.AddExercise(e, true);
  }
}
