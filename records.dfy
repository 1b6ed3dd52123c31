/**
 * The records the tracker stores (exercises and history entries) and the
 * array operations both builds apply to them: `Object.assign` of a partial
 * update, `splice(index, 1)`, and the newest-first history log capped at
 * `MaxHistoryEntries`.
 */
module Records {
  import opened Wrappers
  import Constants

  /** One exercise: its definition and its progress through the session. */
  datatype Exercise = Exercise(
    name: string,
    targetReps: int,
    targetSets: int,
    holdTime: int,
    currentSet: int,
    currentReps: int)

  /** One completed exercise; `timestamp` is in milliseconds since the epoch. */
  datatype HistoryEntry = HistoryEntry(name: string, timestamp: int)

  /** An update object: `Some` for each property it carries. */
  datatype ExercisePatch = ExercisePatch(
    name: Option<string>,
    targetReps: Option<int>,
    targetSets: Option<int>,
    holdTime: Option<int>,
    currentSet: Option<int>,
    currentReps: Option<int>)

  const NoChanges := ExercisePatch(None, None, None, None, None, None)

  function Min(a: int, b: int): int {
    if a <= b then a else b
  }

  // ---------------------------------------------------------------------
  // Object.assign(exercise, updates)

  /** The properties of `e`, overlaid with those `p` carries: `{...e, ...p}`. */
  function Assign(e: Exercise, p: ExercisePatch): (r: Exercise)
    ensures PatchOf(r) == Merge(PatchOf(e), p)
  {
    Exercise(
      p.name.GetOr(e.name),
      p.targetReps.GetOr(e.targetReps),
      p.targetSets.GetOr(e.targetSets),
      p.holdTime.GetOr(e.holdTime),
      p.currentSet.GetOr(e.currentSet),
      p.currentReps.GetOr(e.currentReps))
  }

  /** The update carrying every property of `e`. */
  function PatchOf(e: Exercise): ExercisePatch {
    ExercisePatch(Some(e.name), Some(e.targetReps), Some(e.targetSets),
                  Some(e.holdTime), Some(e.currentSet), Some(e.currentReps))
  }

  function Or<T>(later: Option<T>, earlier: Option<T>): Option<T> {
    if later.Some? then later else earlier
  }

  /** `{...p, ...q}`: the properties of `q`, then those of `p` that `q` lacks. */
  function Merge(p: ExercisePatch, q: ExercisePatch): ExercisePatch {
    ExercisePatch(Or(q.name, p.name), Or(q.targetReps, p.targetReps), Or(q.targetSets, p.targetSets),
                  Or(q.holdTime, p.holdTime), Or(q.currentSet, p.currentSet), Or(q.currentReps, p.currentReps))
  }

  /** Each property the update carries is overwritten; each one it lacks keeps its value. */
  lemma AssignOverwritesPresentFields(e: Exercise, p: ExercisePatch)
    ensures var r := Assign(e, p);
            && (r.name == if p.name.Some? then p.name.value else e.name)
            && (r.targetReps == if p.targetReps.Some? then p.targetReps.value else e.targetReps)
            && (r.targetSets == if p.targetSets.Some? then p.targetSets.value else e.targetSets)
            && (r.holdTime == if p.holdTime.Some? then p.holdTime.value else e.holdTime)
            && (r.currentSet == if p.currentSet.Some? then p.currentSet.value else e.currentSet)
            && (r.currentReps == if p.currentReps.Some? then p.currentReps.value else e.currentReps)
  {
  }

  /** An empty update changes nothing; a full one replaces everything. */
  lemma AssignExtremes(e: Exercise, x: Exercise)
    ensures Assign(e, NoChanges) == e
    ensures Assign(e, PatchOf(x)) == x
  {
  }

  /** Two successive updates act as their merge, so repeating an update changes nothing more. */
  lemma AssignComposes(e: Exercise, p: ExercisePatch, q: ExercisePatch)
    ensures Assign(Assign(e, p), q) == Assign(e, Merge(p, q))
    ensures Assign(Assign(e, p), p) == Assign(e, p)
  {
  }

  // ---------------------------------------------------------------------
  // Array.prototype.splice(start, 1)

  /** The position `splice` starts at: negative starts count from the end, and starts are clamped to the array. */
  function SpliceStart(len: nat, start: int): (k: nat)
    ensures k <= len
    ensures 0 <= start <= len ==> k == start
    ensures start < 0 && len + start >= 0 ==> k == len + start
  {
    if start < 0 then (if len + start < 0 then 0 else len + start)
    else if start > len then len
    else start
  }

  /** `s.splice(start, 1)`: `s` without the element at the resolved start, when there is one. */
  function SpliceOne<T>(s: seq<T>, start: int): (r: seq<T>)
    ensures SpliceStart(|s|, start) < |s| ==> |r| == |s| - 1
    ensures SpliceStart(|s|, start) == |s| ==> r == s
  {
    var k := SpliceStart(|s|, start);
    if k < |s| then s[..k] + s[k + 1..] else s
  }

  /** Removing position `i`: the elements before it stay, the ones after it move down by one. */
  lemma SpliceOneShifts<T>(s: seq<T>, i: int)
    requires 0 <= i < |s|
    ensures |SpliceOne(s, i)| == |s| - 1
    ensures forall j :: 0 <= j < i ==> SpliceOne(s, i)[j] == s[j]
    ensures forall j :: i <= j < |s| - 1 ==> SpliceOne(s, i)[j] == s[j + 1]
  {
  }

  /** Exactly one element goes: the one at position `i`. */
  lemma SpliceOneRemovesOne<T>(s: seq<T>, i: int)
    requires 0 <= i < |s|
    ensures multiset(SpliceOne(s, i)) + multiset{s[i]} == multiset(s)
  {
    assert s == s[..i] + [s[i]] + s[i + 1..];
  }

  /** Out-of-range starts: past the end nothing goes; `-1` removes the last element. */
  lemma SpliceOneEdges<T>(s: seq<T>)
    ensures SpliceOne(s, |s|) == s
    ensures s != [] ==> SpliceOne(s, -1) == s[..|s| - 1]
  {
  }

  // ---------------------------------------------------------------------
  // history.unshift(entry), then history = history.slice(0, MAX_HISTORY_ENTRIES)

  /** The history after logging `e`: `e` first, the previous entries after it, at most `MaxHistoryEntries` in all. */
  function Logged(h: seq<HistoryEntry>, e: HistoryEntry): (r: seq<HistoryEntry>)
    ensures |r| == Min(|h| + 1, Constants.MaxHistoryEntries)
    ensures r[0] == e
    ensures forall j :: 1 <= j < |r| ==> r[j] == h[j - 1]
  {
    var grown := [e] + h;
    if |grown| > Constants.MaxHistoryEntries then grown[..Constants.MaxHistoryEntries] else grown
  }

  /** What logging drops is a suffix of the old history: its oldest entries, and only when it overflows. */
  lemma LoggedDropsOnlyOldest(h: seq<HistoryEntry>, e: HistoryEntry)
    ensures var r := Logged(h, e);
            && r[1..] + h[|r| - 1..] == h
            && (|h| < Constants.MaxHistoryEntries ==> r[1..] == h)
  {
    var r := Logged(h, e);
    assert r[1..] == h[..|r| - 1];
    assert h[..|r| - 1] + h[|r| - 1..] == h;
  }

  function Reversed<T>(s: seq<T>): (r: seq<T>)
    ensures |r| == |s|
    ensures forall j :: 0 <= j < |s| ==> r[j] == s[|s| - 1 - j]
  {
    if s == [] then [] else Reversed(s[1..]) + [s[0]]
  }

  /** The history after logging each of `es` in turn, first to last. */
  function LogAll(h: seq<HistoryEntry>, es: seq<HistoryEntry>): (r: seq<HistoryEntry>)
    ensures es != [] ==> 0 < |r| <= Constants.MaxHistoryEntries && r[0] == es[|es| - 1]
    decreases es
  {
    if es == [] then h else LogAll(Logged(h, es[0]), es[1..])
  }

  /** Logging a run of entries keeps the newest first and truncates the whole to `MaxHistoryEntries`. */
  lemma {:induction false} LogAllKeepsNewest(h: seq<HistoryEntry>, es: seq<HistoryEntry>)
    requires |h| <= Constants.MaxHistoryEntries
    ensures LogAll(h, es) == (Reversed(es) + h)[..Min(|es| + |h|, Constants.MaxHistoryEntries)]
    decreases es
  {
    if es != [] {
      var e, a, h1 := es[0], Reversed(es[1..]), Logged(h, es[0]);
      calc {
        LogAll(h, es);
        LogAll(h1, es[1..]);
        { LogAllKeepsNewest(h1, es[1..]); }
        (a + h1)[..Min(|es[1..]| + |h1|, Constants.MaxHistoryEntries)];
        { assert |es[1..]| == |a|; }
        (a + h1)[..Min(|a| + |h1|, Constants.MaxHistoryEntries)];
        { LoggedBehind(a, h, e); }
        (a + ([e] + h))[..Min(|a| + 1 + |h|, Constants.MaxHistoryEntries)];
        { assert Reversed(es) == a + [e] && |a| + 1 == |es|;
          assert Reversed(es) + h == a + ([e] + h); }
        (Reversed(es) + h)[..Min(|es| + |h|, Constants.MaxHistoryEntries)];
      }
    }
  }

  /** Logging `e` behind a run `a` of newer entries, then cutting, is cutting `a`, `e` and `h` together. */
  lemma LoggedBehind(a: seq<HistoryEntry>, h: seq<HistoryEntry>, e: HistoryEntry)
    requires |h| <= Constants.MaxHistoryEntries
    ensures (a + Logged(h, e))[..Min(|a| + |Logged(h, e)|, Constants.MaxHistoryEntries)]
            == (a + ([e] + h))[..Min(|a| + 1 + |h|, Constants.MaxHistoryEntries)]
  {
    var g := [e] + h;
    var n := Min(|a| + 1 + |h|, Constants.MaxHistoryEntries);
    assert Min(|a| + |Logged(h, e)|, Constants.MaxHistoryEntries) == n;
    forall j | 0 <= j < n
      ensures (a + Logged(h, e))[j] == (a + g)[j]
    {
      if j > |a| {
        assert (a + g)[j] == g[j - |a|] == h[j - |a| - 1];
      }
    }
  }

  lemma HundredAndFiveCompletions(es: seq<HistoryEntry>)
    requires |es| == 105
    ensures var h := LogAll([], es);
            && |h| == Constants.MaxHistoryEntries
            && h[0] == es[104]
            && h == Reversed(es[5..])
  {
    LogAllKeepsNewest([], es);
    assert Reversed(es)[..100] == Reversed(es[5..]);
  }
}
