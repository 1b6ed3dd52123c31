/**
 * src/timers.js: the `M:SS` formatter and the two countdown tracks, rest
 * timers and hold timers, each keyed by exercise index.
 *
 * The host's `setTimeout`/`setInterval` callbacks are explicit: `jobs` holds
 * every callback the host will still run, with the `seconds` counter its
 * closure captured, and the host picks which one fires next by calling
 * `Arm`, `TickHold` or `TickRest` with its id. `clearInterval(id)` removes
 * job `id`. Completion is returned as a flag instead of calling `onComplete`;
 * the audio cues and the vibration are not modelled (the flags say when they
 * would fire). Whether a display element exists is a parameter. What a
 * callback writes to the display is returned as the count it formats: the
 * text is `FormatTime` of that count, and the lemmas below say what that text
 * is.
 */
module Timers {
  import opened Wrappers
  import opened JsString
  import Constants

  // ---------------------------------------------------------------------
  // formatTime

  /** `a % b` on JavaScript numbers: the remainder takes the sign of `a`. */
  function JsRemainder(a: int, b: int): (r: int)
    requires b > 0
    ensures a >= 0 ==> 0 <= r < b && r == a % b
    ensures a < 0 ==> -b < r <= 0 && r == -((-a) % b)
  {
    if a >= 0 then a % b else -((-a) % b)
  }

  /**
   * `formatTime(seconds)`: `Math.floor(seconds / 60)`, a colon, and
   * `seconds % 60` padded to two characters with '0'. A non-negative count
   * shows digits, a colon and exactly two digits; a negative one starts
   * with a minus sign.
   */
  function FormatTime(seconds: int): (r: string)
    ensures seconds >= 0 ==> && |r| >= 4 && r[|r| - 3] == ':'
                             && AllDigits(r[..|r| - 3]) && AllDigits(r[|r| - 2..])
    ensures seconds < 0 ==> r != [] && r[0] == '-'
  {
    var minutes := IntToString(seconds / 60);
    var padded := PadStart(IntToString(JsRemainder(seconds, 60)), 2, '0');
    if seconds >= 0 then
      PaddedSeconds(seconds % 60);
      var r := minutes + ":" + padded;
      assert r[..|r| - 3] == minutes && r[|r| - 2..] == padded;
      r
    else
      minutes + ":" + padded
  }

  /** Reads a `M:SS` display back as a number of seconds; `None` for anything else. */
  function ParseClock(t: string): Option<nat> {
    if |t| >= 4 && t[|t| - 3] == ':' && AllDigits(t[..|t| - 3]) && AllDigits(t[|t| - 2..])
    then Some(DigitsValue(t[..|t| - 3]) * 60 + DigitsValue(t[|t| - 2..]))
    else None
  }

  /** A count below 60, padded to two digits, reads back as itself. */
  lemma PaddedSeconds(q: nat)
    requires q < 60
    ensures var p := PadStart(NatToString(q), 2, '0');
            |p| == 2 && AllDigits(p) && DigitsValue(p) == q
  {
    var qs := NatToString(q);
    var p := PadStart(qs, 2, '0');
    if q < 10 {
      assert p == ['0'] + qs;
      assert p[..1] == ['0'];
      assert DigitsValue(p[..1]) == DigitsValue([]) * 10 + DigitValue('0') == 0;
      assert DigitsValue(p) == DigitsValue(p[..1]) * 10 + DigitValue(p[1]);
    } else {
      assert p == qs;
    }
  }

  /** The display of a non-negative count: its minutes, a colon, and its two-digit seconds. */
  lemma FormatTimeParts(seconds: nat)
    ensures FormatTime(seconds) == NatToString(seconds / 60) + [':'] + PadStart(NatToString(seconds % 60), 2, '0')
  {
  }

  /** A display built from a digit string, a colon and two digits reads back as minutes times 60 plus seconds. */
  lemma ParseClockOfParts(ms: string, pad: string, m: nat, q: nat)
    requires ms != [] && AllDigits(ms) && |pad| == 2 && AllDigits(pad)
    requires DigitsValue(ms) == m && DigitsValue(pad) == q
    ensures ParseClock(ms + [':'] + pad) == Some(m * 60 + q)
  {
    var t := ms + [':'] + pad;
    assert t[|t| - 3] == ':';
    assert t[..|t| - 3] == ms;
    assert t[|t| - 2..] == pad;
  }

  /** Minutes, a colon and padded seconds below 60 read back as minutes times 60 plus seconds. */
  lemma ClockReadsBack(m: nat, q: nat)
    requires q < 60
    ensures ParseClock(NatToString(m) + [':'] + PadStart(NatToString(q), 2, '0')) == Some(m * 60 + q)
  {
    PaddedSeconds(q);
    ParseClockOfParts(NatToString(m), PadStart(NatToString(q), 2, '0'), m, q);
  }

  /** Every non-negative count of seconds is displayed as `minutes:SS` and reads back as itself. */
  lemma FormatTimeRoundTrip(seconds: nat)
    ensures ParseClock(FormatTime(seconds)) == Some(seconds)
  {
    FormatTimeParts(seconds);
    ClockReadsBack(seconds / 60, seconds % 60);
  }

  /** Different non-negative counts never share a display. */
  lemma FormatTimeInjective(a: nat, b: nat)
    requires FormatTime(a) == FormatTime(b)
    ensures a == b
  {
    FormatTimeRoundTrip(a);
    FormatTimeRoundTrip(b);
  }

  /** A one-digit count reads "d" and a two-digit count "dd". */
  lemma DigitsOf(n: nat)
    requires n < 100
    ensures n < 10 ==> NatToString(n) == [DigitChar(n)]
    ensures 10 <= n ==> NatToString(n) == [DigitChar(n / 10), DigitChar(n % 10)]
  {
  }

  /** A count below 60, padded to two characters, is its tens digit and its units digit. */
  lemma PaddedDigits(q: nat)
    requires q < 60
    ensures PadStart(NatToString(q), 2, '0') == [DigitChar(q / 10), DigitChar(q % 10)]
  {
    DigitsOf(q);
    if q < 10 {
      assert PadStart(NatToString(q), 2, '0') == ['0'] + NatToString(q);
    }
  }

  lemma MinutesAndSeconds(m: nat, q: nat)
    requires q < 60
    ensures (m * 60 + q) / 60 == m && (m * 60 + q) % 60 == q
  {
  }

  /** The display of `m` minutes and `q` seconds: the minutes' digits, a colon and exactly two seconds digits. */
  lemma Display(m: nat, q: nat)
    requires q < 60
    ensures FormatTime(m * 60 + q) == NatToString(m) + [':'] + [DigitChar(q / 10), DigitChar(q % 10)]
  {
    MinutesAndSeconds(m, q);
    FormatTimeParts(m * 60 + q);
    PaddedDigits(q);
  }

  /** An empty clock shows "0:00". */
  lemma FormatTimeZero()
    ensures FormatTime(0) == "0:00"
  {
    Display(0, 0);
    DigitsOf(0);
  }

  lemma FormatTimeUnderAMinute()
    ensures FormatTime(5) == "0:05"
  {
    Display(0, 5);
    DigitsOf(0);
  }

  lemma FormatTimeOneMinute()
    ensures FormatTime(60) == "1:00"
  {
    Display(1, 0);
    DigitsOf(1);
  }

  lemma FormatTimeSixtyMinutes()
    ensures FormatTime(3600) == "60:00"
  {
    Display(60, 0);
    DigitsOf(60);
  }

  lemma FormatTimeMinutesAndSeconds()
    ensures FormatTime(61) == "1:01" && FormatTime(70) == "1:10" && FormatTime(90) == "1:30"
  {
    Display(1, 1);
    Display(1, 10);
    Display(1, 30);
    DigitsOf(1);
  }

  lemma FormatTimeLongerCounts()
    ensures FormatTime(125) == "2:05" && FormatTime(3599) == "59:59"
  {
    Display(2, 5);
    DigitsOf(2);
    Display(59, 59);
    DigitsOf(59);
  }

  /** The display of the examples in the timer tests. */
  lemma FormatTimeExamples()
    ensures FormatTime(0) == "0:00" && FormatTime(5) == "0:05"
    ensures FormatTime(60) == "1:00" && FormatTime(61) == "1:01"
    ensures FormatTime(70) == "1:10" && FormatTime(90) == "1:30"
    ensures FormatTime(125) == "2:05"
    ensures FormatTime(3599) == "59:59" && FormatTime(3600) == "60:00"
  {
    FormatTimeZero();
    FormatTimeUnderAMinute();
    FormatTimeOneMinute();
    FormatTimeSixtyMinutes();
    FormatTimeMinutesAndSeconds();
    FormatTimeLongerCounts();
  }

  /** Among non-negative counts, only 0 is displayed as "0:00". */
  lemma ZeroDisplayOnlyAtZero(seconds: nat)
    ensures FormatTime(seconds) == "0:00" <==> seconds == 0
  {
    FormatTimeZero();
    if FormatTime(seconds) == "0:00" {
      FormatTimeInjective(seconds, 0);
    }
  }

  // ---------------------------------------------------------------------
  // One tick of each interval callback

  /**
   * What a tick does: the count it displays (as `FormatTime(display)`), the
   * counter it leaves, and whether it completed the countdown.
   */
  datatype Tick = Tick(display: int, remaining: int, completed: bool)

  /** A hold tick: `seconds--`, display, and complete once the counter is at or below 0. */
  function HoldStep(seconds: int): (t: Tick)
    ensures t.remaining < seconds && t.display == t.remaining
    ensures t.completed <==> t.remaining <= 0
  {
    var s := seconds - 1;
    Tick(s, s, s <= 0)
  }

  /** A rest tick: display first; then complete at or below 0, otherwise `seconds--`. */
  function RestStep(seconds: int): (t: Tick)
    ensures t.display == seconds
    ensures t.completed <==> seconds <= 0
    ensures !t.completed ==> 0 <= t.remaining < seconds
    ensures t.completed ==> t.remaining == seconds
  {
    Tick(seconds, if seconds <= 0 then seconds else seconds - 1, seconds <= 0)
  }

  /** The outcomes of `n` successive hold ticks from counter `seconds`. */
  function HoldCountdown(seconds: int, n: nat): (ts: seq<Tick>)
    ensures |ts| == n
    decreases n
  {
    if n == 0 then [] else [HoldStep(seconds)] + HoldCountdown(HoldStep(seconds).remaining, n - 1)
  }

  /** The outcomes of `n` successive rest ticks from counter `seconds`. */
  function RestCountdown(seconds: int, n: nat): (ts: seq<Tick>)
    ensures |ts| == n
    decreases n
  {
    if n == 0 then [] else [RestStep(seconds)] + RestCountdown(RestStep(seconds).remaining, n - 1)
  }

  /** Tick `j + 1` of a hold countdown starts from the counter minus `j`. */
  lemma {:induction false} HoldCountdownAt(seconds: int, n: nat, j: nat)
    requires j < n
    ensures HoldCountdown(seconds, n)[j] == HoldStep(seconds - j)
    decreases j
  {
    if j > 0 {
      HoldCountdownAt(seconds - 1, n - 1, j - 1);
    }
  }

  /** Until the counter reaches 0, tick `j + 1` of a rest countdown starts from the counter minus `j`. */
  lemma {:induction false} RestCountdownAt(seconds: int, n: nat, j: nat)
    requires j < n && j <= seconds
    ensures RestCountdown(seconds, n)[j] == RestStep(seconds - j)
    decreases j
  {
    if j > 0 {
      RestCountdownAt(seconds - 1, n - 1, j - 1);
    }
  }

  /**
   * A hold of `h >= 1` seconds shows `h` when it arms, then `h-1`, ..., `0`
   * on its ticks; it completes on tick `h` and no earlier, and "0:00" is
   * shown exactly once, on that tick.
   */
  lemma HoldCompletesOnTickH(h: int)
    requires h >= 1
    ensures var ts := HoldCountdown(h, h);
            && (forall j :: 0 <= j < h - 1 ==> !ts[j].completed)
            && ts[h - 1].completed
            && (forall j :: 0 <= j < h ==> ts[j].display == h - 1 - j)
            && (forall j :: 0 <= j < h ==> (FormatTime(ts[j].display) == "0:00" <==> j == h - 1))
            && FormatTime(h) != "0:00"
  {
    var ts := HoldCountdown(h, h);
    forall j | 0 <= j < h
      ensures ts[j] == HoldStep(h - j)
      ensures FormatTime(ts[j].display) == "0:00" <==> j == h - 1
    {
      HoldCountdownAt(h, h, j);
      ZeroDisplayOnlyAtZero(h - 1 - j);
    }
    ZeroDisplayOnlyAtZero(h);
  }

  /**
   * A rest countdown from `s >= 0` shows `s`, `s-1`, ..., `0` and completes
   * on tick `s + 1`, when it shows "0:00" for the only time.
   */
  lemma RestCompletesAfterShowingZero(s: nat)
    ensures var ts := RestCountdown(s, s + 1);
            && (forall j :: 0 <= j < s ==> !ts[j].completed)
            && ts[s].completed
            && (forall j :: 0 <= j <= s ==> ts[j].display == s - j)
            && (forall j :: 0 <= j <= s ==> (FormatTime(ts[j].display) == "0:00" <==> j == s))
  {
    var ts := RestCountdown(s, s + 1);
    forall j | 0 <= j <= s
      ensures ts[j] == RestStep(s - j)
    {
      RestCountdownAt(s, s + 1, j);
    }
    forall j | 0 <= j <= s
      ensures FormatTime(ts[j].display) == "0:00" <==> j == s
    {
      ZeroDisplayOnlyAtZero(s - j);
    }
  }

  /** The 60-second rest timer completes on its 61st tick. */
  lemma RestTimerCompletesOnTick61()
    ensures var ts := RestCountdown(Constants.RestTimerSeconds, 61);
            && (forall j :: 0 <= j < 60 ==> !ts[j].completed)
            && ts[60].completed
            && FormatTime(ts[0].display) == "1:00" && FormatTime(ts[60].display) == "0:00"
  {
    RestCompletesAfterShowingZero(Constants.RestTimerSeconds);
    FormatTimeZero();
    FormatTimeOneMinute();
  }

  // ---------------------------------------------------------------------
  // The coordinator

  /** A callback the host will run. */
  datatype Job =
    | ArmHold(index: int, seconds: int)   // the 10 ms `setTimeout` that installs a hold countdown
    | HoldTick(index: int, seconds: int)  // a hold `setInterval` callback and its counter
    | RestTick(index: int, seconds: int)  // a rest `setInterval` callback and its counter

  /** A hold record: the `true` placeholder set at start, or the interval installed when arming. */
  datatype HoldSlot = Placeholder | Interval(id: nat)

  /** The timer id JavaScript's `true` converts to when it is passed to `clearInterval`. */
  const PlaceholderId: nat := 1

  /** The interval `clearInterval(timers[index])` stops, if there is a record. */
  function RestIntervalOf(rest: map<int, nat>, index: int): set<nat> {
    if index in rest then {rest[index]} else {}
  }

  /**
   * The timer `clearInterval(holdTimers[index])` stops. The placeholder
   * `true` converts to the id 1, and timeouts and intervals share one id
   * space, so clearing a placeholder stops whatever timer has id 1.
   */
  function HoldIntervalOf(hold: map<int, HoldSlot>, index: int): set<nat> {
    if index !in hold then {}
    else match hold[index]
      case Placeholder => {PlaceholderId}
      case Interval(id) => {id}
  }

  lemma NonEmptyHasKey(s: set<int>)
    ensures |s| > 0 <==> exists k :: k in s
  {
    if forall k :: k !in s {
      assert s == {};
    }
  }

  class TimerCoordinator {
    /** `timers`: the rest interval registered for each exercise index. */
    var rest: map<int, nat>
    /** `holdTimers`: the hold record of each exercise index. */
    var hold: map<int, HoldSlot>
    /** Callbacks still scheduled with the host, by timer id. */
    var jobs: map<nat, Job>
    /** The id the host gives the next timer (host ids are positive). */
    var nextId: nat

    ghost predicate Valid()
      reads this
    {
      && (forall id :: id in jobs ==> id < nextId)
      && (forall i :: i in rest ==> rest[i] < nextId)
      && (forall i :: i in hold && hold[i].Interval? ==> hold[i].id < nextId)
      && (forall i :: i in rest && rest[i] in jobs ==> jobs[rest[i]].RestTick? && jobs[rest[i]].index == i)
      && (forall i :: i in hold && hold[i].Interval? && hold[i].id in jobs ==>
            jobs[hold[i].id].HoldTick? && jobs[hold[i].id].index == i)
      // a live rest countdown is always the one registered for its exercise
      && (forall id :: id in jobs && jobs[id].RestTick? ==> jobs[id].index in rest && rest[jobs[id].index] == id)
    }

    constructor ()
      ensures Valid()
      ensures rest == map[] && hold == map[] && jobs == map[] && nextId == 1
    {
      rest := map[];
      hold := map[];
      jobs := map[];
      nextId := 1;
    }

    /** `hasActiveTimers()`: some exercise has a rest or a hold record. */
    predicate HasActiveTimers()
      reads this
      ensures HasActiveTimers() <==> (exists i :: i in rest) || (exists i :: i in hold)
    {
      NonEmptyHasKey(rest.Keys);
      NonEmptyHasKey(hold.Keys);
      |rest| > 0 || |hold| > 0
    }

    /** `isHolding(index)`: exercise `index` has a hold record (placeholder or interval). */
    predicate IsHolding(index: int)
      reads this
      ensures IsHolding(index) ==> HasActiveTimers()
    {
      index in hold
    }

    /**
     * `startHoldTimer(index, holdTime)`: a no-op when the exercise already
     * has a hold record; otherwise the placeholder goes in at once, the
     * start chime plays, and the arming callback is scheduled with the
     * counter set to `holdTime`.
     */
    method StartHold(index: int, holdTime: int) returns (chime: bool)
      requires Valid()
      modifies this
      ensures Valid()
      ensures chime <==> index !in old(hold)
      ensures IsHolding(index) && HasActiveTimers()
      ensures rest == old(rest)
      ensures chime ==> && hold == old(hold)[index := Placeholder]
                        && jobs == old(jobs)[old(nextId) := ArmHold(index, holdTime)]
                        && nextId == old(nextId) + 1
      ensures !chime ==> hold == old(hold) && jobs == old(jobs) && nextId == old(nextId)
    {
      if index in hold {
        chime := false;
        return;
      }
      hold := hold[index := Placeholder];
      jobs := jobs[nextId := ArmHold(index, holdTime)];
      nextId := nextId + 1;
      chime := true;
    }

    /**
     * The arming callback. Without a display element it deletes the hold
     * record and stops. Otherwise it shows the full count and installs the
     * countdown interval as the record, whatever the record was by then: a
     * `ClearTimer` between start and arming does not prevent it.
     */
    method Arm(id: nat, displayPresent: bool) returns (shown: Option<int>)
      requires Valid() && id in jobs && jobs[id].ArmHold?
      modifies this
      ensures Valid()
      ensures rest == old(rest)
      ensures var job := old(jobs[id]);
              && (!displayPresent ==>
                    && shown == None
                    && hold == old(hold) - {job.index}
                    && jobs == old(jobs) - {id}
                    && nextId == old(nextId))
              && (displayPresent ==>
                    && shown == Some(job.seconds)
                    && hold == old(hold)[job.index := Interval(old(nextId))]
                    && jobs == (old(jobs) - {id})[old(nextId) := HoldTick(job.index, job.seconds)]
                    && nextId == old(nextId) + 1)
    {
      var job := jobs[id];
      jobs := jobs - {id};
      if !displayPresent {
        hold := hold - {job.index};
        shown := None;
        return;
      }
      shown := Some(job.seconds);
      hold := hold[job.index := Interval(nextId)];
      jobs := jobs[nextId := HoldTick(job.index, job.seconds)];
      nextId := nextId + 1;
    }

    /**
     * One tick of a hold interval. On completion it stops the timer
     * `clearInterval` receives for its exercise's record and deletes the
     * record. When that timer is this one, the countdown ends; when it is
     * not (an interval left behind by a second arming), this one keeps
     * running.
     */
    method TickHold(id: nat) returns (shown: int, completed: bool)
      requires Valid() && id in jobs && jobs[id].HoldTick?
      modifies this
      ensures Valid()
      ensures rest == old(rest) && nextId == old(nextId)
      ensures var job := old(jobs[id]);
              var t := HoldStep(job.seconds);
              && shown == t.display && completed == t.completed
              && (!completed ==> hold == old(hold) && jobs == old(jobs)[id := HoldTick(job.index, t.remaining)])
              && (completed ==>
                    && hold == old(hold) - {job.index}
                    && jobs == old(jobs)[id := HoldTick(job.index, t.remaining)] - HoldIntervalOf(old(hold), job.index))
      ensures var job := old(jobs[id]);
              completed ==> (id in jobs <==> id !in HoldIntervalOf(old(hold), job.index))
    {
      var job := jobs[id];
      var t := HoldStep(job.seconds);
      jobs := jobs[id := HoldTick(job.index, t.remaining)];
      shown, completed := t.display, t.completed;
      if completed {
        jobs := jobs - HoldIntervalOf(hold, job.index);
        hold := hold - {job.index};
      }
    }

    /**
     * `startRestTimer(index)`: stops the exercise's current rest interval;
     * then, when either rest element is missing, returns without touching
     * the (now stale) record; otherwise registers a new 60-second interval.
     */
    method StartRest(index: int, elementsPresent: bool) returns (started: bool)
      requires Valid()
      modifies this
      ensures Valid()
      ensures started == elementsPresent
      ensures hold == old(hold)
      ensures index in old(rest) ==> index in rest
      ensures started ==> && rest == old(rest)[index := old(nextId)]
                          && jobs == (old(jobs) - RestIntervalOf(old(rest), index))[old(nextId) := RestTick(index, Constants.RestTimerSeconds)]
                          && nextId == old(nextId) + 1
                          && HasActiveTimers()
      ensures !started ==> && rest == old(rest)
                           && jobs == old(jobs) - RestIntervalOf(old(rest), index)
                           && nextId == old(nextId)
    {
      jobs := jobs - RestIntervalOf(rest, index);
      assert Valid();
      if !elementsPresent {
        started := false;
        return;
      }
      assert forall id :: id in jobs && jobs[id].RestTick? ==> jobs[id].index != index;
      rest := rest[index := nextId];
      jobs := jobs[nextId := RestTick(index, Constants.RestTimerSeconds)];
      nextId := nextId + 1;
      started := true;
    }

    /** One tick of a rest interval; on completion the interval stops and its record is deleted, so it completes once. */
    method TickRest(id: nat) returns (shown: int, completed: bool)
      requires Valid() && id in jobs && jobs[id].RestTick?
      modifies this
      ensures Valid()
      ensures hold == old(hold) && nextId == old(nextId)
      ensures var job := old(jobs[id]);
              var t := RestStep(job.seconds);
              && shown == t.display && completed == t.completed
              && (!completed ==> rest == old(rest) && jobs == old(jobs)[id := RestTick(job.index, t.remaining)])
              && (completed ==> rest == old(rest) - {job.index} && jobs == old(jobs) - {id})
    {
      var job := jobs[id];
      var t := RestStep(job.seconds);
      shown, completed := t.display, t.completed;
      if completed {
        assert RestIntervalOf(rest, job.index) == {id};
        forall other | other in jobs && other != id && jobs[other].RestTick?
          ensures jobs[other].index != job.index
        {
          assert rest[jobs[other].index] == other;
        }
        jobs := jobs - RestIntervalOf(rest, job.index);
        rest := rest - {job.index};
      } else {
        jobs := jobs[id := RestTick(job.index, t.remaining)];
      }
    }

    /**
     * `clearTimer(index)`: removes both records of exercise `index` and
     * stops their timers. A pending arming callback is never registered, so
     * it survives, unless it is timer 1 and the hold record is the
     * placeholder. Other exercises' timers are untouched, except timer 1
     * when a placeholder is cleared.
     */
    method ClearTimer(index: int)
      requires Valid()
      modifies this
      ensures Valid()
      ensures rest == old(rest) - {index} && hold == old(hold) - {index} && nextId == old(nextId)
      ensures jobs == old(jobs) - RestIntervalOf(old(rest), index) - HoldIntervalOf(old(hold), index)
      ensures forall id :: id in old(jobs) && id !in HoldIntervalOf(old(hold), index)
                             && (old(jobs)[id].index != index || old(jobs)[id].ArmHold?) ==>
                id in jobs && jobs[id] == old(jobs)[id]
      ensures index in old(hold) && old(hold)[index] == Placeholder ==> PlaceholderId !in jobs
      ensures !IsHolding(index)
    {
      jobs := jobs - RestIntervalOf(rest, index) - HoldIntervalOf(hold, index);
      rest := rest - {index};
      hold := hold - {index};
    }
  }

  /**
   * A one-second hold on exercise 1 whose arming finds no display: the
   * record goes and timer id 1 is used up.
   */
  method ArmedWithoutDisplay() returns (t: TimerCoordinator)
    ensures fresh(t) && t.Valid()
    ensures t.jobs == map[] && t.hold == map[] && t.rest == map[] && t.nextId == 2
  {
    t := new TimerCoordinator();
    var chime := t.StartHold(1, 1);
    assert t.jobs == map[1 := ArmHold(1, 1)];
    var shown := t.Arm(1, false);
  }

  /** A one-second hold on exercise 0, cleared at once: its arming (timer 2) stays scheduled. */
  method StartedThenCleared() returns (t: TimerCoordinator)
    ensures fresh(t) && t.Valid()
    ensures t.jobs == map[2 := ArmHold(0, 1)]
    ensures t.hold == map[] && t.rest == map[] && t.nextId == 3
  {
    t := ArmedWithoutDisplay();
    var chime := t.StartHold(0, 1);
    assert t.jobs == map[2 := ArmHold(0, 1)] && t.hold == map[0 := Placeholder] && t.rest == map[];
    assert RestIntervalOf(t.rest, 0) == {} && HoldIntervalOf(t.hold, 0) == {PlaceholderId};
    t.ClearTimer(0);
  }

  /** Start a hold on exercise 0, clear it, and start it again before the first arming fires. */
  method RestartBeforeArming() returns (t: TimerCoordinator)
    ensures fresh(t) && t.Valid()
    ensures t.jobs == map[2 := ArmHold(0, 1), 3 := ArmHold(0, 1)]
    ensures t.hold == map[0 := Placeholder] && t.rest == map[] && t.nextId == 4
  {
    t := StartedThenCleared();
    var chime := t.StartHold(0, 1);
  }

  /** A rest countdown on exercise 1 (timer 1), then a five-second hold on exercise 0 not yet armed. */
  method RestThenPendingHold() returns (t: TimerCoordinator)
    ensures fresh(t) && t.Valid()
    ensures t.rest == map[1 := 1] && t.hold == map[0 := Placeholder] && t.nextId == 3
    ensures t.jobs == map[1 := RestTick(1, Constants.RestTimerSeconds), 2 := ArmHold(0, 5)]
  {
    t := new TimerCoordinator();
    var started := t.StartRest(1, true);
    assert t.rest == map[1 := 1] && t.jobs == map[1 := RestTick(1, Constants.RestTimerSeconds)];
    var chime := t.StartHold(0, 5);
  }

  /**
   * Clearing a hold that has not armed yet passes the placeholder to
   * `clearInterval`, which stops timer 1: here the rest countdown of
   * another exercise. Its record stays, so a timer still counts as active
   * although no countdown will ever complete it.
   */
  method PendingHoldClearStopsTimerOne() returns (t: TimerCoordinator)
    ensures fresh(t) && t.Valid()
    ensures t.rest == map[1 := 1] && t.jobs == map[2 := ArmHold(0, 5)] && t.hold == map[]
    ensures t.HasActiveTimers()
  {
    t := RestThenPendingHold();
    ghost var before := t.jobs;
    assert RestIntervalOf(t.rest, 0) == {} && HoldIntervalOf(t.hold, 0) == {PlaceholderId};
    t.ClearTimer(0);
    assert t.jobs == before - {} - {1};
    assert 1 in t.rest;
  }

  /** Both pending armings fire: each installs an interval, and only the second is registered. */
  method ArmBoth(t: TimerCoordinator)
    requires t.Valid()
    requires t.jobs == map[2 := ArmHold(0, 1), 3 := ArmHold(0, 1)]
    requires t.hold == map[0 := Placeholder] && t.rest == map[] && t.nextId == 4
    modifies t
    ensures t.Valid()
    ensures t.jobs == map[4 := HoldTick(0, 1), 5 := HoldTick(0, 1)]
    ensures t.hold == map[0 := Interval(5)] && t.rest == map[]
  {
    var shown := t.Arm(2, true);
    assert t.jobs == map[3 := ArmHold(0, 1), 4 := HoldTick(0, 1)];
    shown := t.Arm(3, true);
  }

  /**
   * Arming does not re-check the record: start, clear and start again
   * before the first arming fires, and both armings install an interval.
   * The first is then no longer registered, so when it completes it stops
   * the second one instead of itself, and completes again on its next tick.
   */
  method RearmedHoldCompletesTwice() returns (first: bool, idleBetween: bool, second: bool)
    ensures first && idleBetween && second
  {
    var t := RestartBeforeArming();
    ArmBoth(t);
    var display;
    display, first := t.TickHold(4);
    assert t.jobs == map[4 := HoldTick(0, 0)] && t.hold == map[];
    idleBetween := !t.HasActiveTimers();
    display, second := t.TickHold(4);
  }
}
