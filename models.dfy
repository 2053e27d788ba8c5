/**
 * The data model of the widget backend (backend/app/models.py): task records
 * and their payloads, the pomodoro settings with their defaults and bounds, the
 * pomodoro state record with its initial values, and the remaining-time
 * projections computed from that record and the clock.
 *
 * Timestamps are integer seconds and the clock is passed in as `now`.
 */
module Models {
  import opened Wrappers

  // ---------------------------------------------------------------- tasks

  /** Stands for the task's UUID; the caller supplies a fresh one. */
  type TaskId = nat

  const MaxTitleLength: nat := 200

  /** The title constraint of TaskCreate and TaskUpdate: 1 to 200 characters. */
  predicate ValidTitle(title: string) {
    1 <= |title| <= MaxTitleLength
  }

  /** A task as stored and exposed by the API. */
  datatype Task = Task(id: TaskId, title: string, completed: bool, createdAt: int)

  /**
   * Whether a field of an update payload was sent at all (`exclude_unset`
   * keeps only fields that were), and with which value; an explicit JSON
   * null is `Given(None)`.
   */
  datatype Presence<T> = Unset | Given(value: T)

  /** The TaskUpdate payload: an optional title and an optional completion flag. */
  datatype TaskUpdate = TaskUpdate(title: Presence<Option<string>>, completed: Presence<Option<bool>>)

  /** The payload validation of TaskUpdate: a title that is sent as a string has 1 to 200 characters. */
  predicate ValidTaskUpdate(u: TaskUpdate) {
    u.title.Given? && u.title.value.Some? ==> ValidTitle(u.title.value.value)
  }

  // ------------------------------------------------------------- settings

  /** User-configurable durations, in minutes. */
  datatype Settings = Settings(workMinutes: int, shortBreakMinutes: int, longBreakMinutes: int)

  const DefaultWorkMinutes: int := 25
  const DefaultShortBreakMinutes: int := 5
  const DefaultLongBreakMinutes: int := 15
  const MaxWorkMinutes: int := 120
  const MaxBreakMinutes: int := 60

  const DefaultSettings: Settings := Settings(DefaultWorkMinutes, DefaultShortBreakMinutes, DefaultLongBreakMinutes)

  /** The field bounds of PomodoroSettings: work 1..120, each break 1..60. */
  predicate ValidSettings(s: Settings) {
    && 1 <= s.workMinutes <= MaxWorkMinutes
    && 1 <= s.shortBreakMinutes <= MaxBreakMinutes
    && 1 <= s.longBreakMinutes <= MaxBreakMinutes
  }

  datatype SettingsError = InvalidSettings

  predicate InBounds(v: Option<int>, hi: int) {
    v.Some? ==> 1 <= v.value <= hi
  }

  /**
   * Building a PomodoroSettings from a payload: a field that is absent takes
   * its default (not the value currently in use), and a field outside its
   * bound rejects the whole payload.
   */
  function MakeSettings(work: Option<int>, shortBreak: Option<int>, longBreak: Option<int>): (r: Result<Settings, SettingsError>)
    ensures r.Success? <==> InBounds(work, MaxWorkMinutes) && InBounds(shortBreak, MaxBreakMinutes) && InBounds(longBreak, MaxBreakMinutes)
    ensures r.Success? ==> ValidSettings(r.value)
    ensures r.Success? && work.None? ==> r.value.workMinutes == DefaultWorkMinutes
    ensures r.Success? && work.Some? ==> r.value.workMinutes == work.value
    ensures r.Success? && shortBreak.None? ==> r.value.shortBreakMinutes == DefaultShortBreakMinutes
    ensures r.Success? && shortBreak.Some? ==> r.value.shortBreakMinutes == shortBreak.value
    ensures r.Success? && longBreak.None? ==> r.value.longBreakMinutes == DefaultLongBreakMinutes
    ensures r.Success? && longBreak.Some? ==> r.value.longBreakMinutes == longBreak.value
  {
    var s := Settings(work.GetOr(DefaultWorkMinutes), shortBreak.GetOr(DefaultShortBreakMinutes), longBreak.GetOr(DefaultLongBreakMinutes));
    if ValidSettings(s) then Success(s) else Failure(InvalidSettings)
  }

  lemma DefaultSettingsValid()
    ensures ValidSettings(DefaultSettings)
    ensures MakeSettings(None, None, None) == Success(DefaultSettings)
  {
  }

  // ---------------------------------------------------------------- phases

  /** The three phases the timer knows. */
  datatype Phase = Work | ShortBreak | LongBreak

  /** The name of a phase on the wire. */
  function PhaseName(p: Phase): string {
    match p
    case Work => "work"
    case ShortBreak => "short_break"
    case LongBreak => "long_break"
  }

  /** Looking a phase up by its name; any other string is unknown. */
  function ParsePhase(name: string): (r: Option<Phase>)
    ensures forall p :: r == Some(p) <==> PhaseName(p) == name
  {
    if name == "work" then Some(Work)
    else if name == "short_break" then Some(ShortBreak)
    else if name == "long_break" then Some(LongBreak)
    else None
  }

  /** The upper bound on the minutes of a phase. */
  function MaxMinutes(p: Phase): int {
    if p == Work then MaxWorkMinutes else MaxBreakMinutes
  }

  // ---------------------------------------------------------------- state

  /** The runtime state of the pomodoro timer. */
  datatype PomodoroState = PomodoroState(
    isRunning: bool,
    currentPhase: Phase,
    settings: Settings,
    startedAt: Option<int>,
    endsAt: Option<int>,
    completedCycles: nat)

  /** The state a fresh service starts from: stopped, in "work", no timestamps, no cycles, default settings. */
  const InitialState: PomodoroState := PomodoroState(false, Work, DefaultSettings, None, None, 0)

  /**
   * The time left, `max(ends_at - now, 0)`, or None when the timer is not
   * running or has no end time.
   */
  function Remaining(st: PomodoroState, now: int): (r: Option<int>)
    ensures r.None? <==> !st.isRunning || st.endsAt.None?
    ensures r.Some? ==> r.value >= 0
    ensures r.Some? ==> (r.value == 0 <==> st.endsAt.value <= now)
    ensures r.Some? && r.value > 0 ==> now + r.value == st.endsAt.value
  {
    if !st.isRunning || st.endsAt.None? then None
    else
      var delta := st.endsAt.value - now;
      Some(if delta < 0 then 0 else delta)
  }

  /**
   * The remaining seconds reported in the state snapshot: a zero time left
   * is falsy, so it reports None as well, and a reported value is positive.
   */
  function RemainingSeconds(st: PomodoroState, now: int): (r: Option<int>)
    ensures r.Some? <==> st.isRunning && st.endsAt.Some? && now < st.endsAt.value
    ensures r.Some? ==> r.value > 0 && now + r.value == st.endsAt.value
  {
    var remaining := Remaining(st, now);
    if remaining.Some? && remaining.value != 0 then remaining else None
  }
}
