/**
 * The domain services of the widget backend (backend/app/services.py).
 *
 * PomodoroService is a state container over one PomodoroState: `start`,
 * `stop` and `update_settings` assign its fields in place. Each operation is
 * specified by a pure transition on PomodoroState (Started, Stopped,
 * SettingsUpdated); the lemmas state what the service promises about those
 * transitions, and the class methods are proved to perform them.
 *
 * TaskService is an in-memory keyed record store with create, list, update
 * and delete, where update and delete of an absent id raise KeyError.
 */
module Services {
  import opened Wrappers
  import opened Models

  // ====================================================== pomodoro timer

  /** The phase-duration table: the phase's minutes from the settings, in seconds. */
  function PhaseDuration(p: Phase, s: Settings): (d: int)
    ensures d % 60 == 0
    ensures ValidSettings(s) ==> 60 <= d <= 60 * MaxMinutes(p)
  {
    60 * match p
      case Work => s.workMinutes
      case ShortBreak => s.shortBreakMinutes
      case LongBreak => s.longBreakMinutes
  }

  /** The class invariant of the timer state. */
  predicate Consistent(st: PomodoroState) {
    && ValidSettings(st.settings)
    && (st.isRunning ==> st.startedAt.Some? && st.endsAt.Some?
                         && st.endsAt.value - st.startedAt.value == PhaseDuration(st.currentPhase, st.settings))
    && (!st.isRunning ==> st.startedAt.None? && st.endsAt.None?)
  }

  lemma InitialStateConsistent()
    ensures Consistent(InitialState)
    ensures !InitialState.isRunning && InitialState.currentPhase == Work && InitialState.completedCycles == 0
  {
  }

  datatype PomodoroError = UnknownPhase(name: string)

  /** The phase `start` acts on: the requested one when given and non-empty, else the current one. */
  function RequestedPhaseName(requested: Option<string>, current: Phase): string {
    if requested.Some? && requested.value != "" then requested.value else PhaseName(current)
  }

  /** What `start` does to the state at time `now`. */
  function Started(st: PomodoroState, requested: Option<string>, now: int): (r: Result<PomodoroState, PomodoroError>)
    ensures r.Failure? <==> requested.Some? && requested.value != "" && ParsePhase(requested.value).None?
    ensures r.Failure? ==> r.error == UnknownPhase(requested.value)
  {
    var name := RequestedPhaseName(requested, st.currentPhase);
    match ParsePhase(name)
    case None => Failure(UnknownPhase(name))
    case Some(p) =>
      Success(st.(isRunning := true,
                  currentPhase := p,
                  startedAt := Some(now),
                  endsAt := Some(now + PhaseDuration(p, st.settings)),
                  completedCycles := if p == Work then st.completedCycles + 1 else st.completedCycles))
  }

  /** What `stop` does to the state. */
  function Stopped(st: PomodoroState): PomodoroState {
    st.(isRunning := false, startedAt := None, endsAt := None)
  }

  /** What `update_settings` does to the state. */
  function SettingsUpdated(st: PomodoroState, s: Settings): PomodoroState {
    var st' := st.(settings := s);
    if st'.isRunning && st'.startedAt.Some? then
      st'.(endsAt := Some(st'.startedAt.value + PhaseDuration(st'.currentPhase, s)))
    else
      st'
  }

  /** A successful start runs the resolved phase from `now` for exactly that phase's duration. */
  lemma StartRunsResolvedPhase(st: PomodoroState, requested: Option<string>, now: int)
    requires Started(st, requested, now).Success?
    ensures var st' := Started(st, requested, now).value;
      && st'.isRunning
      && PhaseName(st'.currentPhase) == RequestedPhaseName(requested, st.currentPhase)
      && st'.startedAt == Some(now)
      && st'.endsAt == Some(now + PhaseDuration(st'.currentPhase, st.settings))
      && st'.settings == st.settings
  {
  }

  /** Without a (non-empty) requested phase, `start` never fails and restarts the current phase. */
  lemma StartWithoutPhaseKeepsPhase(st: PomodoroState, requested: Option<string>, now: int)
    requires requested.None? || requested == Some("")
    ensures Started(st, requested, now).Success?
    ensures Started(st, requested, now).value.currentPhase == st.currentPhase
  {
  }

  /** `start` establishes the invariant, whether or not the timer was already running. */
  lemma StartEstablishesConsistent(st: PomodoroState, requested: Option<string>, now: int)
    requires ValidSettings(st.settings)
    ensures Started(st, requested, now).Success? ==> Consistent(Started(st, requested, now).value)
  {
  }

  /** A start counts one cycle exactly when it resolves to "work"; a failing start counts none. */
  lemma StartCountsWorkCycles(st: PomodoroState, requested: Option<string>, now: int)
    ensures var r := Started(st, requested, now);
      r.Success? ==> r.value.completedCycles == st.completedCycles + (if r.value.currentPhase == Work then 1 else 0)
  {
  }

  /** `stop` clears the timestamps and keeps phase, settings and cycles, and it is idempotent. */
  lemma StopClearsTimer(st: PomodoroState)
    ensures var st' := Stopped(st);
      && !st'.isRunning && st'.startedAt.None? && st'.endsAt.None?
      && st'.currentPhase == st.currentPhase && st'.settings == st.settings
      && st'.completedCycles == st.completedCycles
    ensures Stopped(Stopped(st)) == Stopped(st)
    ensures ValidSettings(st.settings) ==> Consistent(Stopped(st))
  {
  }

  /** On a stopped timer, `stop` changes nothing. */
  lemma StopWhenStoppedIsNoOp(st: PomodoroState)
    requires Consistent(st) && !st.isRunning
    ensures Stopped(st) == st
  {
  }

  /**
   * `update_settings` replaces the settings wholesale and keeps the running
   * flag, the phase, the start time and the cycles; a stopped timer keeps its
   * end time, a running one ends at the start time plus the new duration.
   */
  lemma UpdateSettingsFrame(st: PomodoroState, s: Settings)
    requires Consistent(st)
    ensures var st' := SettingsUpdated(st, s);
      && st'.settings == s
      && st'.isRunning == st.isRunning && st'.currentPhase == st.currentPhase
      && st'.startedAt == st.startedAt && st'.completedCycles == st.completedCycles
      && (!st.isRunning ==> st'.endsAt == st.endsAt)
      && (st.isRunning ==> st'.endsAt == Some(st.startedAt.value + PhaseDuration(st.currentPhase, s)))
  {
  }

  /** `update_settings` with valid settings re-establishes the invariant. */
  lemma UpdateSettingsKeepsConsistent(st: PomodoroState, s: Settings)
    requires Consistent(st) && ValidSettings(s)
    ensures Consistent(SettingsUpdated(st, s))
  {
  }

  /**
   * The rescale policy of `update_settings`: the time already elapsed is
   * kept, so the time left becomes the new duration minus the elapsed time,
   * clamped at zero (not a proportional rescale).
   */
  lemma UpdateSettingsKeepsElapsed(st: PomodoroState, s: Settings, now: int)
    requires Consistent(st) && st.isRunning
    ensures var elapsed := now - st.startedAt.value;
            var left := PhaseDuration(st.currentPhase, s) - elapsed;
      Remaining(SettingsUpdated(st, s), now) == Some(if left < 0 then 0 else left)
  {
  }

  /** While the invariant holds and the clock has not gone back, the time left never exceeds the phase's duration. */
  lemma RemainingWithinPhase(st: PomodoroState, now: int)
    requires Consistent(st) && st.isRunning && st.startedAt.value <= now
    ensures Remaining(st, now).Some?
    ensures Remaining(st, now).value <= PhaseDuration(st.currentPhase, st.settings)
  {
  }

  /** A call the API makes on the service (the snapshot read changes nothing). */
  datatype Command =
    | StartCommand(requested: Option<string>, now: int)
    | StopCommand
    | UpdateSettingsCommand(settings: Settings)
    | GetStateCommand

  /** The settings a command carries have passed payload validation. */
  predicate ValidCommand(c: Command) {
    c.UpdateSettingsCommand? ==> ValidSettings(c.settings)
  }

  /** One call; a start that raises leaves the state as it was. */
  function Step(st: PomodoroState, c: Command): PomodoroState {
    match c
    case StartCommand(requested, now) =>
      var r := Started(st, requested, now);
      if r.Success? then r.value else st
    case StopCommand => Stopped(st)
    case UpdateSettingsCommand(s) => SettingsUpdated(st, s)
    case GetStateCommand => st
  }

  /** A sequence of calls, in order. */
  function Run(st: PomodoroState, cs: seq<Command>): PomodoroState
    decreases |cs|
  {
    if cs == [] then st else Run(Step(st, cs[0]), cs[1..])
  }

  /** The invariant holds after any sequence of calls with validated payloads. */
  lemma {:induction false} RunKeepsConsistent(st: PomodoroState, cs: seq<Command>)
    requires Consistent(st)
    requires forall i :: 0 <= i < |cs| ==> ValidCommand(cs[i])
    ensures Consistent(Run(st, cs))
    decreases |cs|
  {
    if cs != [] {
      var c := cs[0];
      match c {
        case StartCommand(requested, now) => StartEstablishesConsistent(st, requested, now);
        case StopCommand =>
        case UpdateSettingsCommand(s) => UpdateSettingsKeepsConsistent(st, s);
        case GetStateCommand =>
      }
      assert forall i :: 0 <= i < |cs[1..]| ==> ValidCommand(cs[1..][i]) by {
        forall i | 0 <= i < |cs[1..]| ensures ValidCommand(cs[1..][i]) {
          assert cs[1..][i] == cs[i + 1];
        }
      }
      RunKeepsConsistent(Step(st, c), cs[1..]);
    }
  }

  /** The cycle counter never decreases, whatever the calls and however they fail. */
  lemma {:induction false} RunCyclesMonotone(st: PomodoroState, cs: seq<Command>)
    ensures Run(st, cs).completedCycles >= st.completedCycles
    decreases |cs|
  {
    if cs != [] {
      RunCyclesMonotone(Step(st, cs[0]), cs[1..]);
    }
  }

  /** The timer service: one mutable state record. */
  class PomodoroService {
    var isRunning: bool
    var currentPhase: Phase
    var settings: Settings
    var startedAt: Option<int>
    var endsAt: Option<int>
    var completedCycles: nat

    /** The state record as a value. */
    function State(): PomodoroState
      reads this
    {
      PomodoroState(isRunning, currentPhase, settings, startedAt, endsAt, completedCycles)
    }

    ghost predicate Valid()
      reads this
    {
      Consistent(State())
    }

    constructor ()
      ensures Valid()
      ensures State() == InitialState
    {
      isRunning := false;
      currentPhase := Work;
      settings := DefaultSettings;
      startedAt := None;
      endsAt := None;
      completedCycles := 0;
    }

    /** The current state snapshot. */
    method GetState() returns (st: PomodoroState)
      requires Valid()
      ensures st == State() && Consistent(st)
    {
      st := State();
    }

    /** Starts the requested phase (or the current one) at `now`; an unknown phase raises and changes nothing. */
    method Start(requested: Option<string>, now: int) returns (r: Result<PomodoroState, PomodoroError>)
      requires Valid()
      modifies this
      ensures Valid()
      ensures r == Started(old(State()), requested, now)
      ensures r.Success? ==> State() == r.value
      ensures r.Failure? ==> State() == old(State())
    {
      StartEstablishesConsistent(State(), requested, now);
      var phase := RequestedPhaseName(requested, currentPhase);
      var known := ParsePhase(phase);
      if known.None? {
        return Failure(UnknownPhase(phase));
      }
      var duration := PhaseDuration(known.value, settings);
      isRunning := true;
      currentPhase := known.value;
      startedAt := Some(now);
      endsAt := Some(now + duration);
      if known.value == Work {
        completedCycles := completedCycles + 1;
      }
      r := Success(State());
    }

    /** Stops the timer and clears both timestamps. */
    method Stop() returns (st: PomodoroState)
      requires Valid()
      modifies this
      ensures Valid()
      ensures State() == Stopped(old(State())) && st == State()
    {
      isRunning := false;
      startedAt := None;
      endsAt := None;
      st := State();
    }

    /** Replaces the settings; a running phase now ends at its start time plus the new duration. */
    method UpdateSettings(newSettings: Settings) returns (st: PomodoroState)
      requires Valid() && ValidSettings(newSettings)
      modifies this
      ensures Valid()
      ensures State() == SettingsUpdated(old(State()), newSettings) && st == State()
    {
      UpdateSettingsKeepsConsistent(State(), newSettings);
      settings := newSettings;
      if isRunning && startedAt.Some? {
        var duration := PhaseDuration(currentPhase, newSettings);
        endsAt := Some(startedAt.value + duration);
      }
      st := State();
    }
  }

  // ========================================================== task store

  datatype TaskError = KeyError(id: TaskId)

  predicate Distinct(ids: seq<TaskId>) {
    forall i, j :: 0 <= i < j < |ids| ==> ids[i] != ids[j]
  }

  /**
   * The update of one task as the store should apply it: a title or a
   * completion flag that is sent with a value replaces the old one; a field
   * that is unset or explicitly null is kept.
   */
  function ApplyUpdate(t: Task, u: TaskUpdate): (r: Task)
    ensures r.id == t.id && r.createdAt == t.createdAt
    ensures r.title == (if u.title.Given? && u.title.value.Some? then u.title.value.value else t.title)
    ensures r.completed == (if u.completed.Given? && u.completed.value.Some? then u.completed.value.value else t.completed)
  {
    var t1 := if u.title.Given? && u.title.value.Some? then t.(title := u.title.value.value) else t;
    if u.completed.Given? && u.completed.value.Some? then t1.(completed := u.completed.value.value) else t1
  }

  /**
   * The title a task holds after update_task as the code is written: the
   * title field is assigned whenever it was sent, even as an explicit null
   * (None stands for Python's None).
   */
  function UpdatedTitleAsWritten(title: string, u: TaskUpdate): (r: Option<string>)
    ensures u.title.Given? ==> r == u.title.value
    ensures u.title.Unset? ==> r == Some(title)
  {
    if u.title.Given? then u.title.value else Some(title)
  }

  /** As written, a valid payload `{"title": null}` leaves the task with no title at all. */
  lemma NullTitleUpdateClearsTitle(title: string)
    ensures var u := TaskUpdate(Given(None), Unset);
      ValidTaskUpdate(u) && UpdatedTitleAsWritten(title, u) == None
  {
  }

  /** With the null check, an update of a task with a valid title keeps a valid title. */
  lemma ApplyUpdateKeepsTitleValid(t: Task, u: TaskUpdate)
    requires ValidTitle(t.title) && ValidTaskUpdate(u)
    ensures ValidTitle(ApplyUpdate(t, u).title)
  {
  }

  /** An empty payload changes nothing, and applying the same payload twice is the same as once. */
  lemma ApplyUpdateIdempotent(t: Task, u: TaskUpdate)
    ensures ApplyUpdate(t, TaskUpdate(Unset, Unset)) == t
    ensures ApplyUpdate(ApplyUpdate(t, u), u) == ApplyUpdate(t, u)
  {
  }

  /** The tasks named by `ids`, in that order (the dict's insertion order). */
  function InOrder(tasks: map<TaskId, Task>, ids: seq<TaskId>): (r: seq<Task>)
    requires forall k :: 0 <= k < |ids| ==> ids[k] in tasks
    ensures |r| == |ids|
    ensures forall k :: 0 <= k < |ids| ==> r[k] == tasks[ids[k]]
  {
    if ids == [] then [] else [tasks[ids[0]]] + InOrder(tasks, ids[1..])
  }

  /** `ids` with `id` taken out, the rest in their order. */
  function RemoveId(ids: seq<TaskId>, id: TaskId): (r: seq<TaskId>)
    ensures forall x :: x in r <==> x in ids && x != id
    ensures Distinct(ids) ==> Distinct(r)
    ensures id !in ids ==> r == ids
  {
    if ids == [] then []
    else if ids[0] == id then RemoveId(ids[1..], id)
    else
      var rest := RemoveId(ids[1..], id);
      assert Distinct(ids) ==> ids[0] !in ids[1..] && Distinct(ids[1..]);
      [ids[0]] + rest
  }

  /** Deleting an id that occurs at index `k` keeps the ids before and after it, in their order. */
  lemma {:induction false} RemoveIdKeepsOrder(ids: seq<TaskId>, id: TaskId, k: nat)
    requires Distinct(ids) && k < |ids| && ids[k] == id
    ensures RemoveId(ids, id) == ids[..k] + ids[k + 1..]
    decreases k
  {
    var tail := ids[1..];
    assert Distinct(tail) by {
      forall i, j | 0 <= i < j < |tail| ensures tail[i] != tail[j] {
        assert tail[i] == ids[i + 1] && tail[j] == ids[j + 1];
      }
    }
    if k == 0 {
      assert id !in tail by {
        forall j | 0 <= j < |tail| ensures tail[j] != id {
          assert tail[j] == ids[j + 1];
        }
      }
      assert RemoveId(ids, id) == RemoveId(tail, id);
    } else {
      assert ids[0] != id;
      assert tail[k - 1] == id;
      assert RemoveId(ids, id) == [ids[0]] + RemoveId(tail, id);
      RemoveIdKeepsOrder(tail, id, k - 1);
      assert ids[..k] == [ids[0]] + tail[..k - 1];
      assert ids[k + 1..] == tail[k..];
    }
  }

  /** The task store: a map from id to task, and the ids in insertion order. */
  class TaskService {
    var tasks: map<TaskId, Task>
    var order: seq<TaskId>

    ghost predicate Valid()
      reads this
    {
      && Distinct(order)
      && (forall id :: id in tasks <==> id in order)
      && (forall id :: id in tasks ==> tasks[id].id == id && ValidTitle(tasks[id].title))
    }

    constructor ()
      ensures Valid()
      ensures tasks == map[] && order == []
    {
      tasks := map[];
      order := [];
    }

    /** All tasks, in the order they were created. */
    method ListTasks() returns (r: seq<Task>)
      requires Valid()
      ensures |r| == |order|
      ensures forall k :: 0 <= k < |r| ==> r[k] == tasks[order[k]]
      ensures forall id :: id in tasks ==> tasks[id] in r
    {
      r := InOrder(tasks, order);
      forall id | id in tasks ensures tasks[id] in r {
        var k :| 0 <= k < |order| && order[k] == id;
        assert r[k] == tasks[id];
      }
    }

    /** Adds one task with the given title, not completed, under the fresh id `id`. */
    method CreateTask(title: string, id: TaskId, now: int) returns (t: Task)
      requires Valid() && ValidTitle(title) && id !in tasks
      modifies this
      ensures Valid()
      ensures t == Task(id, title, false, now)
      ensures tasks == old(tasks)[id := t] && order == old(order) + [id]
    {
      t := Task(id, title, false, now);
      tasks := tasks[id := t];
      order := order + [id];
    }

    /** Updates the fields the payload sends; an absent id raises KeyError and changes nothing. */
    method UpdateTask(id: TaskId, u: TaskUpdate) returns (r: Result<Task, TaskError>)
      requires Valid() && ValidTaskUpdate(u)
      modifies this
      ensures Valid()
      ensures order == old(order)
      ensures id !in old(tasks) ==> r == Failure(KeyError(id)) && tasks == old(tasks)
      ensures id in old(tasks) ==> r == Success(ApplyUpdate(old(tasks)[id], u)) && tasks == old(tasks)[id := r.value]
    {
      if id !in tasks {
        return Failure(KeyError(id));
      }
      var t := ApplyUpdate(tasks[id], u);
      ApplyUpdateKeepsTitleValid(tasks[id], u);
      tasks := tasks[id := t];
      r := Success(t);
    }

    /** Removes the task `id`; an absent id raises KeyError and changes nothing. */
    method DeleteTask(id: TaskId) returns (r: Outcome<TaskError>)
      requires Valid()
      modifies this
      ensures Valid()
      ensures id !in old(tasks) ==> r == Fail(KeyError(id)) && tasks == old(tasks) && order == old(order)
      ensures id in old(tasks) ==> r == Pass && tasks == old(tasks) - {id} && order == RemoveId(old(order), id)
    {
      if id !in tasks {
        return Fail(KeyError(id));
      }
      tasks := tasks - {id};
      order := RemoveId(order, id);
      r := Pass;
    }
  }
}
