# Pomodoro widget backend and timer display, in Dafny

A model of the logic of a desktop productivity widget: a Pomodoro timer and a
task list served by a small Python backend, and the two pure helpers of its
React front end that format the timer and edit the settings draft.

- `models.dfy` (module `Models`, for `backend/app/models.py`): task records and
  the TaskUpdate payload, the pomodoro settings with their defaults (25/5/15)
  and bounds (work 1..120, breaks 1..60), the phase names, the pomodoro state
  record with its initial value, and the remaining-time projections
  `remaining` and `remaining_seconds`.
- `services.dfy` (module `Services`, for `backend/app/services.py`): the
  phase-duration table; `start`, `stop` and `update_settings` as pure
  transitions on the state record with their properties (class invariant,
  frame, cycle counting, error edge); the `PomodoroService` class whose
  methods assign the state's fields in place and are proved to perform those
  transitions; and the `TaskService` class, an in-memory store keyed by task id
  with create, list, update and delete.
- `app.dfy` (module `App`, for `frontend/src/App.tsx`): the `remainingDisplay`
  formatter (`MM:SS`) and the `handleSettingsChange` draft update.
- `wrappers.dfy` (module `Wrappers`): Option, Result and Outcome.

Time is integer seconds and the clock is a `now` parameter; a phase lasts its
minutes times 60. Task ids are natural numbers standing for UUIDs, and the
caller supplies a fresh one.

What the code does, and the model with it:

- The class invariant: the timer runs exactly when both timestamps are set,
  and while it runs `ends_at - started_at` is the current phase's duration.
- `start` takes the requested phase, or the current phase when none (or an
  empty name) is given; an unknown name raises and changes nothing. Starting
  while running restarts. A cycle is counted when a work phase is *started*.
- `stop` clears the running flag and both timestamps and keeps the phase
  (there is no idle phase).
- `update_settings` replaces the settings wholesale; a running phase then
  ends at its original start time plus the new duration, so the elapsed time
  is kept (no proportional rescale). A settings payload with a field missing
  gets that field's default, not its current value (`MakeSettings`).
- There is no automatic advance when a phase expires and no long-break
  cadence: an expired phase stays "running" with zero time left, for which
  the snapshot reports no remaining seconds.

The code has no idle phase, no advance when a phase expires, no long-break
cadence, no proportional rescale on a settings change and no field-by-field
settings patch; the model has none either.

## Model

| member | source | states |
|---|---|---|
| `Models.MakeSettings` | backend/app/models.py:33-38 | a settings payload is accepted exactly when every given field is within its bound; absent fields take the defaults 25/5/15; accepted settings are valid |
| `Models.DefaultSettingsValid` | backend/app/models.py:36-38 | the defaults 25/5/15 are within the bounds and are what an empty payload yields |
| `Models.ParsePhase` | backend/app/services.py:57-61 | a name is a known phase exactly when it is "work", "short_break" or "long_break", and then it names that phase |
| `Models.Remaining` | backend/app/models.py:51-56 | no time left when not running or without an end time; otherwise non-negative, zero exactly when the end time has passed, else the end time minus now |
| `Models.RemainingSeconds` | backend/app/models.py:58-61 | reported exactly when running with an end time still in the future; a reported value is positive and reaches the end time |
| `Services.Consistent` | backend/app/services.py:74-96 | the class invariant: valid settings; running exactly when both timestamps are set, with end minus start the phase's duration |
| `Services.RequestedPhaseName` | backend/app/services.py:70 | the requested phase name when given and non-empty, else the current phase's name |
| `Services.Stopped` | backend/app/services.py:84-88 | the state after `stop`: not running, both timestamps cleared, all else kept |
| `Services.SettingsUpdated` | backend/app/services.py:90-97 | the state after `update_settings`: new settings; when running with a start time, the end time is the start time plus the new duration |
| `Services.Step` | backend/app/services.py:54-97 | one call on the service; a start that raises leaves the state unchanged |
| `Services.Run` | backend/app/services.py:54-97 | a sequence of calls applied in order |
| `Services.PhaseDuration` | backend/app/services.py:57-61 | a phase lasts a whole number of minutes in seconds; under valid settings between 60 seconds and the phase's bound |
| `Services.InitialStateConsistent` | backend/app/models.py:44-49 | the initial state (stopped, "work", no timestamps, 0 cycles, default settings) satisfies the class invariant |
| `Services.Started` | backend/app/services.py:69-82 | `start` fails exactly when a non-empty requested name is not a known phase, with that name in the error |
| `Services.StartRunsResolvedPhase` | backend/app/services.py:74-79 | a successful start runs the resolved phase from now for exactly its duration and keeps the settings |
| `Services.StartWithoutPhaseKeepsPhase` | backend/app/services.py:70 | without a requested phase, or with an empty one, start succeeds on the current phase |
| `Services.StartEstablishesConsistent` | backend/app/services.py:74-79 | a successful start establishes the class invariant, running or not before |
| `Services.StartCountsWorkCycles` | backend/app/services.py:80-81 | the cycle count goes up by one exactly when the started phase is work |
| `Services.StopClearsTimer` | backend/app/services.py:84-88 | stop clears the flag and both timestamps, keeps phase, settings and cycles, keeps the invariant, and is idempotent |
| `Services.StopWhenStoppedIsNoOp` | backend/app/services.py:84-88 | stopping a stopped timer changes nothing |
| `Services.UpdateSettingsFrame` | backend/app/services.py:90-97 | only the settings and, when running, the end time change; the new end time is the start time plus the new duration |
| `Services.UpdateSettingsKeepsConsistent` | backend/app/services.py:90-96 | a settings update re-establishes the class invariant |
| `Services.UpdateSettingsKeepsElapsed` | backend/app/services.py:92-96 | after a settings update the time left is the new duration minus the elapsed time, clamped at zero |
| `Services.RemainingWithinPhase` | backend/app/models.py:52-56 | while running, the time left never exceeds the phase's duration |
| `Services.RunKeepsConsistent` | backend/app/services.py:54-97 | the class invariant holds after any sequence of start, stop, update and read calls |
| `Services.RunCyclesMonotone` | backend/app/services.py:80-81 | the cycle count never decreases over any sequence of calls, failing ones included |
| `Services.PomodoroService.constructor` | backend/app/services.py:63-64 | a new service holds the initial state |
| `Services.PomodoroService.GetState` | backend/app/services.py:66-67 | returns the current state, which satisfies the invariant |
| `Services.PomodoroService.Start` | backend/app/services.py:69-82 | performs `Started` on the fields; on an unknown phase the state is unchanged |
| `Services.PomodoroService.Stop` | backend/app/services.py:84-88 | performs `Stopped` on the fields and keeps the invariant |
| `Services.PomodoroService.UpdateSettings` | backend/app/services.py:90-97 | performs `SettingsUpdated` on the fields and keeps the invariant |
| `Services.ApplyUpdate` | backend/app/services.py:43-44 | an update keeps id and creation time and replaces completion only when sent with a value (lines 43-44); the title follows the corrected rule of "## Findings": replaced only when sent with a value |
| `Services.UpdatedTitleAsWritten` | backend/app/services.py:41-42 | as written, a sent title is assigned even when it is null |
| `Services.NullTitleUpdateClearsTitle` | backend/app/services.py:41-42 | a valid `{"title": null}` payload leaves the task without a title |
| `Services.ApplyUpdateKeepsTitleValid` | backend/app/models.py:21 | with the null check, a task keeps a title of 1 to 200 characters |
| `Services.ApplyUpdateIdempotent` | backend/app/services.py:40-44 | an empty payload changes nothing and repeating a payload changes nothing more |
| `Services.InOrder` | backend/app/services.py:28-29 | the listing has one task per id, in the ids' order |
| `Services.RemoveId` | backend/app/services.py:51 | deleting an id from the order keeps every other id, keeps them distinct, and is the identity for an absent id |
| `Services.RemoveIdKeepsOrder` | backend/app/services.py:51 | deleting the id at index k leaves exactly the ids before and after it, in their order, as `del` does to the dict's key order |
| `Services.TaskService.constructor` | backend/app/services.py:25-26 | a new store is empty |
| `Services.TaskService.ListTasks` | backend/app/services.py:28-29 | lists every stored task, in insertion order |
| `Services.TaskService.CreateTask` | backend/app/services.py:31-34 | adds exactly one entry under the fresh id, with the given title, not completed, at the end of the order |
| `Services.TaskService.UpdateTask` | backend/app/services.py:36-46 | an absent id raises KeyError and changes nothing; otherwise only that task changes, by `ApplyUpdate` |
| `Services.TaskService.DeleteTask` | backend/app/services.py:48-51 | an absent id raises KeyError and changes nothing; otherwise exactly that id is removed, the others keeping their order (with `RemoveIdKeepsOrder`) |
| `App.DecimalString` | frontend/src/App.tsx:144-145 | the decimal text of a number is non-empty digits without a leading zero that read back as the number |
| `App.PadStart` | frontend/src/App.tsx:144-145 | padding reaches the width, ends with the original text and fills the front |
| `App.ZeroPaddingKeepsValue` | frontend/src/App.tsx:144-145 | zero padding keeps a digit string's value |
| `App.RemainingDisplay` | frontend/src/App.tsx:139-147 | the placeholder "--:--" is shown exactly for a null or zero value |
| `App.PaddedField` | frontend/src/App.tsx:144-145 | `String(n).padStart(2, "0")` |
| `App.ClockText` | frontend/src/App.tsx:144-146 | minutes and seconds fields joined by one colon; at least five characters, starting with a digit |
| `App.ClockTextShape` | frontend/src/App.tsx:144-146 | a clock has at least two minute digits, one colon, exactly two second digits, and its fields read back as the given minutes and seconds |
| `App.DisplayShape` | frontend/src/App.tsx:143-146 | a shown time is a clock whose fields read back as the minutes and the seconds below 60 of the clamped whole seconds, so minutes times 60 plus seconds is that total |
| `App.DisplayExamples` | frontend/src/App.tsx:143-146 | 125 shows "02:05", 7200 shows "120:00", a negative value shows "00:00" |
| `App.DisplayOfSnapshot` | frontend/src/App.tsx:140-141 | the timer shows the placeholder exactly when the backend's timer is not running or has expired |
| `App.HandleSettingsChange` | frontend/src/App.tsx:116-125 | only the named field takes the new value and a missing draft stays missing |
| `App.SettingsChangesCompose` | frontend/src/App.tsx:116-125 | the last change of a field wins and changes of different fields commute |

## Left out

- The HTTP layer (backend/app/main.py: routing, CORS, static files, mapping KeyError to 404 and ValueError to 400) and the desktop launcher (desktop/launch_widget.py) are not part of this model.
- The front end's network handlers, API base URL resolution and rendering are not modelled; only `remainingDisplay` and `handleSettingsChange` are.
- `datetime.utcnow()` and `uuid4()` become the `now` and `id` parameters; uniqueness of a UUID is the `id !in tasks` precondition of `CreateTask`.
- Timestamps are whole seconds: `total_seconds()` returns a float with microseconds, so `Math.floor` in the formatter is the identity here.
- Pydantic validation is stated as the predicates `ValidSettings`, `ValidTitle` and `ValidTaskUpdate`, required of the payloads the services receive; `MakeSettings` models the defaults and bounds of building a settings payload. JSON serialisation is left out.
- The phase field is a string in the source; the model gives it the type `Phase`, since it is only ever set to a known phase, so the `phase in PHASE_DURATIONS` check in `update_settings` always holds.
- `get_state` and the other operations return the live state object; the model returns a copy of the state, which is what the transport serialises anyway. The aliasing between returned Task objects and the store is likewise not modelled.
- Title lengths count Dafny characters, not Python code points.
- `App.HandleSettingsChange`: the value is an integer; `Number(...)` of a form input may also give NaN or a fraction, which is not modelled.
- `App.DecimalString`: models `String(n)` for whole numbers only; exponent notation for values of 1e21 and above is left out.
- Concurrency: the code has no locking and the model has none.
- Services.TaskService.UpdateTask: applies the corrected title rule of "## Findings", so an update `{"title": null}` keeps the old title, where the code stores None (services.py:41-42 and 45); the store's invariant that every title has 1 to 200 characters holds only under that rule.
- Services.ApplyUpdate: models lines 43-44 as written and the title with the corrected rule of "## Findings"; the title assignment as written is `Services.UpdatedTitleAsWritten`.

## Findings

| source | as written | input that shows it | evidently intended | confidence | as-written member | corrected member |
|---|---|---|---|---|---|---|
| backend/app/services.py:41-42 | the title is assigned whenever the payload sends the key, even as null; `completed` on line 43 is guarded against null, the title is not | an update of an existing task with the payload `{"title": null}`, which TaskUpdate accepts | a null title is ignored like a null `completed`, so every stored task keeps a title of 1 to 200 characters | medium, not executed | `Services.NullTitleUpdateClearsTitle` | `Services.ApplyUpdateKeepsTitleValid` |

The as-written title update is `Services.UpdatedTitleAsWritten`; the corrected update, `Services.ApplyUpdate`, is the one `TaskService.UpdateTask` uses, and the store's invariant that every title is valid rests on it.
