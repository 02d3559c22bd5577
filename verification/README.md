# Replay buffer convenience — a Dafny model

This project models the decision logic of the OBS script `replay-buffer-convenience.py`. The script turns the OBS replay buffer on while one of a configured set of applications is running, and off otherwise. All OBS, psutil and threading calls become plain inputs. The model has four parts, one module each:

- `PathList` (`path_list.dfy`) models the settings' semicolon-separated application list. It covers the "Add path to list" button (split, drop duplicates keeping first occurrences, drop the empty entry, move the new path to the end, join) and the "Clear all paths" button.
- `Presence` (`presence.dfy`) models `is_any_executable_running`. The process table is a `seq<Option<string>>`: `None` stands for any process for which the `try` block raises. That covers an unreadable command line, an empty one, and a failing path function. `os.path.normpath` and `os.path.abspath` are arbitrary functions passed in as parameters. An empty path list answers `None`, as the script's bare `return` does.
- `Reconcile` (`reconcile.dfy`) models `check_replay_buffer`. It issues at most one start or stop request from the presence answer (Python truthiness) and the buffer state.
- `BackgroundWorker` (`worker.dfy`) models `background_worker` as a step function over the phases `Outer`, `Inner` and `Done`. One `Inner` step is one tick. Its inputs are the settings, the process table, the buffer state and the reload/cancel flags seen after the sleep. `Run` drives the worker through a sequence of events. Before each step it applies the flag writes of `script_update` and `script_unload`.

`Wrappers` (`wrappers.dfy`) holds the `Option` type.

Two behaviours of the script are kept as written:

- An empty path list makes the presence query answer `None`, not `False`. `check_replay_buffer` treats `None` as false.
- The worker always sleeps the full interval. It reads the reload and cancel flags only after the sleep.

## Model

| member | source | states |
|---|---|---|
| PathList.Split | replay-buffer-convenience.py:111 | Python's `split(';')` never yields an empty list |
| PathList.SplitHasNoSep | replay-buffer-convenience.py:48 | no piece of a split string contains the separator |
| PathList.SplitCountsSeparators | replay-buffer-convenience.py:48 | a string splits into one piece more than it has separators |
| PathList.SplitJoin | replay-buffer-convenience.py:54 | joining separator-free entries with `;` and splitting again gives the same entries back |
| PathList.Join | replay-buffer-convenience.py:54 | `';'.join` puts the first entry at the front of the stored string, followed by a separator when more entries come |
| PathList.JoinSplit | replay-buffer-convenience.py:48 | splitting a stored list and joining it again gives the same string back |
| PathList.Dedup | replay-buffer-convenience.py:48 | `OrderedDict.fromkeys` keeps exactly the entries of its input, each once |
| PathList.DedupKeepsFirstOccurrenceOrder | replay-buffer-convenience.py:48 | the kept entries appear in the order of their first occurrence in the input |
| PathList.Remove | replay-buffer-convenience.py:49-52 | popping a key leaves exactly the other entries |
| PathList.Kept | replay-buffer-convenience.py:48-52 | the entries that survive are the old non-empty entries other than the new path, in first-occurrence order, none holding a separator |
| PathList.AddPath | replay-buffer-convenience.py:46-54 | for a path without `;`, the stored list read back ends with the path and has no duplicates; its entries are exactly the old non-empty entries plus the path; the others keep their first-occurrence order |
| PathList.AddPathIdempotent | replay-buffer-convenience.py:46-54 | adding the same `;`-free path twice stores the same string as adding it once |
| PathList.ClearedPaths | replay-buffer-convenience.py:63 | the cleared list reads back as the single empty entry |
| PathList.AddToCleared | replay-buffer-convenience.py:46-63 | adding a path to a cleared list stores exactly that path |
| PathList.AddPathReadBack | replay-buffer-convenience.py:46-54 | for every path, the stored list reads back as the kept entries in order followed by the pieces of the path between `;`, so a `;`-free path is exactly the last entry |
| PathList.SeparatorsInPathSplitIt | replay-buffer-convenience.py:46-54 | a path with k separators is read back as k+1 entries after the kept ones, so a path containing `;` never comes back as one entry and the add properties need a `;`-free path |
| PathList.SeparatorInPathSplitsIt | replay-buffer-convenience.py:46-63 | the path `a;b` added to a cleared list reads back as the two entries `a` and `b` |
| Presence.ScanProcesses | replay-buffer-convenience.py:88-96 | the scan finds a match iff some readable process's normalised absolute path is configured; unreadable entries are skipped |
| Presence.IsAnyExecutableRunning | replay-buffer-convenience.py:84-96 | an empty path list gives `None`; otherwise the answer is `True` iff some readable process's normalised absolute path is in the normalised configured set |
| Presence.FailedProcessIsSkipped | replay-buffer-convenience.py:89-95 | inserting a process whose introspection raised, at any position, never changes the answer |
| Presence.OnlyTheProcessSetMatters | replay-buffer-convenience.py:88-96 | two process tables with the same entries, in any order, give the same answer |
| Presence.ConfiguredProcessIsFound | replay-buffer-convenience.py:87-93 | a readable process whose path normalises like a configured path makes the answer `True`, whatever the other processes do |
| Reconcile.CheckReplayBuffer | replay-buffer-convenience.py:98-104 | start only when an application runs and the buffer is off; stop only when none runs and the buffer is on; nothing otherwise |
| Reconcile.CheckConverges | replay-buffer-convenience.py:98-104 | once the request takes effect, the buffer is on exactly when the presence answer is truthy |
| Reconcile.CheckSettles | replay-buffer-convenience.py:98-104 | an immediate second check with the same presence answer issues nothing |
| Reconcile.EmptyPathListOnlyStops | replay-buffer-convenience.py:84-104 | the `None` answer for an empty list never starts the buffer and stops it when it is on |
| BackgroundWorker.Step | replay-buffer-convenience.py:106-124 | the outer loop alone re-reads paths and frequency; requests come only from ticks with automation on, using the held paths; the worker ends exactly when a tick sees cancel; leaving the tick loop clears reload, and ending clears cancel |
| BackgroundWorker.TickAction | replay-buffer-convenience.py:116-117 | a tick starts the buffer iff automation is on, the buffer is off and a configured application runs; it stops it iff automation is on, the buffer is on and none runs |
| BackgroundWorker.WorkerNeverQueriesEmptyList | replay-buffer-convenience.py:111 | the worker's split path list is never empty, so it never reaches the `None` answer |
| BackgroundWorker.ScriptLoad | replay-buffer-convenience.py:126-134 | loading clears the cancel flag and starts a worker about to read the settings |
| BackgroundWorker.ScriptUpdate | replay-buffer-convenience.py:33-36 | a settings update sets the reload flag and leaves cancel alone |
| BackgroundWorker.ScriptUnload | replay-buffer-convenience.py:136-139 | unloading sets the cancel flag and leaves reload alone |
| BackgroundWorker.Written | replay-buffer-convenience.py:33-139 | after the callbacks of an event, reload is set iff it was set or the settings were updated, and cancel iff it was set or the script was unloaded |
| BackgroundWorker.Run | replay-buffer-convenience.py:106-124 | one request slot per event, and a tick-loop worker always holds a non-empty path list |
| BackgroundWorker.RunEndsOnlyOnCancel | replay-buffer-convenience.py:119-123 | without an unload the worker never returns |
| BackgroundWorker.LoadedWorkerRunsUntilUnload | replay-buffer-convenience.py:126-134 | a worker started by `script_load` keeps running until `script_unload` |
| BackgroundWorker.DoneIsFinal | replay-buffer-convenience.py:122-124 | a returned worker stays returned and issues no requests |
| BackgroundWorker.TicksUseHeldPaths | replay-buffer-convenience.py:115-120 | without a reload or cancel, every tick checks the paths read last, whatever the settings now hold, and consults automation each time |
| BackgroundWorker.UpdateTakesEffectAfterOneTick | replay-buffer-convenience.py:110-121 | after `script_update`, the tick that sees reload makes its request on the old paths; the next step reads the new paths and frequency, issues nothing, and leaves reload cleared |
| BackgroundWorker.UnloadEndsWorker | replay-buffer-convenience.py:119-124 | `script_unload` during the tick loop ends the worker at the next tick and resets the cancel flag |

## Left out

- `audiotest.py` is not part of this model. It only plays audio files.
- `on_event` and `play_audiofile` are left out. They play sounds on daemon threads, which is I/O.
- `script_properties`, `script_description` and `set_script_settings` are left out. They build the UI and register setting defaults through OBS calls.
- The `obs_properties_apply_settings` calls after editing the list are left out. They are host UI calls.
- Process enumeration and the meaning of `normpath`/`abspath` are left out. They are library calls, so the model takes the process table and both path functions as inputs.
- `time.sleep` and the check frequency's role as a sleep time are left out. The model stores the frequency but has no clock.
- The threads and the race between `script_update`/`script_unload` and the worker are left out. `Run` applies flag writes only between whole steps.
- The two `print` calls at the top of each outer-loop pass are left out. They only log the path list and frequency.
- Start and stop requests are assumed to take effect before the next check. The host applies them asynchronously. `CheckConverges` and `CheckSettles` rely on this assumption.
- The voice-feedback settings are left out. The core never reads them.
