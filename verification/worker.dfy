/**
  `background_worker` and the two module-level flags it shares with the
  script callbacks.

  The worker runs an outer loop that reads the path list and the check
  frequency, and an inner loop that, on every tick, consults the automation
  switch, runs the check on the paths read by the outer loop, sleeps, and
  leaves when the reload or cancel flag is set. Leaving clears the reload
  flag; leaving because of cancel ends the worker and clears the cancel flag.

  The model is a step function over the worker's position in those loops.
  One `Inner` step is one tick; the flags seen after the sleep, the current
  settings, the process table and the buffer state are its inputs. Sleeping
  and the threads that write the flags are not modelled: `Run` applies the
  callbacks' flag writes between steps.
 */
module BackgroundWorker {
  import opened Wrappers
  import opened PathList
  import opened Presence
  import opened Reconcile

  /** Where the worker is: about to read the settings, in the tick loop, or returned. */
  datatype Phase = Outer | Inner | Done

  /** The worker's locals: the path list and frequency the outer loop last read. */
  datatype Worker = Worker(phase: Phase, paths: seq<string>, frequency: int)

  /** `SCRIPT_WORKER_THREAD_RELOAD` and `SCRIPT_WORKER_THREAD_CANCEL`. */
  datatype Flags = Flags(reload: bool, cancel: bool)

  /** The script settings the worker reads. */
  datatype Settings = Settings(applicationPaths: string, checkFrequency: int, enableAutomation: bool)

  /** What one step sees: settings, process table and buffer state now, and the flags after the sleep. */
  datatype Tick = Tick(settings: Settings, processes: seq<Option<string>>, bufferActive: bool, flags: Flags)

  /** The worker after one step, the request it issued, and the flags it leaves behind. */
  datatype StepResult = StepResult(worker: Worker, action: Action, flags: Flags)

  /** A worker in the tick loop always holds at least one path entry (Python's split never yields none). */
  ghost predicate Valid(w: Worker)
  {
    w.phase == Inner ==> |w.paths| >= 1
  }

  /** The request of one tick: the check on the worker's paths when automation is on, nothing otherwise. */
  function TickAction(paths: seq<string>, t: Tick,
                      normpath: string -> string, abspath: string -> string): (action: Action)
    ensures action == StartBuffer <==>
              && t.settings.enableAutomation && !t.bufferActive
              && |paths| > 0 && AnyMatches(t.processes, NormalisedSet(paths, normpath), normpath, abspath)
    ensures action == StopBuffer <==>
              && t.settings.enableAutomation && t.bufferActive
              && !(|paths| > 0 && AnyMatches(t.processes, NormalisedSet(paths, normpath), normpath, abspath))
  {
    if t.settings.enableAutomation then
      CheckReplayBuffer(IsAnyExecutableRunning(paths, t.processes, normpath, abspath), t.bufferActive)
    else NoAction
  }

  /** One step of the worker. */
  function Step(w: Worker, t: Tick, normpath: string -> string, abspath: string -> string): (o: StepResult)
    ensures Valid(w) ==> Valid(o.worker)
    // the outer loop, and only the outer loop, re-reads paths and frequency
    ensures w.phase == Outer ==>
              o.worker == Worker(Inner, Split(t.settings.applicationPaths), t.settings.checkFrequency)
    ensures w.phase != Outer ==> o.worker.paths == w.paths && o.worker.frequency == w.frequency
    // a request is issued only on a tick with automation on, and then it is the check on the held paths
    ensures o.action != NoAction ==> w.phase == Inner && t.settings.enableAutomation
    ensures w.phase == Inner && t.settings.enableAutomation ==>
              o.action == CheckReplayBuffer(IsAnyExecutableRunning(w.paths, t.processes, normpath, abspath),
                                            t.bufferActive)
    // the worker ends exactly when a tick sees the cancel flag, and then both flags are cleared
    ensures o.worker.phase == Done <==> w.phase == Done || (w.phase == Inner && t.flags.cancel)
    ensures w.phase == Inner && t.flags.cancel ==> o.flags == Flags(false, false)
    // leaving the tick loop for a reload clears the flag and goes back to read the settings
    ensures w.phase == Inner && t.flags.reload && !t.flags.cancel ==>
              o.worker.phase == Outer && o.flags == Flags(false, false)
    // otherwise the flags are left as they were
    ensures !(w.phase == Inner && (t.flags.reload || t.flags.cancel)) ==> o.flags == t.flags
    ensures w.phase == Inner && !t.flags.reload && !t.flags.cancel ==> o.worker == w
  {
    match w.phase
    case Outer =>
      StepResult(Worker(Inner, Split(t.settings.applicationPaths), t.settings.checkFrequency), NoAction, t.flags)
    case Inner =>
      var action := TickAction(w.paths, t, normpath, abspath);
      if t.flags.reload || t.flags.cancel then
        if t.flags.cancel then StepResult(w.(phase := Done), action, Flags(false, false))
        else StepResult(w.(phase := Outer), action, t.flags.(reload := false))
      else StepResult(w, action, t.flags)
    case Done =>
      StepResult(w, NoAction, t.flags)
  }

  /** A worker in the tick loop never sees the empty-list `None` of the presence query. */
  lemma WorkerNeverQueriesEmptyList(w: Worker, t: Tick, normpath: string -> string, abspath: string -> string)
    requires Valid(w) && w.phase == Inner
    ensures IsAnyExecutableRunning(w.paths, t.processes, normpath, abspath).Some?
  {
  }

  /** `script_update`: the settings changed. */
  function ScriptUpdate(f: Flags): (f': Flags)
    ensures f'.reload && f'.cancel == f.cancel
  {
    f.(reload := true)
  }

  /** `script_load`: clear the cancel flag and start a worker that is about to read the settings. */
  function ScriptLoad(f: Flags): (started: (Worker, Flags))
    ensures started.0.phase == Outer && Valid(started.0)
    ensures !started.1.cancel && started.1.reload == f.reload
  {
    (Worker(Outer, [], 0), f.(cancel := false))
  }

  /** `script_unload`: stop the worker. */
  function ScriptUnload(f: Flags): (f': Flags)
    ensures f'.cancel && f'.reload == f.reload
  {
    f.(cancel := true)
  }

  /** One external moment: what the callbacks did since the last step, and what the step sees. */
  datatype Event = Event(updated: bool, unloaded: bool, settings: Settings,
                         processes: seq<Option<string>>, bufferActive: bool)

  /** The flags after the callbacks of `e` ran. */
  function Written(f: Flags, e: Event): (f': Flags)
    ensures f'.reload == (f.reload || e.updated)
    ensures f'.cancel == (f.cancel || e.unloaded)
  {
    var f1 := if e.updated then ScriptUpdate(f) else f;
    if e.unloaded then ScriptUnload(f1) else f1
  }

  datatype Trace = Trace(worker: Worker, flags: Flags, actions: seq<Action>)

  /** The worker driven through a sequence of events, one step per event. */
  function Run(w: Worker, f: Flags, events: seq<Event>,
               normpath: string -> string, abspath: string -> string): (r: Trace)
    ensures |r.actions| == |events|
    ensures Valid(w) ==> Valid(r.worker)
    decreases |events|
  {
    if |events| == 0 then Trace(w, f, [])
    else
      var e := events[0];
      var o := Step(w, Tick(e.settings, e.processes, e.bufferActive, Written(f, e)), normpath, abspath);
      var rest := Run(o.worker, o.flags, events[1..], normpath, abspath);
      Trace(rest.worker, rest.flags, [o.action] + rest.actions)
  }

  /** Without `script_unload` the worker never returns. */
  lemma {:induction false} RunEndsOnlyOnCancel(w: Worker, f: Flags, events: seq<Event>,
                                               normpath: string -> string, abspath: string -> string)
    requires w.phase != Done && !f.cancel
    requires forall i :: 0 <= i < |events| ==> !events[i].unloaded
    ensures Run(w, f, events, normpath, abspath).worker.phase != Done
    decreases |events|
  {
    if |events| > 0 {
      var e := events[0];
      var o := Step(w, Tick(e.settings, e.processes, e.bufferActive, Written(f, e)), normpath, abspath);
      RunEndsOnlyOnCancel(o.worker, o.flags, events[1..], normpath, abspath);
    }
  }

  /** A worker started by `script_load` runs until `script_unload` is called. */
  lemma LoadedWorkerRunsUntilUnload(f: Flags, events: seq<Event>,
                                    normpath: string -> string, abspath: string -> string)
    requires forall i :: 0 <= i < |events| ==> !events[i].unloaded
    ensures Run(ScriptLoad(f).0, ScriptLoad(f).1, events, normpath, abspath).worker.phase != Done
  {
    RunEndsOnlyOnCancel(ScriptLoad(f).0, ScriptLoad(f).1, events, normpath, abspath);
  }

  /** A returned worker stays returned and issues nothing more. */
  lemma {:induction false} DoneIsFinal(w: Worker, f: Flags, events: seq<Event>,
                                       normpath: string -> string, abspath: string -> string)
    requires w.phase == Done
    ensures Run(w, f, events, normpath, abspath).worker == w
    ensures forall i :: 0 <= i < |events| ==> Run(w, f, events, normpath, abspath).actions[i] == NoAction
    decreases |events|
  {
    if |events| > 0 {
      var e := events[0];
      var o := Step(w, Tick(e.settings, e.processes, e.bufferActive, Written(f, e)), normpath, abspath);
      DoneIsFinal(o.worker, o.flags, events[1..], normpath, abspath);
    }
  }

  /**
    Without a reload or cancel, the tick loop keeps using the paths it read
    last, whatever the settings now say; automation is still consulted on
    every tick.
   */
  lemma {:induction false} TicksUseHeldPaths(w: Worker, events: seq<Event>,
                                             normpath: string -> string, abspath: string -> string)
    requires w.phase == Inner
    requires forall i :: 0 <= i < |events| ==> !events[i].updated && !events[i].unloaded
    ensures Run(w, Flags(false, false), events, normpath, abspath).worker == w
    ensures Run(w, Flags(false, false), events, normpath, abspath).flags == Flags(false, false)
    ensures forall i :: 0 <= i < |events| ==>
              Run(w, Flags(false, false), events, normpath, abspath).actions[i]
              == TickAction(w.paths, Tick(events[i].settings, events[i].processes, events[i].bufferActive,
                                          Flags(false, false)), normpath, abspath)
    decreases |events|
  {
    if |events| > 0 {
      var e := events[0];
      var t := Tick(e.settings, e.processes, e.bufferActive, Written(Flags(false, false), e));
      assert Written(Flags(false, false), e) == Flags(false, false);
      var o := Step(w, t, normpath, abspath);
      TicksUseHeldPaths(w, events[1..], normpath, abspath);
      var r := Run(w, Flags(false, false), events, normpath, abspath);
      forall i | 0 <= i < |events|
        ensures r.actions[i]
                == TickAction(w.paths, Tick(events[i].settings, events[i].processes, events[i].bufferActive,
                                            Flags(false, false)), normpath, abspath)
      {
        if i > 0 {
          assert events[1..][i - 1] == events[i];
        }
      }
    }
  }

  /**
    A settings change takes effect after one more tick on the old paths:
    the tick that sees the reload flag leaves the loop and the next step
    reads the new settings, with the reload flag cleared.
   */
  lemma UpdateTakesEffectAfterOneTick(w: Worker, f: Flags, tick: Event, next: Event,
                                      normpath: string -> string, abspath: string -> string)
    requires w.phase == Inner && !f.cancel
    requires tick.updated && !tick.unloaded && !next.updated && !next.unloaded
    ensures Run(w, f, [tick, next], normpath, abspath).worker
         == Worker(Inner, Split(next.settings.applicationPaths), next.settings.checkFrequency)
    ensures !Run(w, f, [tick, next], normpath, abspath).flags.reload
    ensures Run(w, f, [tick, next], normpath, abspath).actions
         == [TickAction(w.paths, Tick(tick.settings, tick.processes, tick.bufferActive, Written(f, tick)),
                        normpath, abspath),
             NoAction]
  {
    var o := Step(w, Tick(tick.settings, tick.processes, tick.bufferActive, Written(f, tick)), normpath, abspath);
    assert o.worker.phase == Outer && o.flags == Flags(false, false);
    assert [tick, next][1..] == [next];
    var t2 := Tick(next.settings, next.processes, next.bufferActive, Written(o.flags, next));
    var o2 := Step(o.worker, t2, normpath, abspath);
    assert o2.flags == Flags(false, false);
    assert [next][1..] == [];
    assert Run(o.worker, o.flags, [next], normpath, abspath) == Trace(o2.worker, o2.flags, [o2.action]);
  }

  /** `script_unload` during the tick loop ends the worker at the next tick, with the cancel flag reset. */
  lemma UnloadEndsWorker(w: Worker, f: Flags, e: Event,
                         normpath: string -> string, abspath: string -> string)
    requires w.phase == Inner && e.unloaded
    ensures Run(w, f, [e], normpath, abspath).worker.phase == Done
    ensures !Run(w, f, [e], normpath, abspath).flags.cancel
  {
    assert [e][1..] == [];
  }
}
