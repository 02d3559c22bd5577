/**
  `is_any_executable_running`: does some running process have one of the
  configured applications as its executable?

  The process table is a sequence of entries, one per process in the order
  the enumeration yields them. An entry is `Some(p)` when the process's
  command line could be read and its first element is `p`, and `None` when
  anything in the `try` block raised for that process: reading the command
  line (access denied, the process exited), taking its first element of an
  empty command line, or the path functions themselves. `normpath` and
  `abspath` are the platform's path functions, taken as arbitrary total
  functions on strings; for a `Some` entry they are assumed not to raise.
 */
module Presence {
  import opened Wrappers

  /** The configured paths after normalisation. */
  ghost function NormalisedSet(paths: seq<string>, normpath: string -> string): set<string>
  {
    set p | p in paths :: normpath(p)
  }

  /** One process entry counts when its absolute, normalised path is configured. */
  ghost predicate Matches(entry: Option<string>, configured: set<string>,
                          normpath: string -> string, abspath: string -> string)
  {
    entry.Some? && normpath(abspath(entry.value)) in configured
  }

  /** Some process in the table matches a configured path. */
  ghost predicate AnyMatches(processes: seq<Option<string>>, configured: set<string>,
                             normpath: string -> string, abspath: string -> string)
  {
    exists i :: 0 <= i < |processes| && Matches(processes[i], configured, normpath, abspath)
  }

  /** The scan loop: stop at the first match, skip entries that could not be read. */
  function ScanProcesses(processes: seq<Option<string>>, configured: set<string>,
                         normpath: string -> string, abspath: string -> string): (found: bool)
    ensures found <==> AnyMatches(processes, configured, normpath, abspath)
    decreases |processes|
  {
    if |processes| == 0 then false
    else
      var rest := processes[1..];
      var restFound := ScanProcesses(rest, configured, normpath, abspath);
      assert forall i :: 0 <= i < |rest| ==> rest[i] == processes[i + 1];
      match processes[0]
      case None => restFound
      case Some(cmdline) =>
        if normpath(abspath(cmdline)) in configured then true
        else restFound
  }

  /**
    The presence query. An empty path list gives `None` (falsy in the
    caller); otherwise the answer is whether any readable process runs one
    of the configured applications.
   */
  function IsAnyExecutableRunning(paths: seq<string>, processes: seq<Option<string>>,
                                  normpath: string -> string, abspath: string -> string): (r: Option<bool>)
    ensures r == None <==> |paths| == 0
    ensures r == Some(true) <==>
              |paths| > 0 && AnyMatches(processes, NormalisedSet(paths, normpath), normpath, abspath)
  {
    if |paths| == 0 then None
    else Some(ScanProcesses(processes, set p | p in paths :: normpath(p), normpath, abspath))
  }

  /** A process whose introspection failed changes nothing, wherever it sits in the table. */
  lemma FailedProcessIsSkipped(paths: seq<string>, processes: seq<Option<string>>, k: nat,
                               normpath: string -> string, abspath: string -> string)
    requires k <= |processes|
    ensures IsAnyExecutableRunning(paths, processes[..k] + [None] + processes[k..], normpath, abspath)
         == IsAnyExecutableRunning(paths, processes, normpath, abspath)
  {
    var configured := NormalisedSet(paths, normpath);
    var widened := processes[..k] + [None] + processes[k..];
    if AnyMatches(processes, configured, normpath, abspath) {
      var i :| 0 <= i < |processes| && Matches(processes[i], configured, normpath, abspath);
      var j := if i < k then i else i + 1;
      assert widened[j] == processes[i];
    }
    if AnyMatches(widened, configured, normpath, abspath) {
      var j :| 0 <= j < |widened| && Matches(widened[j], configured, normpath, abspath);
      var i := if j < k then j else j - 1;
      assert widened[j] == processes[i];
    }
  }

  /** The answer depends only on which entries the table holds, not on their order or repetition. */
  lemma OnlyTheProcessSetMatters(paths: seq<string>, processes: seq<Option<string>>,
                                 others: seq<Option<string>>,
                                 normpath: string -> string, abspath: string -> string)
    requires forall e :: e in processes <==> e in others
    ensures IsAnyExecutableRunning(paths, processes, normpath, abspath)
         == IsAnyExecutableRunning(paths, others, normpath, abspath)
  {
    var configured := NormalisedSet(paths, normpath);
    if AnyMatches(processes, configured, normpath, abspath) {
      var i :| 0 <= i < |processes| && Matches(processes[i], configured, normpath, abspath);
      assert processes[i] in others;
    }
    if AnyMatches(others, configured, normpath, abspath) {
      var i :| 0 <= i < |others| && Matches(others[i], configured, normpath, abspath);
      assert others[i] in processes;
    }
  }

  /** A running process started from a configured path, in any spelling with the same normal form, is found. */
  lemma ConfiguredProcessIsFound(paths: seq<string>, processes: seq<Option<string>>, i: nat, j: nat,
                                 normpath: string -> string, abspath: string -> string)
    requires i < |processes| && j < |paths|
    requires processes[i].Some?
    requires normpath(abspath(processes[i].value)) == normpath(paths[j])
    ensures IsAnyExecutableRunning(paths, processes, normpath, abspath) == Some(true)
  {
    assert normpath(paths[j]) in NormalisedSet(paths, normpath);
    assert Matches(processes[i], NormalisedSet(paths, normpath), normpath, abspath);
  }
}
