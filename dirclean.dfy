/** The cleanup action of dirclean: list the immediate children of a directory and, for every
    child that is not excluded and whose modification time is before the cutoff, either log a
    dry-run notice or log "Deleting" and, for a directory only, run `rmdir /s /q` on it.

    The host (directory listing, stat, the removal command, the regex engine) is given as a
    value of type `Host`; what the action does is recorded as a trace of `Event`s: the log lines
    it writes and the two side-effecting calls it makes (a stat and a removal), in order. */
module DirClean {
  import opened Wrappers
  import opened GoStrings
  import opened Exclusion

  /** Result of `ioutil.ReadDir(dir)`: an error, or the names of the children in listing order. */
  datatype ListResult = ListFailed(err: string) | Listing(names: seq<string>)

  /** Result of `os.Stat(p)`: the failure cause, or the modification time (an integer
      timestamp) and whether `p` is a directory. */
  datatype StatResult = StatFailed(cause: string) | FileInfo(modTime: int, isDir: bool)

  /** Result of running `cmd /C rmdir /s /q p` to completion. */
  datatype CmdResult = CmdOk | CmdFailed(err: string)

  /** The outside world as the action sees it. */
  datatype Host = Host(
    readDir: string -> ListResult,
    stat: string -> StatResult,
    rmdir: string -> CmdResult,
    matchString: Matcher)

  /** The command-line flags: `path` and `dryrun` are `None` when not given on the command line. */
  datatype Flags = Flags(path: Option<string>, dryrun: Option<bool>, except: string)

  /** The values the loop works with, fixed before it starts. */
  datatype Config = Config(dir: string, except: string, dryrun: bool, cutoff: int)

  datatype Event =
    | PathNotSet                          // log: "Flag 'path' not set."
    | ReadDirError(err: string)           // log: the listing error
    | CutoffNotice(cutoff: int)           // trace: "All items modified before <cutoff> will be deleted."
    | Skip(path: string)                  // trace: "<p> matched. Skip."
    | Stat(path: string)                  // call: os.Stat(p)
    | StatError(path: string, cause: string) // log: the stat error, which names p
    | WillDelete(path: string)            // trace: "<p> will be deleted."
    | Deleting(path: string)              // trace: "Deleting <p> ..."
    | Rmdir(path: string)                 // call: cmd /C rmdir /s /q p
    | RmdirError(err: string)             // trace: the command's error

  /** What the action returns: nil, or a `cli.ExitError` with a message and an exit code. */
  datatype Status = Success | ExitError(msg: string, code: int)

  datatype Outcome = Outcome(trace: seq<Event>, status: Status)

  const PathSep: char := '\\'
  const PathNotSetMsg: string := "Flag 'path' not set."
  const ExitCode: int := -1

  /** Full path of a child: the directory, a backslash, the child's name. */
  function JoinPath(dir: string, name: string): (p: string)
    ensures |p| == |dir| + 1 + |name|
    ensures p[..|dir|] == dir && p[|dir|] == PathSep && p[|dir| + 1..] == name
  {
    dir + [PathSep] + name
  }

  /** Within one directory, different names give different full paths. */
  lemma JoinPathInjective(dir: string, a: string, b: string)
    requires JoinPath(dir, a) == JoinPath(dir, b)
    ensures a == b
  {
  }

  /** `time.Time.Before`: strictly earlier. */
  predicate Before(modTime: int, cutoff: int)
  {
    modTime < cutoff
  }

  /** The effective dry-run flag: its value when given, false otherwise. */
  function DryRun(flags: Flags): bool
  {
    if flags.dryrun.Some? then flags.dryrun.value else false
  }

  /** Whether the loop removes the child `name`. */
  predicate Removable(cfg: Config, name: string, host: Host)
  {
    var p := JoinPath(cfg.dir, name);
    !cfg.dryrun && !Excluded(cfg.except, p, host.matchString) &&
    host.stat(p).FileInfo? && Before(host.stat(p).modTime, cfg.cutoff) && host.stat(p).isDir
  }

  function RmdirLog(res: CmdResult): seq<Event>
  {
    if res.CmdFailed? then [RmdirError(res.err)] else []
  }

  /** The decision table: the events about a child's path `p`, from whether `p` is excluded,
      what a fresh stat of `p` says, the cutoff and the dry-run flag. An excluded child is only
      skipped; a child that cannot be stat'ed gets an error line; a child not older than the
      cutoff gets nothing more; an old child gets a "will be deleted" line in a dry run, and
      otherwise a "Deleting" line followed by a removal only when it is a directory. */
  function Decision(excluded: bool, st: StatResult, cutoff: int, dryrun: bool, p: string): seq<Event>
  {
    if excluded then [Skip(p)]
    else
      match st
      case StatFailed(cause) => [Stat(p), StatError(p, cause)]
      case FileInfo(modTime, isDir) =>
        if !Before(modTime, cutoff) then [Stat(p)]
        else if dryrun then [Stat(p), WillDelete(p)]
        else [Stat(p), Deleting(p)] + (if isDir then [Rmdir(p)] else [])
  }

  /** The removal error line, the only event of an iteration that is not in its row of the
      decision table. */
  function RemovalErrorLog(cfg: Config, name: string, host: Host): seq<Event>
  {
    var p := JoinPath(cfg.dir, name);
    if Removable(cfg, name, host) then RmdirLog(host.rmdir(p)) else []
  }

  /** Events of one iteration of the loop, for the child `name`: its row of the decision
      table, then the removal command's error line when the removal was run and failed. */
  function EntryTrace(cfg: Config, name: string, host: Host): seq<Event>
  {
    var p := JoinPath(cfg.dir, name);
    Decision(Excluded(cfg.except, p, host.matchString), host.stat(p), cfg.cutoff, cfg.dryrun, p) +
    RemovalErrorLog(cfg, name, host)
  }

  /** Events of the loop over `names`, in order. */
  function EntriesTrace(cfg: Config, names: seq<string>, host: Host): seq<Event>
  {
    if |names| == 0 then []
    else EntriesTrace(cfg, names[..|names| - 1], host) + EntryTrace(cfg, names[|names| - 1], host)
  }

  /** The whole action. A missing `path` flag or a failed listing ends it with an error and a
      single log line; otherwise it logs the cutoff, runs the loop and returns nil, whatever
      happened to individual entries. */
  function Run(flags: Flags, cutoff: int, host: Host): (r: Outcome)
    ensures r.status.Success? <==> flags.path.Some? && host.readDir(flags.path.value).Listing?
    ensures r.status.ExitError? ==>
              r.status.code == ExitCode && |r.trace| == 1 && Subject(r.trace[0]).None?
    ensures r.status.Success? ==> |r.trace| > 0 && r.trace[0] == CutoffNotice(cutoff)
  {
    if flags.path.None? then Outcome([PathNotSet], ExitError(PathNotSetMsg, ExitCode))
    else
      var dir := flags.path.value;
      match host.readDir(dir)
      case ListFailed(err) => Outcome([ReadDirError(err)], ExitError(err, ExitCode))
      case Listing(names) =>
        var cfg := Config(dir, flags.except, DryRun(flags), cutoff);
        Outcome([CutoffNotice(cutoff)] + EntriesTrace(cfg, names, host), Success)
  }

  /** The action, step by step. */
  method Clean(flags: Flags, cutoff: int, host: Host) returns (trace: seq<Event>, status: Status)
    ensures Outcome(trace, status) == Run(flags, cutoff, host)
  {
    if flags.path.None? {
      trace, status := [PathNotSet], ExitError(PathNotSetMsg, ExitCode);
      return;
    }
    var dryrun := false;
    if flags.dryrun.Some? {
      dryrun := flags.dryrun.value;
    }
    var dir := flags.path.value;
    var except := flags.except;
    var listing := host.readDir(dir);
    if listing.ListFailed? {
      trace, status := [ReadDirError(listing.err)], ExitError(listing.err, ExitCode);
      return;
    }
    var cfg := Config(dir, except, dryrun, cutoff);
    var events := VisitEntries(cfg, listing.names, host);
    trace, status := [CutoffNotice(cutoff)] + events, Success;
  }

  /** The loop over the listed children, in listing order. */
  method VisitEntries(cfg: Config, names: seq<string>, host: Host) returns (trace: seq<Event>)
    ensures trace == EntriesTrace(cfg, names, host)
  {
    trace := [];
    for i := 0 to |names|
      invariant trace == EntriesTrace(cfg, names[..i], host)
    {
      var events := VisitEntry(cfg, names[i], host);
      assert names[..i + 1][..i] == names[..i];
      trace := trace + events;
    }
    assert names[..|names|] == names;
  }

  /** One iteration of the loop: the events for the child `name`, in the order they happen. */
  method VisitEntry(cfg: Config, name: string, host: Host) returns (events: seq<Event>)
    ensures events == EntryTrace(cfg, name, host)
  {
    var p := JoinPath(cfg.dir, name);
    var matches := Split(cfg.except, PatternSep);
    var ping := false;
    if |cfg.except| > 0 {
      var tried;
      ping, tried := MatchesAny(matches, p, host.matchString);
    }
    events := [];
    if !ping {
      events := events + [Stat(p)];
      var mt := host.stat(p);
      match mt
      case StatFailed(cause) =>
        events := events + [StatError(p, cause)];
      case FileInfo(modTime, isDir) =>
        if Before(modTime, cfg.cutoff) {
          if cfg.dryrun {
            events := events + [WillDelete(p)];
          } else {
            events := events + [Deleting(p)];
            if isDir {
              events := events + [Rmdir(p)];
              var res := host.rmdir(p);
              if res.CmdFailed? {
                events := events + [RmdirError(res.err)];
              }
            }
          }
        }
    } else {
      events := events + [Skip(p)];
    }
  }

  // ---------------------------------------------------------------------------------------
  // Events about one path

  /** The path an event is about; log lines that carry no path have none. */
  function Subject(e: Event): Option<string>
  {
    match e
    case Skip(p) => Some(p)
    case Stat(p) => Some(p)
    case StatError(p, _) => Some(p)
    case WillDelete(p) => Some(p)
    case Deleting(p) => Some(p)
    case Rmdir(p) => Some(p)
    case _ => None
  }

  /** The events of `trace` about `p`, in order. */
  function About(trace: seq<Event>, p: string): seq<Event>
  {
    if |trace| == 0 then []
    else (if Subject(trace[0]) == Some(p) then [trace[0]] else []) + About(trace[1..], p)
  }

  lemma {:induction false} AboutAppend(a: seq<Event>, b: seq<Event>, p: string)
    ensures About(a + b, p) == About(a, p) + About(b, p)
  {
    if |a| == 0 {
      assert a + b == b;
    } else {
      var head := if Subject(a[0]) == Some(p) then [a[0]] else [];
      assert (a + b)[0] == a[0];
      assert (a + b)[1..] == a[1..] + b;
      AboutAppend(a[1..], b, p);
      calc {
        About(a + b, p);
        head + About(a[1..] + b, p);
        head + (About(a[1..], p) + About(b, p));
        (head + About(a[1..], p)) + About(b, p);
      }
    }
  }

  lemma {:induction false} AboutContains(trace: seq<Event>, p: string, e: Event)
    ensures e in About(trace, p) <==> e in trace && Subject(e) == Some(p)
  {
    if |trace| > 0 {
      AboutContains(trace[1..], p, e);
      assert trace == [trace[0]] + trace[1..];
    }
  }

  /** An iteration only produces events about its own child's path. */
  lemma EntryTraceAboutOther(cfg: Config, name: string, host: Host, q: string)
    requires q != JoinPath(cfg.dir, name)
    ensures About(EntryTrace(cfg, name, host), q) == []
  {
    var t := EntryTrace(cfg, name, host);
    forall e | e in t ensures Subject(e) != Some(q) { }
    if About(t, q) != [] {
      AboutContains(t, q, About(t, q)[0]);
    }
  }

  lemma {:induction false} EntriesTraceAboutAbsent(cfg: Config, names: seq<string>, host: Host, q: string)
    requires forall k :: 0 <= k < |names| ==> JoinPath(cfg.dir, names[k]) != q
    ensures About(EntriesTrace(cfg, names, host), q) == []
  {
    if |names| > 0 {
      var init := names[..|names| - 1];
      EntriesTraceAboutAbsent(cfg, init, host, q);
      EntryTraceAboutOther(cfg, names[|names| - 1], host, q);
      AboutAppend(EntriesTrace(cfg, init, host), EntryTrace(cfg, names[|names| - 1], host), q);
    }
  }

  predicate Distinct(names: seq<string>)
  {
    forall a, b :: 0 <= a < b < |names| ==> names[a] != names[b]
  }

  /** With distinct names, every event of the loop about a child's path comes from that
      child's own iteration. */
  lemma {:induction false} Localize(cfg: Config, names: seq<string>, host: Host, j: nat)
    requires Distinct(names) && j < |names|
    ensures About(EntriesTrace(cfg, names, host), JoinPath(cfg.dir, names[j])) ==
            About(EntryTrace(cfg, names[j], host), JoinPath(cfg.dir, names[j]))
    decreases |names|
  {
    var p := JoinPath(cfg.dir, names[j]);
    var init, last := names[..|names| - 1], names[|names| - 1];
    AboutAppend(EntriesTrace(cfg, init, host), EntryTrace(cfg, last, host), p);
    if j == |names| - 1 {
      forall k | 0 <= k < |init| ensures JoinPath(cfg.dir, init[k]) != p {
        if JoinPath(cfg.dir, init[k]) == p {
          JoinPathInjective(cfg.dir, init[k], names[j]);
        }
      }
      EntriesTraceAboutAbsent(cfg, init, host, p);
    } else {
      Localize(cfg, init, host, j);
      if JoinPath(cfg.dir, last) == p {
        JoinPathInjective(cfg.dir, last, names[j]);
      }
      EntryTraceAboutOther(cfg, last, host, p);
    }
  }

  lemma {:induction false} AboutOwnEvents(t: seq<Event>, p: string)
    requires forall k :: 0 <= k < |t| ==> Subject(t[k]) == Some(p)
    ensures About(t, p) == t
  {
    if |t| > 0 {
      AboutOwnEvents(t[1..], p);
      assert t == [t[0]] + t[1..];
    }
  }

  /** One iteration's events about its own child's path follow the decision table. */
  lemma EntryDecision(cfg: Config, name: string, host: Host)
    ensures
      var p := JoinPath(cfg.dir, name);
      About(EntryTrace(cfg, name, host), p) ==
        Decision(Excluded(cfg.except, p, host.matchString), host.stat(p), cfg.cutoff, cfg.dryrun, p)
  {
    var p := JoinPath(cfg.dir, name);
    var d := Decision(Excluded(cfg.except, p, host.matchString), host.stat(p), cfg.cutoff, cfg.dryrun, p);
    var tail := RemovalErrorLog(cfg, name, host);
    AboutAppend(d, tail, p);
    AboutOwnEvents(d, p);
    assert About(tail, p) == [];
  }

  /** Over the whole run, the events about a listed child's path are exactly its row of the
      decision table: each child is handled once, and nothing done for another child mentions
      its path. */
  lemma DecisionTable(flags: Flags, cutoff: int, host: Host, j: nat)
    requires flags.path.Some? && host.readDir(flags.path.value).Listing?
    requires Distinct(host.readDir(flags.path.value).names)
    requires j < |host.readDir(flags.path.value).names|
    ensures
      var dir := flags.path.value;
      var p := JoinPath(dir, host.readDir(dir).names[j]);
      About(Run(flags, cutoff, host).trace, p) ==
        Decision(Excluded(flags.except, p, host.matchString), host.stat(p), cutoff, DryRun(flags), p)
  {
    var dir := flags.path.value;
    var names := host.readDir(dir).names;
    var cfg := Config(dir, flags.except, DryRun(flags), cutoff);
    var p := JoinPath(dir, names[j]);
    assert Run(flags, cutoff, host).trace == [CutoffNotice(cutoff)] + EntriesTrace(cfg, names, host);
    AboutAppend([CutoffNotice(cutoff)], EntriesTrace(cfg, names, host), p);
    Localize(cfg, names, host, j);
    EntryDecision(cfg, names[j], host);
  }

  /** A listed child's path is removed in the run if and only if the child is removable. */
  lemma RemovedIffRemovable(flags: Flags, cutoff: int, host: Host, j: nat)
    requires flags.path.Some? && host.readDir(flags.path.value).Listing?
    requires Distinct(host.readDir(flags.path.value).names)
    requires j < |host.readDir(flags.path.value).names|
    ensures
      var dir := flags.path.value;
      var name := host.readDir(dir).names[j];
      var cfg := Config(dir, flags.except, DryRun(flags), cutoff);
      Rmdir(JoinPath(dir, name)) in Run(flags, cutoff, host).trace <==> Removable(cfg, name, host)
  {
    var dir := flags.path.value;
    var p := JoinPath(dir, host.readDir(dir).names[j]);
    DecisionTable(flags, cutoff, host, j);
    AboutContains(Run(flags, cutoff, host).trace, p, Rmdir(p));
  }

  // ---------------------------------------------------------------------------------------
  // Properties of the whole run

  /** The paths removed, in the order the removals are issued. */
  function Removals(trace: seq<Event>): seq<string>
  {
    if |trace| == 0 then []
    else (if trace[0].Rmdir? then [trace[0].path] else []) + Removals(trace[1..])
  }

  lemma {:induction false} RemovalsAppend(a: seq<Event>, b: seq<Event>)
    ensures Removals(a + b) == Removals(a) + Removals(b)
  {
    if |a| == 0 {
      assert a + b == b;
    } else {
      var head := if a[0].Rmdir? then [a[0].path] else [];
      assert (a + b)[0] == a[0];
      assert (a + b)[1..] == a[1..] + b;
      RemovalsAppend(a[1..], b);
      calc {
        Removals(a + b);
        head + Removals(a[1..] + b);
        head + (Removals(a[1..]) + Removals(b));
        (head + Removals(a[1..])) + Removals(b);
      }
    }
  }

  /** The full paths of the removable children, in listing order. */
  function RemovableTargets(cfg: Config, names: seq<string>, host: Host): seq<string>
  {
    if |names| == 0 then []
    else
      RemovableTargets(cfg, names[..|names| - 1], host) +
      (if Removable(cfg, names[|names| - 1], host) then [JoinPath(cfg.dir, names[|names| - 1])] else [])
  }

  /** One iteration issues one removal, of its own child's path, when the child is removable,
      and none otherwise. */
  lemma EntryRemovals(cfg: Config, name: string, host: Host)
    ensures Removals(EntryTrace(cfg, name, host)) ==
            if Removable(cfg, name, host) then [JoinPath(cfg.dir, name)] else []
  {
    var p := JoinPath(cfg.dir, name);
    var d := Decision(Excluded(cfg.except, p, host.matchString), host.stat(p), cfg.cutoff, cfg.dryrun, p);
    var tail := RemovalErrorLog(cfg, name, host);
    RemovalsAppend(d, tail);
    NoRemovals(tail);
    if Removable(cfg, name, host) {
      assert d == [Stat(p), Deleting(p)] + [Rmdir(p)];
      RemovalsAppend([Stat(p), Deleting(p)], [Rmdir(p)]);
      NoRemovals([Stat(p), Deleting(p)]);
    } else {
      NoRemovals(d);
    }
  }

  lemma {:induction false} EntriesRemovals(cfg: Config, names: seq<string>, host: Host)
    ensures Removals(EntriesTrace(cfg, names, host)) == RemovableTargets(cfg, names, host)
  {
    if |names| > 0 {
      var init, last := names[..|names| - 1], names[|names| - 1];
      EntriesRemovals(cfg, init, host);
      RemovalsAppend(EntriesTrace(cfg, init, host), EntryTrace(cfg, last, host));
      EntryRemovals(cfg, last, host);
    }
  }

  lemma {:induction false} NoRemovals(t: seq<Event>)
    requires forall k :: 0 <= k < |t| ==> !t[k].Rmdir?
    ensures Removals(t) == []
  {
    if |t| > 0 {
      NoRemovals(t[1..]);
    }
  }

  /** The run removes exactly the removable children, one removal each, in listing order;
      a run that ends in an error removes nothing. */
  lemma RemovalOrder(flags: Flags, cutoff: int, host: Host)
    ensures
      var r := Run(flags, cutoff, host);
      if r.status.Success? then
        var dir := flags.path.value;
        Removals(r.trace) ==
          RemovableTargets(Config(dir, flags.except, DryRun(flags), cutoff), host.readDir(dir).names, host)
      else Removals(r.trace) == []
  {
    var r := Run(flags, cutoff, host);
    if r.status.Success? {
      var dir := flags.path.value;
      var cfg := Config(dir, flags.except, DryRun(flags), cutoff);
      var names := host.readDir(dir).names;
      RemovalsAppend([CutoffNotice(cutoff)], EntriesTrace(cfg, names, host));
      EntriesRemovals(cfg, names, host);
    }
  }

  lemma {:induction false} EntriesAppend(cfg: Config, a: seq<string>, b: seq<string>, host: Host)
    ensures EntriesTrace(cfg, a + b, host) == EntriesTrace(cfg, a, host) + EntriesTrace(cfg, b, host)
    decreases |b|
  {
    if |b| == 0 {
      assert a + b == a;
    } else {
      var init := b[..|b| - 1];
      assert (a + b)[..|a + b| - 1] == a + init;
      assert (a + b)[|a + b| - 1] == b[|b| - 1];
      EntriesAppend(cfg, a, init, host);
    }
  }

  /** Every iteration starts with a skip notice or a stat call. */
  lemma {:induction false} EntriesTraceStart(cfg: Config, names: seq<string>, host: Host)
    requires |names| > 0
    ensures |EntriesTrace(cfg, names, host)| > 0
    ensures EntriesTrace(cfg, names, host)[0].Skip? || EntriesTrace(cfg, names, host)[0].Stat?
  {
    if |names| > 1 {
      EntriesTraceStart(cfg, names[..|names| - 1], host);
    }
  }

  /** The iteration of a removable child: stat, "Deleting", the removal, and its error line. */
  lemma RemovableEntryTrace(cfg: Config, name: string, host: Host)
    requires Removable(cfg, name, host)
    ensures
      var p := JoinPath(cfg.dir, name);
      EntryTrace(cfg, name, host) == [Stat(p), Deleting(p), Rmdir(p)] + RmdirLog(host.rmdir(p))
  {
  }

  /** `trace[k]` is the removal of `p`; when the command failed its error line comes next, and
      when it succeeded the next event is the next child's first one, or there is none. */
  predicate RemovalLoggedAt(trace: seq<Event>, k: int, p: string, res: CmdResult)
  {
    0 <= k < |trace| && trace[k] == Rmdir(p) &&
    (res.CmdFailed? ==> k + 1 < |trace| && trace[k + 1] == RmdirError(res.err)) &&
    (res.CmdOk? ==> k + 1 == |trace| || (k + 1 < |trace| && (trace[k + 1].Skip? || trace[k + 1].Stat?)))
  }

  /** Where a removal sits in a trace: what follows it is its error line, if any, then the
      next child's events. */
  lemma RemovalFollowedBy(pre: seq<Event>, p: string, res: CmdResult, after: seq<Event>)
    requires after == [] || after[0].Skip? || after[0].Stat?
    ensures RemovalLoggedAt(pre + ([Stat(p), Deleting(p), Rmdir(p)] + RmdirLog(res)) + after, |pre| + 2, p, res)
  {
  }

  /** A removal that fails is logged right after the removal command, and the run goes on
      with the next child; a removal that succeeds is followed directly by the next child's
      first event, or ends the trace. */
  lemma RemovalFailureLogged(flags: Flags, cutoff: int, host: Host, j: nat)
    requires flags.path.Some? && host.readDir(flags.path.value).Listing?
    requires j < |host.readDir(flags.path.value).names|
    requires Removable(Config(flags.path.value, flags.except, DryRun(flags), cutoff),
                       host.readDir(flags.path.value).names[j], host)
    ensures
      var r := Run(flags, cutoff, host);
      var p := JoinPath(flags.path.value, host.readDir(flags.path.value).names[j]);
      r.status.Success? && exists k :: RemovalLoggedAt(r.trace, k, p, host.rmdir(p))
  {
    var dir := flags.path.value;
    var names := host.readDir(dir).names;
    var cfg := Config(dir, flags.except, DryRun(flags), cutoff);
    var trace := Run(flags, cutoff, host).trace;
    assert trace == [CutoffNotice(cutoff)] + EntriesTrace(cfg, names, host);
    var k := EntriesRemovalLogged(cfg, names, host, j);
    var p := JoinPath(dir, names[j]);
    assert RemovalLoggedAt(trace, k + 1, p, host.rmdir(p));
  }

  /** The loop-level half of `RemovalFailureLogged`: the position of a removable child's
      removal in the loop's events. */
  lemma EntriesRemovalLogged(cfg: Config, names: seq<string>, host: Host, j: nat) returns (k: int)
    requires j < |names| && Removable(cfg, names[j], host)
    ensures RemovalLoggedAt(EntriesTrace(cfg, names, host), k, JoinPath(cfg.dir, names[j]),
                            host.rmdir(JoinPath(cfg.dir, names[j])))
  {
    var p := JoinPath(cfg.dir, names[j]);
    var pre := EntriesTrace(cfg, names[..j], host);
    var after := EntriesTrace(cfg, names[j + 1..], host);
    assert names[..j + 1][..j] == names[..j];
    assert names[..j + 1] + names[j + 1..] == names;
    EntriesAppend(cfg, names[..j + 1], names[j + 1..], host);
    RemovableEntryTrace(cfg, names[j], host);
    if |names[j + 1..]| > 0 {
      EntriesTraceStart(cfg, names[j + 1..], host);
    }
    RemovalFollowedBy(pre, p, host.rmdir(p), after);
    k := |pre| + 2;
  }

  lemma {:induction false} EntriesNoSkip(cfg: Config, names: seq<string>, host: Host)
    requires cfg.except == ""
    ensures forall e :: e in EntriesTrace(cfg, names, host) ==> !e.Skip?
  {
    if |names| > 0 {
      EntriesNoSkip(cfg, names[..|names| - 1], host);
    }
  }

  /** With an empty `except` flag no child is ever skipped as excluded. */
  lemma EmptyExceptNeverSkips(flags: Flags, cutoff: int, host: Host)
    requires flags.except == ""
    ensures forall e :: e in Run(flags, cutoff, host).trace ==> !e.Skip?
  {
    if flags.path.Some? && host.readDir(flags.path.value).Listing? {
      var dir := flags.path.value;
      EntriesNoSkip(Config(dir, flags.except, DryRun(flags), cutoff), host.readDir(dir).names, host);
    }
  }

  lemma {:induction false} EntriesDryRun(cfg: Config, names: seq<string>, host: Host)
    requires cfg.dryrun
    ensures forall e :: e in EntriesTrace(cfg, names, host) ==> !e.Rmdir? && !e.Deleting?
  {
    if |names| > 0 {
      EntriesDryRun(cfg, names[..|names| - 1], host);
    }
  }

  /** A dry run issues no removal and logs no "Deleting" line. */
  lemma DryRunNeverRemoves(flags: Flags, cutoff: int, host: Host)
    requires DryRun(flags)
    ensures forall e :: e in Run(flags, cutoff, host).trace ==> !e.Rmdir? && !e.Deleting?
  {
    if flags.path.Some? && host.readDir(flags.path.value).Listing? {
      var dir := flags.path.value;
      EntriesDryRun(Config(dir, flags.except, DryRun(flags), cutoff), host.readDir(dir).names, host);
    }
  }

  lemma {:induction false} EntriesIgnoreRemoval(cfg: Config, names: seq<string>, host: Host,
                                                rmdir: string -> CmdResult)
    requires cfg.dryrun
    ensures EntriesTrace(cfg, names, host) == EntriesTrace(cfg, names, host.(rmdir := rmdir))
  {
    if |names| > 0 {
      EntriesIgnoreRemoval(cfg, names[..|names| - 1], host, rmdir);
    }
  }

  /** A dry run does not depend on the removal command at all: its trace is the same whatever
      removing would do, so two dry runs over an unchanged directory log the same lines. */
  lemma DryRunIgnoresRemoval(flags: Flags, cutoff: int, host: Host, rmdir: string -> CmdResult)
    requires DryRun(flags)
    ensures Run(flags, cutoff, host) == Run(flags, cutoff, host.(rmdir := rmdir))
  {
    if flags.path.Some? && host.readDir(flags.path.value).Listing? {
      var dir := flags.path.value;
      EntriesIgnoreRemoval(Config(dir, flags.except, DryRun(flags), cutoff), host.readDir(dir).names, host, rmdir);
    }
  }
}
