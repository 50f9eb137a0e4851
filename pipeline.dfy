/**
 * The stage pipeline of reconhawk.py (lines 28-136): read and normalize the
 * target, compose the artifact paths, check the tools, run discovery, sort and
 * count its artifact, run the liveness probe, sort and read its artifact, and
 * report the alive hosts.
 *
 * The external engines are parameters. `discover` stands for subfinder run
 * on the target with the subdomain file as output, and `probe` for httpx
 * reading that file on its standard input with the alive file as output:
 * each yields its exit code, its standard error, and the lines of the file
 * it wrote, or `None` when it wrote none. `which` is membership in
 * `installed`. Every `sys.exit` of the script is one leaf of `Recon`.
 */
module Pipeline {
  import opened Text
  import opened Normalizer
  import opened Preflight
  import opened Lines
  import opened Paths

  datatype Option<T> = None | Some(value: T)

  /** What an external command leaves behind. */
  datatype StageOutcome = StageOutcome(exitCode: int, stderr: string, output: Option<seq<string>>)

  /** Where the run ends after the output directory exists. */
  datatype Stop =
    | MissingTools(tools: seq<string>)       // lines 81-84, exit 1
    | DiscoveryFailed(message: string)       // lines 91-93, exit 1
    | SubsUnreadable                         // line 99 raises: no subs file, exit 1
    | NoSubdomains                           // lines 103-105, exit 0
    | LivenessFailed(message: string)        // lines 119-121, exit 1
    | Reported(alive: seq<string>)           // lines 131-136, exit 0

  /** The stop, the lines handed to httpx (`None`: httpx never ran), and the
      final contents of the two artifacts (`None`: the file does not exist). */
  datatype Chain = Chain(stop: Stop, probeInput: Option<seq<string>>,
                         subsFile: Option<seq<string>>, aliveFile: Option<seq<string>>)

  /** A run either ends while reading the target or at input validation,
      before anything is created, or gets as far as `os.makedirs` (line 55)
      and runs the chain. `NoAnswer` is the `EOFError` that `input()` raises
      at line 32 when standard input is at end of file. */
  datatype Run =
    | NoAnswer
    | Rejected(error: InputError)
    | Started(target: string, subsPath: string, alivePath: string, chain: Chain)

  /** The exit status of the process (the `sys.exit` calls, and 1 for the
      uncaught exceptions): always 0 or 1, and 1 for a run that never starts. */
  function ExitStatus(r: Run): (s: int)
    ensures s == 0 || s == 1
    ensures !r.Started? ==> s == 1
  {
    match r
    case NoAnswer => 1
    case Rejected(_) => 1
    case Started(_, _, _, c) =>
      match c.stop
      case NoSubdomains => 0
      case Reported(_) => 0
      case _ => 1
  }

  /** Everything the script reads from outside: its arguments, the answer
      typed at the prompt (`None`: standard input is at end of file), the expanded `~/recon_results`, the time stamp, the
      tools `which` finds, and the two engines. */
  datatype Environment = Environment(
    argv: seq<string>, answer: Option<string>, baseDir: string, stamp: string,
    installed: set<string>, discover: string -> StageOutcome, probe: seq<string> -> StageOutcome)

  /** The raw target: the first command-line argument, or else the answer to
      the prompt (lines 29-32). There is none exactly when no argument is given
      and the prompt meets the end of input. */
  function RawTarget(argv: seq<string>, answer: Option<string>): (r: Option<string>)
    ensures r.None? <==> |argv| <= 1 && answer.None?
    ensures |argv| > 1 ==> r == Some(argv[1])
  {
    if |argv| > 1 then Some(argv[1]) else answer
  }

  /** Lines 76-136 once the target is valid: preflight, then discovery. The
      run stops on the tool list exactly when it is non-empty, and httpx, when
      it runs, reads exactly the subdomain artifact. */
  function RunChain(target: string, missing: seq<string>, discover: string -> StageOutcome,
                    probe: seq<string> -> StageOutcome): (c: Chain)
    ensures c.stop.MissingTools? <==> missing != []
    ensures c.probeInput.Some? ==> c.subsFile == c.probeInput
  {
    if missing != [] then Chain(MissingTools(missing), None, None, None)
    else
      var d := discover(target);
      if d.exitCode != 0 then Chain(DiscoveryFailed(Trim(d.stderr)), None, d.output, None)
      else if d.output.None? then Chain(SubsUnreadable, None, None, None)
      else
        var subs := SortedUnique(d.output.value);
        if Clean(subs) == [] then Chain(NoSubdomains, None, Some(subs), None)
        else Liveness(subs, probe(subs))
  }

  /** Lines 117-136: httpx has run on the sorted subdomain file `subs` and
      left `p`; only a nonzero exit without an alive file is fatal. httpx has
      read the subdomain artifact, and an alive artifact exists exactly when
      httpx wrote one. */
  function Liveness(subs: seq<string>, p: StageOutcome): (c: Chain)
    ensures c.probeInput == c.subsFile == Some(subs)
    ensures c.aliveFile.Some? <==> p.output.Some?
  {
    if p.exitCode != 0 && p.output.None? then
      Chain(LivenessFailed(Trim(p.stderr)), Some(subs), Some(subs), None)
    else if p.output.None? then
      Chain(Reported([]), Some(subs), Some(subs), None)
    else
      var alive := SortedUnique(p.output.value);
      Chain(Reported(Clean(alive)), Some(subs), Some(subs), Some(alive))
  }

  /** The whole script, from its inputs to its observable outcome. A run that
      starts has a non-empty target and two distinct artifact paths. */
  function Recon(env: Environment): (r: Run)
    ensures r.Started? ==> r.target != [] && r.subsPath != r.alivePath
  {
    match RawTarget(env.argv, env.answer)
    case None => NoAnswer
    case Some(raw) =>
      match Normalize(raw)
      case Err(e) => Rejected(e)
      case Ok(target) =>
      PathsShareStem(env.baseDir, target, env.stamp);
      Started(target, SubsPath(env.baseDir, target, env.stamp),
              AlivePath(env.baseDir, target, env.stamp),
              RunChain(target, Unavailable(RequiredTools, env.installed), env.discover, env.probe))
  }

  /** The script as a sequence of steps with early exits. */
  method RunRecon(env: Environment) returns (r: Run)
    ensures r == Recon(env)
  {
    if |env.argv| <= 1 && env.answer.None? {
      return NoAnswer;
    }
    var raw := if |env.argv| > 1 then env.argv[1] else env.answer.value;
    var normalized := NormalizeTarget(raw);
    if normalized.Err? {
      return Rejected(normalized.error);
    }
    var target := normalized.target;
    var subsPath := SubsPath(env.baseDir, target, env.stamp);
    var alivePath := AlivePath(env.baseDir, target, env.stamp);
    var missing := FindMissing(env.installed);
    var chain := RunStages(target, subsPath, alivePath, missing, env.discover, env.probe);
    return Started(target, subsPath, alivePath, chain);
  }

  /** Lines 81-105: stop on missing tools or a failed discovery; otherwise
      sort the subdomain artifact in place, count its lines, and go on to
      probing when there are any. */
  method RunStages(target: string, subsPath: string, alivePath: string, missing: seq<string>,
                   discover: string -> StageOutcome, probe: seq<string> -> StageOutcome)
    returns (c: Chain)
    ensures c == RunChain(target, missing, discover, probe)
  {
    if missing != [] {
      return Chain(MissingTools(missing), None, None, None);
    }
    var res1 := discover(target);
    if res1.exitCode != 0 {
      return Chain(DiscoveryFailed(Trim(res1.stderr)), None, res1.output, None);
    }
    if res1.output.None? {
      return Chain(SubsUnreadable, None, None, None);
    }
    var subsFile := new Artifact(subsPath, res1.output.value);
    subsFile.SortUnique();
    var subsLines := Clean(subsFile.lines);
    if |subsLines| == 0 {
      return Chain(NoSubdomains, None, Some(subsFile.lines), None);
    }
    var res2 := probe(subsFile.lines);
    c := RunLiveness(subsFile.lines, alivePath, res2);
  }

  /** Lines 119-136: the lenient check of httpx's outcome, then sorting and
      reading the alive artifact when it exists. */
  method RunLiveness(subs: seq<string>, alivePath: string, res2: StageOutcome)
    returns (c: Chain)
    ensures c == Liveness(subs, res2)
  {
    if res2.exitCode != 0 && res2.output.None? {
      return Chain(LivenessFailed(Trim(res2.stderr)), Some(subs), Some(subs), None);
    }
    var alive: seq<string> := [];
    var aliveContents: Option<seq<string>> := None;
    if res2.output.Some? {
      var aliveFile := new Artifact(alivePath, res2.output.value);
      aliveFile.SortUnique();
      alive := Clean(aliveFile.lines);
      aliveContents := Some(aliveFile.lines);
    }
    return Chain(Reported(alive), Some(subs), Some(subs), aliveContents);
  }
}
