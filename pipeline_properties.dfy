/**
 * What the recon chain promises about its outcome: which input errors stop
 * it, which stages run, which stage failures are fatal, what is reported, and
 * with which exit status.
 */
module PipelineProperties {
  import opened Text
  import opened Normalizer
  import opened Preflight
  import opened Lines
  import opened Paths
  import opened Pipeline

  /** Without an argument, a prompt at end of input ends the run with exit 1
      before anything is created. */
  lemma NoAnswerIff(env: Environment)
    ensures Recon(env) == NoAnswer <==> |env.argv| <= 1 && env.answer.None?
    ensures Recon(env) == NoAnswer ==> ExitStatus(Recon(env)) == 1
  {
  }

  /** The run stops at input validation exactly when there is a raw target
      and its normalization fails, with exit 1; an empty or all-whitespace
      target is the "no target" error. */
  lemma RejectedIff(env: Environment)
    ensures var raw := RawTarget(env.argv, env.answer);
            Recon(env).Rejected? <==> raw.Some? && Normalize(raw.value).Err?
    ensures Recon(env).Rejected? ==> ExitStatus(Recon(env)) == 1
    ensures var raw := RawTarget(env.argv, env.answer);
            raw.Some? && AllSpace(raw.value) ==> Recon(env) == Rejected(NoTarget)
  {
  }

  /** Exit status 0 exactly for the two successful endings: no subdomains,
      or the alive hosts reported. */
  lemma ExitZeroIff(env: Environment)
    ensures var r := Recon(env);
            ExitStatus(r) == 0 <==> r.Started? && (r.chain.stop == NoSubdomains || r.chain.stop.Reported?)
    ensures ExitStatus(Recon(env)) == 0 || ExitStatus(Recon(env)) == 1
  {
  }

  /** A valid target always gets as far as creating the output directory and
      running the chain with the tools `which` cannot find; the two artifact
      paths share the stem `base_dir/target_stamp_` and are distinct. */
  lemma StartedPaths(env: Environment, target: string)
    requires RawTarget(env.argv, env.answer).Some?
    requires Normalize(RawTarget(env.argv, env.answer).value) == Ok(target)
    ensures Recon(env).Started? && Recon(env).target == target
    ensures Recon(env).chain
            == RunChain(target, Unavailable(RequiredTools, env.installed), env.discover, env.probe)
    ensures Recon(env).subsPath == Join(env.baseDir, target + "_" + env.stamp + "_") + "subs.txt"
    ensures Recon(env).alivePath == Join(env.baseDir, target + "_" + env.stamp + "_") + "alive.txt"
    ensures Recon(env).subsPath != Recon(env).alivePath
  {
    PathsShareStem(env.baseDir, target, env.stamp);
  }

  /** Missing tools end the run with exit 1, listing them; neither engine
      runs, so the outcome does not depend on them. The output directory has
      already been created at that point (`StartedPaths`). */
  lemma MissingToolsStop(target: string, missing: seq<string>,
                         discover: string -> StageOutcome, probe: seq<string> -> StageOutcome,
                         otherDiscover: string -> StageOutcome, otherProbe: seq<string> -> StageOutcome)
    requires missing != []
    ensures RunChain(target, missing, discover, probe) == Chain(MissingTools(missing), None, None, None)
    ensures RunChain(target, missing, discover, probe) == RunChain(target, missing, otherDiscover, otherProbe)
  {
  }

  /** Discovery is strict: a nonzero exit ends the run with the stripped
      standard error; httpx never runs, so the outcome does not depend on it,
      and there is no alive artifact. */
  lemma DiscoveryFailureStops(target: string, discover: string -> StageOutcome,
                              probe: seq<string> -> StageOutcome, otherProbe: seq<string> -> StageOutcome)
    requires discover(target).exitCode != 0
    ensures RunChain(target, [], discover, probe).stop == DiscoveryFailed(Trim(discover(target).stderr))
    ensures RunChain(target, [], discover, probe).probeInput.None?
    ensures RunChain(target, [], discover, probe).aliveFile.None?
    ensures RunChain(target, [], discover, probe) == RunChain(target, [], discover, otherProbe)
  {
  }

  /** After sort -u, the discovered file has no line with a visible character
      exactly when it had none before. */
  lemma SortedBlankIff(found: seq<string>)
    ensures Clean(SortedUnique(found)) == [] <==> forall l :: l in found ==> AllSpace(l)
  {
    CleanEmptyIff(SortedUnique(found));
    CleanEmptyIff(found);
  }

  /** httpx runs exactly when all tools are found, discovery exits 0, its file
      exists and holds a line that is not all whitespace. It is then fed the
      discovered lines sorted and de-duplicated, which are also what the
      subdomain artifact holds, and its outcome decides the rest. */
  lemma ProbeRunsIff(target: string, missing: seq<string>,
                     discover: string -> StageOutcome, probe: seq<string> -> StageOutcome)
    ensures var d := discover(target);
            RunChain(target, missing, discover, probe).probeInput.Some?
            <==> missing == [] && d.exitCode == 0 && d.output.Some?
                 && exists l :: l in d.output.value && !AllSpace(l)
    ensures var c := RunChain(target, missing, discover, probe);
            c.probeInput.Some? ==>
              var subs := SortedUnique(discover(target).output.value);
              c.probeInput == c.subsFile == Some(subs) && c == Liveness(subs, probe(subs))
  {
    var d := discover(target);
    if missing == [] && d.exitCode == 0 && d.output.Some? {
      SortedBlankIff(d.output.value);
    }
  }

  /** The run ends with "no subdomains" exactly when discovery succeeded and
      every line of its file is all whitespace; httpx then never runs and no
      alive artifact exists. */
  lemma NoSubdomainsIff(target: string, missing: seq<string>,
                        discover: string -> StageOutcome, probe: seq<string> -> StageOutcome)
    ensures var d := discover(target);
            RunChain(target, missing, discover, probe).stop == NoSubdomains
            <==> missing == [] && d.exitCode == 0 && d.output.Some?
                 && forall l :: l in d.output.value ==> AllSpace(l)
    ensures var c := RunChain(target, missing, discover, probe);
            c.stop == NoSubdomains ==> c.probeInput.None? && c.aliveFile.None?
  {
    var d := discover(target);
    if missing == [] && d.exitCode == 0 && d.output.Some? {
      SortedBlankIff(d.output.value);
      var subs := SortedUnique(d.output.value);
      if Clean(subs) != [] {
        assert RunChain(target, missing, discover, probe) == Liveness(subs, probe(subs));
      }
    }
  }

  /** A discovery that exits 0 without leaving its file makes the read at
      line 99 raise, which ends the script with exit 1. */
  lemma MissingSubsFileFails(target: string, discover: string -> StageOutcome,
                             probe: seq<string> -> StageOutcome)
    requires discover(target).exitCode == 0 && discover(target).output.None?
    ensures RunChain(target, [], discover, probe) == Chain(SubsUnreadable, None, None, None)
  {
  }

  /** Liveness is lenient: it is fatal exactly when httpx exits nonzero and
      leaves no alive file. A missing file after a zero exit reports no hosts;
      an alive file, whatever the exit code, is sorted in place and its
      cleaned lines are reported. */
  lemma LivenessLenient(subs: seq<string>, p: StageOutcome)
    ensures Liveness(subs, p).stop.LivenessFailed? <==> p.exitCode != 0 && p.output.None?
    ensures Liveness(subs, p).stop.LivenessFailed? ==>
              Liveness(subs, p).stop.message == Trim(p.stderr)
    ensures p.exitCode == 0 && p.output.None? ==>
              Liveness(subs, p).stop == Reported([]) && Liveness(subs, p).aliveFile.None?
    ensures p.output.Some? ==>
              Liveness(subs, p).stop == Reported(Clean(SortedUnique(p.output.value)))
              && Liveness(subs, p).aliveFile == Some(SortedUnique(p.output.value))
    ensures Liveness(subs, p).probeInput == Liveness(subs, p).subsFile == Some(subs)
  {
  }

  /** The reported hosts are exactly the stripped, non-empty lines of the alive
      file and nothing from the subdomain file; each is non-empty and has no
      surrounding whitespace, and the printed count is their number. */
  lemma ReportedAreCleanedAlive(subs: seq<string>, p: StageOutcome)
    requires Liveness(subs, p).stop.Reported?
    ensures var alive := Liveness(subs, p).stop.alive;
            (p.output.None? ==> alive == [])
            && (p.output.Some? ==>
                  |alive| <= |p.output.value|
                  && forall z :: z in alive <==> z != [] && exists l :: l in p.output.value && Trim(l) == z)
    ensures forall z :: z in Liveness(subs, p).stop.alive ==> z != [] && Trimmed(z)
  {
    if p.output.Some? {
      CleanMembers(SortedUnique(p.output.value));
    }
  }
}
