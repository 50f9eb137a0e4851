/**
 * A complete run of the recon chain on concrete engine outcomes: discovery
 * finds `a.example.com` twice and `b.example.com` once, httpx is fed the two
 * distinct names and finds only `https://b.example.com` alive.
 */
module PipelineExamples {
  import opened Text
  import opened Normalizer
  import opened Preflight
  import opened Lines
  import opened Pipeline
  import Paths
  import PipelineProperties

  /** `example.com` is already canonical, so it is its own normalization. */
  lemma PlainDomainNormalized(t: string)
    requires t == "example.com"
    ensures Normalize(t) == Ok(t)
  {
    assert !StartsWith(t, "http://") && !StartsWith(t, "https://") && !StartsWith(t, "www.") by {
      assert t[0] == 'e';
    }
    assert NoUpper(t) && Trimmed(t);
    CanonicalIsFixpoint(t);
  }

  /** The three discovered lines sort to the two distinct names. */
  lemma DiscoveredSorted(found: seq<string>, subs: seq<string>)
    requires found == ["a.example.com", "a.example.com", "b.example.com"]
    requires subs == ["a.example.com", "b.example.com"]
    ensures SortedUnique(found) == subs
    ensures Clean(subs) != []
  {
    assert Less(subs[0], subs[1]);
    SortedUniqueKeepsSorted(subs);
    SortedUniqueDependsOnSet(found, subs);
    assert Trimmed(subs[0]);
  }

  /** One alive line is reported as it is. */
  lemma AliveRead(alive: seq<string>)
    requires alive == ["https://b.example.com"]
    ensures Clean(SortedUnique(alive)) == alive
  {
    SortedUniqueKeepsSorted(alive);
    assert Trimmed(alive[0]);
    assert Clean(alive) == [alive[0]] + Clean(alive[1..]);
  }

  /** The chain after preflight: discovery's three lines are sorted to two,
      httpx is fed those two and its one alive line is reported. */
  lemma ExampleChain(target: string, discover: string -> StageOutcome,
                     probe: seq<string> -> StageOutcome, subs: seq<string>, alive: seq<string>)
    requires subs == ["a.example.com", "b.example.com"]
    requires alive == ["https://b.example.com"]
    requires discover(target) == StageOutcome(0, "", Some(["a.example.com", "a.example.com", "b.example.com"]))
    requires probe(subs) == StageOutcome(0, "", Some(alive))
    ensures RunChain(target, [], discover, probe) == Chain(Reported(alive), Some(subs), Some(subs), Some(alive))
  {
    DiscoveredSorted(discover(target).output.value, subs);
    AliveRead(alive);
    SortedUniqueKeepsSorted(alive);
  }

  /** The run reports exactly `https://b.example.com` (count 1) with exit 0,
      and the subdomain artifact holds the two names in sorted order. */
  lemma ExampleRun(env: Environment)
    requires env.argv == ["reconhawk.py", "example.com"]
    requires env.installed == {"subfinder", "httpx", "sort"}
    requires env.discover("example.com")
             == StageOutcome(0, "", Some(["a.example.com", "a.example.com", "b.example.com"]))
    requires env.probe(["a.example.com", "b.example.com"])
             == StageOutcome(0, "", Some(["https://b.example.com"]))
    ensures Recon(env).Started?
    ensures Recon(env).chain.stop == Reported(["https://b.example.com"])
    ensures |Recon(env).chain.stop.alive| == 1
    ensures Recon(env).chain.subsFile == Some(["a.example.com", "b.example.com"])
    ensures ExitStatus(Recon(env)) == 0
  {
    var target := "example.com";
    assert RawTarget(env.argv, env.answer) == Some(target);
    PlainDomainNormalized(target);
    NothingMissingIff(env.installed);
    PipelineProperties.StartedPaths(env, target);
    ExampleChain(target, env.discover, env.probe, ["a.example.com", "b.example.com"], ["https://b.example.com"]);
  }

  /** `/tmp/x` is accepted by the normalizer as it is. */
  lemma AbsoluteTargetNormalized(t: string)
    requires t == "/tmp/x"
    ensures Normalize(t) == Ok(t) && StartsWith(t, "/")
  {
    assert !StartsWith(t, "http://") && !StartsWith(t, "https://") && !StartsWith(t, "www.") by {
      assert t[0] == '/';
    }
    assert NoUpper(t) && Trimmed(t);
    CanonicalIsFixpoint(t);
  }

  /** A target that starts with `/` is accepted as it is, and its artifacts
      are then written under that absolute path instead of the results
      directory. */
  lemma AbsoluteTargetLeavesBase(env: Environment, target: string)
    requires target == "/tmp/x"
    requires |env.argv| > 1 && env.argv[1] == target
    ensures Recon(env).Started?
    ensures Recon(env).subsPath == Paths.FileName(target, env.stamp, "subs")
    ensures Recon(env).alivePath == Paths.FileName(target, env.stamp, "alive")
  {
    AbsoluteTargetNormalized(target);
    Paths.AbsoluteTargetEscapesBase(env.baseDir, target, env.stamp);
  }
}
