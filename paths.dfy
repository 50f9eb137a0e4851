/**
 * Where the two artifacts of a run are written (reconhawk.py lines 54-59):
 * the results directory joined with a file name made of the target, the
 * time stamp and the kind of artifact (`subs` or `alive`). The results
 * directory and the time stamp are parameters; the stamp is an opaque string.
 */
module Paths {
  import opened Text

  /** `os.path.join(a, b)` on POSIX for two components: an absolute `b`
      replaces `a`; otherwise a `/` is put between them unless `a` is empty
      or already ends with one. The result always ends with `b`. */
  function Join(a: string, b: string): (r: string)
    ensures |b| <= |r| && r[|r| - |b|..] == b
    ensures !StartsWith(b, "/") ==> StartsWith(r, a)
  {
    if StartsWith(b, "/") then b
    else if a == [] || a[|a| - 1] == '/' then a + b
    else a + "/" + b
  }

  /** The name of an artifact of `kind` (`subs` or `alive`) for `target`. It
      starts with the target, ends in `.txt`, and is an absolute path exactly
      when the target starts with `/`. */
  function FileName(target: string, stamp: string, kind: string): (r: string)
    ensures StartsWith(r, target) && |r| >= 4 && r[|r| - 4..] == ".txt"
    ensures StartsWith(r, "/") <==> StartsWith(target, "/")
  {
    var r := target + "_" + stamp + "_" + kind + ".txt";
    assert r[..|target|] == target;
    assert StartsWith(r, "/") <==> StartsWith(target, "/") by {
      if target == [] { assert r[0] == '_'; } else { assert r[..1] == target[..1]; }
    }
    r
  }

  /** The subdomain artifact: it ends with its file name and lies under the
      results directory unless the target is an absolute path. */
  function SubsPath(baseDir: string, target: string, stamp: string): (r: string)
    ensures var name := FileName(target, stamp, "subs");
            |name| <= |r| && r[|r| - |name|..] == name
    ensures !StartsWith(target, "/") ==> StartsWith(r, baseDir)
  {
    Join(baseDir, FileName(target, stamp, "subs"))
  }

  /** The alive artifact, placed like the subdomain artifact. */
  function AlivePath(baseDir: string, target: string, stamp: string): (r: string)
    ensures var name := FileName(target, stamp, "alive");
            |name| <= |r| && r[|r| - |name|..] == name
    ensures !StartsWith(target, "/") ==> StartsWith(r, baseDir)
  {
    Join(baseDir, FileName(target, stamp, "alive"))
  }

  /** Appending to a non-empty second component appends to the joined path. */
  lemma JoinAppend(a: string, b: string, c: string)
    requires b != []
    ensures Join(a, b + c) == Join(a, b) + c
  {
    assert StartsWith(b + c, "/") <==> StartsWith(b, "/") by {
      assert (b + c)[..1] == b[..1];
    }
  }

  /** Both artifact paths start with the common stem
      `join(base_dir, target_stamp_)` and differ only in the suffix after it,
      so the two files are never the same. */
  lemma PathsShareStem(baseDir: string, target: string, stamp: string)
    ensures SubsPath(baseDir, target, stamp)
            == Join(baseDir, target + "_" + stamp + "_") + "subs.txt"
    ensures AlivePath(baseDir, target, stamp)
            == Join(baseDir, target + "_" + stamp + "_") + "alive.txt"
    ensures SubsPath(baseDir, target, stamp) != AlivePath(baseDir, target, stamp)
  {
    var stem := target + "_" + stamp + "_";
    assert FileName(target, stamp, "subs") == stem + "subs.txt";
    assert FileName(target, stamp, "alive") == stem + "alive.txt";
    JoinAppend(baseDir, stem, "subs.txt");
    JoinAppend(baseDir, stem, "alive.txt");
    var p := Join(baseDir, stem);
    assert (p + "subs.txt")[|p|] == 's' && (p + "alive.txt")[|p|] == 'a';
  }

  /** The usual case: a results directory without a trailing `/` and a target
      that is not an absolute path give `base_dir/target_stamp_subs.txt`. */
  lemma SubsPathUnderBase(baseDir: string, target: string, stamp: string)
    requires baseDir != [] && baseDir[|baseDir| - 1] != '/'
    requires !StartsWith(target, "/")
    ensures SubsPath(baseDir, target, stamp) == baseDir + "/" + FileName(target, stamp, "subs")
  {
    var name := FileName(target, stamp, "subs");
    if target == [] {
      assert name[0] == '_';
    } else {
      assert name[..1] == target[..1];
    }
  }

  /** A target that starts with `/` survives normalization, and `os.path.join`
      then discards the results directory: the artifact is written at the
      target's own absolute path. */
  lemma AbsoluteTargetEscapesBase(baseDir: string, target: string, stamp: string)
    requires StartsWith(target, "/")
    ensures SubsPath(baseDir, target, stamp) == FileName(target, stamp, "subs")
    ensures AlivePath(baseDir, target, stamp) == FileName(target, stamp, "alive")
  {
    assert FileName(target, stamp, "subs")[..1] == target[..1];
    assert FileName(target, stamp, "alive")[..1] == target[..1];
  }
}
