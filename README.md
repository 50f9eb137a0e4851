# reconhawk in Dafny

`reconhawk.py` chains two external reconnaissance engines for one domain:

- `subfinder` enumerates subdomains into a file.
- `httpx` reads that list and probes which hosts answer over HTTP, writing the alive ones to a second file.

Around those engines the script makes a small set of exact decisions, and this project models them:

- **Target normalizer.** Strips the raw target and lower-cases it. Drops `http://`, `https://` and `www.`, each at most once and in that order. Drops trailing `/`. Rejects empty results.
- **Preflight.** Lists the tools among `subfinder`, `httpx` and `sort` that `which` cannot find.
- **Result store.**
  - Composes the two artifact paths `base_dir/target_stamp_subs.txt` and `..._alive.txt`.
  - Rewrites each artifact in place with `sort -u`.
  - Reads each artifact back as stripped, non-empty lines.
- **Stage pipeline.** Stops at the early `sys.exit` branches:
  - missing tools;
  - strict discovery;
  - no subdomains;
  - lenient liveness.

  Otherwise it reports the alive hosts.

## Layout

| file | module | contents |
|---|---|---|
| `text.dfy` | `Text` | Python's `strip`, `lower`, `startswith` and `rstrip("/")` on ASCII. |
| `normalizer.dfy` | `Normalizer` | `Normalize` (the specification) and `NormalizeTarget` (the code's reassigning loop), with their properties. |
| `normalizer_examples.dfy` | `NormalizerExamples` | Concrete inputs of the normalizer. |
| `preflight.dfy` | `Preflight` | The `missing` loop and its specification. |
| `lines.dfy` | `Lines` | Line order, `sort -u` as a function and as an in-place method on an `Artifact` object, and line cleaning. |
| `paths.dfy` | `Paths` | `os.path.join` and the two artifact paths. |
| `pipeline.dfy` | `Pipeline` | The run outcome (`Recon`, a function of the script's inputs) and the step-by-step script (`RunRecon`), proved equal. |
| `pipeline_properties.dfy` | `PipelineProperties` | Which stages run, which are fatal, and what is reported. |
| `pipeline_examples.dfy` | `PipelineExamples` | A complete run on concrete engine outcomes. |

### How the environment is modelled

- **External engines.** They are inputs.
  - Discovery is a function from the target to a `StageOutcome`. A `StageOutcome` holds the exit code, the standard error, and the lines of the file the engine wrote (`None` when it wrote no file).
  - Probing is a function from the lines piped into `httpx` to a `StageOutcome`.
- **`which`.** Modelled as membership in a set `installed`.
- **Other inputs.** All are parameters:
  - the command-line arguments;
  - the prompt answer, `None` when standard input is at end of file, where `input()` raises `EOFError` (the run ends as `NoAnswer`, exit 1);
  - the expanded `~/recon_results`;
  - the time stamp.
- **Files.** Modelled as sequences of lines.
- **`sort -u -o f f`.** The method `Lines.Artifact.SortUnique`, which reassigns the artifact's `lines` field.
- **Line order.** Code-point lexicographic order, the byte order of the C locale.
- **Whitespace.** The ASCII characters that Python's `str.isspace()` accepts: 9 to 13, 28 to 31, and 32.
- **Upper case.** `A` to `Z`.

### Behaviour of the code that differs from its documented design

The model follows the code in each case.

- **The output directory is created before the preflight** (line 55 runs before lines 76-84). Every run with a valid target is therefore `Started`, even when tools are missing.
- **Normalization is not idempotent.** `www.www.x` becomes `www.x`, and a second scheme survives: `https://http://x` becomes `http://x`.
- **Lines read back are not de-duplicated after stripping.** `sort -u` runs on the raw lines, so `" a"` and `"a"` both survive and read back as `"a"`, `"a"` (`Lines.CleanAfterSortMayRepeat`).
- **A missing subdomain file is fatal.** If `subfinder` exits 0 without writing its file, the `open` at line 99 raises. The script then ends with exit status 1 (`SubsUnreadable`).
- **A target starting with `/` leaves the results directory.** Such a target passes normalization, and `os.path.join` then discards the results directory (`PipelineExamples.AbsoluteTargetLeavesBase`).

## Model

| member | source | states |
|---|---|---|
| Text.TrimLeftSplit | reconhawk.py:30-32 | `lstrip()` leaves a suffix of the input, and everything before it is whitespace. |
| Text.TrimRightSplit | reconhawk.py:30-32 | `rstrip()` leaves a prefix of the input, and everything after it is whitespace. |
| Text.Trim | reconhawk.py:30-32 | The result is a slice `s[i..j]` of the input with only whitespace before `i` and after `j`, and no whitespace at either of its ends. It is empty exactly when the input is all whitespace, and leaves a trimmed string unchanged. |
| Text.Lower | reconhawk.py:39 | Same length, each character lowered on its own (`A` to `Z` mapped to `a` to `z`, all else kept), so no upper case is left and a string without upper case is unchanged. |
| Text.LowerConcat | reconhawk.py:39 | Lower-casing works character by character: it distributes over concatenation. |
| Text.TrimLeftLower | reconhawk.py:30-39 | Lower-casing commutes with `lstrip()`. |
| Text.TrimRightLower | reconhawk.py:30-39 | Lower-casing commutes with `rstrip()`. |
| Text.TrimLower | reconhawk.py:30-39 | Lower-casing commutes with `strip()`. |
| Text.DropPrefix | reconhawk.py:43-44 | When the prefix matches, prefix plus result is the input; otherwise the input is unchanged. |
| Text.StripTrailing | reconhawk.py:47 | Result is a prefix of the input, does not end in `/`, and only `/` characters were removed. |
| Text.StripTrailingRepeat | reconhawk.py:47 | Stripping removes exactly a run of slashes appended to a string that does not end in one. |
| Text.StripTrailingSplit | reconhawk.py:47 | The input is the result followed by a run of slashes. |
| Normalizer.DropEach | reconhawk.py:42-44 | Applying the prefix tests in order leaves a suffix of the input. |
| Normalizer.DropEachPrefixes | reconhawk.py:42-44 | The loop tests `http://`, then `https://`, then `www.`, each once. |
| Normalizer.DropPrefixes | reconhawk.py:42-44 | The reassigning loop computes exactly the in-order prefix drops. |
| Normalizer.Canonicalize | reconhawk.py:39-47 | The normalized string has no upper case and no trailing `/`. |
| Normalizer.Normalize | reconhawk.py:30-51 | "No target" exactly when the input is all whitespace. Any accepted target is non-empty, lower-case and has no trailing `/`. |
| Normalizer.NormalizeTarget | reconhawk.py:30-51 | The code's steps (strip, exit, strip and lower, prefix loop, `rstrip`, exit) give exactly `Normalize`. |
| Normalizer.DropShape | reconhawk.py:42-47 | Any string is some in-order selection of the three prefixes, then what the prefix loop and `rstrip("/")` leave of it, then a run of slashes. |
| Normalizer.NormalizeShape | reconhawk.py:39-47 | An accepted target is the stripped, lowered input minus some in-order selection of the three prefixes and some trailing slashes. |
| Normalizer.CanonicalizeDecorated | reconhawk.py:39-47 | Around a tidy name, the loop and `rstrip` remove exactly the selected prefixes and slashes, whenever the prefix tests that follow fail. |
| Normalizer.DecorationsRemoved | reconhawk.py:30-51 | An in-order selection of prefixes and trailing slashes around a non-empty tidy name normalizes to that name, provided the prefix tests still made on it fail (`LaterTestsFail`). |
| Normalizer.DecorationsAloneRejected | reconhawk.py:42-51 | An in-order selection of the three prefixes, each at most once, followed only by slashes, is rejected after normalization. |
| Normalizer.CanonicalIsFixpoint | reconhawk.py:30-51 | A canonical target (non-empty, tidy, no prefix at its start) normalizes to itself. |
| Normalizer.CanonicalizeLower | reconhawk.py:39-47 | Lower-casing a stripped target first does not change what lines 39-47 make of it. |
| Normalizer.NormalizeIgnoresCase | reconhawk.py:30-51 | For every input, letter case does not change the outcome: the input and its lower-cased form normalize alike. |
| NormalizerExamples.MixedCaseUrl | reconhawk.py:39-47 | `https://WWW.Example.com/` normalizes to `example.com`. |
| NormalizerExamples.BlankRejected | reconhawk.py:30-36 | `"   "` is the "no target" error. |
| NormalizerExamples.SchemeAloneRejected | reconhawk.py:42-51 | `http://` is rejected after normalization. |
| NormalizerExamples.SlashesAloneRejected | reconhawk.py:47-51 | `///` is rejected after normalization. |
| NormalizerExamples.WwwRemovedOnce | reconhawk.py:42-44 | `www.www.x` becomes `www.x`: each prefix is removed at most once, so normalization is not idempotent. |
| NormalizerExamples.WwwRemoved | reconhawk.py:42-44 | `www.x` becomes `x`. |
| NormalizerExamples.SchemeCanSurvive | reconhawk.py:42-44 | `https://http://x` becomes `http://x`: `http://` is tested before `https://` is removed. |
| Preflight.Unavailable | reconhawk.py:76-79 | A tool is listed exactly when it is required and not installed; the list is no longer than the tuple. |
| Preflight.FindMissing | reconhawk.py:76-79 | The appending loop over the tuple computes exactly `Unavailable` of the required tools. |
| Preflight.MissingInTupleOrder | reconhawk.py:76-79 | `missing` is `subfinder`, `httpx`, `sort` in that order, each present exactly when `which` cannot find it. |
| Preflight.NothingMissingIff | reconhawk.py:76-84 | Nothing is missing exactly when all three tools are found. |
| Lines.Less | reconhawk.py:96 | The order `sort` uses in the C locale: a proper prefix comes first, otherwise the first differing code point decides. Its properties are the four lemmas below. |
| Lines.LessIrreflexive | reconhawk.py:96 | No line sorts before itself. |
| Lines.LessTransitive | reconhawk.py:96 | The line order is transitive. |
| Lines.LessTotal | reconhawk.py:96 | Any two distinct lines are ordered one way or the other. |
| Lines.LessAsymmetric | reconhawk.py:96 | Two lines are never each before the other. |
| Lines.Insert | reconhawk.py:96 | Inserting into a strictly sorted sequence keeps it strictly sorted and adds exactly the inserted line. |
| Lines.SortedUnique | reconhawk.py:96 | `sort -u` output is strictly increasing, holds exactly the input's lines, and is no longer than the input. |
| Lines.SortedBySetIsUnique | reconhawk.py:96 | Two strictly sorted sequences with the same lines are equal, so `sort -u` output is determined. |
| Lines.SortedUniqueIdempotent | reconhawk.py:96 | Applying `sort -u` twice equals applying it once. |
| Lines.SortedUniqueKeepsSorted | reconhawk.py:125 | An already strictly sorted file is left as it is. |
| Lines.SortedUniqueDependsOnSet | reconhawk.py:96 | The result depends only on which lines occur, not on their order or multiplicity. |
| Lines.Artifact.SortUnique | reconhawk.py:96 | In-place rewrite by insertion: the new lines are strictly sorted, hold exactly the old lines, and equal `SortedUnique` of the old lines. |
| Lines.Clean | reconhawk.py:100 | No more lines than read; each is non-empty and has no surrounding whitespace. |
| Lines.CleanMembers | reconhawk.py:100 | A line is kept exactly when it is the non-empty stripped form of some line read. |
| Lines.CleanEmptyIff | reconhawk.py:100-103 | Nothing is kept exactly when every line read is all whitespace. |
| Lines.CleanConcat | reconhawk.py:127 | Cleaning keeps file order and works piecewise over concatenation. |
| Lines.CleanIdempotent | reconhawk.py:127 | Cleaning cleaned lines changes nothing. |
| Lines.CleanAfterSortMayRepeat | reconhawk.py:96-100 | `" a"`, `"a"` through `sort -u` and cleaning gives `"a"`, `"a"`: lines read back can repeat. |
| Paths.FileName | reconhawk.py:58-59 | The file name `target_stamp_kind.txt` starts with the target, ends in `.txt`, and is absolute exactly when the target starts with `/`. |
| Paths.SubsPath | reconhawk.py:58 | The subdomain path ends with its file name and lies under the results directory unless the target is absolute. |
| Paths.AlivePath | reconhawk.py:59 | The alive path ends with its file name and lies under the results directory unless the target is absolute. |
| Paths.Join | reconhawk.py:58-59 | The joined path ends with the second component and, unless that component is absolute, starts with the first. |
| Paths.JoinAppend | reconhawk.py:58-59 | Appending to a non-empty second component appends to the joined path. |
| Paths.PathsShareStem | reconhawk.py:58-59 | Both paths are the stem `join(base_dir, target_stamp_)` followed by `subs.txt` or `alive.txt`, and they differ. |
| Paths.SubsPathUnderBase | reconhawk.py:54-58 | For a base without trailing `/` and a non-absolute target, the path is `base_dir/target_stamp_subs.txt`. |
| Paths.AbsoluteTargetEscapesBase | reconhawk.py:58-59 | A target starting with `/` makes both paths independent of the results directory. |
| Pipeline.RawTarget | reconhawk.py:29-32 | The raw target is the first argument when there is one, else the prompt answer; there is none exactly when no argument is given and the prompt meets end of input. |
| Pipeline.ExitStatus | reconhawk.py:32-136 | The process exits with 0 or 1, and with 1 whenever the run never starts (the `sys.exit` calls at lines 36, 51, 84, 93, 105, 121, and the uncaught exceptions of lines 32 and 99). |
| Pipeline.Recon | reconhawk.py:29-136 | The whole script as a function of its inputs. A run that starts has a non-empty target and two distinct artifact paths. |
| Pipeline.RunChain | reconhawk.py:76-136 | The chain after a valid target: it stops on the tool list exactly when that list is non-empty, and httpx, when it runs, reads exactly the subdomain artifact. |
| Pipeline.Liveness | reconhawk.py:117-136 | After httpx: it has read the subdomain artifact, and an alive artifact exists exactly when httpx wrote one. |
| Pipeline.RunRecon | reconhawk.py:29-136 | The script's steps and early exits give exactly the outcome `Recon`. |
| Pipeline.RunStages | reconhawk.py:81-117 | Preflight, discovery, in-place sort and count give exactly `RunChain`. |
| Pipeline.RunLiveness | reconhawk.py:119-131 | The lenient httpx check and the in-place sort and read of the alive file give exactly `Liveness`. |
| PipelineProperties.NoAnswerIff | reconhawk.py:29-32 | Without an argument, a prompt at end of input ends the run before anything is created, with exit 1. |
| PipelineProperties.RejectedIff | reconhawk.py:29-51 | The run stops at validation exactly when there is a raw target and its normalization fails, with exit 1. A blank target is the "no target" error. |
| PipelineProperties.ExitZeroIff | reconhawk.py:103-136 | Exit 0 exactly for "no subdomains" and for a report of alive hosts; in every other case exit 1. |
| PipelineProperties.StartedPaths | reconhawk.py:54-59 | A valid target creates the directory and runs the chain after preflight; the two artifact paths share the stem and are distinct. |
| PipelineProperties.MissingToolsStop | reconhawk.py:81-84 | Missing tools stop the run, listed in order, and the outcome does not depend on either engine. |
| PipelineProperties.DiscoveryFailureStops | reconhawk.py:89-93 | A nonzero discovery exit stops the run with the stripped stderr. httpx never runs, and no alive artifact exists. |
| PipelineProperties.SortedBlankIff | reconhawk.py:96-103 | The sorted subdomain file cleans to nothing exactly when every discovered line is all whitespace. |
| PipelineProperties.ProbeRunsIff | reconhawk.py:89-117 | httpx runs exactly when tools are present, discovery exits 0, its file exists and has a visible line. It is fed the `sort -u` of the discovered lines, which is also the subdomain artifact. |
| PipelineProperties.NoSubdomainsIff | reconhawk.py:99-105 | "No subdomains" exactly when discovery succeeded with only whitespace lines. httpx then never runs and no alive artifact exists. |
| PipelineProperties.MissingSubsFileFails | reconhawk.py:96-99 | A zero discovery exit without a file ends in the unreadable-file failure. |
| PipelineProperties.LivenessLenient | reconhawk.py:117-129 | Fatal exactly on a nonzero exit with no alive file. A missing file after exit 0 reports nothing. Otherwise the sorted, cleaned alive file is reported, whatever the exit code. |
| PipelineProperties.ReportedAreCleanedAlive | reconhawk.py:124-136 | The reported hosts are exactly the stripped non-empty alive lines, at most as many as written. |
| PipelineExamples.ExampleChain | reconhawk.py:89-131 | Three discovered lines (one repeated) sort to two; httpx fed those two reports its single alive line. |
| PipelineExamples.ExampleRun | reconhawk.py:29-136 | For `example.com` the run reports `https://b.example.com` (count 1) with exit 0, and the subdomain artifact is the two names in order. |
| PipelineExamples.AbsoluteTargetLeavesBase | reconhawk.py:54-59 | Target `/tmp/x` is accepted, and its artifacts are written under `/tmp/x_...` rather than the results directory. |

## Left out

- **Screen clearing, the banner, colours and all terminal output (lines 11-26, 69, 82-83, 87, 92, 104, 108, 120, 134-141).** They are decorative. The printed messages are represented only by the `Stop` value; the count printed at line 134 is the length of the reported list.
- **`subprocess.run` with a shell, `shlex.quote`, and the engines' internals (lines 62-67, 73, 88, 111-117).** These are foreign processes. Only their exit code, standard error and output file are modelled, as inputs.
- **httpx's configuration.** Its fixed options (50 threads, timeout 6, follow redirects, no colour) are part of the command line only and are not modelled.
- **`sort`'s own failure.** The exit status of line 96 and line 125 is ignored by the code. The model assumes `sort` succeeds once preflight found it.
- **`os.makedirs` (line 55).** It is modelled only as the fact that a run with a valid target is `Started`. Filesystem errors are not modelled.
- **`datetime.now().strftime` (line 57).** It is a clock, so the stamp is an opaque string parameter.
- **Reading files with UTF-8 and `errors="ignore"` (lines 99, 126).** Files are sequences of already decoded lines, and trailing newlines are not represented.
- **Universal newlines when reading back (lines 99-100, 126-127).** A file is one sequence of lines, the ones `sort` separates at `\n`, and `Clean` strips those lines. Python's text mode also ends a line at a lone `\r`, so a line with a `\r` inside it reads back as two lines, which changes the count and the report. The model keeps such a line whole.
- **Unicode semantics of `str.strip()`, `str.lower()` and locale-dependent `sort` order.** Only ASCII whitespace, ASCII upper case and code-point order are modelled.
- **`os.path.expanduser` (line 54).** The expanded results directory is a parameter.
- **Interrupts and concurrency.** The script has none of its own.
