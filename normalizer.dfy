/**
 * The target normalizer of reconhawk.py (lines 29-51): the raw argument or
 * prompt answer is stripped, rejected when empty, lower-cased, relieved of
 * each of the prefixes "http://", "https://" and "www." at most once and in
 * that order, relieved of every trailing '/', and rejected when nothing is
 * left.
 */
module Normalizer {
  import opened Text

  /** The two rejections: empty input (line 34) and nothing left after
      normalization (line 49). Both end the run with exit status 1. */
  datatype InputError = NoTarget | InvalidAfterNormalization

  datatype Normalized = Ok(target: string) | Err(error: InputError)

  /** The prefixes the loop at line 42 tests, in their order. */
  const Prefixes: seq<string> := ["http://", "https://", "www."]

  /** The loop body of line 43-44 applied once for each prefix of `ps`, in order. */
  function DropEach(ps: seq<string>, s: string): (r: string)
    ensures |r| <= |s| && r == s[|s| - |r|..]
  {
    if ps == [] then s else DropPrefix(DropEach(ps[..|ps| - 1], s), ps[|ps| - 1])
  }

  /** The three prefix tests of the loop, spelled out. */
  lemma DropEachPrefixes(s: string)
    ensures DropEach(Prefixes, s)
            == DropPrefix(DropPrefix(DropPrefix(s, "http://"), "https://"), "www.")
  {
    var p2 := Prefixes[..2];
    var p1 := p2[..1];
    assert p1 == ["http://"] && p1[..0] == [];
    assert p2 == ["http://", "https://"];
    calc {
      DropEach(Prefixes, s);
      DropPrefix(DropEach(p2, s), "www.");
      DropPrefix(DropPrefix(DropEach(p1, s), "https://"), "www.");
      DropPrefix(DropPrefix(DropPrefix(DropEach([], s), "http://"), "https://"), "www.");
    }
  }

  /** The normalization of lines 30-51. The input is stripped twice (lines 30
      and 39) as in the code. The result is an error exactly for the two
      rejections, and otherwise non-empty, lower-case and without a trailing '/'. */
  function Normalize(raw: string): (r: Normalized)
    ensures r == Err(NoTarget) <==> AllSpace(raw)
    ensures r.Ok? ==> r.target != [] && NoUpper(r.target) && r.target[|r.target| - 1] != '/'
  {
    var t := Trim(raw);
    if t == [] then Err(NoTarget)
    else
      var c := Canonicalize(t);
      if c == [] then Err(InvalidAfterNormalization) else Ok(c)
  }

  /** Lines 39-47 on an already stripped target: strip again, lower-case,
      drop the prefixes, drop trailing slashes. */
  function Canonicalize(t: string): (c: string)
    ensures NoUpper(c) && (c == [] || c[|c| - 1] != '/')
  {
    var lowered := Lower(Trim(t));
    var dropped := DropEach(Prefixes, lowered);
    var c := StripTrailing(dropped, '/');
    NoUpperSuffixPrefix(lowered, dropped, c);
    c
  }

  /** A prefix of a suffix of a string without upper case has none either. */
  lemma NoUpperSuffixPrefix(s: string, suffix: string, prefix: string)
    requires NoUpper(s)
    requires |suffix| <= |s| && suffix == s[|s| - |suffix|..]
    requires |prefix| <= |suffix| && prefix == suffix[..|prefix|]
    ensures NoUpper(prefix)
  {
    NoUpperSlice(s, |s| - |suffix|, |s|);
    NoUpperSlice(suffix, 0, |prefix|);
  }

  /** The loop of lines 42-44 over the list `prefixes`, reassigning `target`
      once per prefix; the code runs it on `Prefixes`. */
  method DropPrefixes(prefixes: seq<string>, s: string) returns (target: string)
    ensures target == DropEach(prefixes, s)
  {
    target := s;
    for i := 0 to |prefixes|
      invariant target == DropEach(prefixes[..i], s)
    {
      var prefix := prefixes[i];
      DropEachStep(prefixes, i, s);
      if StartsWith(target, prefix) {
        target := target[|prefix|..];
      }
    }
    assert prefixes[..|prefixes|] == prefixes;
  }

  /** One more turn of the loop drops one more prefix. */
  lemma DropEachStep(ps: seq<string>, i: nat, s: string)
    requires i < |ps|
    ensures DropEach(ps[..i + 1], s) == DropPrefix(DropEach(ps[..i], s), ps[i])
  {
    assert ps[..i + 1][..i] == ps[..i];
  }

  /** Lines 30-51 as the code runs them. */
  method NormalizeTarget(raw: string) returns (r: Normalized)
    ensures r == Normalize(raw)
  {
    var target := Trim(raw);
    if target == [] {
      return Err(NoTarget);
    }
    target := Lower(Trim(target));
    target := DropPrefixes(Prefixes, target);
    target := StripTrailing(target, '/');
    if target == [] {
      return Err(InvalidAfterNormalization);
    }
    return Ok(target);
  }

  function Opt(present: bool, p: string): string {
    if present then p else []
  }

  /** A host name `t` decorated with any in-order selection of the three
      prefixes and a run of `n` slashes. */
  function Decorated(a: bool, b: bool, c: bool, t: string, n: nat): string {
    Opt(a, "http://") + (Opt(b, "https://") + (Opt(c, "www.") + (t + Repeat('/', n))))
  }

  /** Every accepted target is what is left of the stripped, lower-cased input
      once some in-order selection of the prefixes and some trailing slashes
      are taken away. */
  lemma NormalizeShape(raw: string)
    requires Normalize(raw).Ok?
    ensures exists a: bool, b: bool, c: bool, n: nat ::
              Lower(Trim(raw)) == Decorated(a, b, c, Normalize(raw).target, n)
  {
    var t := Trim(raw);
    assert Normalize(raw).target == Canonicalize(t);
    assert Trim(t) == t;
    DropShape(Lower(t));
  }

  lemma DropShape(l: string)
    ensures exists a: bool, b: bool, c: bool, n: nat ::
              l == Decorated(a, b, c, StripTrailing(DropEach(Prefixes, l), '/'), n)
  {
    var l1 := DropPrefix(l, "http://");
    var l2 := DropPrefix(l1, "https://");
    var l3 := DropPrefix(l2, "www.");
    DropEachPrefixes(l);
    var r := StripTrailing(l3, '/');
    StripTrailingSplit(l3, '/');
    var n := |l3| - |r|;
    DropSplit(l, "http://");
    DropSplit(l1, "https://");
    DropSplit(l2, "www.");
    var a, b, c := StartsWith(l, "http://"), StartsWith(l1, "https://"), StartsWith(l2, "www.");
    DecoratedByParts(l, l1, l2, l3, a, b, c, r, n);
  }

  lemma DecoratedByParts(l: string, l1: string, l2: string, l3: string,
                         a: bool, b: bool, c: bool, r: string, n: nat)
    requires l == Opt(a, "http://") + l1 && l1 == Opt(b, "https://") + l2
    requires l2 == Opt(c, "www.") + l3 && l3 == r + Repeat('/', n)
    ensures l == Decorated(a, b, c, r, n)
  {
  }

  lemma DropSplit(s: string, p: string)
    ensures s == Opt(StartsWith(s, p), p) + DropPrefix(s, p)
  {
    if !StartsWith(s, p) {
      assert Opt(false, p) + s == s;
    }
  }

  predicate NoPrefixAtStart(s: string) {
    !StartsWith(s, "http://") && !StartsWith(s, "https://") && !StartsWith(s, "www.")
  }

  /** Lower case, no surrounding whitespace, no trailing '/'. */
  predicate Tidy(t: string) {
    Trimmed(t) && NoUpper(t) && (t == [] || t[|t| - 1] != '/')
  }

  /** A target the normalizer leaves unchanged. */
  predicate IsCanonical(t: string) {
    t != [] && Tidy(t) && NoPrefixAtStart(t)
  }

  /** The prefix tests the loop still makes on `rest` when the decorations
      `a`, `b`, `c` stand in front of it all fail: a prefix is tested on
      `rest` only when no decoration at or after its position was present. */
  predicate LaterTestsFail(a: bool, b: bool, c: bool, rest: string) {
    (!c ==> !StartsWith(rest, "www.")) &&
    (!b && !c ==> !StartsWith(rest, "https://")) &&
    (!a && !b && !c ==> !StartsWith(rest, "http://"))
  }

  lemma DropOwnPrefix(p: string, x: string)
    ensures StartsWith(p + x, p) && DropPrefix(p + x, p) == x
  {
    assert (p + x)[..|p|] == p;
  }

  lemma OtherPrefixes(x: string)
    ensures !StartsWith("https://" + x, "http://")
    ensures !StartsWith("www." + x, "http://")
    ensures !StartsWith("www." + x, "https://")
  {
    assert ("https://" + x)[4] == 's';
    assert ("www." + x)[0] == 'w';
  }

  /** The prefix loop and the slash stripping remove exactly the decorations
      around a tidy `t`, whenever the remaining prefix tests fail on `t`
      followed by its slashes. */
  lemma {:induction false} CanonicalizeDecorated(a: bool, b: bool, c: bool, t: string, n: nat)
    requires Tidy(t)
    requires LaterTestsFail(a, b, c, t + Repeat('/', n))
    ensures Trimmed(Decorated(a, b, c, t, n))
    ensures Canonicalize(Decorated(a, b, c, t, n)) == t
  {
    DecoratedIsTidy(a, b, c, t, n);
    DropEachDecorated(a, b, c, t, n);
    CanonicalizeTidy(Decorated(a, b, c, t, n), t, n);
  }

  /** `Canonicalize` on a tidy string whose prefix drops leave `t` followed
      by `n` slashes gives `t`. */
  lemma CanonicalizeTidy(s: string, t: string, n: nat)
    requires Trimmed(s) && NoUpper(s) && (t == [] || t[|t| - 1] != '/')
    requires DropEach(Prefixes, s) == t + Repeat('/', n)
    ensures Canonicalize(s) == t
  {
    assert Lower(Trim(s)) == s;
    StripTrailingRepeat(t, '/', n);
  }

  /** Decorations around a non-empty tidy target are all removed, provided
      the prefix tests the loop still makes on the target fail. */
  lemma DecorationsRemoved(a: bool, b: bool, c: bool, t: string, n: nat)
    requires t != [] && Tidy(t)
    requires LaterTestsFail(a, b, c, t + Repeat('/', n))
    ensures Normalize(Decorated(a, b, c, t, n)) == Ok(t)
  {
    CanonicalizeDecorated(a, b, c, t, n);
    var s := Decorated(a, b, c, t, n);
    assert s != [] by {
      assert |s| >= |t|;
    }
    assert !AllSpace(s) by {
      assert !IsSpace(s[0]);
    }
  }

  /** An in-order selection of the three prefixes, each at most once, followed
      only by slashes, is rejected after normalization. */
  lemma DecorationsAloneRejected(a: bool, b: bool, c: bool, n: nat)
    requires a || b || c || n > 0
    ensures Normalize(Decorated(a, b, c, [], n)) == Err(InvalidAfterNormalization)
  {
    var slashes := Repeat('/', n);
    assert [] + slashes == slashes;
    assert n > 0 ==> slashes[0] == '/';
    assert NoPrefixAtStart(slashes);
    CanonicalizeDecorated(a, b, c, [], n);
    var s := Decorated(a, b, c, [], n);
    assert s != [] && !IsSpace(s[0]);
  }

  /** A canonical target is left unchanged. */
  lemma CanonicalIsFixpoint(t: string)
    requires IsCanonical(t)
    ensures Normalize(t) == Ok(t)
  {
    DecorationsRemoved(false, false, false, t, 0);
    assert Decorated(false, false, false, t, 0) == t;
  }

  /** A decorated tidy string has no surrounding whitespace and no upper case. */
  lemma DecoratedIsTidy(a: bool, b: bool, c: bool, t: string, n: nat)
    requires Tidy(t)
    ensures Trimmed(Decorated(a, b, c, t, n)) && NoUpper(Decorated(a, b, c, t, n))
  {
    var r := Repeat('/', n);
    var s3 := t + r;
    var s2 := Opt(c, "www.") + s3;
    var s1 := Opt(b, "https://") + s2;
    assert Trimmed(r) && NoUpper(r);
    PrefixesTidy(a, b, c);
    TrimmedConcat(t, r);
    NoUpperConcat(t, r);
    TrimmedConcat(Opt(c, "www."), s3);
    NoUpperConcat(Opt(c, "www."), s3);
    TrimmedConcat(Opt(b, "https://"), s2);
    NoUpperConcat(Opt(b, "https://"), s2);
    TrimmedConcat(Opt(a, "http://"), s1);
    NoUpperConcat(Opt(a, "http://"), s1);
  }

  lemma PrefixesTidy(a: bool, b: bool, c: bool)
    ensures Trimmed(Opt(a, "http://")) && NoUpper(Opt(a, "http://"))
    ensures Trimmed(Opt(b, "https://")) && NoUpper(Opt(b, "https://"))
    ensures Trimmed(Opt(c, "www.")) && NoUpper(Opt(c, "www."))
  {
  }

  /** The prefix loop removes exactly the selected decorations. */
  lemma DropEachDecorated(a: bool, b: bool, c: bool, t: string, n: nat)
    requires LaterTestsFail(a, b, c, t + Repeat('/', n))
    ensures DropEach(Prefixes, Decorated(a, b, c, t, n)) == t + Repeat('/', n)
  {
    var s3 := t + Repeat('/', n);
    var s2 := Opt(c, "www.") + s3;
    var s1 := Opt(b, "https://") + s2;
    var s := Opt(a, "http://") + s1;
    assert s == Decorated(a, b, c, t, n);
    DropEachPrefixes(s);
    DropFirst(a, b, c, s3);
    DropSecond(b, c, s3);
    DropThird(c, s3);
  }

  lemma DropFirst(a: bool, b: bool, c: bool, s3: string)
    requires !a && !b && !c ==> !StartsWith(s3, "http://")
    ensures var s1 := Opt(b, "https://") + (Opt(c, "www.") + s3);
            DropPrefix(Opt(a, "http://") + s1, "http://") == s1
  {
    var s2 := Opt(c, "www.") + s3;
    var s1 := Opt(b, "https://") + s2;
    if a { DropOwnPrefix("http://", s1); }
    else if b { OtherPrefixes(s2); }
    else if c { OtherPrefixes(s3); }
  }

  lemma DropSecond(b: bool, c: bool, s3: string)
    requires !b && !c ==> !StartsWith(s3, "https://")
    ensures var s2 := Opt(c, "www.") + s3;
            DropPrefix(Opt(b, "https://") + s2, "https://") == s2
  {
    var s2 := Opt(c, "www.") + s3;
    if b { DropOwnPrefix("https://", s2); }
    else if c { OtherPrefixes(s3); }
  }

  lemma DropThird(c: bool, s3: string)
    requires !c ==> !StartsWith(s3, "www.")
    ensures DropPrefix(Opt(c, "www.") + s3, "www.") == s3
  {
    if c { DropOwnPrefix("www.", s3); }
  }

  /** Letter case never changes the outcome: the input is stripped before it
      is lower-cased, and stripping does not depend on case. */
  lemma NormalizeIgnoresCase(raw: string)
    ensures Normalize(raw) == Normalize(Lower(raw))
  {
    var t := Trim(raw);
    TrimLower(raw);
    if t != [] {
      CanonicalizeLower(t);
    }
  }

  lemma CanonicalizeLower(t: string)
    ensures Canonicalize(Lower(t)) == Canonicalize(t)
  {
    TrimLower(t);
    var l := Lower(Trim(t));
    assert Lower(l) == l;
    assert Lower(Trim(Lower(t))) == l;
  }
}
