/**
 * String primitives the recon script relies on: Python's `str.strip()`,
 * `str.lower()`, `str.startswith()` and `str.rstrip("/")`, restricted to
 * ASCII (the characters Python's `str.isspace()` accepts below 128, and
 * upper-case letters A to Z).
 */
module Text {

  /** The ASCII characters Python's `str.isspace()` accepts: TAB, LF, VT, FF, CR,
      the four separators 0x1C..0x1F, and SPACE. */
  predicate IsSpace(c: char) {
    var k := c as int;
    (9 <= k <= 13) || (28 <= k <= 31) || k == 32
  }

  predicate IsUpper(c: char) { 'A' <= c <= 'Z' }

  /** No whitespace at either end. */
  predicate Trimmed(s: string) {
    s == [] || (!IsSpace(s[0]) && !IsSpace(s[|s| - 1]))
  }

  predicate AllSpace(s: string) {
    forall k :: 0 <= k < |s| ==> IsSpace(s[k])
  }

  /** Python's `s.lstrip()`: the suffix of `s` left once its leading
      whitespace is dropped; empty exactly when `s` is all whitespace. */
  function TrimLeft(s: string): (r: string)
    ensures |r| <= |s|
    ensures r == [] || !IsSpace(r[0])
    ensures r == [] <==> AllSpace(s)
    ensures s == [] || !IsSpace(s[0]) ==> r == s
  {
    if s != [] && IsSpace(s[0]) then
      var r := TrimLeft(s[1..]);
      AllSpaceConcat([s[0]], s[1..]);
      assert s == [s[0]] + s[1..];
      r
    else s
  }

  /** `TrimLeft` removes exactly a leading run of whitespace: the result is a
      suffix of the input and what comes before it is all whitespace. */
  lemma {:induction false} TrimLeftSplit(s: string)
    ensures var r := TrimLeft(s);
            r == s[|s| - |r|..] && AllSpace(s[..|s| - |r|])
  {
    if s != [] && IsSpace(s[0]) {
      var t := s[1..];
      var r := TrimLeft(t);
      TrimLeftSplit(t);
      assert s[..|s| - |r|] == [s[0]] + t[..|t| - |r|];
      AllSpaceConcat([s[0]], t[..|t| - |r|]);
    }
  }

  lemma AllSpaceConcat(x: string, y: string)
    ensures AllSpace(x + y) <==> AllSpace(x) && AllSpace(y)
  {
    if AllSpace(x) && AllSpace(y) {
      forall k | 0 <= k < |x + y| ensures IsSpace((x + y)[k]) {
        if k < |x| { assert (x + y)[k] == x[k]; } else { assert (x + y)[k] == y[k - |x|]; }
      }
    }
    if AllSpace(x + y) {
      forall k | 0 <= k < |x| ensures IsSpace(x[k]) { assert (x + y)[k] == x[k]; }
      forall k | 0 <= k < |y| ensures IsSpace(y[k]) { assert (x + y)[|x| + k] == y[k]; }
    }
  }

  /** Python's `s.rstrip()`: the prefix of `s` left once its trailing
      whitespace is dropped; keeps the first character of a string that does
      not start with whitespace. */
  function TrimRight(s: string): (r: string)
    ensures |r| <= |s|
    ensures r == [] || !IsSpace(r[|r| - 1])
    ensures r != [] ==> r[0] == s[0]
    ensures s != [] && !IsSpace(s[0]) ==> r != []
    ensures s == [] || !IsSpace(s[|s| - 1]) ==> r == s
  {
    if s != [] && IsSpace(s[|s| - 1]) then TrimRight(s[..|s| - 1]) else s
  }

  /** `TrimRight` removes exactly a trailing run of whitespace: the result is
      a prefix of the input and what follows it is all whitespace. */
  lemma {:induction false} TrimRightSplit(s: string)
    ensures var r := TrimRight(s);
            r == s[..|r|] && AllSpace(s[|r|..])
  {
    if s != [] && IsSpace(s[|s| - 1]) {
      var t := s[..|s| - 1];
      var r := TrimRight(t);
      TrimRightSplit(t);
      assert s[|r|..] == t[|r|..] + [s[|s| - 1]];
      AllSpaceConcat(t[|r|..], [s[|s| - 1]]);
    }
  }

  /** Python's `s.strip()`: `s` with surrounding whitespace removed; empty exactly
      when `s` is all whitespace, and a no-op on a string that is already trimmed. */
  function Trim(s: string): (r: string)
    ensures exists i, j :: 0 <= i <= j <= |s| && r == s[i..j] && AllSpace(s[..i]) && AllSpace(s[j..])
    ensures Trimmed(r)
    ensures r == [] <==> AllSpace(s)
    ensures Trimmed(s) ==> r == s
  {
    var l := TrimLeft(s);
    var r := TrimRight(l);
    var i := |s| - |l|;
    TrimLeftSplit(s);
    TrimRightSplit(l);
    assert r == s[i..i + |r|] && AllSpace(s[i + |r|..]) by {
      assert l[|r|..] == s[i + |r|..];
    }
    r
  }

  function LowerChar(c: char): (d: char)
    ensures !IsUpper(d)
    ensures !IsUpper(c) ==> d == c
    ensures IsSpace(d) <==> IsSpace(c)
  {
    if IsUpper(c) then (c as int + 32) as char else c
  }

  /** Python's `s.lower()` on ASCII letters: each character lowered on its own,
      so no upper case is left and a string without upper case is unchanged. */
  function Lower(s: string): (r: string)
    ensures |r| == |s|
    ensures forall k :: 0 <= k < |s| ==> r[k] == LowerChar(s[k])
    ensures NoUpper(r)
    ensures NoUpper(s) ==> r == s
  {
    if s == [] then []
    else
      var rest := Lower(s[1..]);
      assert NoUpper(s) ==> NoUpper(s[1..]) by {
        if NoUpper(s) { NoUpperSlice(s, 1, |s|); }
      }
      NoUpperConcat([LowerChar(s[0])], rest);
      [LowerChar(s[0])] + rest
  }

  lemma NoUpperConcat(x: string, y: string)
    requires NoUpper(x) && NoUpper(y)
    ensures NoUpper(x + y)
  {
    forall k | 0 <= k < |x + y| ensures !IsUpper((x + y)[k]) {
      if k < |x| { assert (x + y)[k] == x[k]; } else { assert (x + y)[k] == y[k - |x|]; }
    }
  }

  predicate NoUpper(s: string) {
    forall k :: 0 <= k < |s| ==> !IsUpper(s[k])
  }

  lemma NoUpperSlice(s: string, i: nat, j: nat)
    requires NoUpper(s) && i <= j <= |s|
    ensures NoUpper(s[i..j])
  {
    forall k | 0 <= k < j - i ensures !IsUpper(s[i..j][k]) {
      assert s[i..j][k] == s[i + k];
    }
  }

  lemma TrimmedConcat(x: string, y: string)
    requires Trimmed(x) && Trimmed(y)
    ensures Trimmed(x + y)
  {
    if x != [] && y != [] {
      assert (x + y)[0] == x[0];
      assert (x + y)[|x + y| - 1] == y[|y| - 1];
    } else if x == [] {
      assert x + y == y;
    } else {
      assert x + y == x;
    }
  }

  lemma {:induction false} LowerConcat(x: string, y: string)
    ensures Lower(x + y) == Lower(x) + Lower(y)
  {
    if x == [] {
      assert x + y == y;
    } else {
      assert (x + y)[1..] == x[1..] + y;
      LowerConcat(x[1..], y);
    }
  }

  /** Lower-casing does not change which characters are whitespace, so it
      commutes with dropping leading whitespace. */
  lemma {:induction false} TrimLeftLower(s: string)
    ensures TrimLeft(Lower(s)) == Lower(TrimLeft(s))
  {
    if s != [] && IsSpace(s[0]) {
      LowerConcat([s[0]], s[1..]);
      assert Lower(s)[1..] == Lower(s[1..]) by {
        assert s == [s[0]] + s[1..];
      }
      TrimLeftLower(s[1..]);
    }
  }

  /** Lower-casing commutes with dropping trailing whitespace. */
  lemma {:induction false} TrimRightLower(s: string)
    ensures TrimRight(Lower(s)) == Lower(TrimRight(s))
  {
    var l := Lower(s);
    if s != [] && IsSpace(s[|s| - 1]) {
      var init := s[..|s| - 1];
      LowerConcat(init, [s[|s| - 1]]);
      assert s == init + [s[|s| - 1]];
      assert l[..|l| - 1] == Lower(init);
      assert IsSpace(l[|l| - 1]);
      TrimRightLower(init);
    } else if s != [] {
      assert !IsSpace(l[|l| - 1]);
    }
  }

  /** Lower-casing commutes with `strip()`. */
  lemma TrimLower(s: string)
    ensures Trim(Lower(s)) == Lower(Trim(s))
  {
    TrimLeftLower(s);
    TrimRightLower(TrimLeft(s));
  }

  predicate StartsWith(s: string, prefix: string) {
    |prefix| <= |s| && s[..|prefix|] == prefix
  }

  /** One prefix test of the normalizer: `prefix` is cut off when `s` starts
      with it. */
  function DropPrefix(s: string, prefix: string): (r: string)
    ensures StartsWith(s, prefix) ==> prefix + r == s
    ensures !StartsWith(s, prefix) ==> r == s
  {
    if StartsWith(s, prefix) then s[|prefix|..] else s
  }

  /** Python's `s.rstrip(c)` for one character `c`: the longest prefix of `s`
      that does not end with `c`; only copies of `c` are removed. */
  function StripTrailing(s: string, c: char): (r: string)
    ensures |r| <= |s| && r == s[..|r|]
    ensures r == [] || r[|r| - 1] != c
    ensures forall k :: |r| <= k < |s| ==> s[k] == c
  {
    if s != [] && s[|s| - 1] == c then StripTrailing(s[..|s| - 1], c) else s
  }

  /** `n` copies of `c`. */
  function Repeat(c: char, n: nat): (r: string)
    ensures |r| == n
    ensures forall k :: 0 <= k < n ==> r[k] == c
  {
    if n == 0 then [] else Repeat(c, n - 1) + [c]
  }

  /** Stripping trailing `c` removes exactly the run of `c` appended to a string
      that does not itself end in `c`. */
  lemma {:induction false} StripTrailingRepeat(s: string, c: char, n: nat)
    requires s == [] || s[|s| - 1] != c
    ensures StripTrailing(s + Repeat(c, n), c) == s
  {
    if n == 0 {
      assert s + Repeat(c, 0) == s;
    } else {
      var t := s + Repeat(c, n);
      assert t[|t| - 1] == c;
      assert t[..|t| - 1] == s + Repeat(c, n - 1);
      StripTrailingRepeat(s, c, n - 1);
    }
  }

  /** The input of `StripTrailing` is its result followed by a run of `c`. */
  lemma StripTrailingSplit(s: string, c: char)
    ensures s == StripTrailing(s, c) + Repeat(c, |s| - |StripTrailing(s, c)|)
  {
    var r := StripTrailing(s, c);
    var rest := Repeat(c, |s| - |r|);
    assert |r + rest| == |s|;
    forall k | 0 <= k < |s| ensures (r + rest)[k] == s[k] {
      if k < |r| { assert (r + rest)[k] == r[k]; }
      else { assert (r + rest)[k] == rest[k - |r|]; }
    }
  }
}
