/**
 * The result artifacts of the recon chain, seen as sequences of lines.
 *
 * `sort -u -o f f` (reconhawk.py lines 96 and 125) rewrites a file in place
 * so that its lines are in increasing order with no line repeated. The order
 * is taken to be code-point lexicographic order, the byte order of the C
 * locale. Reading a file back (lines 99-100 and 126-127) strips every line
 * and drops the ones that become empty.
 */
module Lines {
  import opened Text

  /** Code-point lexicographic order: a proper prefix comes first, otherwise
      the first differing character decides. */
  predicate Less(a: string, b: string) {
    if a == [] then b != []
    else b != [] && (a[0] < b[0] || (a[0] == b[0] && Less(a[1..], b[1..])))
  }

  lemma {:induction false} LessIrreflexive(a: string)
    ensures !Less(a, a)
  {
    if a != [] {
      LessIrreflexive(a[1..]);
    }
  }

  lemma {:induction false} LessTransitive(a: string, b: string, c: string)
    requires Less(a, b) && Less(b, c)
    ensures Less(a, c)
  {
    if a != [] && a[0] == b[0] && b[0] == c[0] {
      LessTransitive(a[1..], b[1..], c[1..]);
    }
  }

  lemma {:induction false} LessTotal(a: string, b: string)
    ensures a == b || Less(a, b) || Less(b, a)
  {
    if a != [] && b != [] && a[0] == b[0] {
      LessTotal(a[1..], b[1..]);
      if a[1..] == b[1..] {
        assert a == [a[0]] + a[1..] && b == [b[0]] + b[1..];
      }
    }
  }

  lemma LessAsymmetric(a: string, b: string)
    requires Less(a, b)
    ensures !Less(b, a)
  {
    if Less(b, a) {
      LessTransitive(a, b, a);
      LessIrreflexive(a);
    }
  }

  /** Increasing with no line repeated. */
  predicate StrictlySorted(s: seq<string>) {
    forall i, j :: 0 <= i < j < |s| ==> Less(s[i], s[j])
  }

  /** The tail of a strictly sorted sequence is strictly sorted, and its head
      comes before every line of the tail. */
  lemma TailSorted(s: seq<string>)
    requires StrictlySorted(s) && s != []
    ensures StrictlySorted(s[1..])
    ensures forall z :: z in s[1..] ==> Less(s[0], z)
  {
    forall z | z in s[1..] ensures Less(s[0], z) {
      var k :| 0 <= k < |s[1..]| && s[1..][k] == z;
      assert s[k + 1] == z;
    }
  }

  /** A line below every line of a strictly sorted sequence can be put in front. */
  lemma ConsSorted(y: string, s: seq<string>)
    requires StrictlySorted(s)
    requires forall z :: z in s ==> Less(y, z)
    ensures StrictlySorted([y] + s)
  {
    var r := [y] + s;
    forall i, j | 0 <= i < j < |r| ensures Less(r[i], r[j]) {
      assert r[j] == s[j - 1];
      if i > 0 {
        assert r[i] == s[i - 1];
      }
    }
  }

  /** `x` added to a strictly sorted sequence at its place, unless present. */
  function Insert(s: seq<string>, x: string): (r: seq<string>)
    requires StrictlySorted(s)
    ensures StrictlySorted(r)
    ensures forall z :: z in r <==> z in s || z == x
    ensures |r| <= |s| + 1
  {
    if s == [] then [x]
    else if x == s[0] then s
    else if Less(x, s[0]) then
      assert forall z :: z in s ==> Less(x, z) by {
        TailSorted(s);
        forall z | z in s ensures Less(x, z) {
          if z != s[0] {
            assert z in s[1..] by { assert s == [s[0]] + s[1..]; }
            LessTransitive(x, s[0], z);
          }
        }
      }
      ConsSorted(x, s);
      [x] + s
    else
      TailSorted(s);
      LessTotal(x, s[0]);
      var rest := Insert(s[1..], x);
      assert s == [s[0]] + s[1..];
      ConsSorted(s[0], rest);
      [s[0]] + rest
  }

  /** What `sort -u` leaves of `s`: strictly sorted, with exactly the lines of
      `s`, and no longer than `s`. */
  function SortedUnique(s: seq<string>): (r: seq<string>)
    ensures StrictlySorted(r)
    ensures forall z :: z in r <==> z in s
    ensures |r| <= |s|
  {
    if s == [] then []
    else
      assert s == s[..|s| - 1] + [s[|s| - 1]];
      Insert(SortedUnique(s[..|s| - 1]), s[|s| - 1])
  }

  /** Two strictly sorted sequences holding the same lines are equal. */
  lemma {:induction false} SortedBySetIsUnique(a: seq<string>, b: seq<string>)
    requires StrictlySorted(a) && StrictlySorted(b)
    requires forall z :: z in a <==> z in b
    ensures a == b
  {
    if a != [] {
      assert a[0] in b;
    }
    if b != [] {
      assert b[0] in a;
    }
    if a != [] && b != [] {
      TailSorted(a);
      TailSorted(b);
      assert a == [a[0]] + a[1..] && b == [b[0]] + b[1..];
      assert a[0] == b[0] by {
        if a[0] != b[0] {
          assert a[0] in b;
          assert b[0] in a;
          assert a[0] in b[1..] && b[0] in a[1..];
          LessAsymmetric(a[0], b[0]);
        }
      }
      forall z | z in a[1..] ensures z in b[1..] {
        LessIrreflexive(z);
        assert z in a && z in b;
        var k :| 0 <= k < |b| && b[k] == z;
        assert k != 0 && b[1..][k - 1] == z;
      }
      forall z | z in b[1..] ensures z in a[1..] {
        LessIrreflexive(z);
        assert z in b && z in a;
        var k :| 0 <= k < |a| && a[k] == z;
        assert k != 0 && a[1..][k - 1] == z;
      }
      SortedBySetIsUnique(a[1..], b[1..]);
    }
  }

  /** Sorting a file that `sort -u` has already rewritten changes nothing. */
  lemma SortedUniqueIdempotent(s: seq<string>)
    ensures SortedUnique(SortedUnique(s)) == SortedUnique(s)
  {
    SortedBySetIsUnique(SortedUnique(SortedUnique(s)), SortedUnique(s));
  }

  /** A file that is already strictly sorted is left as it is. */
  lemma SortedUniqueKeepsSorted(s: seq<string>)
    requires StrictlySorted(s)
    ensures SortedUnique(s) == s
  {
    SortedBySetIsUnique(SortedUnique(s), s);
  }

  /** The result depends only on which lines occur: not on their order nor on
      how often they occur. */
  lemma SortedUniqueDependsOnSet(a: seq<string>, b: seq<string>)
    requires forall z :: z in a <==> z in b
    ensures SortedUnique(a) == SortedUnique(b)
  {
    SortedBySetIsUnique(SortedUnique(a), SortedUnique(b));
  }

  /** Two strictly sorted sequences, every line of the first below every
      line of the second, concatenate to a strictly sorted sequence. */
  lemma SortedConcat(p: seq<string>, q: seq<string>)
    requires StrictlySorted(p) && StrictlySorted(q)
    requires forall y, z :: y in p && z in q ==> Less(y, z)
    ensures StrictlySorted(p + q)
  {
    var r := p + q;
    forall i, k | 0 <= i < k < |r| ensures Less(r[i], r[k]) {
      if k < |p| {
        assert r[i] == p[i] && r[k] == p[k];
      } else if i >= |p| {
        assert r[i] == q[i - |p|] && r[k] == q[k - |p|];
      } else {
        assert r[i] in p && r[k] in q;
      }
    }
  }

  /** Every prefix and every suffix of a strictly sorted sequence is strictly sorted. */
  lemma SlicesSorted(s: seq<string>, j: nat)
    requires StrictlySorted(s) && j <= |s|
    ensures StrictlySorted(s[..j]) && StrictlySorted(s[j..])
  {
    assert forall i, k :: 0 <= i < k < |s| - j ==> s[j..][i] == s[j + i] && s[j..][k] == s[j + k];
  }

  /** Putting `x` at position `j` of a strictly sorted sequence, where every
      line before `j` is below `x` and the line at `j` (if any) is not `x`
      and not below it, keeps the sequence strictly sorted. */
  lemma PlaceAt(acc: seq<string>, j: nat, x: string)
    requires StrictlySorted(acc) && j <= |acc|
    requires forall k :: 0 <= k < j ==> Less(acc[k], x)
    requires j == |acc| || (acc[j] != x && !Less(acc[j], x))
    ensures StrictlySorted(acc[..j] + [x] + acc[j..])
    ensures forall z :: z in acc[..j] + [x] + acc[j..] <==> z in acc || z == x
  {
    var p, q := acc[..j], acc[j..];
    SlicesSorted(acc, j);
    if j < |acc| {
      LessTotal(acc[j], x);
    }
    forall z | z in q ensures Less(x, z) {
      var k :| 0 <= k < |q| && q[k] == z;
      assert z == acc[j + k];
      if k > 0 {
        LessTransitive(x, acc[j], z);
      }
    }
    ConsSorted(x, q);
    forall y, z | y in p && z in [x] + q ensures Less(y, z) {
      var k :| 0 <= k < |p| && p[k] == y;
      assert Less(y, x);
      if z != x {
        LessTransitive(y, x, z);
      }
    }
    SortedConcat(p, [x] + q);
    assert acc[..j] + [x] + acc[j..] == p + ([x] + q);
    assert acc == p + q;
  }

  /** One result file of the chain. `sort -u -o` rewrites its lines in place. */
  class Artifact {
    const path: string
    var lines: seq<string>

    constructor (path: string, lines: seq<string>)
      ensures this.path == path && this.lines == lines
    {
      this.path := path;
      this.lines := lines;
    }

    /** `sort -u -o path path`: the lines become strictly sorted, every line
        that was there is still there and nothing else is. Each line is
        put at its place in the sorted prefix by a linear search. */
    method SortUnique()
      modifies this
      ensures StrictlySorted(lines)
      ensures forall z :: z in lines <==> z in old(lines)
      ensures lines == SortedUnique(old(lines))
    {
      var input := lines;
      var acc: seq<string> := [];
      for i := 0 to |input|
        invariant StrictlySorted(acc)
        invariant forall z :: z in acc <==> z in input[..i]
      {
        var x := input[i];
        var j := 0;
        while j < |acc| && Less(acc[j], x)
          invariant 0 <= j <= |acc|
          invariant forall k :: 0 <= k < j ==> Less(acc[k], x)
        {
          j := j + 1;
        }
        if j == |acc| || acc[j] != x {
          PlaceAt(acc, j, x);
          acc := acc[..j] + [x] + acc[j..];
        }
        assert input[..i + 1] == input[..i] + [x];
      }
      assert input[..|input|] == input;
      SortedBySetIsUnique(acc, SortedUnique(input));
      lines := acc;
    }
  }

  /** Reading an artifact back: every line stripped, the ones left empty
      dropped, the order kept; at most as many lines as read, each non-empty and
      without surrounding whitespace. */
  function Clean(lines: seq<string>): (r: seq<string>)
    ensures |r| <= |lines|
    ensures forall k :: 0 <= k < |r| ==> r[k] != [] && Trimmed(r[k])
  {
    if lines == [] then []
    else
      var t := Trim(lines[0]);
      (if t == [] then [] else [t]) + Clean(lines[1..])
  }

  /** A cleaned line is exactly the stripped form of some line read that
      is not all whitespace. */
  lemma {:induction false} CleanMembers(lines: seq<string>)
    ensures forall z :: z in Clean(lines) <==> z != [] && exists l :: l in lines && Trim(l) == z
  {
    if lines != [] {
      CleanMembers(lines[1..]);
      assert lines == [lines[0]] + lines[1..];
    }
  }

  /** Nothing is left exactly when every line read is all whitespace. */
  lemma {:induction false} CleanEmptyIff(lines: seq<string>)
    ensures Clean(lines) == [] <==> forall l :: l in lines ==> AllSpace(l)
  {
    if lines != [] {
      CleanEmptyIff(lines[1..]);
      assert lines == [lines[0]] + lines[1..];
    }
  }

  /** Cleaning works line by line: it keeps the order of the file and can be
      done piecewise. */
  lemma {:induction false} CleanConcat(a: seq<string>, b: seq<string>)
    ensures Clean(a + b) == Clean(a) + Clean(b)
  {
    if a == [] {
      assert a + b == b;
    } else {
      var x := a[0];
      var rest := a[1..];
      assert (a + b)[1..] == rest + b;
      assert (a + b)[0] == x;
      CleanConcat(rest, b);
    }
  }

  /** Cleaning lines that are already clean changes nothing. */
  lemma {:induction false} CleanIdempotent(lines: seq<string>)
    ensures Clean(Clean(lines)) == Clean(lines)
  {
    if lines != [] {
      var t := Trim(lines[0]);
      var head: seq<string> := if t == [] then [] else [t];
      CleanConcat(head, Clean(lines[1..]));
      CleanIdempotent(lines[1..]);
      if t != [] {
        assert Clean(head) == head by {
          assert head[1..] == [];
        }
      }
    }
  }

  /** `sort -u` runs on the raw lines and stripping comes after it, so two lines
      that differ only in surrounding whitespace both survive as the same
      cleaned line: `" a"` and `"a"` read back as `"a"`, `"a"`. */
  lemma CleanAfterSortMayRepeat(file: seq<string>)
    requires file == [" a", "a"]
    ensures Clean(SortedUnique(file)) == ["a", "a"]
  {
    assert Less(file[0], file[1]);
    SortedUniqueKeepsSorted(file);
    assert Trim(file[0]) == "a" by {
      assert TrimLeft(file[0]) == TrimLeft(file[0][1..]);
    }
    assert Clean(file) == [Trim(file[0])] + Clean(file[1..]);
    assert Clean(file[1..]) == [Trim(file[1])] + Clean(file[2..]);
  }
}
