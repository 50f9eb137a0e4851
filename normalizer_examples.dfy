/**
 * Concrete inputs of the target normalizer of reconhawk.py (lines 29-51)
 * and what it makes of them.
 */
module NormalizerExamples {
  import opened Text
  import opened Normalizer

  /** The worked example: scheme, "www." and the trailing slash go, case folds. */
  lemma MixedCaseUrl()
    ensures Normalize("https://WWW.Example.com/") == Ok("example.com")
  {
    ExampleIgnoresCase("https://WWW.Example.com/");
    ExampleLowered();
    ExampleDecorated();
    ExampleNormalized();
  }

  lemma ExampleIgnoresCase(raw: string)
    requires raw == "https://WWW.Example.com/"
    ensures Normalize(raw) == Normalize(Lower(raw))
  {
    assert raw[0] == 'h' && raw[|raw| - 1] == '/';
    NormalizeIgnoresCase(raw);
  }

  lemma ExampleNormalized()
    ensures Normalize(Decorated(false, true, true, "example.com", 1)) == Ok("example.com")
  {
    assert Tidy("example.com");
    assert NoPrefixAtStart("example.com/") by {
      assert "example.com/"[0] == 'e';
    }
    assert "example.com" + Repeat('/', 1) == "example.com/";
    DecorationsRemoved(false, true, true, "example.com", 1);
  }

  lemma ExampleLowered()
    ensures Lower("https://WWW.Example.com/") == "https://www.example.com/"
  {
    var y := "xample.com/";
    assert NoUpper(y);
    LowerE(y);
    LowerWww("E" + y);
    LowerHttps("WWW." + ("E" + y));
    ExampleSplit();
  }

  lemma ExampleSplit()
    ensures "https://WWW.Example.com/" == "https://" + ("WWW." + ("E" + "xample.com/"))
    ensures "https://www.example.com/" == "https://" + ("www." + ("e" + "xample.com/"))
  {
  }

  lemma LowerE(y: string)
    requires NoUpper(y)
    ensures Lower("E" + y) == "e" + y
  {
    LowerConcat("E", y);
  }

  lemma LowerWww(y: string)
    ensures Lower("WWW." + y) == "www." + Lower(y)
  {
    LowerConcat("WWW.", y);
  }

  lemma LowerHttps(y: string)
    ensures Lower("https://" + y) == "https://" + Lower(y)
  {
    LowerKeepsPrefix("https://", y);
  }

  lemma LowerKeepsPrefix(p: string, y: string)
    requires NoUpper(p)
    ensures Lower(p + y) == p + Lower(y)
  {
    LowerConcat(p, y);
  }

  lemma ExampleDecorated()
    ensures Decorated(false, true, true, "example.com", 1) == "https://www.example.com/"
  {
    assert Repeat('/', 1) == "/";
  }

  /** Blank input is rejected before anything else happens. */
  lemma BlankRejected()
    ensures Normalize("   ") == Err(NoTarget)
  {
    assert AllSpace("   ");
  }

  /** Input that is nothing but a scheme is rejected after normalization. */
  lemma SchemeAloneRejected()
    ensures Normalize("http://") == Err(InvalidAfterNormalization)
  {
    assert Decorated(true, false, false, [], 0) == "http://";
    DecorationsAloneRejected(true, false, false, 0);
  }

  /** Input that is nothing but slashes is rejected after normalization. */
  lemma SlashesAloneRejected()
    ensures Normalize("///") == Err(InvalidAfterNormalization)
  {
    assert Repeat('/', 3) == "///";
    assert Decorated(false, false, false, [], 3) == "///";
    DecorationsAloneRejected(false, false, false, 3);
  }

  /** Each prefix is removed at most once: "www.www.x" keeps one "www.",
      which a second normalization would remove, so normalizing is not
      idempotent. */
  lemma WwwRemovedOnce()
    ensures Normalize("www.www.x") == Ok("www.x")
  {
    assert Decorated(false, false, true, "www.x", 0) == "www.www.x";
    DecorationsRemoved(false, false, true, "www.x", 0);
  }

  lemma WwwRemoved()
    ensures Normalize("www.x") == Ok("x")
  {
    assert Decorated(false, false, true, "x", 0) == "www.x";
    DecorationsRemoved(false, false, true, "x", 0);
  }

  /** A scheme checked earlier than the one in front is not tested again:
      "https://" goes, the "http://" behind it stays. */
  lemma SchemeCanSurvive()
    ensures Normalize("https://http://x") == Ok("http://x")
  {
    assert Decorated(false, true, false, "http://x", 0) == "https://http://x";
    assert "http://x"[0] == 'h';
    assert "http://x" + Repeat('/', 0) == "http://x";
    assert Tidy("http://x");
    DecorationsRemoved(false, true, false, "http://x", 0);
  }
}
