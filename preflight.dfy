/**
 * The environment preflight of reconhawk.py (lines 71-84): each required
 * tool is looked up with `which`, and the ones not found are collected, in
 * the order of the tuple, into `missing`. Whether `which` finds a tool is
 * modelled as membership in the set `installed`.
 */
module Preflight {

  /** The tuple of line 77, in its order. */
  const RequiredTools: seq<string> := ["subfinder", "httpx", "sort"]

  /** The tools of `tools` that are not available, keeping their order.
      A tool is listed exactly when it is one of `tools` and unavailable. */
  function Unavailable(tools: seq<string>, installed: set<string>): (r: seq<string>)
    ensures forall t :: t in r <==> t in tools && t !in installed
    ensures |r| <= |tools|
  {
    if tools == [] then []
    else
      var front := Unavailable(tools[..|tools| - 1], installed);
      var last := tools[|tools| - 1];
      assert tools == tools[..|tools| - 1] + [last];
      if last in installed then front else front + [last]
  }

  /** The loop of lines 76-79, appending each tool `which` cannot find
      (`check_tool`, lines 72-74, is `t in installed`). */
  method FindMissing(installed: set<string>) returns (missing: seq<string>)
    ensures missing == Unavailable(RequiredTools, installed)
  {
    missing := [];
    for i := 0 to |RequiredTools|
      invariant missing == Unavailable(RequiredTools[..i], installed)
    {
      var t := RequiredTools[i];
      assert RequiredTools[..i + 1][..i] == RequiredTools[..i];
      if t !in installed {
        missing := missing + [t];
      }
    }
    assert RequiredTools[..|RequiredTools|] == RequiredTools;
  }

  /** `[name]` when `which` cannot find `name`, `[]` otherwise. */
  function Listed(name: string, installed: set<string>): seq<string> {
    if name in installed then [] else [name]
  }

  /** `missing` lists the unavailable tools in tuple order: subfinder first,
      then httpx, then sort. */
  lemma MissingInTupleOrder(installed: set<string>)
    ensures Unavailable(RequiredTools, installed)
            == Listed("subfinder", installed)
               + Listed("httpx", installed)
               + Listed("sort", installed)
  {
    var r2 := RequiredTools[..2];
    var r1 := r2[..1];
    assert r1 == ["subfinder"] && r1[..0] == [];
    assert r2 == ["subfinder", "httpx"];
    assert Unavailable(r1, installed) == Listed("subfinder", installed);
    assert Unavailable(r2, installed)
           == Listed("subfinder", installed)
              + Listed("httpx", installed);
  }

  /** Nothing is missing exactly when all three tools are found. */
  lemma NothingMissingIff(installed: set<string>)
    ensures Unavailable(RequiredTools, installed) == []
            <==> "subfinder" in installed && "httpx" in installed && "sort" in installed
  {
    MissingInTupleOrder(installed);
  }
}
