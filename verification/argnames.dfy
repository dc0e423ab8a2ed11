/** `_sorted_argnames` (pytest_lazyfixture.py:147-157): the keys of the
    parameter mapping, those the host lists in `fixturenames` first. */
module Argnames {
  import opened Seqs
  import opened LazyFixtures

  /** Keys that occur in `fixturenames` come before all others, in the order
      of their first occurrence in `fixturenames`. */
  predicate PreferredFirst(fixturenames: seq<string>, s: seq<string>) {
    forall i, j :: 0 <= i < j < |s| && s[j] in fixturenames ==>
      && s[i] in fixturenames
      && IndexOf(fixturenames, s[i]) < IndexOf(fixturenames, s[j])
  }

  /** The generator `_sorted_argnames(params, fixturenames)`. The keys left
      over after the walk over `fixturenames` come from iterating a set, whose
      order is unspecified: each is chosen arbitrarily here. */
  method SortedArgnames<T>(params: Params<T>, fixturenames: seq<string>) returns (argnames: seq<string>)
    ensures Enumerates(argnames, params.Keys)
    ensures PreferredFirst(fixturenames, argnames)
  {
    var remaining := params.Keys;
    argnames := [];
    for i := 0 to |fixturenames|
      invariant Distinct(argnames)
      invariant forall k :: k in argnames <==> k in params && k in fixturenames[..i]
      invariant forall k :: k in remaining <==> k in params && k !in argnames
      invariant forall k :: k in argnames ==> IndexOf(fixturenames, k) < i
      invariant PreferredFirst(fixturenames, argnames)
    {
      var name := fixturenames[i];
      assert fixturenames[..i + 1] == fixturenames[..i] + [name];
      if name in remaining {
        IndexOfFirst(fixturenames, i);
        forall k | k in argnames
          ensures k in fixturenames
        {
          var a :| 0 <= a < i && fixturenames[..i][a] == k;
          assert fixturenames[a] == k;
        }
        assert PreferredFirst(fixturenames, argnames + [name]);
        remaining := remaining - {name};
        argnames := argnames + [name];
      }
    }
    assert fixturenames[..|fixturenames|] == fixturenames;
    while remaining != {}
      invariant Distinct(argnames)
      invariant forall k :: k in argnames ==> k in params
      invariant forall k :: k in remaining <==> k in params && k !in argnames
      invariant forall k :: k in remaining ==> k !in fixturenames
      invariant PreferredFirst(fixturenames, argnames)
      decreases remaining
    {
      var name :| name in remaining;
      remaining := remaining - {name};
      argnames := argnames + [name];
    }
  }
}
