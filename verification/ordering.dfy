/** `sorted_by_dependency` (pytest_lazyfixture.py:126-144): a resolution
    order for a parameter mapping in which every lazy reference comes after
    the key it references. */
module Ordering {
  import opened Seqs
  import opened LazyFixtures
  import opened Chains
  import opened Trees
  import opened Argnames

  /** The list comprehension at pytest_lazyfixture.py:144: each key with its value. */
  function Emit<T>(params: Params<T>, keys: seq<string>): (r: seq<(string, Value<T>)>)
    requires forall k :: k in keys ==> k in params
    ensures PairsOf(params, r, keys)
  {
    seq(|keys|, i requires 0 <= i < |keys| => (keys[i], params[keys[i]]))
  }

  /** The first n keys are free and the others are dependent. */
  predicate FreePrefix<T>(params: Params<T>, keys: seq<string>, n: nat) {
    forall i {:trigger IsFree(params, keys[i])} :: 0 <= i < |keys| && keys[i] in params ==>
      (IsFree(params, keys[i]) <==> i < n)
  }

  /** Every dependent key comes after the key it references. */
  predicate TargetsFirst<T>(params: Params<T>, keys: seq<string>) {
    forall i {:trigger Target(params, keys[i])} ::
      0 <= i < |keys| && keys[i] in params && !IsFree(params, keys[i]) ==>
        exists j :: 0 <= j < i && keys[j] == Target(params, keys[i])
  }

  /** `free_fm + non_free_fm_list` (pytest_lazyfixture.py:127-142) once the
      keys have been put in `_sorted_argnames` order: any enumeration
      `argnames` of the keys. */
  function DependencyOrder<T>(params: Params<T>, argnames: seq<string>): (keys: seq<string>)
    requires Enumerates(argnames, params.Keys)
    ensures forall k :: k in keys ==> k in params
    ensures Distinct(keys)
    // The order opens with the free keys in `argnames` order, and only with them.
    ensures FreeKeys(params, argnames) <= keys
    ensures FreePrefix(params, keys, |FreeKeys(params, argnames)|)
    // Every dependent key comes after the key it references.
    ensures TargetsFirst(params, keys)
    // A key is listed exactly when its reference chain ends at a free key.
    ensures forall k :: k in keys <==> Rooted(params, k)
    // After the free keys come the reverse-reference trees under them, in
    // the order of the free keys, each in depth-first preorder: the keys
    // below a dependent key follow it in one block, and keys that reference
    // the same key keep their `argnames` order.
    ensures TreesInRootOrder(params, keys[|FreeKeys(params, argnames)|..], FreeKeys(params, argnames))
    ensures SubtreesContiguous(params, keys[|FreeKeys(params, argnames)|..])
    ensures SiblingsFollow(params, keys, argnames)
  {
    var s := SplitFree(params, argnames);
    SplitWellFormed(params, argnames);
    var deps := Descendants(params, s.trees, s.free);
    assert forall j :: 0 <= j < |deps| ==> deps[j] in params && !IsFree(params, deps[j]);
    DistinctConcat(s.free, deps);
    FreeThenDependent(params, s.free, deps);
    TargetsBeforeReferrers(params, s.free, deps);
    forall k
      ensures k in s.free + deps <==> Rooted(params, k)
    {
      EmittedIffRooted(params, argnames, s.free, deps, k);
    }
    assert (s.free + deps)[|s.free|..] == deps;
    SiblingsTransfer(params, argnames, s.trees, s.free, deps);
    s.free + deps
  }

  /** Dependent keys that reference the same key come in `argnames` order. */
  ghost predicate SiblingsFollow<T>(params: Params<T>, keys: seq<string>, argnames: seq<string>)
    requires forall k :: k in params ==> k in argnames
  {
    forall i, j ::
      (&& 0 <= i < j < |keys| && keys[i] in params && keys[j] in params
       && !IsFree(params, keys[i]) && !IsFree(params, keys[j])
       && Target(params, keys[i]) == Target(params, keys[j])) ==>
        IndexOf(argnames, keys[i]) < IndexOf(argnames, keys[j])
  }

  /** Child lists that keep `argnames` order put siblings in `argnames` order. */
  lemma SiblingsTransfer<T>(params: Params<T>, argnames: seq<string>, trees: map<string, seq<string>>,
                            free: seq<string>, deps: seq<string>)
    requires Enumerates(argnames, params.Keys)
    requires Listed(params, trees)
    requires forall p {:trigger Referrers(params, argnames, p)} ::
      Children(trees, p) == Referrers(params, argnames, p)
    requires forall k :: k in free ==> k in params && IsFree(params, k)
    requires SiblingsInOrder(params, trees, deps)
    ensures SiblingsFollow(params, free + deps, argnames)
  {
    var keys := free + deps;
    var n := |free|;
    forall i, j |
      (&& 0 <= i < j < |keys| && keys[i] in params && keys[j] in params
       && !IsFree(params, keys[i]) && !IsFree(params, keys[j])
       && Target(params, keys[i]) == Target(params, keys[j]))
      ensures IndexOf(argnames, keys[i]) < IndexOf(argnames, keys[j])
    {
      assert forall k :: 0 <= k < n ==> keys[k] == free[k] && keys[k] in free;
      assert keys[i] == deps[i - n] && keys[j] == deps[j - n];
      var t := Target(params, keys[i]);
      assert Children(trees, t) == Referrers(params, argnames, t);
      var rs := Referrers(params, argnames, t);
      ReferrersKeepOrder(params, argnames, t, IndexOf(rs, keys[i]), IndexOf(rs, keys[j]));
    }
  }

  /** Each key of the dependency order paired with its value, unchanged. */
  ghost predicate PairsOf<T>(params: Params<T>, r: seq<(string, Value<T>)>, keys: seq<string>) {
    && |r| == |keys|
    && forall i :: 0 <= i < |r| ==> r[i].0 == keys[i] && keys[i] in params && r[i].1 == params[keys[i]]
  }

  /** The free keys, then keys that are all dependent. */
  lemma FreeThenDependent<T>(params: Params<T>, free: seq<string>, deps: seq<string>)
    requires forall k :: k in free ==> k in params && IsFree(params, k)
    requires forall j :: 0 <= j < |deps| ==> deps[j] in params && !IsFree(params, deps[j])
    ensures FreePrefix(params, free + deps, |free|)
  {
    var keys := free + deps;
    forall i | 0 <= i < |keys| && keys[i] in params
      ensures IsFree(params, keys[i]) <==> i < |free|
    {
      if i < |free| {
        assert keys[i] == free[i];
      } else {
        assert keys[i] == deps[i - |free|];
      }
    }
  }

  /** The free keys followed by trees whose targets come earlier order every
      dependent key after its target. */
  lemma TargetsBeforeReferrers<T>(params: Params<T>, free: seq<string>, deps: seq<string>)
    requires forall k :: k in free ==> k in params && IsFree(params, k)
    requires ParentsBefore(params, deps, Elements(free))
    ensures TargetsFirst(params, free + deps)
  {
    var keys := free + deps;
    forall i | 0 <= i < |keys| && keys[i] in params && !IsFree(params, keys[i])
      ensures exists j :: 0 <= j < i && keys[j] == Target(params, keys[i])
    {
      assert forall k :: 0 <= k < |free| ==> keys[k] == free[k];
      var d := i - |free|;
      assert keys[i] == deps[d];
      var t := Target(params, deps[d]);
      if t in Elements(free) {
        var j :| 0 <= j < |free| && free[j] == t;
        assert keys[j] == t;
      } else {
        assert t in deps[..d];
        var j :| 0 <= j < d && deps[..d][j] == t;
        assert keys[|free| + j] == t;
      }
    }
  }

  lemma EmittedIffRooted<T>(params: Params<T>, argnames: seq<string>, free: seq<string>,
                            deps: seq<string>, k: string)
    requires Enumerates(argnames, params.Keys)
    requires free == FreeKeys(params, argnames)
    requires forall x :: x in deps <==> exists k :: k in free && Below(params, x, k)
    ensures k in free || k in deps <==> Rooted(params, k)
  {
    if k in free {
      assert FreeAt(params, k, 0);
    }
    if k in deps {
      var root :| root in free && Below(params, k, root);
      var n: nat :| 0 < n && Up(params, k, n) == Some(root);
      assert FreeAt(params, k, n);
    }
    if Rooted(params, k) {
      var n: nat :| FreeAt(params, k, n);
      var root := Up(params, k, n).value;
      assert root in free;
      if 0 < n {
        assert Below(params, k, root);
      }
    }
  }

  /** What `sorted_by_dependency` promises of its pairs `r`. */
  ghost predicate DependencyOrdered<T>(params: Params<T>, fixturenames: seq<string>,
                                       r: seq<(string, Value<T>)>) {
    // Each pair carries its key's value unchanged, and no key repeats.
    && (forall i :: 0 <= i < |r| ==> r[i].0 in params && r[i].1 == params[r[i].0])
    && (forall i, j :: 0 <= i < j < |r| ==> r[i].0 != r[j].0)
    // A key is emitted exactly when its reference chain ends at a free key:
    // every free key is emitted, keys on a reference cycle are not.
    && (forall k :: Emitted(r, k) <==> Rooted(params, k))
    // The free keys come first ...
    && (forall i, j :: 0 <= i < j < |r| && IsFree(params, r[j].0) ==> IsFree(params, r[i].0))
    // ... those the host lists first, in the host's order ...
    && (forall i, j :: 0 <= i < j < |r| && IsFree(params, r[j].0) && r[j].0 in fixturenames ==>
          && r[i].0 in fixturenames
          && IndexOf(fixturenames, r[i].0) < IndexOf(fixturenames, r[j].0))
    // ... and every dependent key comes after the key it references.
    && (forall i :: 0 <= i < |r| && !IsFree(params, r[i].0) ==>
          exists j :: 0 <= j < i && r[j].0 == Target(params, r[i].0))
    // The dependent keys follow in depth-first preorder: the keys below an
    // earlier free key come before those below a later one ...
    && PairTreesInRootOrder(params, r)
    // ... the keys below a dependent key follow it in one block ...
    && PairSubtreesContiguous(params, r)
    // ... and keys that reference the same key keep the host's order.
    && PairSiblingsPreferred(params, fixturenames, r)
  }

  /** `sorted_by_dependency(params, fixturenames)`. */
  method SortedByDependency<T>(params: Params<T>, fixturenames: seq<string>)
    returns (r: seq<(string, Value<T>)>)
    ensures DependencyOrdered(params, fixturenames, r)
  {
    var argnames := SortedArgnames(params, fixturenames);
    r := Emit(params, DependencyOrder(params, argnames));
    PairsOrdered(params, fixturenames, argnames);
  }

  /** Pairing the dependency order of a `fixturenames`-first enumeration
      with the values gives what `sorted_by_dependency` promises. */
  lemma PairsOrdered<T>(params: Params<T>, fixturenames: seq<string>, argnames: seq<string>)
    requires Enumerates(argnames, params.Keys)
    requires PreferredFirst(fixturenames, argnames)
    ensures DependencyOrdered(params, fixturenames, Emit(params, DependencyOrder(params, argnames)))
  {
    var keys := DependencyOrder(params, argnames);
    var r := Emit(params, keys);
    var free := FreeKeys(params, argnames);
    FreeKeysPreferredFirst(params, fixturenames, argnames);
    PairsFaithful(params, r, keys);
    PairsDistinct(params, r, keys);
    PairsEmitted(params, r, keys);
    PairsFreeFirst(params, r, keys, |free|);
    PairsPreferred(params, fixturenames, r, keys, free);
    PairsTargetsFirst(params, r, keys);
    PairsRootOrder(params, r, keys, free);
    PairsContiguous(params, r, keys, |free|);
    PairsSiblings(params, fixturenames, argnames, r, keys);
  }

  // The three predicates below restate `Trees.TreesInRootOrder`,
  // `Trees.SubtreesContiguous` and `Trees.SiblingsInOrder` on the emitted
  // pairs themselves, so that the method's contract speaks of its own result.
  // They take the roots from the free keys in `r` rather than from a separate
  // list, and they guard each key with `in params` instead of requiring
  // `Listed`, so they hold of any list of pairs.

  /** The keys below an earlier free key come before those below a later one. */
  ghost predicate PairTreesInRootOrder<T>(params: Params<T>, r: seq<(string, Value<T>)>) {
    forall a, b, i, j ::
      (&& 0 <= a < b < |r| && 0 <= i < |r| && 0 <= j < |r|
       && r[a].0 in params && r[b].0 in params && IsFree(params, r[a].0) && IsFree(params, r[b].0)
       && Below(params, r[i].0, r[a].0) && Below(params, r[j].0, r[b].0)) ==> i < j
  }

  /** The keys below a dependent key follow it in one block. */
  ghost predicate PairSubtreesContiguous<T>(params: Params<T>, r: seq<(string, Value<T>)>) {
    forall i, j, k ::
      (&& 0 <= i < j < k < |r| && r[i].0 in params && !IsFree(params, r[i].0)
       && Below(params, r[k].0, r[i].0)) ==> Below(params, r[j].0, r[i].0)
  }

  /** Keys that reference the same key keep the order of `fixturenames`: one
      listed there comes before one that is not, and two listed there come in
      the order of their first mention. */
  ghost predicate PairSiblingsPreferred<T>(params: Params<T>, fixturenames: seq<string>,
                                          r: seq<(string, Value<T>)>) {
    forall i, j ::
      (&& 0 <= i < j < |r| && r[i].0 in params && r[j].0 in params
       && !IsFree(params, r[i].0) && !IsFree(params, r[j].0)
       && Target(params, r[i].0) == Target(params, r[j].0) && r[j].0 in fixturenames) ==>
        && r[i].0 in fixturenames
        && IndexOf(fixturenames, r[i].0) < IndexOf(fixturenames, r[j].0)
  }

  lemma PairsRootOrder<T>(params: Params<T>, r: seq<(string, Value<T>)>, keys: seq<string>,
                          free: seq<string>)
    requires PairsOf(params, r, keys)
    requires free <= keys
    requires FreePrefix(params, keys, |free|)
    requires TreesInRootOrder(params, keys[|free|..], free)
    ensures PairTreesInRootOrder(params, r)
  {
    var n := |free|;
    var deps := keys[n..];
    forall a, b, i, j |
      (&& 0 <= a < b < |r| && 0 <= i < |r| && 0 <= j < |r|
       && r[a].0 in params && r[b].0 in params && IsFree(params, r[a].0) && IsFree(params, r[b].0)
       && Below(params, r[i].0, r[a].0) && Below(params, r[j].0, r[b].0))
      ensures i < j
    {
      assert r[a].0 == keys[a] && r[b].0 == keys[b] && r[i].0 == keys[i] && r[j].0 == keys[j];
      assert a < n && b < n;
      assert free[a] == keys[a] && free[b] == keys[b];
      TargetAtOrBelow(params, keys[i], keys[a]);
      TargetAtOrBelow(params, keys[j], keys[b]);
      assert n <= i && n <= j;
      assert deps[i - n] == keys[i] && deps[j - n] == keys[j];
    }
  }

  lemma PairsContiguous<T>(params: Params<T>, r: seq<(string, Value<T>)>, keys: seq<string>, n: nat)
    requires PairsOf(params, r, keys)
    requires n <= |keys|
    requires FreePrefix(params, keys, n)
    requires SubtreesContiguous(params, keys[n..])
    ensures PairSubtreesContiguous(params, r)
  {
    var deps := keys[n..];
    forall i, j, k |
      (&& 0 <= i < j < k < |r| && r[i].0 in params && !IsFree(params, r[i].0)
       && Below(params, r[k].0, r[i].0))
      ensures Below(params, r[j].0, r[i].0)
    {
      assert r[i].0 == keys[i] && r[j].0 == keys[j] && r[k].0 == keys[k];
      assert n <= i;
      assert deps[i - n] == keys[i] && deps[j - n] == keys[j] && deps[k - n] == keys[k];
    }
  }

  lemma PairsSiblings<T>(params: Params<T>, fixturenames: seq<string>, argnames: seq<string>,
                         r: seq<(string, Value<T>)>, keys: seq<string>)
    requires PairsOf(params, r, keys)
    requires Enumerates(argnames, params.Keys)
    requires PreferredFirst(fixturenames, argnames)
    requires SiblingsFollow(params, keys, argnames)
    ensures PairSiblingsPreferred(params, fixturenames, r)
  {
    forall i, j |
      (&& 0 <= i < j < |r| && r[i].0 in params && r[j].0 in params
       && !IsFree(params, r[i].0) && !IsFree(params, r[j].0)
       && Target(params, r[i].0) == Target(params, r[j].0) && r[j].0 in fixturenames)
      ensures && r[i].0 in fixturenames
              && IndexOf(fixturenames, r[i].0) < IndexOf(fixturenames, r[j].0)
    {
      assert r[i].0 == keys[i] && r[j].0 == keys[j];
      var a := IndexOf(argnames, keys[i]);
      var b := IndexOf(argnames, keys[j]);
      assert argnames[a] == r[i].0 && argnames[b] == r[j].0 && a < b;
    }
  }

  lemma PairsFaithful<T>(params: Params<T>, r: seq<(string, Value<T>)>, keys: seq<string>)
    requires PairsOf(params, r, keys)
    ensures forall i :: 0 <= i < |r| ==> r[i].0 in params && r[i].1 == params[r[i].0]
  {
  }

  lemma PairsDistinct<T>(params: Params<T>, r: seq<(string, Value<T>)>, keys: seq<string>)
    requires PairsOf(params, r, keys)
    requires Distinct(keys)
    ensures forall i, j :: 0 <= i < j < |r| ==> r[i].0 != r[j].0
  {
  }

  lemma PairsEmitted<T>(params: Params<T>, r: seq<(string, Value<T>)>, keys: seq<string>)
    requires PairsOf(params, r, keys)
    requires forall k :: k in keys <==> Rooted(params, k)
    ensures forall k :: Emitted(r, k) <==> Rooted(params, k)
  {
    forall k
      ensures Emitted(r, k) <==> k in keys
    {
      if k in keys {
        var i :| 0 <= i < |keys| && keys[i] == k;
        assert r[i].0 == k;
      }
    }
  }

  lemma PairsFreeFirst<T>(params: Params<T>, r: seq<(string, Value<T>)>, keys: seq<string>, n: nat)
    requires PairsOf(params, r, keys)
    requires FreePrefix(params, keys, n)
    ensures forall i, j :: 0 <= i < j < |r| && IsFree(params, r[j].0) ==> IsFree(params, r[i].0)
  {
  }

  lemma PairsPreferred<T>(params: Params<T>, fixturenames: seq<string>,
                          r: seq<(string, Value<T>)>, keys: seq<string>, free: seq<string>)
    requires PairsOf(params, r, keys)
    requires free <= keys
    requires FreePrefix(params, keys, |free|)
    requires PreferredFirst(fixturenames, free)
    ensures forall i, j :: 0 <= i < j < |r| && IsFree(params, r[j].0) && r[j].0 in fixturenames ==>
      && r[i].0 in fixturenames
      && IndexOf(fixturenames, r[i].0) < IndexOf(fixturenames, r[j].0)
  {
    forall i, j | 0 <= i < j < |r| && IsFree(params, r[j].0) && r[j].0 in fixturenames
      ensures r[i].0 in fixturenames && IndexOf(fixturenames, r[i].0) < IndexOf(fixturenames, r[j].0)
    {
      assert keys[j] == r[j].0 && j < |free|;
      assert free[i] == r[i].0 && free[j] == r[j].0;
    }
  }

  lemma PairsTargetsFirst<T>(params: Params<T>, r: seq<(string, Value<T>)>, keys: seq<string>)
    requires PairsOf(params, r, keys)
    requires TargetsFirst(params, keys)
    ensures forall i :: 0 <= i < |r| && !IsFree(params, r[i].0) ==>
      exists j :: 0 <= j < i && r[j].0 == Target(params, r[i].0)
  {
    forall i | 0 <= i < |r| && !IsFree(params, r[i].0)
      ensures exists j :: 0 <= j < i && r[j].0 == Target(params, r[i].0)
    {
      assert keys[i] == r[i].0 && keys[i] in params;
      var t := Target(params, keys[i]);
      var j :| 0 <= j < i && keys[j] == t;
      assert r[j].0 == keys[j];
    }
  }

  /** Some pair of `r` has key `k`. */
  ghost predicate Emitted<T>(r: seq<(string, Value<T>)>, k: string) {
    exists i :: 0 <= i < |r| && r[i].0 == k
  }

  /** Keeping only the free keys keeps the host's preferred order. */
  lemma {:induction false} FreeKeysPreferredFirst<T>(params: Params<T>, fixturenames: seq<string>,
                                                    names: seq<string>)
    requires forall k :: k in names ==> k in params
    requires PreferredFirst(fixturenames, names)
    ensures PreferredFirst(fixturenames, FreeKeys(params, names))
  {
    if names != [] {
      var t := names[1..];
      PreferredFirstTail(fixturenames, names);
      FreeKeysPreferredFirst(params, fixturenames, t);
      if IsFree(params, names[0]) {
        var r := FreeKeys(params, names);
        var rt := FreeKeys(params, t);
        assert r == [names[0]] + rt;
        forall i, j | 0 <= i < j < |r| && r[j] in fixturenames
          ensures r[i] in fixturenames && IndexOf(fixturenames, r[i]) < IndexOf(fixturenames, r[j])
        {
          assert r[j] == rt[j - 1];
          if i == 0 {
            assert rt[j - 1] in rt;
            var b :| 0 <= b < |t| && t[b] == rt[j - 1];
            assert names[b + 1] == r[j];
          } else {
            assert r[i] == rt[i - 1];
          }
        }
      } else {
        assert FreeKeys(params, names) == FreeKeys(params, t);
      }
    }
  }

  lemma PreferredFirstTail(fixturenames: seq<string>, names: seq<string>)
    requires names != [] && PreferredFirst(fixturenames, names)
    ensures PreferredFirst(fixturenames, names[1..])
  {
    var t := names[1..];
    forall i, j | 0 <= i < j < |t| && t[j] in fixturenames
      ensures t[i] in fixturenames && IndexOf(fixturenames, t[i]) < IndexOf(fixturenames, t[j])
    {
      assert t[i] == names[i + 1] && t[j] == names[j + 1];
    }
  }

  /** Keys whose references run round a cycle are left out of the order. */
  lemma CyclesDropped<T>(params: Params<T>, argnames: seq<string>, k: string)
    requires Enumerates(argnames, params.Keys)
    requires OnCycle(params, k)
    ensures k !in DependencyOrder(params, argnames)
  {
    CycleNotRooted(params, k);
  }

  /** Without reference cycles every key is ordered exactly once. */
  lemma AcyclicAllOrdered<T>(params: Params<T>, argnames: seq<string>)
    requires Enumerates(argnames, params.Keys)
    requires forall k :: k in params ==> !OnCycle(params, k)
    ensures Enumerates(DependencyOrder(params, argnames), params.Keys)
  {
    forall k | k in params
      ensures k in DependencyOrder(params, argnames)
    {
      AcyclicRooted(params, k);
    }
  }
}
