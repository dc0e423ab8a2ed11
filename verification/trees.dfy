/** The two halves of `sorted_by_dependency` (pytest_lazyfixture.py:126-167):
    splitting the keys into free keys and per-target child lists, and walking
    the reverse-reference trees under the free keys with `_tree_to_list`. */
module Trees {
  import opened Seqs
  import opened LazyFixtures
  import opened Chains

  /** The free keys among `names`, in the order of `names`. */
  function FreeKeys<T>(params: Params<T>, names: seq<string>): (r: seq<string>)
    requires forall k :: k in names ==> k in params
    ensures forall x {:trigger x in r} :: x in r <==> x in names && IsFree(params, x)
    ensures Distinct(names) ==> Distinct(r)
  {
    if names == [] then []
    else
      var rest := FreeKeys(params, names[1..]);
      HeadNotInTail(names, rest);
      (if IsFree(params, names[0]) then [names[0]] else []) + rest
  }

  /** The dependent keys among `names` whose target is `p`, in the order of `names`. */
  function Referrers<T>(params: Params<T>, names: seq<string>, p: string): (r: seq<string>)
    requires forall k :: k in names ==> k in params
    ensures forall x {:trigger x in r} :: x in r <==>
      x in names && !IsFree(params, x) && Target(params, x) == p
    ensures Distinct(names) ==> Distinct(r)
  {
    if names == [] then []
    else
      var rest := Referrers(params, names[1..], p);
      HeadNotInTail(names, rest);
      (if !IsFree(params, names[0]) && Target(params, names[0]) == p then [names[0]] else [])
      + rest
  }

  /** Prepending the head of a duplicate-free sequence to a selection from its
      tail keeps the selection duplicate-free. */
  lemma HeadNotInTail(names: seq<string>, rest: seq<string>)
    requires names != []
    requires forall x :: x in rest ==> x in names[1..]
    requires Distinct(names) ==> Distinct(rest)
    ensures Distinct(names) ==> Distinct([names[0]] + rest)
  {
    if Distinct(names) {
      assert forall k :: 0 <= k < |names| - 1 ==> names[1..][k] == names[k + 1] != names[0];
      DistinctConcat([names[0]], rest);
    }
  }

  lemma {:induction false} FreeKeysSnoc<T>(params: Params<T>, names: seq<string>, x: string)
    requires forall k :: k in names ==> k in params
    requires x in params
    ensures FreeKeys(params, names + [x]) ==
      FreeKeys(params, names) + (if IsFree(params, x) then [x] else [])
  {
    if names != [] {
      var h := if IsFree(params, names[0]) then [names[0]] else [];
      var e := if IsFree(params, x) then [x] else [];
      assert (names + [x])[1..] == names[1..] + [x];
      FreeKeysSnoc(params, names[1..], x);
      assert FreeKeys(params, names + [x]) == h + (FreeKeys(params, names[1..]) + e);
      assert h + (FreeKeys(params, names[1..]) + e) == (h + FreeKeys(params, names[1..])) + e;
    }
  }

  lemma {:induction false} ReferrersSnoc<T>(params: Params<T>, names: seq<string>, x: string, p: string)
    requires forall k :: k in names ==> k in params
    requires x in params
    ensures Referrers(params, names + [x], p) ==
      Referrers(params, names, p)
      + (if !IsFree(params, x) && Target(params, x) == p then [x] else [])
  {
    if names != [] {
      var h := if !IsFree(params, names[0]) && Target(params, names[0]) == p then [names[0]] else [];
      var e := if !IsFree(params, x) && Target(params, x) == p then [x] else [];
      assert (names + [x])[1..] == names[1..] + [x];
      ReferrersSnoc(params, names[1..], x, p);
      assert Referrers(params, names + [x], p) == h + (Referrers(params, names[1..], p) + e);
      assert h + (Referrers(params, names[1..], p) + e) == (h + Referrers(params, names[1..], p)) + e;
    }
  }

  /** Keeping only the referrers of `p` keeps their relative order. */
  lemma ReferrersKeepOrder<T>(params: Params<T>, names: seq<string>, p: string, i: nat, j: nat)
    requires forall k :: k in names ==> k in params
    requires Distinct(names)
    requires i < j < |Referrers(params, names, p)|
    ensures && Referrers(params, names, p)[i] in names && Referrers(params, names, p)[j] in names
            && IndexOf(names, Referrers(params, names, p)[i]) < IndexOf(names, Referrers(params, names, p)[j])
  {
    var rs := Referrers(params, names, p);
    IndexOfDistinct(rs, i);
    IndexOfDistinct(rs, j);
    FirstOccurrencesKeepOrder(params, names, p, rs[i], rs[j]);
  }

  /** The same, by first occurrence, for any `names`. */
  lemma {:induction false} FirstOccurrencesKeepOrder<T>(params: Params<T>, names: seq<string>, p: string,
                                                       x: string, y: string)
    requires forall k :: k in names ==> k in params
    requires x in Referrers(params, names, p) && y in Referrers(params, names, p)
    requires IndexOf(Referrers(params, names, p), x) < IndexOf(Referrers(params, names, p), y)
    ensures x in names && y in names && IndexOf(names, x) < IndexOf(names, y)
  {
    var rs := Referrers(params, names, p);
    assert names != [];
    var rest := Referrers(params, names[1..], p);
    var h := if !IsFree(params, names[0]) && Target(params, names[0]) == p then [names[0]] else [];
    assert rs == h + rest;
    if names[0] == x {
      assert IndexOf(names, x) == 0;
    } else if names[0] == y {
      assert false;
    } else {
      assert rs[|h|..] == rest;
      assert IndexOf(rs, x) == |h| + IndexOf(rest, x);
      assert IndexOf(rs, y) == |h| + IndexOf(rest, y);
      FirstOccurrencesKeepOrder(params, names[1..], p, x, y);
    }
  }

  /** `trees[leave]` on the defaultdict of pytest_lazyfixture.py:128: a
      missing key reads as the empty list. */
  function Children(trees: map<string, seq<string>>, p: string): seq<string> {
    if p in trees then trees[p] else []
  }

  /** The result of the loop at pytest_lazyfixture.py:130-136. */
  datatype Split = Split(free: seq<string>, trees: map<string, seq<string>>)

  /** The loop at pytest_lazyfixture.py:130-136 over the keys in `argnames`
      order: a free key is appended to the free list, a dependent key to the
      child list of its target. */
  function SplitFree<T>(params: Params<T>, argnames: seq<string>): (s: Split)
    requires forall k :: k in argnames ==> k in params
    ensures s.free == FreeKeys(params, argnames)
    ensures forall p {:trigger Referrers(params, argnames, p)} ::
      Children(s.trees, p) == Referrers(params, argnames, p)
    decreases |argnames|
  {
    if argnames == [] then Split([], map[])
    else
      var prefix := argnames[..|argnames| - 1];
      var key := argnames[|argnames| - 1];
      assert argnames == prefix + [key];
      var s := SplitFree(params, prefix);
      FreeKeysSnoc(params, prefix, key);
      ReferrersSnocAll(params, prefix, key);
      if IsFree(params, key) then Split(s.free + [key], s.trees)
      else
        var t := Target(params, key);
        Split(s.free, s.trees[t := Children(s.trees, t) + [key]])
  }

  lemma ReferrersSnocAll<T>(params: Params<T>, names: seq<string>, x: string)
    requires forall k :: k in names ==> k in params
    requires x in params
    ensures forall p :: (Referrers(params, names + [x], p) ==
      Referrers(params, names, p)
      + (if !IsFree(params, x) && Target(params, x) == p then [x] else []))
  {
    forall p {
      ReferrersSnoc(params, names, x, p);
    }
  }

  /** What `_tree_to_list` relies on: every child of `p` is a dependent key
      whose target is `p`, no child list repeats a key, and every dependent
      key is in the child list of its target. */
  ghost predicate WellFormed<T>(params: Params<T>, trees: map<string, seq<string>>) {
    && (forall p, x :: x in Children(trees, p) ==>
         x in params && !IsFree(params, x) && Target(params, x) == p)
    && (forall p :: Distinct(Children(trees, p)))
    && Listed(params, trees)
  }

  /** Every dependent key is in the child list of its target. */
  ghost predicate Listed<T>(params: Params<T>, trees: map<string, seq<string>>) {
    forall x {:trigger Target(params, x)} :: x in params && !IsFree(params, x) ==>
      x in Children(trees, Target(params, x))
  }

  /** `kids` lists, without repeats, dependent keys that reference `leave`. */
  ghost predicate KidsOf<T>(params: Params<T>, kids: seq<string>, leave: string) {
    && Distinct(kids)
    && forall l :: l in kids ==> l in params && !IsFree(params, l) && Target(params, l) == leave
  }

  /** When `argnames` enumerates the keys, the split's child lists are well formed. */
  lemma SplitWellFormed<T>(params: Params<T>, argnames: seq<string>)
    requires Enumerates(argnames, params.Keys)
    ensures WellFormed(params, SplitFree(params, argnames).trees)
  {
    var s := SplitFree(params, argnames);
    ChildListsWellFormed(params, argnames, s.trees);
  }

  /** Child lists that are exactly the referrers in a duplicate-free
      enumeration of the keys are well formed. */
  lemma ChildListsWellFormed<T>(params: Params<T>, argnames: seq<string>,
                                trees: map<string, seq<string>>)
    requires Enumerates(argnames, params.Keys)
    requires forall p {:trigger Referrers(params, argnames, p)} ::
      Children(trees, p) == Referrers(params, argnames, p)
    ensures WellFormed(params, trees)
  {
    ChildrenReferToOwner(params, argnames, trees);
    ChildListsDistinct(params, argnames, trees);
    DependentsListed(params, argnames, trees);
  }

  lemma ChildrenReferToOwner<T>(params: Params<T>, argnames: seq<string>,
                                trees: map<string, seq<string>>)
    requires Enumerates(argnames, params.Keys)
    requires forall p {:trigger Referrers(params, argnames, p)} ::
      Children(trees, p) == Referrers(params, argnames, p)
    ensures forall p, x :: x in Children(trees, p) ==>
      x in params && !IsFree(params, x) && Target(params, x) == p
  {
    forall p, x | x in Children(trees, p)
      ensures x in params && !IsFree(params, x) && Target(params, x) == p
    {
      assert Children(trees, p) == Referrers(params, argnames, p);
    }
  }

  lemma ChildListsDistinct<T>(params: Params<T>, argnames: seq<string>,
                              trees: map<string, seq<string>>)
    requires Enumerates(argnames, params.Keys)
    requires forall p {:trigger Referrers(params, argnames, p)} ::
      Children(trees, p) == Referrers(params, argnames, p)
    ensures forall p :: Distinct(Children(trees, p))
  {
    forall p
      ensures Distinct(Children(trees, p))
    {
      assert Children(trees, p) == Referrers(params, argnames, p);
    }
  }

  lemma DependentsListed<T>(params: Params<T>, argnames: seq<string>,
                            trees: map<string, seq<string>>)
    requires Enumerates(argnames, params.Keys)
    requires forall p {:trigger Referrers(params, argnames, p)} ::
      Children(trees, p) == Referrers(params, argnames, p)
    ensures forall x {:trigger Target(params, x)} :: x in params && !IsFree(params, x) ==>
      x in Children(trees, Target(params, x))
  {
    forall x | x in params && !IsFree(params, x)
      ensures x in Children(trees, Target(params, x))
    {
      var t := Target(params, x);
      assert Children(trees, t) == Referrers(params, argnames, t);
      assert x in Referrers(params, argnames, t);
    }
  }

  /** The chain of ancestors of a `_tree_to_list` call: a free root, then
      keys each of which references the one before it, with no repeats. */
  ghost predicate ValidPath<T>(params: Params<T>, path: seq<string>) {
    && |path| > 0
    && (forall i :: 0 <= i < |path| ==> path[i] in params)
    && IsFree(params, path[0])
    && (forall i :: 0 < i < |path| ==>
         !IsFree(params, path[i]) && Target(params, path[i]) == path[i - 1])
    && Distinct(path)
  }

  /** Every key of `r` is dependent and its target is in `roots` or earlier in `r`. */
  predicate ParentsBefore<T>(params: Params<T>, r: seq<string>, roots: set<string>) {
    forall i :: 0 <= i < |r| ==>
      && r[i] in params
      && !IsFree(params, r[i])
      && (Target(params, r[i]) in roots || Target(params, r[i]) in r[..i])
  }

  /** The keys below any key of `r` follow it in one unbroken block. */
  ghost predicate SubtreesContiguous<T>(params: Params<T>, r: seq<string>) {
    forall i, j, k :: 0 <= i < j < k < |r| && Below(params, r[k], r[i]) ==> Below(params, r[j], r[i])
  }

  /** Keys of `r` that reference the same key come in the order of that key's
      child list. */
  ghost predicate SiblingsInOrder<T>(params: Params<T>, trees: map<string, seq<string>>, r: seq<string>)
    requires Listed(params, trees)
  {
    forall i, j ::
      (&& 0 <= i < j < |r| && r[i] in params && r[j] in params
       && !IsFree(params, r[i]) && !IsFree(params, r[j])
       && Target(params, r[i]) == Target(params, r[j])) ==>
        IndexOf(Children(trees, Target(params, r[i])), r[i])
        < IndexOf(Children(trees, Target(params, r[j])), r[j])
  }

  /** The keys below an earlier key of `roots` all come before the keys below
      a later one. */
  ghost predicate TreesInRootOrder<T>(params: Params<T>, r: seq<string>, roots: seq<string>) {
    forall a, b, i, j ::
      (&& 0 <= a < b < |roots| && 0 <= i < |r| && 0 <= j < |r|
       && Below(params, r[i], roots[a]) && Below(params, r[j], roots[b])) ==> i < j
  }

  lemma {:induction false} UpAlongPath<T>(params: Params<T>, path: seq<string>, i: nat)
    requires ValidPath(params, path) && i < |path|
    ensures Up(params, path[i], i) == Some(path[0])
  {
    if 0 < i {
      UpAlongPath(params, path, i - 1);
    }
  }

  /** The last key of a valid path is rooted. */
  lemma PathRooted<T>(params: Params<T>, path: seq<string>)
    requires ValidPath(params, path)
    ensures Rooted(params, path[|path| - 1])
  {
    UpAlongPath(params, path, |path| - 1);
    assert FreeAt(params, path[|path| - 1], |path| - 1);
  }

  /** A child of the last key of a valid path is not on the path, so the
      path extends by it and fewer keys are left off the path. */
  lemma ChildExtendsPath<T>(params: Params<T>, path: seq<string>, l: string)
    requires ValidPath(params, path)
    requires l in params && !IsFree(params, l) && Target(params, l) == path[|path| - 1]
    ensures l !in path
    ensures ValidPath(params, path + [l])
    ensures params.Keys - Elements(path + [l]) < params.Keys - Elements(path)
  {
    forall i | 0 <= i < |path|
      ensures path[i] != l
    {
      if 0 < i {
        assert path[i - 1] != path[|path| - 1];
      }
    }
    assert Elements(path + [l]) == Elements(path) + {l};
  }

  /** A key lies below `leave` exactly when it is at or below one of `leave`'s children. */
  lemma BelowThroughChild<T>(params: Params<T>, trees: map<string, seq<string>>, x: string, leave: string)
    requires WellFormed(params, trees)
    ensures Below(params, x, leave) <==>
      exists l :: l in Children(trees, leave) && AtOrBelow(params, x, l)
  {
    if Below(params, x, leave) {
      var n: nat :| 0 < n && Up(params, x, n) == Some(leave);
      UpAdd(params, x, n - 1, 1);
      var l := Up(params, x, n - 1).value;
      UpOne(params, l, leave);
      assert l in Children(trees, leave);
      assert AtOrBelow(params, x, l);
    }
    if exists l :: l in Children(trees, leave) && AtOrBelow(params, x, l) {
      var l :| l in Children(trees, leave) && AtOrBelow(params, x, l);
      var m: nat :| Up(params, x, m) == Some(l);
      UpAdd(params, x, m, 1);
      UpOne(params, l, leave);
      assert Up(params, x, m + 1) == Some(leave);
    }
  }

  /** Appending `b` to `a` keeps targets ahead of referrers, provided the
      roots `b` relies on are roots of `a` or keys of `a`. */
  lemma ParentsBeforeConcat<T>(params: Params<T>, a: seq<string>, b: seq<string>,
                               roots: set<string>, roots': set<string>)
    requires ParentsBefore(params, a, roots)
    requires ParentsBefore(params, b, roots')
    requires forall k :: k in roots' ==> k in roots || k in a
    ensures ParentsBefore(params, a + b, roots)
  {
    var r := a + b;
    forall i | 0 <= i < |r|
      ensures r[i] in params && !IsFree(params, r[i])
      ensures Target(params, r[i]) in roots || Target(params, r[i]) in r[..i]
    {
      if i < |a| {
        assert r[..i] == a[..i];
      } else {
        var j := i - |a|;
        assert r[i] == b[j];
        assert r[..i] == a + b[..j];
      }
    }
  }

  /** `_tree_to_list(trees, leave)` (pytest_lazyfixture.py:160-167). `path`
      is the chain of ancestors from a free root down to `leave`; it carries
      the termination argument: a child of `leave` is never on the path,
      because each key has one target and the root is free. */
  function TreeToList<T>(params: Params<T>, trees: map<string, seq<string>>, leave: string,
                         ghost path: seq<string>): (r: seq<string>)
    requires WellFormed(params, trees)
    requires ValidPath(params, path) && leave == path[|path| - 1]
    ensures Distinct(r)
    ensures forall x :: x in r <==> Below(params, x, leave)
    ensures ParentsBefore(params, r, {leave})
    // Depth-first preorder: every subtree is one block, siblings keep the
    // order of their child list.
    ensures SubtreesContiguous(params, r)
    ensures SiblingsInOrder(params, trees, r)
    decreases params.Keys - Elements(path), 1
  {
    assert Children(trees, leave)[0..] == Children(trees, leave);
    var lst := ForestToList(params, trees, leave, path, 0);
    TreeMembers(params, trees, leave, lst);
    lst
  }

  /** The keys listed under the children of `leave` are the keys below `leave`. */
  lemma TreeMembers<T>(params: Params<T>, trees: map<string, seq<string>>, leave: string,
                       lst: seq<string>)
    requires WellFormed(params, trees)
    requires forall x :: x in lst <==> exists l :: l in Children(trees, leave) && AtOrBelow(params, x, l)
    ensures forall x :: x in lst <==> Below(params, x, leave)
  {
    forall x
      ensures x in lst <==> Below(params, x, leave)
    {
      BelowThroughChild(params, trees, x, leave);
    }
  }

  /** The loop of `_tree_to_list` over the child list of the last key of
      `path`, from position `start` on: each child, immediately followed by
      its own subtree. */
  function ForestToList<T>(params: Params<T>, trees: map<string, seq<string>>,
                           leave: string, ghost path: seq<string>, start: nat): (r: seq<string>)
    requires WellFormed(params, trees)
    requires ValidPath(params, path) && leave == path[|path| - 1]
    requires start <= |Children(trees, leave)|
    ensures Distinct(r)
    ensures forall x :: x in r <==>
      exists l :: l in Children(trees, leave)[start..] && AtOrBelow(params, x, l)
    ensures ParentsBefore(params, r, {leave})
    ensures SubtreesContiguous(params, r)
    ensures SiblingsInOrder(params, trees, r)
    decreases params.Keys - Elements(path), 0, |Children(trees, leave)| - start
  {
    var kids := Children(trees, leave);
    if start == |kids| then []
    else
      var l := kids[start];
      ChildExtendsPath(params, path, l);
      var sub := TreeToList(params, trees, l, path + [l]);
      var rest := ForestToList(params, trees, leave, path, start + 1);
      ChildrenKids(params, trees, leave);
      ForestJoin(params, trees, leave, kids, path, start, sub, rest);
      [l] + sub + rest
  }

  /** The child at `start`, its subtree and the trees of the later children,
      in that order, form the forest from `start` on. */
  lemma ForestJoin<T>(params: Params<T>, trees: map<string, seq<string>>, leave: string,
                      kids: seq<string>, path: seq<string>, start: nat, sub: seq<string>, rest: seq<string>)
    requires Listed(params, trees)
    requires ValidPath(params, path) && leave == path[|path| - 1]
    requires kids == Children(trees, leave) && KidsOf(params, kids, leave) && start < |kids|
    requires Distinct(sub)
    requires forall x :: x in sub <==> Below(params, x, kids[start])
    requires ParentsBefore(params, sub, {kids[start]})
    requires SubtreesContiguous(params, sub)
    requires SiblingsInOrder(params, trees, sub)
    requires Distinct(rest)
    requires forall x :: x in rest <==> exists l :: l in kids[start + 1..] && AtOrBelow(params, x, l)
    requires ParentsBefore(params, rest, {leave})
    requires SubtreesContiguous(params, rest)
    requires SiblingsInOrder(params, trees, rest)
    ensures Distinct([kids[start]] + sub + rest)
    ensures forall x :: x in [kids[start]] + sub + rest <==>
      exists l :: l in kids[start..] && AtOrBelow(params, x, l)
    ensures ParentsBefore(params, [kids[start]] + sub + rest, {leave})
    ensures SubtreesContiguous(params, [kids[start]] + sub + rest)
    ensures SiblingsInOrder(params, trees, [kids[start]] + sub + rest)
  {
    assert kids[start..][1..] == kids[start + 1..];
    ForestStep(params, kids[start..], path, sub, rest);
    PathRooted(params, path);
    ForestApart(params, leave, kids, start, rest);
    ForestContiguous(params, kids[start], sub, rest);
    ForestSiblings(params, trees, leave, kids, start, sub, rest);
  }

  /** Under well-formed child lists, the children of `leave` are its kids. */
  lemma ChildrenKids<T>(params: Params<T>, trees: map<string, seq<string>>, leave: string)
    requires WellFormed(params, trees)
    ensures KidsOf(params, Children(trees, leave), leave)
  {
  }

  /** The trees under the children after position `start` share no key with
      the subtree of the child at `start`. */
  lemma ForestApart<T>(params: Params<T>, leave: string, kids: seq<string>, start: nat,
                       rest: seq<string>)
    requires Rooted(params, leave) && KidsOf(params, kids, leave) && start < |kids|
    requires forall x :: x in rest ==> exists l :: l in kids[start + 1..] && AtOrBelow(params, x, l)
    ensures forall x :: x in rest ==> !AtOrBelow(params, x, kids[start])
  {
    var c := kids[start];
    forall x | x in rest
      ensures !AtOrBelow(params, x, c)
    {
      var l :| l in kids[start + 1..] && AtOrBelow(params, x, l);
      var q :| 0 <= q < |kids[start + 1..]| && kids[start + 1..][q] == l;
      assert kids[start + 1 + q] == l && l in kids && c in kids;
      SiblingsDisjoint(params, l, c, x);
    }
  }

  /** Putting a child before its subtree and the trees of later children
      keeps every subtree in one block. */
  lemma ForestContiguous<T>(params: Params<T>, c: string, sub: seq<string>, rest: seq<string>)
    requires c in params
    requires forall x :: x in sub ==> Below(params, x, c)
    requires SubtreesContiguous(params, sub)
    requires forall x :: x in rest ==> !AtOrBelow(params, x, c)
    requires SubtreesContiguous(params, rest)
    ensures SubtreesContiguous(params, [c] + sub + rest)
  {
    var r := [c] + sub + rest;
    var n := |sub|;
    forall i, j, k | 0 <= i < j < k < |r| && Below(params, r[k], r[i])
      ensures Below(params, r[j], r[i])
    {
      if k > n {
        assert r[k] == rest[k - 1 - n] && r[k] in rest;
        AtOrBelowCases(params, r[k], c);
        if i == 0 {
          assert false;
        } else if i <= n {
          assert r[i] == sub[i - 1] && r[i] in sub;
          BelowTrans(params, r[k], r[i], c);
          assert false;
        } else {
          assert r[i] == rest[i - 1 - n] && r[j] == rest[j - 1 - n];
        }
      } else if i == 0 {
        assert r[j] == sub[j - 1] && r[j] in sub;
      } else {
        assert r[i] == sub[i - 1] && r[j] == sub[j - 1] && r[k] == sub[k - 1];
      }
    }
  }

  /** A key at or below a child after position `start` references neither a
      key at or below the child at `start`, nor `leave` itself unless it is
      that later child. */
  lemma LaterTreeTarget<T>(params: Params<T>, leave: string, kids: seq<string>, start: nat,
                           l: string, y: string)
    requires Rooted(params, leave) && KidsOf(params, kids, leave) && start < |kids|
    requires l in kids[start + 1..] && AtOrBelow(params, y, l)
    ensures && y in params && !IsFree(params, y)
            && !AtOrBelow(params, Target(params, y), kids[start])
            && (Target(params, y) == leave ==> y == l)
  {
    var c := kids[start];
    var q :| 0 <= q < |kids[start + 1..]| && kids[start + 1..][q] == l;
    assert kids[start + 1 + q] == l && c in kids && l in kids;
    if y == l {
      ParentNotBelowChild(params, c);
    } else {
      AtOrBelowCases(params, y, l);
      NephewTarget(params, c, l, y);
    }
  }

  /** A sibling of the child at `start` that comes from a later tree comes
      later in the child list. */
  lemma LaterSibling<T>(params: Params<T>, leave: string, kids: seq<string>, start: nat,
                        l: string, y: string)
    requires Rooted(params, leave) && KidsOf(params, kids, leave) && start < |kids|
    requires l in kids[start + 1..] && AtOrBelow(params, y, l)
    requires y in params && !IsFree(params, y) && Target(params, y) == leave
    ensures y in kids && IndexOf(kids, kids[start]) < IndexOf(kids, y)
  {
    LaterTreeTarget(params, leave, kids, start, l, y);
    var q :| 0 <= q < |kids[start + 1..]| && kids[start + 1..][q] == y;
    IndexOfDistinct(kids, start);
    IndexOfDistinct(kids, start + 1 + q);
  }

  /** A key of a later tree never shares its target with a key below the
      child at `start`. */
  lemma LaterNotCousin<T>(params: Params<T>, leave: string, kids: seq<string>, start: nat,
                          l: string, y: string, x: string)
    requires Rooted(params, leave) && KidsOf(params, kids, leave) && start < |kids|
    requires l in kids[start + 1..] && AtOrBelow(params, y, l)
    requires Below(params, x, kids[start])
    ensures && x in params && !IsFree(params, x) && y in params && !IsFree(params, y)
            && Target(params, x) != Target(params, y)
  {
    LaterTreeTarget(params, leave, kids, start, l, y);
    TargetAtOrBelow(params, x, kids[start]);
  }

  /** Putting a child before its subtree and the trees of later children
      keeps siblings in child-list order. */
  lemma ForestSiblings<T>(params: Params<T>, trees: map<string, seq<string>>, leave: string,
                          kids: seq<string>, start: nat, sub: seq<string>, rest: seq<string>)
    requires Listed(params, trees)
    requires Rooted(params, leave) && KidsOf(params, kids, leave) && start < |kids|
    requires kids == Children(trees, leave)
    requires forall x :: x in sub ==> Below(params, x, kids[start])
    requires SiblingsInOrder(params, trees, sub)
    requires forall x :: x in rest ==> exists l :: l in kids[start + 1..] && AtOrBelow(params, x, l)
    requires SiblingsInOrder(params, trees, rest)
    ensures SiblingsInOrder(params, trees, [kids[start]] + sub + rest)
  {
    var c := kids[start];
    var r := [c] + sub + rest;
    var n := |sub|;
    assert c in kids;
    forall i, j | (&& 0 <= i < j < |r| && r[i] in params && r[j] in params
                   && !IsFree(params, r[i]) && !IsFree(params, r[j])
                   && Target(params, r[i]) == Target(params, r[j]))
      ensures IndexOf(Children(trees, Target(params, r[i])), r[i])
            < IndexOf(Children(trees, Target(params, r[j])), r[j])
    {
      if j > n {
        var y := r[j];
        assert y == rest[j - 1 - n] && y in rest;
        var l :| l in kids[start + 1..] && AtOrBelow(params, y, l);
        if i == 0 {
          LaterSibling(params, leave, kids, start, l, y);
        } else if i <= n {
          assert r[i] == sub[i - 1] && r[i] in sub;
          LaterNotCousin(params, leave, kids, start, l, y, r[i]);
          assert false;
        } else {
          assert r[i] == rest[i - 1 - n];
        }
      } else if i == 0 {
        assert r[j] == sub[j - 1] && r[j] in sub;
        TargetAtOrBelow(params, r[j], c);
        ParentNotBelowChild(params, c);
        assert false;
      } else {
        assert r[i] == sub[i - 1] && r[j] == sub[j - 1];
      }
    }
  }

  /** A key below one child of a rooted key references neither the parent
      nor a key at or below another child. */
  lemma NephewTarget<T>(params: Params<T>, c: string, l: string, y: string)
    requires c in params && !IsFree(params, c)
    requires l in params && !IsFree(params, l)
    requires c != l && Target(params, c) == Target(params, l)
    requires Rooted(params, Target(params, c))
    requires Below(params, y, l)
    ensures && y in params && !IsFree(params, y)
            && !AtOrBelow(params, Target(params, y), c)
            && Target(params, y) != Target(params, c)
  {
    TargetAtOrBelow(params, y, l);
    SiblingsDisjoint(params, l, c, Target(params, y));
    ParentNotBelowChild(params, l);
  }

  /** One step of the loop in `_tree_to_list`: the child, its subtree and the
      remaining children's trees together list each key under some child once,
      targets first. */
  lemma ForestStep<T>(params: Params<T>, kids: seq<string>, path: seq<string>,
                      sub: seq<string>, rest: seq<string>)
    requires ValidPath(params, path)
    requires kids != []
    requires forall l :: l in kids ==>
      l in params && !IsFree(params, l) && Target(params, l) == path[|path| - 1]
    requires Distinct(kids)
    requires Distinct(sub)
    requires forall x :: x in sub <==> Below(params, x, kids[0])
    requires ParentsBefore(params, sub, {kids[0]})
    requires Distinct(rest)
    requires forall x :: x in rest <==> exists l :: l in kids[1..] && AtOrBelow(params, x, l)
    requires ParentsBefore(params, rest, {path[|path| - 1]})
    ensures Distinct([kids[0]] + sub + rest)
    ensures forall x :: x in [kids[0]] + sub + rest <==>
      exists l :: l in kids && AtOrBelow(params, x, l)
    ensures ParentsBefore(params, [kids[0]] + sub + rest, {path[|path| - 1]})
  {
    var leave := path[|path| - 1];
    var c := kids[0];
    PathRooted(params, path);
    // The child is not in its own subtree.
    ChildNotBelowItself(params, c);
    DistinctConcat([c], sub);
    // Nothing at or below the child is at or below a later sibling.
    forall x | x in [c] + sub
      ensures x !in rest
    {
      AtOrBelowCases(params, x, c);
      forall l | l in kids[1..]
        ensures !AtOrBelow(params, x, l)
      {
        assert l != c by {
          var k :| 0 <= k < |kids[1..]| && kids[1..][k] == l;
          assert kids[k + 1] == l;
        }
        SiblingsDisjoint(params, c, l, x);
      }
    }
    DistinctConcat([c] + sub, rest);
    // Membership.
    forall x
      ensures x in [c] + sub + rest <==> exists l :: l in kids && AtOrBelow(params, x, l)
    {
      AtOrBelowCases(params, x, c);
      if exists l :: l in kids && AtOrBelow(params, x, l) {
        var l :| l in kids && AtOrBelow(params, x, l);
        if l != c {
          assert l in kids[1..];
        }
      }
      if x in rest {
        var l :| l in kids[1..] && AtOrBelow(params, x, l);
        assert l in kids;
      }
    }
    // Targets first.
    assert ParentsBefore(params, [c], {leave});
    ParentsBeforeConcat(params, [c], sub, {leave}, {c});
    ParentsBeforeConcat(params, [c] + sub, rest, {leave}, {leave});
  }

  /** The loop at pytest_lazyfixture.py:139-142: the trees under each free
      key, concatenated in the order of the free keys. */
  function Descendants<T>(params: Params<T>, trees: map<string, seq<string>>, roots: seq<string>): (r: seq<string>)
    requires WellFormed(params, trees)
    requires forall k :: k in roots ==> k in params && IsFree(params, k)
    requires Distinct(roots)
    ensures Distinct(r)
    ensures forall x :: x in r <==> exists k :: k in roots && Below(params, x, k)
    ensures ParentsBefore(params, r, Elements(roots))
    // The trees come one after another in the order of `roots`, each in
    // depth-first preorder.
    ensures TreesInRootOrder(params, r, roots)
    ensures SubtreesContiguous(params, r)
    ensures SiblingsInOrder(params, trees, r)
  {
    if roots == [] then []
    else
      var tree := TreeToList(params, trees, roots[0], [roots[0]]);
      var rest := Descendants(params, trees, roots[1..]);
      DescendantsStep(params, roots, tree, rest);
      DescendantsRootOrder(params, roots, tree, rest);
      DescendantsContiguous(params, roots, tree, rest);
      DescendantsSiblings(params, trees, roots, tree, rest);
      tree + rest
  }

  /** A key below a later root is neither below the first root nor references
      a key at or below it. */
  lemma LaterRootApart<T>(params: Params<T>, roots: seq<string>, k: string, x: string)
    requires roots != []
    requires forall k :: k in roots ==> k in params && IsFree(params, k)
    requires Distinct(roots)
    requires k in roots[1..] && Below(params, x, k)
    ensures && !Below(params, x, roots[0])
            && x in params && !IsFree(params, x)
            && !AtOrBelow(params, Target(params, x), roots[0])
  {
    var q :| 0 <= q < |roots[1..]| && roots[1..][q] == k;
    assert roots[q + 1] == k != roots[0];
    TargetAtOrBelow(params, x, k);
    if Below(params, x, roots[0]) {
      FreeRootsDisjoint(params, x, roots[0], k);
    }
    if AtOrBelow(params, Target(params, x), roots[0]) {
      FreeAtOrBelowUnique(params, Target(params, x), roots[0], k);
    }
  }

  /** Prepending the tree under the first root keeps the trees in root order. */
  lemma DescendantsRootOrder<T>(params: Params<T>, roots: seq<string>, tree: seq<string>, rest: seq<string>)
    requires roots != []
    requires forall k :: k in roots ==> k in params && IsFree(params, k)
    requires Distinct(roots)
    requires forall x :: x in tree <==> Below(params, x, roots[0])
    requires forall x :: x in rest <==> exists k :: k in roots[1..] && Below(params, x, k)
    requires TreesInRootOrder(params, rest, roots[1..])
    ensures TreesInRootOrder(params, tree + rest, roots)
  {
    var r := tree + rest;
    var n := |tree|;
    // A key below roots[a] sits in the first tree exactly when a is 0.
    forall a, i | 0 <= a < |roots| && 0 <= i < |r| && Below(params, r[i], roots[a])
      ensures i < n <==> a == 0
    {
      if i < n {
        assert r[i] == tree[i] && r[i] in tree;
        if a != 0 {
          assert roots[a] != roots[0];
          FreeRootsDisjoint(params, r[i], roots[0], roots[a]);
        }
      } else {
        assert r[i] == rest[i - n] && r[i] in rest;
        var k :| k in roots[1..] && Below(params, r[i], k);
        LaterRootApart(params, roots, k, r[i]);
      }
    }
    forall a, b, i, j |
      (&& 0 <= a < b < |roots| && 0 <= i < |r| && 0 <= j < |r|
       && Below(params, r[i], roots[a]) && Below(params, r[j], roots[b]))
      ensures i < j
    {
      if 0 < a {
        assert roots[1..][a - 1] == roots[a] && roots[1..][b - 1] == roots[b];
        assert r[i] == rest[i - n] && r[j] == rest[j - n];
      }
    }
  }

  /** Prepending the tree under the first root keeps every subtree in one block. */
  lemma DescendantsContiguous<T>(params: Params<T>, roots: seq<string>, tree: seq<string>, rest: seq<string>)
    requires roots != []
    requires forall k :: k in roots ==> k in params && IsFree(params, k)
    requires Distinct(roots)
    requires forall x :: x in tree <==> Below(params, x, roots[0])
    requires SubtreesContiguous(params, tree)
    requires forall x :: x in rest <==> exists k :: k in roots[1..] && Below(params, x, k)
    requires SubtreesContiguous(params, rest)
    ensures SubtreesContiguous(params, tree + rest)
  {
    var r := tree + rest;
    var n := |tree|;
    forall i, j, k | 0 <= i < j < k < |r| && Below(params, r[k], r[i])
      ensures Below(params, r[j], r[i])
    {
      if i < n {
        assert r[i] == tree[i] && r[i] in tree;
        if k >= n {
          assert r[k] == rest[k - n] && r[k] in rest;
          var root :| root in roots[1..] && Below(params, r[k], root);
          BelowTrans(params, r[k], r[i], roots[0]);
          LaterRootApart(params, roots, root, r[k]);
          assert false;
        }
        assert r[j] == tree[j] && r[k] == tree[k];
      } else {
        assert r[i] == rest[i - n] && r[j] == rest[j - n] && r[k] == rest[k - n];
      }
    }
  }

  /** Prepending the tree under the first root keeps siblings in child-list order. */
  lemma DescendantsSiblings<T>(params: Params<T>, trees: map<string, seq<string>>, roots: seq<string>,
                               tree: seq<string>, rest: seq<string>)
    requires Listed(params, trees)
    requires roots != []
    requires forall k :: k in roots ==> k in params && IsFree(params, k)
    requires Distinct(roots)
    requires forall x :: x in tree <==> Below(params, x, roots[0])
    requires SiblingsInOrder(params, trees, tree)
    requires forall x :: x in rest <==> exists k :: k in roots[1..] && Below(params, x, k)
    requires SiblingsInOrder(params, trees, rest)
    ensures SiblingsInOrder(params, trees, tree + rest)
  {
    var r := tree + rest;
    var n := |tree|;
    forall i, j | (&& 0 <= i < j < |r| && r[i] in params && r[j] in params
                   && !IsFree(params, r[i]) && !IsFree(params, r[j])
                   && Target(params, r[i]) == Target(params, r[j]))
      ensures IndexOf(Children(trees, Target(params, r[i])), r[i])
            < IndexOf(Children(trees, Target(params, r[j])), r[j])
    {
      if i < n {
        assert r[i] == tree[i] && r[i] in tree;
        if j >= n {
          assert r[j] == rest[j - n] && r[j] in rest;
          var root :| root in roots[1..] && Below(params, r[j], root);
          TargetAtOrBelow(params, r[i], roots[0]);
          LaterRootApart(params, roots, root, r[j]);
          assert false;
        }
        assert r[j] == tree[j];
      } else {
        assert r[i] == rest[i - n] && r[j] == rest[j - n];
      }
    }
  }

  lemma DescendantsStep<T>(params: Params<T>, roots: seq<string>, tree: seq<string>, rest: seq<string>)
    requires roots != []
    requires forall k :: k in roots ==> k in params && IsFree(params, k)
    requires Distinct(roots)
    requires Distinct(tree)
    requires forall x :: x in tree <==> Below(params, x, roots[0])
    requires ParentsBefore(params, tree, {roots[0]})
    requires Distinct(rest)
    requires forall x :: x in rest <==> exists k :: k in roots[1..] && Below(params, x, k)
    requires ParentsBefore(params, rest, Elements(roots[1..]))
    ensures Distinct(tree + rest)
    ensures forall x :: x in tree + rest <==> exists k :: k in roots && Below(params, x, k)
    ensures ParentsBefore(params, tree + rest, Elements(roots))
  {
    assert forall j :: 0 <= j < |roots[1..]| ==> roots[1..][j] == roots[j + 1] != roots[0];
    forall x, k | x in tree && k in roots[1..]
      ensures !Below(params, x, k)
    {
      if Below(params, x, k) {
        FreeRootsDisjoint(params, x, roots[0], k);
      }
    }
    DistinctConcat(tree, rest);
    forall x
      ensures x in tree + rest <==> exists k :: k in roots && Below(params, x, k)
    {
      if exists k :: k in roots && Below(params, x, k) {
        var k :| k in roots && Below(params, x, k);
        if k != roots[0] {
          assert k in roots[1..];
        }
      }
      if x in rest {
        var k :| k in roots[1..] && Below(params, x, k);
        assert k in roots;
      }
    }
    ParentsBeforeConcat(params, [], tree, Elements(roots), {roots[0]});
    assert [] + tree == tree;
    ParentsBeforeConcat(params, tree, rest, Elements(roots), Elements(roots[1..]));
  }
}
