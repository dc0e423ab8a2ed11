/** Worked scenarios for the dependency orderer: a reference chain, a
    reference cycle and a small tree with two siblings, for any distinct
    names and any key order (for the tree, both orders of the siblings). */
module Scenarios {
  import opened Seqs
  import opened LazyFixtures
  import opened Chains
  import opened Trees
  import opened Ordering

  /** A chain c = v, b = lazy(c), a = lazy(b) resolves c, then b, then a,
      whatever order the keys arrive in. */
  lemma ChainResolvesTargetFirst<T>(params: Params<T>, argnames: seq<string>,
                                    a: string, b: string, c: string, v: T)
    requires a != b && b != c && a != c
    requires params == map[a := Lazy(LazyFixture(b)), b := Lazy(LazyFixture(c)), c := Literal(v)]
    requires Enumerates(argnames, params.Keys)
    ensures DependencyOrder(params, argnames) == [c, b, a]
  {
    ChainShape(params, a, b, c, v);
    ChainFree(params, argnames, a, b, c);
    ChainKeys(params, argnames, a, b, c);
  }

  lemma ChainShape<T>(params: Params<T>, a: string, b: string, c: string, v: T)
    requires a != b && b != c && a != c
    requires params == map[a := Lazy(LazyFixture(b)), b := Lazy(LazyFixture(c)), c := Literal(v)]
    ensures forall k :: k in params <==> k == a || k == b || k == c
    ensures IsFree(params, c) && !IsFree(params, b) && !IsFree(params, a)
    ensures Target(params, b) == c && Target(params, a) == b
    ensures Rooted(params, a) && Rooted(params, b) && Rooted(params, c)
  {
    assert FreeAt(params, a, 2) && FreeAt(params, b, 1) && FreeAt(params, c, 0);
  }

  /** Only c of the chain's keys is free. */
  lemma ChainFree<T>(params: Params<T>, argnames: seq<string>, a: string, b: string, c: string)
    requires forall k :: k in params <==> k == a || k == b || k == c
    requires IsFree(params, c) && !IsFree(params, b) && !IsFree(params, a)
    requires Enumerates(argnames, params.Keys)
    ensures FreeKeys(params, argnames) == [c]
  {
    OnlyElement(FreeKeys(params, argnames), c);
  }

  /** The order of the chain's keys starts with the free key c and puts b
      before a, so it is c, b, a. */
  lemma ChainKeys<T>(params: Params<T>, argnames: seq<string>, a: string, b: string, c: string)
    requires a != b && b != c && a != c
    requires forall k :: k in params <==> k == a || k == b || k == c
    requires !IsFree(params, a) && Target(params, a) == b
    requires Rooted(params, a) && Rooted(params, b) && Rooted(params, c)
    requires Enumerates(argnames, params.Keys)
    requires FreeKeys(params, argnames) == [c]
    ensures DependencyOrder(params, argnames) == [c, b, a]
  {
    var keys := DependencyOrder(params, argnames);
    var i := IndexOf(keys, a);
    var j :| 0 <= j < i && keys[j] == Target(params, keys[i]);
    assert keys[0] == FreeKeys(params, argnames)[0];
    ThreeElements(keys, a, b, c, i, j);
  }

  /** With a = lazy(b), b = lazy(a) and a literal c, only c is ordered. */
  lemma CycleExampleDropped<T>(params: Params<T>, argnames: seq<string>,
                               a: string, b: string, c: string, v: T)
    requires a != b && b != c && a != c
    requires params == map[a := Lazy(LazyFixture(b)), b := Lazy(LazyFixture(a)), c := Literal(v)]
    requires Enumerates(argnames, params.Keys)
    ensures DependencyOrder(params, argnames) == [c]
  {
    CycleShape(params, a, b, c, v);
    CycleOrder(params, DependencyOrder(params, argnames), a, b, c);
  }

  lemma CycleShape<T>(params: Params<T>, a: string, b: string, c: string, v: T)
    requires a != b && b != c && a != c
    requires params == map[a := Lazy(LazyFixture(b)), b := Lazy(LazyFixture(a)), c := Literal(v)]
    ensures forall k :: k in params <==> k == a || k == b || k == c
    ensures !Rooted(params, a) && !Rooted(params, b) && Rooted(params, c)
  {
    assert Up(params, a, 2) == Some(a);
    assert Up(params, b, 2) == Some(b);
    CycleNotRooted(params, a);
    CycleNotRooted(params, b);
    assert FreeAt(params, c, 0);
  }

  /** Any duplicate-free list of exactly the rooted keys is [c]. */
  lemma CycleOrder<T>(params: Params<T>, keys: seq<string>, a: string, b: string, c: string)
    requires forall k :: k in params <==> k == a || k == b || k == c
    requires !Rooted(params, a) && !Rooted(params, b) && Rooted(params, c)
    requires Distinct(keys)
    requires forall k :: k in keys ==> k in params
    requires forall k :: k in keys <==> Rooted(params, k)
    ensures keys == [c]
  {
    OnlyElement(keys, c);
  }

  /** With a literal r, x = lazy(r), y = lazy(r) and z = lazy(x), and x
      before y in `argnames`, the order is r, x, z, y: the subtree under x is
      finished before its sibling y. */
  lemma SubtreeBeforeSibling<T>(params: Params<T>, argnames: seq<string>,
                                r: string, x: string, y: string, z: string, v: T)
    requires r != x && r != y && r != z && x != y && x != z && y != z
    requires params == map[r := Literal(v), x := Lazy(LazyFixture(r)),
                           y := Lazy(LazyFixture(r)), z := Lazy(LazyFixture(x))]
    requires Enumerates(argnames, params.Keys)
    requires IndexOf(argnames, x) < IndexOf(argnames, y)
    ensures DependencyOrder(params, argnames) == [r, x, z, y]
  {
    TreeShape(params, r, x, y, z, v);
    OnlyElement(FreeKeys(params, argnames), r);
    TreeKeys(params, argnames, DependencyOrder(params, argnames), r, x, y, z);
  }

  /** The same tree with y before x in `argnames`: y is a leaf, so the order
      is r, y, x, z. */
  lemma SiblingBeforeSubtree<T>(params: Params<T>, argnames: seq<string>,
                                r: string, x: string, y: string, z: string, v: T)
    requires r != x && r != y && r != z && x != y && x != z && y != z
    requires params == map[r := Literal(v), x := Lazy(LazyFixture(r)),
                           y := Lazy(LazyFixture(r)), z := Lazy(LazyFixture(x))]
    requires Enumerates(argnames, params.Keys)
    requires IndexOf(argnames, y) < IndexOf(argnames, x)
    ensures DependencyOrder(params, argnames) == [r, y, x, z]
  {
    TreeShape(params, r, x, y, z, v);
    OnlyElement(FreeKeys(params, argnames), r);
    LeafFirstKeys(params, argnames, DependencyOrder(params, argnames), r, x, y, z);
  }

  /** The small tree for any four distinct names and any key order: the
      sibling walked first comes right after r, together with its subtree. */
  lemma SmallTreeOrder<T>(params: Params<T>, argnames: seq<string>,
                          r: string, x: string, y: string, z: string, v: T)
    requires r != x && r != y && r != z && x != y && x != z && y != z
    requires params == map[r := Literal(v), x := Lazy(LazyFixture(r)),
                           y := Lazy(LazyFixture(r)), z := Lazy(LazyFixture(x))]
    requires Enumerates(argnames, params.Keys)
    ensures DependencyOrder(params, argnames)
            == if IndexOf(argnames, x) < IndexOf(argnames, y) then [r, x, z, y] else [r, y, x, z]
  {
    assert x in argnames && y in argnames;
    if IndexOf(argnames, x) < IndexOf(argnames, y) {
      SubtreeBeforeSibling(params, argnames, r, x, y, z, v);
    } else {
      assert IndexOf(argnames, x) != IndexOf(argnames, y);
      SiblingBeforeSubtree(params, argnames, r, x, y, z, v);
    }
  }

  lemma TreeShape<T>(params: Params<T>, r: string, x: string, y: string, z: string, v: T)
    requires r != x && r != y && r != z && x != y && x != z && y != z
    requires params == map[r := Literal(v), x := Lazy(LazyFixture(r)),
                           y := Lazy(LazyFixture(r)), z := Lazy(LazyFixture(x))]
    ensures forall k :: k in params <==> k == r || k == x || k == y || k == z
    ensures IsFree(params, r) && !IsFree(params, x) && !IsFree(params, y) && !IsFree(params, z)
    ensures Target(params, x) == r && Target(params, y) == r && Target(params, z) == x
    ensures Rooted(params, r) && Rooted(params, x) && Rooted(params, y) && Rooted(params, z)
    ensures Below(params, z, x) && !Below(params, y, x)
  {
    assert FreeAt(params, r, 0) && FreeAt(params, x, 1) && FreeAt(params, y, 1) && FreeAt(params, z, 2);
    assert Up(params, z, 1) == Some(x);
    forall n: nat | 0 < n
      ensures Up(params, y, n) != Some(x)
    {
      assert Up(params, y, n) == Up(params, r, n - 1);
    }
  }

  /** Any order that meets the contract of `DependencyOrder` on the tree is
      r, x, z, y. */
  lemma TreeKeys<T>(params: Params<T>, argnames: seq<string>, keys: seq<string>,
                    r: string, x: string, y: string, z: string)
    requires r != x && r != y && r != z && x != y && x != z && y != z
    requires forall k :: k in params <==> k == r || k == x || k == y || k == z
    requires !IsFree(params, x) && !IsFree(params, y) && !IsFree(params, z)
    requires Target(params, x) == r && Target(params, y) == r && Target(params, z) == x
    requires Rooted(params, r) && Rooted(params, x) && Rooted(params, y) && Rooted(params, z)
    requires Below(params, z, x) && !Below(params, y, x)
    requires Enumerates(argnames, params.Keys)
    requires IndexOf(argnames, x) < IndexOf(argnames, y)
    requires Distinct(keys) && [r] <= keys
    requires forall k :: k in keys ==> k in params
    requires forall k :: k in keys <==> Rooted(params, k)
    requires TargetsFirst(params, keys)
    requires SubtreesContiguous(params, keys[1..])
    requires SiblingsFollow(params, keys, argnames)
    ensures keys == [r, x, z, y]
  {
    var ix := IndexOf(keys, x);
    var iy := IndexOf(keys, y);
    var iz := IndexOf(keys, z);
    assert 0 < ix && 0 < iy && 0 < iz;
    // Siblings keep `argnames` order.
    SiblingsPlaced(params, keys, argnames, ix, iy);
    // z comes after its target x.
    TargetEarlier(params, keys, iz);
    // The subtree under x is one block, and y is not in it.
    OutsideBlock(params, keys, ix, iy, iz);
    assert keys[iz] == z && keys[iy] == y && iz != iy;
    assert ix < iz < iy;
    RootedAreListed(params, keys, r, x, y, z);
    FourElements(keys, r, x, z, y, ix, iz, iy);
  }

  /** Any order that meets the contract of `DependencyOrder` on the tree with
      y before x in `argnames` is r, y, x, z. */
  lemma LeafFirstKeys<T>(params: Params<T>, argnames: seq<string>, keys: seq<string>,
                         r: string, x: string, y: string, z: string)
    requires r != x && r != y && r != z && x != y && x != z && y != z
    requires forall k :: k in params <==> k == r || k == x || k == y || k == z
    requires !IsFree(params, x) && !IsFree(params, y) && !IsFree(params, z)
    requires Target(params, x) == r && Target(params, y) == r && Target(params, z) == x
    requires Rooted(params, r) && Rooted(params, x) && Rooted(params, y) && Rooted(params, z)
    requires Enumerates(argnames, params.Keys)
    requires IndexOf(argnames, y) < IndexOf(argnames, x)
    requires Distinct(keys) && [r] <= keys
    requires forall k :: k in keys ==> k in params
    requires forall k :: k in keys <==> Rooted(params, k)
    requires TargetsFirst(params, keys)
    requires SiblingsFollow(params, keys, argnames)
    ensures keys == [r, y, x, z]
  {
    var ix := IndexOf(keys, x);
    var iy := IndexOf(keys, y);
    var iz := IndexOf(keys, z);
    assert 0 < ix && 0 < iy && 0 < iz;
    // Siblings keep `argnames` order.
    SiblingsPlaced(params, keys, argnames, iy, ix);
    // z comes after its target x.
    TargetEarlier(params, keys, iz);
    assert keys[iz] == z && keys[ix] == x && iz != ix;
    RootedAreListed(params, keys, r, x, y, z);
    FourElements(keys, r, y, x, z, iy, ix, iz);
  }

  /** When every key is rooted, a list of the rooted keys lists all four. */
  lemma RootedAreListed<T>(params: Params<T>, keys: seq<string>, r: string, x: string, y: string, z: string)
    requires forall k :: k in params <==> k == r || k == x || k == y || k == z
    requires Rooted(params, r) && Rooted(params, x) && Rooted(params, y) && Rooted(params, z)
    requires forall k :: k in keys ==> k in params
    requires forall k :: k in keys <==> Rooted(params, k)
    ensures forall k :: k in keys <==> k == r || k == x || k == y || k == z
  {
  }

  /** In an order that puts targets first, a dependent key's target stands
      before it. */
  lemma TargetEarlier<T>(params: Params<T>, keys: seq<string>, k: nat)
    requires TargetsFirst(params, keys)
    requires k < |keys| && keys[k] in params && !IsFree(params, keys[k])
    ensures Target(params, keys[k]) in keys && IndexOf(keys, Target(params, keys[k])) < k
  {
    var t := Target(params, keys[k]);
    var j :| 0 <= j < k && keys[j] == t;
  }

  /** Two siblings in an order that keeps `argnames` order stand in that order. */
  lemma SiblingsPlaced<T>(params: Params<T>, keys: seq<string>, argnames: seq<string>, i: nat, j: nat)
    requires forall k :: k in params ==> k in argnames
    requires SiblingsFollow(params, keys, argnames)
    requires i < |keys| && j < |keys| && i != j
    requires keys[i] in params && keys[j] in params
    requires !IsFree(params, keys[i]) && !IsFree(params, keys[j])
    requires Target(params, keys[i]) == Target(params, keys[j])
    requires IndexOf(argnames, keys[i]) < IndexOf(argnames, keys[j])
    ensures i < j
  {
  }

  /** A key not below `keys[i]` cannot stand between `keys[i]` and a key
      below it when the subtrees after the first key are contiguous. */
  lemma OutsideBlock<T>(params: Params<T>, keys: seq<string>, i: nat, j: nat, k: nat)
    requires 0 < i < |keys| && 0 < j < |keys| && 0 < k < |keys|
    requires SubtreesContiguous(params, keys[1..])
    requires Below(params, keys[k], keys[i]) && !Below(params, keys[j], keys[i])
    ensures !(i < j < k)
  {
    var deps := keys[1..];
    assert deps[i - 1] == keys[i] && deps[j - 1] == keys[j] && deps[k - 1] == keys[k];
  }

  /** A duplicate-free list of four keys that starts with r and has the
      other three at increasing positions i < j < k is r, then those three. */
  lemma FourElements(s: seq<string>, r: string, a: string, b: string, c: string, i: nat, j: nat, k: nat)
    requires r != a && r != b && r != c && a != b && a != c && b != c
    requires Distinct(s)
    requires forall e :: e in s <==> e == r || e == a || e == b || e == c
    requires |s| > 0 && s[0] == r
    requires i < j < k < |s| && s[i] == a && s[j] == b && s[k] == c
    ensures s == [r, a, b, c]
  {
    assert Elements(s) == {r, a, b, c};
    DistinctCardinality(s);
    assert |s| == 4;
  }

  lemma OnlyElement(s: seq<string>, c: string)
    requires Distinct(s)
    requires forall k :: k in s <==> k == c
    ensures s == [c]
  {
    assert Elements(s) == {c};
    DistinctCardinality(s);
  }

  /** A duplicate-free list of a, b and c that starts with c and has b
      before a is c, b, a. */
  lemma ThreeElements(s: seq<string>, a: string, b: string, c: string, i: nat, j: nat)
    requires a != b && b != c && a != c
    requires Distinct(s)
    requires forall k :: k in s <==> k == a || k == b || k == c
    requires |s| > 0 && s[0] == c
    requires j < i < |s| && s[i] == a && s[j] == b
    ensures s == [c, b, a]
  {
    assert Elements(s) == {a, b, c};
    DistinctCardinality(s);
    assert |s| == 3;
  }
}
