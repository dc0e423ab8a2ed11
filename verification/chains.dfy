/** Reference chains inside one parameter mapping.

    A key is FREE when its value is a literal, or a lazy reference to a name
    that is not a key of the mapping (pytest_lazyfixture.py:133). Every other
    key is DEPENDENT and has exactly one TARGET, the key it references. Following
    targets from a key gives its chain; the chain either stops at a free key
    (the key is ROOTED) or runs round a cycle forever. */
module Chains {
  import opened Seqs
  import opened LazyFixtures

  datatype Option<X> = None | Some(value: X)

  /** The test of pytest_lazyfixture.py:133. */
  predicate IsFree<T>(params: Params<T>, key: string)
    requires key in params
  {
    !IsLazyFixture(params[key]) || params[key].fixture.name !in params
  }

  /** A key is free exactly when its value is a literal or a reference to a
      name that is not a key, and dependent exactly when its value is a
      reference to some key. */
  lemma FreeIff<T>(params: Params<T>, key: string)
    requires key in params
    ensures IsFree(params, key) <==>
      params[key].Literal? || params[key].fixture.name !in params
    ensures !IsFree(params, key) <==>
      exists t :: t in params && params[key] == Lazy(LazyFixture(t))
  {
    if !IsFree(params, key) {
      assert params[key] == Lazy(LazyFixture(params[key].fixture.name));
    }
  }

  /** The key a dependent key references. */
  function Target<T>(params: Params<T>, key: string): (t: string)
    requires key in params && !IsFree(params, key)
    ensures t in params
    ensures params[key] == Lazy(LazyFixture(t))
  {
    params[key].fixture.name
  }

  /** The key reached from `key` after following exactly n targets, or None
      when the chain stops at a free key earlier (or `key` is not a key). */
  ghost function Up<T>(params: Params<T>, key: string, n: nat): (r: Option<string>)
    ensures r.Some? ==> r.value in params
    decreases n
  {
    if key !in params then None
    else if n == 0 then Some(key)
    else if IsFree(params, key) then None
    else Up(params, Target(params, key), n - 1)
  }

  /** `x` reaches `a` in one or more steps: x sits in the reverse-reference tree under a. */
  ghost predicate Below<T>(params: Params<T>, x: string, a: string) {
    exists n: nat :: 0 < n && Up(params, x, n) == Some(a)
  }

  /** `x` reaches `a` in zero or more steps. */
  ghost predicate AtOrBelow<T>(params: Params<T>, x: string, a: string) {
    exists n: nat :: Up(params, x, n) == Some(a)
  }

  /** After n steps from `x` the chain stands on a free key. */
  ghost predicate FreeAt<T>(params: Params<T>, x: string, n: nat) {
    Up(params, x, n).Some? && IsFree(params, Up(params, x, n).value)
  }

  /** The chain from `x` ends at a free key. */
  ghost predicate Rooted<T>(params: Params<T>, x: string) {
    exists n: nat :: FreeAt(params, x, n)
  }

  /** The chain from `x` comes back to `x`. */
  ghost predicate OnCycle<T>(params: Params<T>, x: string) {
    exists n: nat :: 0 < n && Up(params, x, n) == Some(x)
  }

  /** Following n + m targets is following n, then m more. */
  lemma {:induction false} UpAdd<T>(params: Params<T>, x: string, n: nat, m: nat)
    ensures Up(params, x, n + m) ==
      (if Up(params, x, n).Some? then Up(params, Up(params, x, n).value, m) else None)
    decreases n
  {
    if x !in params || n == 0 {
    } else if IsFree(params, x) {
    } else {
      UpAdd(params, Target(params, x), n - 1, m);
    }
  }

  /** One step from a dependent key lands on its target, and nowhere else. */
  lemma UpOne<T>(params: Params<T>, x: string, a: string)
    ensures Up(params, x, 1) == Some(a) <==>
      x in params && !IsFree(params, x) && Target(params, x) == a
  {
  }

  /** A chain that returns to its start never meets a free key. */
  lemma {:induction false} NoFreeOnCycle<T>(params: Params<T>, x: string, n: nat, m: nat)
    requires 0 < n && Up(params, x, n) == Some(x)
    ensures !FreeAt(params, x, m)
    decreases m
  {
    if m < n {
      UpAdd(params, x, m, n - m);
    } else {
      UpAdd(params, x, n, m - n);
      NoFreeOnCycle(params, x, n, m - n);
    }
  }

  /** Keys on a reference cycle are never rooted. */
  lemma CycleNotRooted<T>(params: Params<T>, x: string)
    requires OnCycle(params, x)
    ensures !Rooted(params, x)
  {
    var n: nat :| 0 < n && Up(params, x, n) == Some(x);
    forall m: nat
      ensures !FreeAt(params, x, m)
    {
      NoFreeOnCycle(params, x, n, m);
    }
  }

  /** A child of a rooted key is rooted. */
  lemma ChildRooted<T>(params: Params<T>, c: string)
    requires c in params && !IsFree(params, c)
    requires Rooted(params, Target(params, c))
    ensures Rooted(params, c)
  {
    var m: nat :| FreeAt(params, Target(params, c), m);
    UpAdd(params, c, 1, m);
    assert FreeAt(params, c, 1 + m);
  }

  /** No key lies below itself when its target is rooted. */
  lemma ChildNotBelowItself<T>(params: Params<T>, c: string)
    requires c in params && !IsFree(params, c)
    requires Rooted(params, Target(params, c))
    ensures !Below(params, c, c)
  {
    ChildRooted(params, c);
    if Below(params, c, c) {
      CycleNotRooted(params, c);
    }
  }

  /** Two distinct children of a rooted key never reach each other. */
  lemma SiblingUnreachable<T>(params: Params<T>, c1: string, c2: string, d: nat)
    requires c1 in params && !IsFree(params, c1)
    requires c2 in params && !IsFree(params, c2)
    requires c1 != c2 && Target(params, c1) == Target(params, c2)
    requires Rooted(params, Target(params, c1))
    ensures Up(params, c1, d) != Some(c2)
  {
    if 0 < d {
      var leave := Target(params, c1);
      UpAdd(params, c1, 1, d - 1);
      if Up(params, leave, d - 1) == Some(c2) {
        UpAdd(params, leave, d - 1, 1);
        assert Up(params, leave, d) == Some(leave);
        CycleNotRooted(params, leave);
      }
    }
  }

  /** The reverse-reference trees under two distinct children of a rooted key
      share no key. */
  lemma SiblingsDisjoint<T>(params: Params<T>, c1: string, c2: string, x: string)
    requires c1 in params && !IsFree(params, c1)
    requires c2 in params && !IsFree(params, c2)
    requires c1 != c2 && Target(params, c1) == Target(params, c2)
    requires Rooted(params, Target(params, c1))
    requires AtOrBelow(params, x, c1)
    ensures !AtOrBelow(params, x, c2)
  {
    if AtOrBelow(params, x, c2) {
      var n1: nat :| Up(params, x, n1) == Some(c1);
      var n2: nat :| Up(params, x, n2) == Some(c2);
      if n1 <= n2 {
        UpAdd(params, x, n1, n2 - n1);
        SiblingUnreachable(params, c1, c2, n2 - n1);
      } else {
        UpAdd(params, x, n2, n1 - n2);
        SiblingUnreachable(params, c2, c1, n1 - n2);
      }
    }
  }

  /** A key lies below at most one free key. */
  lemma FreeRootsDisjoint<T>(params: Params<T>, x: string, a: string, b: string)
    requires a in params && IsFree(params, a)
    requires b in params && IsFree(params, b)
    requires Below(params, x, a) && Below(params, x, b)
    ensures a == b
  {
    var n: nat :| 0 < n && Up(params, x, n) == Some(a);
    var m: nat :| 0 < m && Up(params, x, m) == Some(b);
    if n <= m {
      UpAdd(params, x, n, m - n);
    } else {
      UpAdd(params, x, m, n - m);
    }
  }

  /** Reaching `a` in zero or more steps is being `a` or lying below it. */
  lemma AtOrBelowCases<T>(params: Params<T>, x: string, a: string)
    requires a in params
    ensures AtOrBelow(params, x, a) <==> x == a || Below(params, x, a)
  {
    if x == a {
      assert Up(params, x, 0) == Some(a);
    }
    if AtOrBelow(params, x, a) {
      var n: nat :| Up(params, x, n) == Some(a);
      if 0 < n {
        assert Below(params, x, a);
      }
    }
    if Below(params, x, a) {
      var n: nat :| 0 < n && Up(params, x, n) == Some(a);
      assert AtOrBelow(params, x, a);
    }
  }

  /** A key below `c` is dependent, and its target is `c` or lies below `c`. */
  lemma TargetAtOrBelow<T>(params: Params<T>, x: string, c: string)
    requires Below(params, x, c)
    ensures x in params && !IsFree(params, x)
    ensures AtOrBelow(params, Target(params, x), c)
  {
    var n: nat :| 0 < n && Up(params, x, n) == Some(c);
    assert Up(params, Target(params, x), n - 1) == Some(c);
  }

  /** Lying below is transitive. */
  lemma BelowTrans<T>(params: Params<T>, x: string, y: string, z: string)
    requires Below(params, x, y) && Below(params, y, z)
    ensures Below(params, x, z)
  {
    var n: nat :| 0 < n && Up(params, x, n) == Some(y);
    var m: nat :| 0 < m && Up(params, y, m) == Some(z);
    UpAdd(params, x, n, m);
  }

  /** A rooted key never lies at or below one of its own children. */
  lemma ParentNotBelowChild<T>(params: Params<T>, c: string)
    requires c in params && !IsFree(params, c)
    requires Rooted(params, Target(params, c))
    ensures !AtOrBelow(params, Target(params, c), c)
  {
    var p := Target(params, c);
    if AtOrBelow(params, p, c) {
      var m: nat :| Up(params, p, m) == Some(c);
      UpAdd(params, p, m, 1);
      assert Up(params, p, m + 1) == Some(p);
      CycleNotRooted(params, p);
    }
  }

  /** Two free keys with a common key at or below both are the same key. */
  lemma FreeAtOrBelowUnique<T>(params: Params<T>, x: string, a: string, b: string)
    requires a in params && IsFree(params, a)
    requires b in params && IsFree(params, b)
    requires AtOrBelow(params, x, a) && AtOrBelow(params, x, b)
    ensures a == b
  {
    var n: nat :| Up(params, x, n) == Some(a);
    var m: nat :| Up(params, x, m) == Some(b);
    if n <= m {
      UpAdd(params, x, n, m - n);
    } else {
      UpAdd(params, x, m, n - m);
    }
  }

  /** From a key that is not rooted, every step lands on a dependent key. */
  lemma {:induction false} UnrootedChainContinues<T>(params: Params<T>, x: string, n: nat)
    requires x in params && !Rooted(params, x)
    ensures Up(params, x, n).Some? && !IsFree(params, Up(params, x, n).value)
  {
    if 0 < n {
      UnrootedChainContinues(params, x, n - 1);
      UpAdd(params, x, n - 1, 1);
    }
    assert !FreeAt(params, x, n);
  }

  /** The first n keys met on the chain from an unrooted key. */
  ghost function Walk<T>(params: Params<T>, x: string, n: nat): (s: seq<string>)
    requires x in params && !Rooted(params, x)
    ensures |s| == n
    ensures forall i :: 0 <= i < n ==> Up(params, x, i) == Some(s[i])
  {
    if n == 0 then []
    else
      UnrootedChainContinues(params, x, n - 1);
      Walk(params, x, n - 1) + [Up(params, x, n - 1).value]
  }

  /** The chain from a key that is not rooted runs into a cycle that lies on
      that chain: there are finitely many keys, so the chain meets some key
      twice. */
  lemma UnrootedReachesCycle<T>(params: Params<T>, x: string)
    requires x in params && !Rooted(params, x)
    ensures exists y :: y in params && OnCycle(params, y) && AtOrBelow(params, x, y)
  {
    var s := Walk(params, x, |params.Keys| + 1);
    PigeonHole(s, params.Keys);
    var i, j :| 0 <= i < j < |s| && s[i] == s[j];
    UpAdd(params, x, i, j - i);
    assert Up(params, s[i], j - i) == Some(s[i]);
    assert Up(params, x, i) == Some(s[i]);
  }

  /** Without reference cycles, every key's chain ends at a free key. */
  lemma AcyclicRooted<T>(params: Params<T>, x: string)
    requires forall k :: k in params ==> !OnCycle(params, k)
    requires x in params
    ensures Rooted(params, x)
  {
    if !Rooted(params, x) {
      UnrootedReachesCycle(params, x);
    }
  }
}
