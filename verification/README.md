# pytest-lazy-fixture: the lazy reference and the dependency orderer

This project models the core of `pytest_lazyfixture.py`, a pytest plugin
that lets a parametrized test say that an argument is "the value of fixture
X" (a lazy reference) instead of giving a literal.

Two parts are modelled:

- **The lazy reference.** It holds the name of the fixture it points at.
  `lazy_fixture` builds one reference from a name, or a list of references
  from a list of names. `is_lazy_fixture` tests a value for being a
  reference. `__eq__` compares two references by name.
- **The dependency orderer.** `sorted_by_dependency` takes a parameter
  mapping (argument name to value) and the host's preferred argument order
  (`fixturenames`). It returns the `(key, value)` pairs in an order in which
  a key whose value is a reference to another key comes after that key.
  - `_sorted_argnames` lists the keys: first those named in `fixturenames`,
    in that order, then the rest.
  - A key is *free* when its value is a literal, or a reference to a name
    that is not a key of the mapping. Every other key is *dependent*, and the
    key it references is its *target*.
  - Dependent keys are grouped under their targets (the `trees` mapping).
  - `_tree_to_list` lists the reverse-reference tree under a key in depth-first
    preorder.
  - The result is the free keys, then the tree under each free key in turn.

Modules:

| file | module | contents |
|---|---|---|
| `seqs.dfy` | `Seqs` | duplicate freedom, first-occurrence index, counting facts |
| `lazy_fixture.dfy` | `LazyFixtures` | `LazyFixture`, parameter values, `lazy_fixture`, `is_lazy_fixture`, `__eq__` |
| `chains.dfy` | `Chains` | free keys, targets, following reference chains (`Up`), cycles |
| `trees.dfy` | `Trees` | the free/dependent split and `_tree_to_list` |
| `argnames.dfy` | `Argnames` | `_sorted_argnames` |
| `ordering.dfy` | `Ordering` | `sorted_by_dependency` |
| `scenarios.dfy` | `Scenarios` | a three-key chain, a two-key cycle and a small tree with two siblings, for any names and any key order (for the tree, both orders of the siblings) |

Ways the model is shaped:

- A parameter value is `Literal(v)` for a value of any type `T`, or
  `Lazy(LazyFixture(name))`.
- Following a reference chain is the ghost function `Chains.Up(params, key, n)`.
  It gives the key reached after following `n` targets, or `None` once a free
  key stops the chain.
- A key is *rooted* when its chain ends at a free key. A key is *on a cycle*
  when its chain returns to it.
- `_tree_to_list` recurses on the `trees` mapping with no measure of its own.
  Its model `Trees.TreeToList` carries a ghost `path`: the ancestors of the
  current key, from a free root down. A child of the current key is never on
  this path, so the set of keys not on the path shrinks at each level. This
  is why the recursion ends when the trees come from a parameter mapping.
- `sorted_by_dependency` is split in two parts:
  - `Ordering.DependencyOrder` orders any enumeration of the keys. This is
    what the loop over `_sorted_argnames(...)` does with the sequence it
    receives.
  - `Ordering.SortedByDependency` is the method that calls
    `Argnames.SortedArgnames`, then `Ordering.DependencyOrder`, and pairs
    each key with its value.

Two behaviours of the code that the model keeps as they are:

- **Order of leftover keys.** The keys not named in `fixturenames` come from
  iterating a Python `set`, whose iteration order for strings can change
  between interpreter runs. `Argnames.SortedArgnames` therefore picks each
  leftover key arbitrarily, with `:|`, and promises nothing about their
  relative order.
- **Cycles.** The orderer silently drops every key whose chain never reaches
  a free key, including every key on a reference cycle: such a key is never
  free and never below a free key. `Ordering.CyclesDropped` and
  `Scenarios.CycleExampleDropped` state this.

## Model

| member | source | states |
|---|---|---|
| LazyFixtures.MakeLazy | pytest_lazyfixture.py:170-174 | a single name gives a single reference to that name; a list of names gives a list of references of the same length, the i-th pointing at the i-th name |
| LazyFixtures.MakeLazyRoundTrip | pytest_lazyfixture.py:170-174 | the names can always be read back from what `lazy_fixture` returns, so it loses nothing and is injective |
| LazyFixtures.IsLazyFixture | pytest_lazyfixture.py:177-178 | a value passes the test exactly when it is a reference to some named fixture |
| LazyFixtures.Equal | pytest_lazyfixture.py:188-189 | two references compare equal exactly when they are the same reference, i.e. have the same name |
| Chains.Target | pytest_lazyfixture.py:133-136 | the target of a dependent key is itself a key, and the key's value is a reference to it |
| Chains.FreeIff | pytest_lazyfixture.py:133 | the test in the loop: a key is free exactly when its value is not a reference or references a name that is not a key, and dependent exactly when its value is a reference to some key |
| Chains.CycleNotRooted | pytest_lazyfixture.py:133-142 | the chain from a key on a reference cycle never reaches a free key |
| Chains.UnrootedReachesCycle | pytest_lazyfixture.py:133-142 | a chain that never reaches a free key runs into a reference cycle, and that cycle lies on the chain itself |
| Chains.AcyclicRooted | pytest_lazyfixture.py:133-142 | without reference cycles, every key's chain ends at a free key |
| Trees.FreeKeys | pytest_lazyfixture.py:130-134 | the free list holds exactly the keys that are literals or references to non-keys, without repeats when the input has none |
| Trees.Referrers | pytest_lazyfixture.py:130-136 | `trees[p]` holds exactly the dependent keys whose target is `p`, without repeats |
| Trees.SplitFree | pytest_lazyfixture.py:127-136 | the loop appends free keys to the free list and each dependent key to its target's list, both in input order |
| Trees.SplitWellFormed | pytest_lazyfixture.py:127-136 | after the loop, each list in `trees` holds only keys that reference its owner, has no repeats, and every dependent key is in its target's list |
| Trees.ReferrersKeepOrder | pytest_lazyfixture.py:130-136 | appending to `non_free_fm[val.name]` while walking the keys keeps two referrers of the same key in the order they were walked |
| Trees.TreeToList | pytest_lazyfixture.py:160-167 | `_tree_to_list(trees, leave)` lists every key strictly below `leave` once and no other key; each key comes after its target; the list is a depth-first preorder: the keys below any listed key follow it in one unbroken block, and keys with the same target come in the order of that target's child list; the recursion is well founded on every parameter mapping |
| Trees.ForestToList | pytest_lazyfixture.py:162-166 | the loop over `trees[leave]` from position `start` lists every key at or below one of those children exactly once, after its target; each subtree is one unbroken block and children of the same key keep their child-list order |
| Trees.Descendants | pytest_lazyfixture.py:138-142 | the trees under the free keys, concatenated, list every key below a free key exactly once, each after its target; every key below an earlier free key comes before every key below a later one; inside, subtrees are unbroken blocks and siblings keep child-list order |
| Argnames.SortedArgnames | pytest_lazyfixture.py:147-157 | yields every key exactly once and nothing else; keys named in `fixturenames` come first, in the order of their first mention there |
| Ordering.DependencyOrder | pytest_lazyfixture.py:126-142 | `free_fm + non_free_fm_list` has no repeats; it starts with the free keys in input order and only they are free; every dependent key comes after its target; a key is listed exactly when its chain ends at a free key; after the free keys come their trees one after another in free-key order, each subtree an unbroken block, and keys with the same target in input order |
| Ordering.SortedByDependency | pytest_lazyfixture.py:126-157 | the result meets `Ordering.DependencyOrdered`: pairs carry their key's value unchanged and no key repeats; free keys come first, those named in `fixturenames` in its order; each dependent key comes after its target; exactly the keys whose chain ends at a free key are emitted; the keys below an earlier free key come before those below a later one; the keys below a dependent key follow it in one block; of two keys with the same target, one named in `fixturenames` comes before one that is not, and two named there come in its order |
| Ordering.FreeKeysPreferredFirst | pytest_lazyfixture.py:130-134 | keeping only the free keys preserves the `fixturenames`-first order of `_sorted_argnames` |
| Ordering.CyclesDropped | pytest_lazyfixture.py:133-142 | a key on a reference cycle is not in the result |
| Ordering.AcyclicAllOrdered | pytest_lazyfixture.py:126-142 | without reference cycles, the result lists every key exactly once |
| Scenarios.ChainResolvesTargetFirst | pytest_lazyfixture.py:126-144 | for `a = lazy(b)`, `b = lazy(c)`, `c` a literal, the order is `c, b, a` whatever order the keys arrive in |
| Scenarios.CycleExampleDropped | pytest_lazyfixture.py:126-144 | for `a = lazy(b)`, `b = lazy(a)`, `c` a literal, the order is just `c` |
| Scenarios.SubtreeBeforeSibling | pytest_lazyfixture.py:126-167 | for `r` a literal, `x = lazy(r)`, `y = lazy(r)`, `z = lazy(x)`, with `x` walked before `y`, the order is `r, x, z, y`: the subtree under `x` is finished before its sibling `y` |
| Scenarios.SiblingBeforeSubtree | pytest_lazyfixture.py:126-167 | the same tree with `y` walked before `x`: `y` lands first in `r`'s child list, so the order is `r, y, x, z` |
| Scenarios.SmallTreeOrder | pytest_lazyfixture.py:126-167 | the same tree for any key order: the order is `r, x, z, y` when `x` is walked before `y` and `r, y, x, z` otherwise |

## Left out

- The pytest hooks (`pytest_configure`, `pytest_runtest_setup`,
  `pytest_fixture_setup`, `pytest_runtest_call`, `pytest_pycollect_makeitem`)
  and `current_node` are left out. They call into pytest's own collection and
  fixture machinery, which is not part of this model.
- `fillfixtures` is left out. It materialises fixtures through pytest's
  request object, a foreign call. It consumes `sorted_by_dependency`'s
  result, which is modelled.
- `normalize_metafunc_calls`, `normalize_call` and `copy_metafunc` are left
  out. They re-run pytest's parametrization and fixture-closure computation,
  which are foreign calls.
- `LazyFixture.__repr__` and `string_type` are left out. The first is
  display only. The second is Python 2/3 compatibility; the model separates
  a single name from a list of names with a datatype instead.
- LazyFixtures.Equal: compares two references only. In the source, comparing
  a reference with a value that has no `name` attribute raises an error; that
  case is not modelled.
- Argnames.SortedArgnames: the order of the keys not named in `fixturenames`
  comes from iterating a Python set and is left arbitrary, so no contract
  fixes it.
- Trees.TreeToList: the model's recursion always ends, but Python's does
  not go arbitrarily deep: a reference chain longer than the interpreter's
  recursion limit (about 1000 frames by default) makes `_tree_to_list` raise
  `RecursionError`. The model has no such limit and always returns the list.
- Trees.TreeToList: reading `trees[leave]` from the defaultdict inserts an
  empty list for a key with no children. This changes nothing that is
  returned, so the model reads a missing key as the empty list and does not
  insert.
- Ordering.DependencyOrder: takes any enumeration of the keys, not only
  the one `_sorted_argnames` yields. `Ordering.SortedByDependency` makes the
  connection.
