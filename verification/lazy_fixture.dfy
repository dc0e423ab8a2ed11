/** The lazy reference value type: a named reference to another fixture, the
    `lazy_fixture` constructor that builds one or a list of them, the type
    test, and name-based equality. */
module LazyFixtures {

  /** A named reference to another fixture. */
  datatype LazyFixture = LazyFixture(name: string)

  /** A parameter value: either a literal or a lazy reference. */
  datatype Value<T> = Literal(value: T) | Lazy(fixture: LazyFixture)

  /** A parameter mapping from argument name to value. */
  type Params<T> = map<string, Value<T>>

  /** What `lazy_fixture` accepts: a single name, or a list of names. */
  datatype Names = Name(name: string) | NameList(names: seq<string>)

  /** What `lazy_fixture` returns: one reference, or a list of references. */
  datatype Made = Single(fixture: LazyFixture) | Multiple(fixtures: seq<LazyFixture>)

  /** `lazy_fixture(names)`: one reference for a string, one reference per
      name (in order) for a list. */
  function MakeLazy(names: Names): (r: Made)
    ensures names.Name? <==> r.Single?
    ensures names.Name? ==> r.fixture.name == names.name
    ensures names.NameList? ==>
      && |r.fixtures| == |names.names|
      && forall i :: 0 <= i < |names.names| ==> r.fixtures[i].name == names.names[i]
  {
    match names
    case Name(n) => Single(LazyFixture(n))
    case NameList(ns) => Multiple(seq(|ns|, i requires 0 <= i < |ns| => LazyFixture(ns[i])))
  }

  /** The names a reference (or list of references) points at. */
  function NamesOf(m: Made): Names {
    match m
    case Single(f) => Name(f.name)
    case Multiple(fs) => NameList(seq(|fs|, i requires 0 <= i < |fs| => fs[i].name))
  }

  /** `lazy_fixture` loses nothing: the names can be read back from its result,
      so different arguments give different results. */
  lemma MakeLazyRoundTrip(names: Names)
    ensures NamesOf(MakeLazy(names)) == names
  {
    match names
    case Name(n) =>
    case NameList(ns) =>
      assert NamesOf(MakeLazy(names)).names == ns;
  }

  /** `is_lazy_fixture`: the value is a reference to some named fixture. */
  predicate IsLazyFixture<T>(v: Value<T>)
    ensures IsLazyFixture(v) <==> exists name :: v == Lazy(LazyFixture(name))
  {
    match v
    case Lazy(f) => assert v == Lazy(LazyFixture(f.name)); true
    case Literal(_) => false
  }

  /** `LazyFixture.__eq__`: two references are equal exactly when their names are. */
  function Equal(a: LazyFixture, b: LazyFixture): (r: bool)
    ensures r <==> a == b
  {
    a.name == b.name
  }
}
