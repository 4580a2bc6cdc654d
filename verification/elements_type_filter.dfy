/** `elementsTypeFilter.js`: the categories of the documentation page, each
    read out of the schema's kind buckets. The exported object's keys, in
    declaration order, are also the order in which the page lists them. */
module ElementsTypeFilter {
  import opened Wrappers
  import opened Ast

  const ObjectKind := "ObjectTypeDefinition"
  const QueryName := "Query"
  const MutationName := "Mutation"
  const InterfaceKind := "InterfaceTypeDefinition"
  const EnumKind := "EnumTypeDefinition"
  const UnionKind := "UnionTypeDefinition"
  const InputKind := "InputObjectTypeDefinition"
  const ScalarKind := "ScalarTypeDefinition"

  /** `filterByKind`: the bucket stored under `kind`, or an empty list. */
  function FilterByKind(s: Schema, kind: string): seq<Definition>
  {
    if kind in s.buckets then s.buckets[kind] else []
  }

  /** `filterFactory`: the filter for one fixed kind. */
  function FilterFactory(kind: string): (f: Schema -> seq<Definition>)
    ensures forall s :: f(s) == FilterByKind(s, kind)
  {
    s => FilterByKind(s, kind)
  }

  predicate HasNamed(defs: seq<Definition>, n: string)
  {
    exists i :: 0 <= i < |defs| && defs[i].name == Some(n)
  }

  /** `i` is the position of the first definition named `n`. */
  predicate IsFirstNamed(defs: seq<Definition>, n: string, i: int)
  {
    0 <= i < |defs| && defs[i].name == Some(n) &&
    forall j :: 0 <= j < i ==> defs[j].name != Some(n)
  }

  /** `.filter(name == n).find(element => true)`: the first definition named `n`,
      or `undefined`. */
  function FirstNamed(defs: seq<Definition>, n: string): (r: Option<Definition>)
    ensures r.None? <==> !HasNamed(defs, n)
    ensures r.Some? ==> exists i :: IsFirstNamed(defs, n, i) && defs[i] == r.value
  {
    if |defs| == 0 then None
    else if defs[0].name == Some(n) then
      assert IsFirstNamed(defs, n, 0);
      Some(defs[0])
    else
      var r := FirstNamed(defs[1..], n);
      if r.Some? then
        var i :| IsFirstNamed(defs[1..], n, i) && defs[1..][i] == r.value;
        assert IsFirstNamed(defs, n, i + 1);
        r
      else
        assert forall i :: 1 <= i < |defs| ==> defs[i] == defs[1..][i - 1];
        r
  }

  /** `Query`: always a one-element list holding the first object definition
      named `Query`, or `undefined` (None) when there is none. */
  function Query(s: Schema): (r: seq<Option<Definition>>)
    requires AllNamed(FilterByKind(s, ObjectKind))
    ensures |r| == 1
    ensures r[0].None? <==> !HasNamed(FilterByKind(s, ObjectKind), QueryName)
    ensures r[0].Some? ==>
      exists i :: IsFirstNamed(FilterByKind(s, ObjectKind), QueryName, i) &&
        FilterByKind(s, ObjectKind)[i] == r[0].value
  {
    [FirstNamed(FilterByKind(s, ObjectKind), QueryName)]
  }

  /** `Mutation`: likewise for the object definition named `Mutation`. */
  function Mutation(s: Schema): (r: seq<Option<Definition>>)
    requires AllNamed(FilterByKind(s, ObjectKind))
    ensures |r| == 1
    ensures r[0].None? <==> !HasNamed(FilterByKind(s, ObjectKind), MutationName)
    ensures r[0].Some? ==>
      exists i :: IsFirstNamed(FilterByKind(s, ObjectKind), MutationName, i) &&
        FilterByKind(s, ObjectKind)[i] == r[0].value
  {
    [FirstNamed(FilterByKind(s, ObjectKind), MutationName)]
  }

  /** The definition is one of the two root operation types. */
  predicate IsRoot(d: Definition)
  {
    d.name == Some(QueryName) || d.name == Some(MutationName)
  }

  /** The `filter` of `Types`: the definitions that are not roots, in order. */
  function WithoutRoots(defs: seq<Definition>): (r: seq<Definition>)
    ensures |r| <= |defs|
    ensures forall i :: 0 <= i < |r| ==> !IsRoot(r[i])
    ensures forall d :: d in r ==> d in defs
    ensures forall i :: 0 <= i < |defs| && !IsRoot(defs[i]) ==> defs[i] in r
  {
    if |defs| == 0 then []
    else
      var rest := WithoutRoots(defs[1..]);
      assert forall i :: 1 <= i < |defs| ==> defs[i] == defs[1..][i - 1];
      if IsRoot(defs[0]) then rest else [defs[0]] + rest
  }

  /** Filtering distributes over concatenation: `Types` keeps definition order. */
  lemma {:induction false} WithoutRootsConcat(a: seq<Definition>, b: seq<Definition>)
    ensures WithoutRoots(a + b) == WithoutRoots(a) + WithoutRoots(b)
  {
    if |a| > 0 {
      assert (a + b)[0] == a[0];
      assert (a + b)[1..] == a[1..] + b;
      WithoutRootsConcat(a[1..], b);
    } else {
      assert a + b == b;
    }
  }

  /** `Types`: the object definitions other than `Query` and `Mutation`. Every
      object definition is either listed here or is a root, never both. */
  function Types(s: Schema): (r: seq<Definition>)
    requires AllNamed(FilterByKind(s, ObjectKind))
    ensures |r| <= |FilterByKind(s, ObjectKind)|
    ensures forall d :: d in FilterByKind(s, ObjectKind) ==> (d in r <==> !IsRoot(d))
    ensures forall d :: d in r ==> d in FilterByKind(s, ObjectKind)
  {
    WithoutRoots(FilterByKind(s, ObjectKind))
  }

  function Interfaces(s: Schema): seq<Definition>
  {
    FilterFactory(InterfaceKind)(s)
  }

  function Enums(s: Schema): seq<Definition>
  {
    FilterFactory(EnumKind)(s)
  }

  function Unions(s: Schema): seq<Definition>
  {
    FilterFactory(UnionKind)(s)
  }

  function InputTypes(s: Schema): seq<Definition>
  {
    FilterFactory(InputKind)(s)
  }

  function Scalars(s: Schema): seq<Definition>
  {
    FilterFactory(ScalarKind)(s)
  }

  /** The exported filters, one per page category. */
  datatype Category =
    | QueryCategory
    | MutationCategory
    | TypesCategory
    | InterfacesCategory
    | EnumsCategory
    | UnionsCategory
    | InputTypesCategory
    | ScalarsCategory

  /** The exported key of each filter. */
  function Key(c: Category): string
  {
    match c
    case QueryCategory => "Query"
    case MutationCategory => "Mutation"
    case TypesCategory => "Types"
    case InterfacesCategory => "Interfaces"
    case EnumsCategory => "Enums"
    case UnionsCategory => "Unions"
    case InputTypesCategory => "Input Types"
    case ScalarsCategory => "Scalars"
  }

  /** The kind bucket a category reads. */
  function KindOf(c: Category): string
  {
    match c
    case InterfacesCategory => InterfaceKind
    case EnumsCategory => EnumKind
    case UnionsCategory => UnionKind
    case InputTypesCategory => InputKind
    case ScalarsCategory => ScalarKind
    case _ => ObjectKind
  }

  /** The categories whose filters read object-definition names. */
  predicate ReadsNames(c: Category)
  {
    c.QueryCategory? || c.MutationCategory? || c.TypesCategory?
  }

  function Lift(defs: seq<Definition>): (r: seq<Option<Definition>>)
    ensures |r| == |defs| && forall i :: 0 <= i < |defs| ==> r[i] == Some(defs[i])
  {
    seq(|defs|, i requires 0 <= i < |defs| => Some(defs[i]))
  }

  /** `elementsTypeFilter[key](schema)`, with `undefined` entries as None. */
  function Select(c: Category, s: Schema): (r: seq<Option<Definition>>)
    requires ReadsNames(c) ==> AllNamed(FilterByKind(s, ObjectKind))
  {
    match c
    case QueryCategory => Query(s)
    case MutationCategory => Mutation(s)
    case TypesCategory => Lift(Types(s))
    case InterfacesCategory => Lift(Interfaces(s))
    case EnumsCategory => Lift(Enums(s))
    case UnionsCategory => Lift(Unions(s))
    case InputTypesCategory => Lift(InputTypes(s))
    case ScalarsCategory => Lift(Scalars(s))
  }

  /** The five plain categories return their kind's bucket unchanged. */
  lemma PlainCategoriesReturnBucket(c: Category, s: Schema)
    requires !ReadsNames(c)
    ensures Select(c, s) == Lift(FilterByKind(s, KindOf(c)))
  {
  }
}
