/** `view_model/viewModel.js`: the object the page template reads. It has one
    getter per exported filter, each mapping that filter's result through the
    view class of its category. */
module ViewModel {
  import opened Wrappers
  import opened Ast
  import opened TypeRefs
  import opened ElementsTypeFilter
  import opened SchemaPreprocessor
  import opened ApiPageBuilder
  import opened TypeViewModel

  /** The bucketed schema and the built schema the views resolve types in. */
  datatype ViewModel = ViewModel(schema: Schema, gql: GqlSchema)

  /** The view class each getter constructs. */
  function RoleFor(c: Category): DefinitionRole
  {
    match c
    case QueryCategory => TypeRole
    case MutationCategory => TypeRole
    case TypesCategory => TypeRole
    case InterfacesCategory => InterfaceRole
    case EnumsCategory => EnumRole
    case UnionsCategory => UnionRole
    case InputTypesCategory => InputRole
    case ScalarsCategory => ScalarRole
  }

  /** The kind label the page shows for each category's entries. */
  function CategoryKind(c: Category): string
  {
    match c
    case InterfacesCategory => "Interface"
    case EnumsCategory => "Enum"
    case UnionsCategory => "Union Type"
    case InputTypesCategory => "Input Type"
    case ScalarsCategory => "Scalar"
    case _ => "Type"
  }

  /** Property lookup on the view model. Each getter carries the name of the
      filter it maps (`Key`), so a name finds the category whose filter is
      exported under it, if any. */
  function GetterNamed(name: string): (r: Option<Category>)
    ensures r.Some? ==> Key(r.value) == name
  {
    if name == "Query" then Some(QueryCategory)
    else if name == "Mutation" then Some(MutationCategory)
    else if name == "Types" then Some(TypesCategory)
    else if name == "Interfaces" then Some(InterfacesCategory)
    else if name == "Enums" then Some(EnumsCategory)
    else if name == "Unions" then Some(UnionsCategory)
    else if name == "Input Types" then Some(InputTypesCategory)
    else if name == "Scalars" then Some(ScalarsCategory)
    else None
  }

  /** The template looks getters up by the filter module's keys: each key
      finds the getter of its own category, and a name finds a getter exactly
      when it is one of the keys. */
  lemma GetterNamesAreFilterKeys()
    ensures forall c :: GetterNamed(Key(c)) == Some(c)
    ensures forall name :: GetterNamed(name).Some? <==> exists c :: Key(c) == name
  {
  }

  /** The class a getter constructs carries the category's kind label. */
  lemma RoleKind(c: Category)
    ensures forall x, g :: Kind(DefinitionView(RoleFor(c), x, g)) == CategoryKind(c)
  {
  }

  /** A getter of the view model: one view per element of the filter result,
      in the same order, each of the category's class wrapping that element.
      `Query` and `Mutation` yield exactly one view. */
  function Getter(vm: ViewModel, c: Category): (r: seq<View>)
    requires ReadsNames(c) ==> AllNamed(FilterByKind(vm.schema, ObjectKind))
    ensures |r| == |Select(c, vm.schema)|
    ensures c == QueryCategory || c == MutationCategory ==> |r| == 1
    ensures forall i :: 0 <= i < |r| ==>
              && r[i].DefinitionView?
              && r[i].ast == Select(c, vm.schema)[i]
              && r[i].gql == vm.gql
              && Kind(r[i]) == CategoryKind(c)
  {
    var xs := Select(c, vm.schema);
    RoleKind(c);
    seq(|xs|, i requires 0 <= i < |xs| => DefinitionView(RoleFor(c), xs[i], vm.gql))
  }

  /** On a page built from a document with both root types, the `Query` view
      wraps a defined node named `Query`, so its getters do not throw. */
  lemma QueryViewOfPage(defs: seq<Definition>, gql: GqlSchema)
    requires BuildPage(defs).Ok?
    ensures AllNamed(FilterByKind(BuildPage(defs).value, ObjectKind))
    ensures var v := Getter(ViewModel(BuildPage(defs).value, gql), QueryCategory)[0];
      HasName(v) && Name(v) == QueryName
  {
    var page := BuildPage(defs).value;
    assert FilterByKind(page, ObjectKind) == OfKind(defs, ObjectKind);
    var objects := FilterByKind(page, ObjectKind);
    var v := Getter(ViewModel(page, gql), QueryCategory)[0];
    assert v.ast == Query(page)[0];
  }

  /** The `k`-th interface view wraps the `k`-th interface definition. */
  lemma InterfaceViewWraps(s: Schema, gql: GqlSchema, k: nat)
    requires k < |FilterByKind(s, InterfaceKind)|
    ensures var views := Getter(ViewModel(s, gql), InterfacesCategory);
      k < |views| && views[k].role == InterfaceRole && views[k].ast == Some(FilterByKind(s, InterfaceKind)[k])
  {
    assert Select(InterfacesCategory, s) == Lift(FilterByKind(s, InterfaceKind));
  }

  /** End to end: for a name other than the two roots, the `k`-th interface
      view of a built page lists it among its implementors exactly when the
      interface definition already did or an object definition with that name
      declares the interface. */
  lemma InterfaceViewImplementors(defs: seq<Definition>, gql: GqlSchema, k: nat, x: string)
    requires BuildPage(defs).Ok?
    requires x != QueryName && x != MutationName
    requires k < |OfKind(defs, InterfaceKind)|
    ensures AllNamed(OfKind(defs, InterfaceKind))
    ensures var views := Getter(ViewModel(BuildPage(defs).value, gql), InterfacesCategory);
      && k < |views|
      && views[k].role == InterfaceRole && views[k].ast.Some?
      && var iface := OfKind(defs, InterfaceKind)[k];
         (x in Implementors(views[k]).GetOr([]) <==>
            || x in iface.implementors.GetOr([])
            || exists d :: d in defs && d.kind == ObjectKind && d.name == Some(x) && iface.name.value in Declared(d))
  {
    PageImplementorsOfNonRoot(defs, k, x);
    InterfaceViewWraps(BuildPage(defs).value, gql, k);
  }
}
