/** `apiPageBuilder.js`: the part of `buildAPIPage` between sanitizing the AST
    and rendering the page. The definitions are bucketed by kind, an index maps
    every definition name to its kind, and the interface definitions receive
    their implementors. */
module ApiPageBuilder {
  import opened Wrappers
  import opened Ast
  import opened ElementsTypeFilter
  import opened SchemaPreprocessor

  /** The schema object starts as `{ index: {} }`, so the bucket key `index`
      is already taken by the name index. */
  const IndexKey := "index"

  /** The ways `buildAPIPage` throws before rendering:
      - a definition of kind `index` is pushed onto the name index object;
      - an unnamed object definition reaches the `Types` filter, the first
        one the linking step runs;
      - an unnamed interface definition reaches the implementor filter;
      - `Query` or `Mutation` is missing, so the linker reads `undefined`. */
  datatype PageError = IndexKindClash | UnnamedObject | UnnamedInterface | Link(cause: LinkError)

  /** The reference definition of a bucket: the definitions of kind `k`, in order. */
  function OfKind(defs: seq<Definition>, k: string): (r: seq<Definition>)
    ensures |r| <= |defs|
    ensures forall d :: d in r <==> d in defs && d.kind == k
  {
    if |defs| == 0 then []
    else
      assert forall d :: d in defs <==> d == defs[0] || d in defs[1..];
      (if defs[0].kind == k then [defs[0]] else []) + OfKind(defs[1..], k)
  }

  lemma {:induction false} OfKindConcat(a: seq<Definition>, b: seq<Definition>, k: string)
    ensures OfKind(a + b, k) == OfKind(a, k) + OfKind(b, k)
  {
    if |a| == 0 {
      assert a + b == b;
    } else {
      assert (a + b)[0] == a[0];
      assert (a + b)[1..] == a[1..] + b;
      OfKindConcat(a[1..], b, k);
    }
  }

  predicate HasKind(defs: seq<Definition>, k: string)
  {
    exists i :: 0 <= i < |defs| && defs[i].kind == k
  }

  /** `i` is the last definition named `n`: the one whose kind the index keeps. */
  predicate IsLastNamed(defs: seq<Definition>, n: string, i: int)
  {
    0 <= i < |defs| && defs[i].name == Some(n) &&
    forall j :: i < j < |defs| ==> defs[j].name != Some(n)
  }

  /** One iteration of the `forEach`: push `d` onto its kind's bucket, creating
      it if needed, and record its name's kind. */
  function AddDefinition(s: Schema, d: Definition): Schema
  {
    Schema(s.buckets[d.kind := FilterByKind(s, d.kind) + [d]],
           if d.name.Some? then s.index[d.name.value := d.kind] else s.index)
  }

  /** The `forEach` over `AST.definitions`. It throws exactly when some definition
      has kind `index`. Otherwise each bucket holds the definitions of its kind
      in order, the buckets are exactly the kinds that occur, and the index maps
      every name to the kind of the LAST definition carrying it. */
  function BuildSchema(defs: seq<Definition>): (r: Result<Schema, PageError>)
    ensures r.Err? <==> HasKind(defs, IndexKey)
    ensures r.Ok? ==> forall k :: k in r.value.buckets <==> HasKind(defs, k)
    ensures r.Ok? ==> forall k :: FilterByKind(r.value, k) == OfKind(defs, k)
    ensures r.Ok? ==>
              forall n :: n in r.value.index <==>
                exists i :: 0 <= i < |defs| && defs[i].name == Some(n)
    ensures r.Ok? ==>
              forall n :: n in r.value.index ==>
                exists i :: IsLastNamed(defs, n, i) && r.value.index[n] == defs[i].kind
    decreases |defs|
  {
    if |defs| == 0 then Ok(Schema(map[], map[]))
    else
      var front := defs[..|defs| - 1];
      var d := defs[|defs| - 1];
      assert defs == front + [d];
      var prev := BuildSchema(front);
      if prev.Err? then
        var i :| 0 <= i < |front| && front[i].kind == IndexKey;
        assert defs[i] == front[i];
        prev
      else if d.kind == IndexKey then
        Err(IndexKindClash)
      else
        var s := prev.value;
        var r := AddDefinition(s, d);
        assert forall k :: HasKind(defs, k) <==> HasKind(front, k) || d.kind == k by {
          forall k { HasKindStep(front, d, k); }
        }
        assert forall k :: FilterByKind(r, k) == OfKind(defs, k) by {
          forall k { BucketStep(front, d, s, k); }
        }
        assert forall n :: n in r.index <==> exists i :: 0 <= i < |defs| && defs[i].name == Some(n) by {
          forall n { IndexStep(front, d, s, n); }
        }
        assert forall n :: n in r.index ==> exists i :: IsLastNamed(defs, n, i) && r.index[n] == defs[i].kind by {
          forall n { IndexStep(front, d, s, n); }
        }
        Ok(r)
  }

  /** Appending a definition adds its kind to the kinds that occur. */
  lemma HasKindStep(front: seq<Definition>, d: Definition, k: string)
    ensures HasKind(front + [d], k) <==> HasKind(front, k) || d.kind == k
  {
    var defs := front + [d];
    if HasKind(defs, k) {
      var i :| 0 <= i < |defs| && defs[i].kind == k;
      if i < |front| { assert front[i] == defs[i]; }
    }
    if HasKind(front, k) {
      var i :| 0 <= i < |front| && front[i].kind == k;
      assert defs[i] == front[i];
    }
    assert defs[|front|] == d;
  }

  /** The bucket step: pushing `d` extends exactly its kind's bucket. */
  lemma BucketStep(front: seq<Definition>, d: Definition, s: Schema, k: string)
    requires FilterByKind(s, k) == OfKind(front, k)
    ensures FilterByKind(AddDefinition(s, d), k) == OfKind(front + [d], k)
  {
    OfKindConcat(front, [d], k);
    assert [d][1..] == [];
  }

  /** The index step: a later definition's name overrides an earlier one's. */
  lemma IndexStep(front: seq<Definition>, d: Definition, s: Schema, n: string)
    requires n in s.index <==> exists i :: 0 <= i < |front| && front[i].name == Some(n)
    requires n in s.index ==> exists i :: IsLastNamed(front, n, i) && s.index[n] == front[i].kind
    ensures var r := AddDefinition(s, d).index;
      && (n in r <==> exists i :: 0 <= i < |front + [d]| && (front + [d])[i].name == Some(n))
      && (n in r ==> exists i :: IsLastNamed(front + [d], n, i) && r[n] == (front + [d])[i].kind)
  {
    var defs := front + [d];
    var r := AddDefinition(s, d).index;
    assert defs[|front|] == d;
    if d.name == Some(n) {
      assert IsLastNamed(defs, n, |front|);
    } else {
      assert r == s.index || (d.name.Some? && r == s.index[d.name.value := d.kind]);
      if n in s.index {
        var i :| IsLastNamed(front, n, i) && s.index[n] == front[i].kind;
        assert defs[i] == front[i];
        assert IsLastNamed(defs, n, i);
      }
      if exists i :: 0 <= i < |defs| && defs[i].name == Some(n) {
        var i :| 0 <= i < |defs| && defs[i].name == Some(n);
        assert front[i] == defs[i];
      }
    }
  }

  /** The list handed to `addImplementors`: `Types(schema)` followed by the
      `Query` and `Mutation` entries. */
  function LinkedTypes(s: Schema): (r: seq<Option<Definition>>)
    requires AllNamed(FilterByKind(s, ObjectKind))
    ensures NamedEntries(r)
    ensures |r| == |Types(s)| + 2
  {
    Lift(Types(s)) + Query(s) + Mutation(s)
  }

  /** The linking step of `buildAPIPage` on a bucketed schema. It throws when
      an object or interface definition is unnamed or a root operation type is
      missing; otherwise only the interface bucket changes, and each interface
      gains the implementors the linker computes for it. */
  function LinkSchema(s: Schema): (r: Result<Schema, PageError>)
    ensures r.Ok? <==>
              && AllNamed(FilterByKind(s, ObjectKind))
              && AllNamed(Interfaces(s))
              && HasNamed(FilterByKind(s, ObjectKind), QueryName)
              && HasNamed(FilterByKind(s, ObjectKind), MutationName)
    ensures r.Ok? ==> r.value.index == s.index && r.value.buckets.Keys == s.buckets.Keys
    ensures r.Ok? ==> forall k :: k != InterfaceKind ==> FilterByKind(r.value, k) == FilterByKind(s, k)
    ensures r.Ok? ==>
              && AllPresent(LinkedTypes(s))
              && |FilterByKind(r.value, InterfaceKind)| == |Interfaces(s)|
              && forall k :: 0 <= k < |Interfaces(s)| ==>
                   FilterByKind(r.value, InterfaceKind)[k]
                     == Extend(Interfaces(s)[k], Contributions(Present(LinkedTypes(s)), Interfaces(s)[k].name.value))
  {
    if !AllNamed(FilterByKind(s, ObjectKind)) then Err(UnnamedObject)
    else if !AllNamed(Interfaces(s)) then Err(UnnamedInterface)
    else
      var types := LinkedTypes(s);
      LinkedTypesPresent(s);
      var linked := AddImplementors(types, Interfaces(s));
      if linked.Err? then Err(Link(linked.error))
      else if InterfaceKind in s.buckets then Ok(s.(buckets := s.buckets[InterfaceKind := linked.value]))
      else Ok(s)
  }

  /** `buildAPIPage` up to rendering, as a function from the sanitized AST's
      definitions to the schema the view model receives. It succeeds exactly
      when no definition has kind `index`, every object and interface
      definition is named, and both root operation types exist. The name index
      and every bucket but the interfaces are as `BuildSchema` left them; each
      interface gains the implementors the linker computes for it. */
  function BuildPage(defs: seq<Definition>): (r: Result<Schema, PageError>)
    ensures r.Ok? <==>
              && !HasKind(defs, IndexKey)
              && AllNamed(OfKind(defs, ObjectKind))
              && AllNamed(OfKind(defs, InterfaceKind))
              && HasNamed(OfKind(defs, ObjectKind), QueryName)
              && HasNamed(OfKind(defs, ObjectKind), MutationName)
    ensures r.Ok? ==> BuildSchema(defs).Ok? && r.value.index == BuildSchema(defs).value.index
    ensures r.Ok? ==> forall k :: k != InterfaceKind ==> FilterByKind(r.value, k) == OfKind(defs, k)
    ensures r.Ok? ==> |FilterByKind(r.value, InterfaceKind)| == |OfKind(defs, InterfaceKind)|
  {
    var built := BuildSchema(defs);
    if built.Err? then Err(built.error)
    else
      assert FilterByKind(built.value, ObjectKind) == OfKind(defs, ObjectKind);
      assert Interfaces(built.value) == OfKind(defs, InterfaceKind);
      LinkSchema(built.value)
  }

  /** On success, interface `k` of the page schema is the `k`-th interface
      definition of the input, extended by the implementors the linker
      computes from `Types`, `Query` and `Mutation` in that order. */
  lemma BuildPageLinksInterfaces(defs: seq<Definition>)
    requires BuildPage(defs).Ok?
    ensures BuildSchema(defs).Ok?
    ensures var s := BuildSchema(defs).value;
      var ifaces := OfKind(defs, InterfaceKind);
      var linked := FilterByKind(BuildPage(defs).value, InterfaceKind);
      && ifaces == Interfaces(s)
      && AllNamed(FilterByKind(s, ObjectKind))
      && AllNamed(ifaces)
      && AllPresent(LinkedTypes(s))
      && |linked| == |ifaces|
      && forall k :: 0 <= k < |ifaces| ==>
           linked[k] == Extend(ifaces[k], Contributions(Present(LinkedTypes(s)), ifaces[k].name.value))
  {
    var s := BuildSchema(defs).value;
    assert Interfaces(s) == OfKind(defs, InterfaceKind);
    assert BuildPage(defs) == LinkSchema(s);
  }

  /** The filter `filterFactory(kind)` makes, applied to the bucketed schema,
      yields the definitions of that kind in document order. On the page the
      same holds for every kind but the interfaces, which linking extends. */
  lemma FilterFactoryReadsBuckets(defs: seq<Definition>, k: string)
    requires BuildSchema(defs).Ok?
    ensures FilterFactory(k)(BuildSchema(defs).value) == OfKind(defs, k)
    ensures BuildPage(defs).Ok? && k != InterfaceKind ==> FilterFactory(k)(BuildPage(defs).value) == OfKind(defs, k)
  {
  }

  /** The categories of any schema whose buckets, the interfaces aside, are
      the definitions of `defs` by kind. */
  lemma CategoriesOfBuckets(s: Schema, defs: seq<Definition>)
    requires forall k :: k != InterfaceKind ==> FilterByKind(s, k) == OfKind(defs, k)
    requires AllNamed(OfKind(defs, ObjectKind))
    ensures AllNamed(FilterByKind(s, ObjectKind))
    ensures Select(QueryCategory, s) == [FirstNamed(OfKind(defs, ObjectKind), QueryName)]
    ensures Select(MutationCategory, s) == [FirstNamed(OfKind(defs, ObjectKind), MutationName)]
    ensures Select(TypesCategory, s) == Lift(WithoutRoots(OfKind(defs, ObjectKind)))
    ensures Select(InterfacesCategory, s) == Lift(FilterByKind(s, InterfaceKind))
    ensures forall c :: !ReadsNames(c) && c != InterfacesCategory ==>
              Select(c, s) == Lift(OfKind(defs, KindOf(c)))
  {
    assert FilterByKind(s, ObjectKind) == OfKind(defs, ObjectKind);
    forall c | !ReadsNames(c) && c != InterfacesCategory
      ensures Select(c, s) == Lift(OfKind(defs, KindOf(c)))
    {
      PlainCategoriesReturnBucket(c, s);
    }
  }

  /** What each exported filter returns on the page: `Query` and `Mutation`
      hold the first object definition with the root's name, which exists;
      `Types` the other object definitions in document order; the interface
      category one entry per interface definition; and each remaining
      category the definitions of its kind in document order. */
  lemma PageCategories(defs: seq<Definition>)
    requires BuildPage(defs).Ok?
    ensures AllNamed(FilterByKind(BuildPage(defs).value, ObjectKind))
    ensures var page := BuildPage(defs).value;
      var objects := OfKind(defs, ObjectKind);
      && Select(QueryCategory, page) == [FirstNamed(objects, QueryName)]
      && Select(QueryCategory, page)[0].Some?
      && Select(MutationCategory, page) == [FirstNamed(objects, MutationName)]
      && Select(MutationCategory, page)[0].Some?
      && Select(TypesCategory, page) == Lift(WithoutRoots(objects))
      && |Select(InterfacesCategory, page)| == |OfKind(defs, InterfaceKind)|
    ensures forall c :: !ReadsNames(c) && c != InterfacesCategory ==>
              Select(c, BuildPage(defs).value) == Lift(OfKind(defs, KindOf(c)))
  {
    CategoriesOfBuckets(BuildPage(defs).value, defs);
  }

  /** Every entry handed to the linker is defined exactly when both root
      operation types exist. */
  lemma LinkedTypesPresent(s: Schema)
    requires AllNamed(FilterByKind(s, ObjectKind))
    ensures AllPresent(LinkedTypes(s)) <==>
              HasNamed(FilterByKind(s, ObjectKind), QueryName) && HasNamed(FilterByKind(s, ObjectKind), MutationName)
  {
    var t := LinkedTypes(s);
    var n := |Types(s)|;
    assert t[n] == Query(s)[0] && t[n + 1] == Mutation(s)[0];
    assert forall i :: 0 <= i < n ==> t[i] == Some(Types(s)[i]);
  }

  /** The linker's input, once every entry is defined: `Types`, then the
      `Query` definition, then the `Mutation` definition. */
  lemma PresentLinkedTypes(s: Schema)
    requires AllNamed(FilterByKind(s, ObjectKind)) && AllPresent(LinkedTypes(s))
    ensures Query(s)[0].Some? && Mutation(s)[0].Some?
    ensures Present(LinkedTypes(s)) == Types(s) + [Query(s)[0].value, Mutation(s)[0].value]
  {
    var t := Types(s);
    assert LinkedTypes(s)[|t|] == Query(s)[0] && LinkedTypes(s)[|t| + 1] == Mutation(s)[0];
  }

  /** The roots contribute no name other than their own. */
  lemma RootsContributeRootNames(s: Schema, n: string, x: string)
    requires AllNamed(FilterByKind(s, ObjectKind))
    requires Query(s)[0].Some? && Mutation(s)[0].Some?
    requires x != QueryName && x != MutationName
    ensures x !in Contributions([Query(s)[0].value, Mutation(s)[0].value], n)
  {
    var roots := [Query(s)[0].value, Mutation(s)[0].value];
    assert roots[0].name == Some(QueryName) && roots[1].name == Some(MutationName);
    ContributionsMembers(roots, n, x);
  }

  /** For a name other than the roots, a contribution to interface `n` comes
      exactly from an object definition with that name declaring `n`: the
      linker's input lists every non-root object definition. */
  lemma LinkedNonRootContributions(s: Schema, n: string, x: string)
    requires AllNamed(FilterByKind(s, ObjectKind)) && AllPresent(LinkedTypes(s))
    requires x != QueryName && x != MutationName
    ensures AllNamed(Present(LinkedTypes(s)))
    ensures x in Contributions(Present(LinkedTypes(s)), n) <==>
              exists d :: d in FilterByKind(s, ObjectKind) && d.name == Some(x) && n in Declared(d)
  {
    PresentLinkedTypes(s);
    var t := Types(s);
    var roots := [Query(s)[0].value, Mutation(s)[0].value];
    ContributionsConcat(t, roots, n);
    RootsContributeRootNames(s, n, x);
    ContributionsMembers(t, n, x);
    if exists d :: d in FilterByKind(s, ObjectKind) && d.name == Some(x) && n in Declared(d) {
      var d :| d in FilterByKind(s, ObjectKind) && d.name == Some(x) && n in Declared(d);
      assert d in t;
      var j :| 0 <= j < |t| && t[j] == d;
    }
  }

  /** Extending an interface adds exactly the contributed names. */
  lemma ExtendMembers(iface: Definition, c: seq<string>, x: string)
    ensures x in Extend(iface, c).implementors.GetOr([]) <==> x in iface.implementors.GetOr([]) || x in c
  {
  }

  /** For a name other than the two roots, a linked interface lists it as an
      implementor exactly when it already did or an object definition with
      that name in the schema declares the interface. */
  lemma LinkedImplementorsOfNonRoot(s: Schema, k: nat, x: string)
    requires LinkSchema(s).Ok?
    requires x != QueryName && x != MutationName
    requires k < |Interfaces(s)|
    ensures AllNamed(Interfaces(s))
    ensures k < |FilterByKind(LinkSchema(s).value, InterfaceKind)|
    ensures var iface := Interfaces(s)[k];
      var linked := FilterByKind(LinkSchema(s).value, InterfaceKind)[k];
      x in linked.implementors.GetOr([]) <==>
        || x in iface.implementors.GetOr([])
        || exists d :: d in FilterByKind(s, ObjectKind) && d.name == Some(x) && iface.name.value in Declared(d)
  {
    var iface := Interfaces(s)[k];
    var n := iface.name.value;
    var c := Contributions(Present(LinkedTypes(s)), n);
    ExtendMembers(iface, c, x);
    LinkedNonRootContributions(s, n, x);
  }

  /** For a name other than the two roots, the page's interface lists it as an
      implementor exactly when it already did or some object definition with
      that name declares the interface. */
  lemma PageImplementorsOfNonRoot(defs: seq<Definition>, k: nat, x: string)
    requires BuildPage(defs).Ok?
    requires x != QueryName && x != MutationName
    requires k < |OfKind(defs, InterfaceKind)|
    ensures AllNamed(OfKind(defs, InterfaceKind))
    ensures k < |FilterByKind(BuildPage(defs).value, InterfaceKind)|
    ensures var iface := OfKind(defs, InterfaceKind)[k];
      var linked := FilterByKind(BuildPage(defs).value, InterfaceKind)[k];
      x in linked.implementors.GetOr([]) <==>
        || x in iface.implementors.GetOr([])
        || exists d :: d in defs && d.kind == ObjectKind && d.name == Some(x) && iface.name.value in Declared(d)
  {
    var s := BuildSchema(defs).value;
    assert BuildPage(defs) == LinkSchema(s);
    assert Interfaces(s) == OfKind(defs, InterfaceKind);
    assert FilterByKind(s, ObjectKind) == OfKind(defs, ObjectKind);
    LinkedImplementorsOfNonRoot(s, k, x);
  }
}
