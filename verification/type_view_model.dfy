/** The view classes of `view_model/typeViewModel.js`. A view wraps one AST
    node and the built schema; its getters project the node for the page
    template. The class hierarchy is flattened into one datatype: definition
    views carry their class as a role, field-like views (fields, input fields,
    arguments) carry theirs, and enum values have a view of their own. */
module TypeViewModel {
  import opened Wrappers
  import opened Ast
  import opened TypeRefs
  import opened Helpers

  /** The definition view classes. */
  datatype DefinitionRole = ScalarRole | TypeRole | InterfaceRole | InputRole | EnumRole | UnionRole

  /** `FieldViewModel`, its subclass `InputFieldViewModel`, and `ArgumentViewModel`. */
  datatype FieldRole = PlainField | InputField | Argument

  /** A view object: the class, the wrapped node (a definition view may wrap
      `undefined`, as the `Query` and `Mutation` filters can yield it), and the
      built schema. */
  datatype View =
    | DefinitionView(role: DefinitionRole, ast: Option<Definition>, gql: GqlSchema)
    | FieldView(fieldRole: FieldRole, field: FieldNode, gql: GqlSchema)
    | EnumValueView(enumValue: EnumValueNode, gql: GqlSchema)

  /** The object a union view's `types` getter yields per member. */
  datatype UnionMember = UnionMember(typeName: string, basicType: string)

  /** The wrapped node exists, so the getters that read it do not throw. */
  predicate HasNode(v: View)
  {
    v.DefinitionView? ==> v.ast.Some?
  }

  /** The label the abstract base class would use; every class overrides it. */
  const AbstractKind := "Object"

  /** `kind`: fixed per class. `InputFieldViewModel` inherits `Field`. */
  function Kind(v: View): (r: string)
    ensures r != AbstractKind
    ensures v.EnumValueView? <==> r == "Enum Value"
    ensures v.FieldView? && v.fieldRole == Argument <==> r == "Argument"
    ensures v.FieldView? && v.fieldRole != Argument <==> r == "Field"
    ensures v.DefinitionView? <==>
              r in {"Scalar", "Type", "Interface", "Input Type", "Enum", "Union Type"}
  {
    match v
    case DefinitionView(role, _, _) =>
      (match role
       case ScalarRole => "Scalar"
       case TypeRole => "Type"
       case InterfaceRole => "Interface"
       case InputRole => "Input Type"
       case EnumRole => "Enum"
       case UnionRole => "Union Type")
    case FieldView(fr, _, _) => if fr == Argument then "Argument" else "Field"
    case EnumValueView(_, _) => "Enum Value"
  }

  /** Two definition views share a kind exactly when they share a class. */
  lemma KindDeterminesDefinitionClass(v: View, w: View)
    requires v.DefinitionView? && w.DefinitionView?
    ensures Kind(v) == Kind(w) <==> v.role == w.role
  {
    match v.role {
      case ScalarRole => assert Kind(v) == "Scalar";
      case TypeRole => assert Kind(v) == "Type";
      case InterfaceRole => assert Kind(v) == "Interface";
      case InputRole => assert Kind(v) == "Input Type";
      case EnumRole => assert Kind(v) == "Enum";
      case UnionRole => assert Kind(v) == "Union Type";
    }
  }

  /** `name`: `this.ast.name.value`, which throws on an unnamed node. */
  predicate HasName(v: View)
  {
    HasNode(v) && (v.DefinitionView? ==> v.ast.value.name.Some?)
  }

  function Name(v: View): (r: string)
    requires HasName(v)
    ensures v.DefinitionView? ==> v.ast.value.name == Some(r)
    ensures v.FieldView? ==> r == v.field.name
    ensures v.EnumValueView? ==> r == v.enumValue.name
  {
    match v
    case DefinitionView(_, ast, _) => ast.value.name.value
    case FieldView(_, f, _) => f.name
    case EnumValueView(e, _) => e.name
  }

  /** The node's `description` property. */
  function DescriptionOf(v: View): Option<Description>
    requires HasNode(v)
  {
    match v
    case DefinitionView(_, ast, _) => ast.value.description
    case FieldView(_, f, _) => f.description
    case EnumValueView(e, _) => e.description
  }

  /** The node's `astNode` property, the one the directive helpers read. */
  function AstNodeOf(v: View): Option<AstNode>
    requires HasNode(v)
  {
    match v
    case DefinitionView(_, ast, _) => ast.value.astNode
    case FieldView(_, f, _) => f.astNode
    case EnumValueView(e, _) => e.astNode
  }

  /** `descriptionText`: the plain text the sanitizing walk stored, or `""` when
      there is no description or no (or an empty) text. */
  function DescriptionText(v: View): (r: string)
    requires HasNode(v)
    ensures r == "" <==>
              || DescriptionOf(v).None?
              || DescriptionOf(v).value.text.None?
              || DescriptionOf(v).value.text == Some("")
    ensures r != "" ==> DescriptionOf(v).value.text == Some(r)
  {
    match DescriptionOf(v)
    case None => ""
    case Some(d) => d.text.GetOr("")
  }

  /** `deprecated`: the helper applied to the view's node with the view's own
      kind as label. It is absent exactly when there is no `@deprecated`, in
      particular for parser nodes, which have no `astNode`. It is the directive's
      `reason` when that is usable, and otherwise a message naming the view's
      kind. */
  function DeprecatedOf(v: View): (r: Option<Literal>)
    requires HasNode(v)
    ensures AstNodeOf(v).None? ==> r.None?
    ensures r.None? <==> GetDirective(AstNodeOf(v), DeprecatedName).None?
    ensures r.Some? ==> Truthy(r.value)
    ensures r.Some? && !HasUsableReason(GetDirective(AstNodeOf(v), DeprecatedName).value) ==>
              r == Some(LString("This " + Kind(v) + " is deprecated"))
    ensures r.Some? && HasUsableReason(GetDirective(AstNodeOf(v), DeprecatedName).value) ==>
              r == GetDirective(AstNodeOf(v), DeprecatedName).value[ReasonArg]
  {
    Deprecated(AstNodeOf(v), Kind(v))
  }

  /** The classes with a `fields` getter. */
  predicate HasFields(v: View)
  {
    v.DefinitionView? && v.ast.Some? && v.role in {TypeRole, InterfaceRole, InputRole}
  }

  /** `fields`: one field view per field node, in order; an input type's fields
      are input-field views, every other class's are plain field views. */
  function Fields(v: View): (r: seq<View>)
    requires HasFields(v)
    ensures |r| == |v.ast.value.fields|
    ensures forall i :: 0 <= i < |r| ==>
              && r[i].FieldView?
              && r[i].field == v.ast.value.fields[i]
              && r[i].gql == v.gql
              && Kind(r[i]) == "Field"
              && (r[i].fieldRole == InputField <==> v.role == InputRole)
  {
    var fr := if v.role == InputRole then InputField else PlainField;
    seq(|v.ast.value.fields|, i requires 0 <= i < |v.ast.value.fields| =>
      FieldView(fr, v.ast.value.fields[i], v.gql))
  }

  /** `implementors` of an interface view: the property the linking pass set,
      absent when no type declared the interface. */
  function Implementors(v: View): Option<seq<string>>
    requires v.DefinitionView? && v.role == InterfaceRole && v.ast.Some?
  {
    v.ast.value.implementors
  }

  /** The classes with an `arguments` getter. */
  predicate HasArguments(v: View)
  {
    v.FieldView? && v.fieldRole != Argument
  }

  /** `arguments`: for a plain field, one argument view per argument node, in
      order; an input field has none, whatever its node holds. */
  function Arguments(v: View): (r: seq<View>)
    requires HasArguments(v)
    ensures v.fieldRole == InputField ==> r == []
    ensures v.fieldRole == PlainField ==> |r| == |v.field.arguments|
    ensures v.fieldRole == PlainField ==>
              forall i :: 0 <= i < |r| ==>
                r[i].FieldView? && r[i].field == v.field.arguments[i] && r[i].gql == v.gql &&
                Kind(r[i]) == "Argument"
  {
    if v.fieldRole == InputField then []
    else
      seq(|v.field.arguments|, i requires 0 <= i < |v.field.arguments| =>
        FieldView(Argument, v.field.arguments[i], v.gql))
  }

  /** `type`: the SDL rendering of the field's type reference; for valid
      names it reads back as that reference. */
  function TypeOf(v: View): (r: string)
    requires v.FieldView? && Resolves(v.gql, v.field.fieldType)
    ensures NamesValid(v.field.fieldType) ==> ParseType(r) == v.field.fieldType
  {
    GetType(v.gql, v.field.fieldType).typeName
  }

  /** `basicType`: the rendering with one outer wrapper removed, so a wrapped
      reference reads back as its inner reference and a named one as itself. */
  function BasicTypeOf(v: View): (r: string)
    requires v.FieldView? && Resolves(v.gql, v.field.fieldType)
    ensures NamesValid(v.field.fieldType) ==> ParseType(r) == PeelOne(v.field.fieldType)
    ensures v.field.fieldType.Named? ==> r == TypeOf(v)
  {
    GetType(v.gql, v.field.fieldType).basicType
  }

  /** `range`: the first `@range` directive's arguments; absent for parser
      nodes and for elements without the directive. */
  function Range(v: View): (r: Option<Args>)
    requires v.FieldView?
    ensures v.field.astNode.None? ==> r.None?
    ensures r.None? <==> v.field.astNode.None? || !HasMatch(v.field.astNode.value.directives, "range")
    ensures r.Some? ==>
              exists i :: IsFirstMatch(v.field.astNode.value.directives, "range", i) &&
                r.value == DirectiveToArgs(v.field.astNode.value.directives[i])
  {
    GetDirective(v.field.astNode, "range")
  }

  /** `length`: the arguments of every `@length` directive, in order; absent
      (never empty) for parser nodes and for elements without the directive. */
  function Length(v: View): (r: Option<seq<Args>>)
    requires v.FieldView?
    ensures v.field.astNode.None? ==> r.None?
    ensures r.None? <==> v.field.astNode.None? || !HasMatch(v.field.astNode.value.directives, "length")
    ensures r.Some? ==> |r.value| > 0 && GetDirective(v.field.astNode, "length") == Some(r.value[0])
    ensures r.Some? ==>
              var ms := MatchingDirectives(v.field.astNode.value.directives, "length");
              |r.value| == |ms| && forall i :: 0 <= i < |ms| ==> r.value[i] == DirectiveToArgs(ms[i])
  {
    GetDirectiveIsFirstOfGetDirectives(v.field.astNode, "length");
    GetDirectives(v.field.astNode, "length")
  }

  /** `values` of an enum view: one enum-value view per value node, in order. */
  function Values(v: View): (r: seq<View>)
    requires v.DefinitionView? && v.role == EnumRole && v.ast.Some?
    ensures |r| == |v.ast.value.values|
    ensures forall i :: 0 <= i < |r| ==>
              r[i].EnumValueView? && r[i].enumValue == v.ast.value.values[i] && Kind(r[i]) == "Enum Value"
  {
    seq(|v.ast.value.values|, i requires 0 <= i < |v.ast.value.values| =>
      EnumValueView(v.ast.value.values[i], v.gql))
  }

  /** Every member type of a union resolves in the built schema. */
  predicate MembersResolve(v: View)
    requires v.DefinitionView? && v.ast.Some?
  {
    forall i :: 0 <= i < |v.ast.value.types| ==> Resolves(v.gql, v.ast.value.types[i])
  }

  /** `types` of a union view: per member reference, in order, its rendering
      twice: the union view's `basicType` is the full `type`, not `getType`'s. */
  function UnionTypes(v: View): (r: seq<UnionMember>)
    requires v.DefinitionView? && v.role == UnionRole && v.ast.Some? && MembersResolve(v)
    ensures |r| == |v.ast.value.types|
    ensures forall i :: 0 <= i < |r| ==> r[i].basicType == r[i].typeName
    ensures forall i :: 0 <= i < |r| && NamesValid(v.ast.value.types[i]) ==>
              ParseType(r[i].typeName) == v.ast.value.types[i]
  {
    seq(|v.ast.value.types|, i requires 0 <= i < |v.ast.value.types| =>
      UnionMember(GetType(v.gql, v.ast.value.types[i]).typeName, GetType(v.gql, v.ast.value.types[i]).typeName))
  }

  /** For a named member, the union's `basicType` agrees with `getType`'s; for a
      wrapped one it is the full rendering, which `getType` would have peeled. */
  lemma UnionBasicTypeAgreesIffNamed(v: View, i: nat)
    requires v.DefinitionView? && v.role == UnionRole && v.ast.Some? && MembersResolve(v)
    requires i < |v.ast.value.types| && NamesValid(v.ast.value.types[i])
    ensures (UnionTypes(v)[i].basicType == GetType(v.gql, v.ast.value.types[i]).basicType) <==>
              v.ast.value.types[i].Named?
  {
    var t := v.ast.value.types[i];
    var g := GetType(v.gql, t);
    if !t.Named? {
      PeelChangesReference(t);
      assert ParseType(g.typeName) != ParseType(g.basicType);
    }
  }

  /** Removing a wrapper changes a wrapped reference. */
  lemma PeelChangesReference(t: TypeRef)
    requires !t.Named?
    ensures PeelOne(t) != t
  {
    assert PeelOne(t) < t;
  }
}
