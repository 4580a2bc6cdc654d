/** Type references as graphql-js renders them (`GraphQLList` and
    `GraphQLNonNull` `toString`), the SDL notation of section 2.11 (Type
    References) of the GraphQL specification, and `getType` of
    `typeViewModel.js`. */
module TypeRefs {
  import opened Wrappers
  import opened Ast

  /** The built schema, reduced to the set of type names it can resolve. */
  datatype GqlSchema = GqlSchema(typeNames: set<string>)

  /** `typeFromAST` yields a type: every named type resolves, and a non-null
      wrapper does not wrap another non-null (graphql-js refuses that). */
  predicate Resolves(gql: GqlSchema, t: TypeRef)
  {
    match t
    case Named(n) => n in gql.typeNames
    case ListOf(inner) => Resolves(gql, inner)
    case NonNull(inner) => !inner.NonNull? && Resolves(gql, inner)
  }

  predicate NameStart(c: char)
  {
    c == '_' || 'A' <= c <= 'Z' || 'a' <= c <= 'z'
  }

  predicate NameContinue(c: char)
  {
    NameStart(c) || '0' <= c <= '9'
  }

  /** A name as section 2.1.9 (Names) of the GraphQL specification allows it. */
  predicate ValidName(n: string)
  {
    |n| > 0 && NameStart(n[0]) && forall i :: 1 <= i < |n| ==> NameContinue(n[i])
  }

  predicate NamesValid(t: TypeRef)
  {
    match t
    case Named(n) => ValidName(n)
    case ListOf(inner) => NamesValid(inner)
    case NonNull(inner) => NamesValid(inner)
  }

  /** `type.toString()`: a name, `[` inner `]` for a list, inner `!` for non-null. */
  function Render(t: TypeRef): (r: string)
    ensures |r| > 0 || (t.Named? && t.name == "")
    ensures t.ListOf? ==> r[0] == '[' && r[|r| - 1] == ']'
    ensures t.NonNull? ==> r[|r| - 1] == '!'
  {
    match t
    case Named(n) => n
    case ListOf(inner) => "[" + Render(inner) + "]"
    case NonNull(inner) => Render(inner) + "!"
  }

  /** Reads SDL type-reference notation back: the reference `Render` wrote. */
  function ParseType(s: string): TypeRef
    decreases |s|
  {
    if |s| > 0 && s[|s| - 1] == '!' then NonNull(ParseType(s[..|s| - 1]))
    else if |s| >= 2 && s[0] == '[' && s[|s| - 1] == ']' then ListOf(ParseType(s[1..|s| - 1]))
    else Named(s)
  }

  /** `type.ofType ? type.ofType : type`: one wrapper removed, a named type kept. */
  function PeelOne(t: TypeRef): TypeRef
  {
    match t
    case Named(_) => t
    case ListOf(inner) => inner
    case NonNull(inner) => inner
  }

  /** The innermost named type, every wrapper removed. */
  function BaseName(t: TypeRef): string
  {
    match t
    case Named(n) => n
    case ListOf(inner) => BaseName(inner)
    case NonNull(inner) => BaseName(inner)
  }

  /** The number of list and non-null wrappers around the named type. */
  function Depth(t: TypeRef): nat
  {
    match t
    case Named(_) => 0
    case ListOf(inner) => 1 + Depth(inner)
    case NonNull(inner) => 1 + Depth(inner)
  }

  /** The `{type, basicType}` pair `getType` returns. */
  datatype TypeNames = TypeNames(typeName: string, basicType: string)

  /** `getType(node, gqlAST)`: `typeName` is the SDL rendering of the reference;
      `basicType` renders it with exactly one outer wrapper removed. */
  function GetType(gql: GqlSchema, t: TypeRef): (r: TypeNames)
    requires Resolves(gql, t)
    ensures NamesValid(t) ==> ParseType(r.typeName) == t
    ensures NamesValid(t) ==> ParseType(r.basicType) == PeelOne(t)
    ensures t.Named? ==> r.basicType == r.typeName
  {
    var r := TypeNames(Render(t), Render(PeelOne(t)));
    if NamesValid(t) then
      RenderRoundTrip(t);
      RenderRoundTrip(PeelOne(t));
      r
    else r
  }

  /** SDL rendering is lossless for valid names: parsing it back gives the reference. */
  lemma {:induction false} RenderRoundTrip(t: TypeRef)
    requires NamesValid(t)
    ensures ParseType(Render(t)) == t
  {
    var s := Render(t);
    match t {
      case Named(n) =>
        assert NameContinue(s[|s| - 1]);
      case ListOf(inner) =>
        RenderRoundTrip(inner);
        assert s[1..|s| - 1] == Render(inner);
      case NonNull(inner) =>
        RenderRoundTrip(inner);
        assert s[..|s| - 1] == Render(inner);
    }
  }

  /** `basicType` is the innermost type name exactly when at most one wrapper
      surrounds it: `[X!]!` gives `[X!]`, not `X`. */
  lemma BasicTypeIsBaseNameIffShallow(gql: GqlSchema, t: TypeRef)
    requires Resolves(gql, t) && NamesValid(t)
    ensures GetType(gql, t).basicType == BaseName(t) <==> Depth(t) <= 1
  {
    var p := PeelOne(t);
    if Depth(t) > 1 {
      var b := BaseName(t);
      assert ValidName(b) by { BaseNameValid(t); }
      var r := Render(p);
      if p.ListOf? {
        assert r[0] == '[' && !NameStart(r[0]);
      } else {
        assert r[|r| - 1] == '!' && !NameContinue(r[|r| - 1]);
        if |b| > 1 { assert NameContinue(b[|b| - 1]); }
      }
    }
  }

  lemma {:induction false} BaseNameValid(t: TypeRef)
    requires NamesValid(t)
    ensures ValidName(BaseName(t))
  {
    match t {
      case Named(_) =>
      case ListOf(inner) => BaseNameValid(inner);
      case NonNull(inner) => BaseNameValid(inner);
    }
  }

  /** The example of the doc comment on `getType`: for `[string!]` the code
      yields `basicType` `string!`, not the `string` the comment promises. */
  lemma DocCommentExample()
    ensures GetType(GqlSchema({"string"}), ListOf(NonNull(Named("string"))))
      == TypeNames("[string!]", "string!")
  {
  }

  /** A non-null list of non-null named types: `[Student!]!`, basic type `[Student!]`. */
  lemma NonNullListExample()
    ensures GetType(GqlSchema({"Student"}), NonNull(ListOf(NonNull(Named("Student")))))
      == TypeNames("[Student!]!", "[Student!]")
  {
  }
}
