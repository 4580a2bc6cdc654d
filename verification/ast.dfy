/** The parsed GraphQL SDL document as the view layer reads it: the
    definitions produced by the graphql-js parser, reduced to the properties
    the core touches. Each record is one syntax-tree node kind. */
module Ast {
  import opened Wrappers

  /** The `value` of a literal argument node: strings (also ints, floats and
      enum names, which the parser keeps as text) and booleans. */
  datatype Literal = LString(s: string) | LBool(b: bool)

  /** A directive argument `name: value`; `value` is None for literal kinds
      that have no `value` property (null, lists, objects, variables). */
  datatype DirectiveArg = DirectiveArg(name: string, value: Option<Literal>)

  /** One use of a directive, `@name(arguments)`, in declaration order. */
  datatype Directive = Directive(name: string, arguments: seq<DirectiveArg>)

  /** The `astNode` record graphql-js attaches to built schema objects; the
      directive helpers read its `directives`. */
  datatype AstNode = AstNode(directives: seq<Directive>)

  /** A type reference: a named type, `[T]`, or `T!`. */
  datatype TypeRef = Named(name: string) | ListOf(ofType: TypeRef) | NonNull(ofType: TypeRef)

  /** A description string node; `text` is the plain-text form the sanitizing
      walk adds, None before it ran. */
  datatype Description = Description(value: string, text: Option<string>)

  /** A field definition, or an input value definition (argument or input
      field), which has no arguments of its own. Parsed nodes carry their
      `directives` directly and have no `astNode` (None). */
  datatype FieldNode = FieldNode(
    name: string,
    description: Option<Description>,
    directives: seq<Directive>,
    astNode: Option<AstNode>,
    arguments: seq<FieldNode>,
    fieldType: TypeRef)

  datatype EnumValueNode = EnumValueNode(
    name: string,
    description: Option<Description>,
    directives: seq<Directive>,
    astNode: Option<AstNode>)

  /** A top-level definition of the document. `kind` is the node kind string
      (`ObjectTypeDefinition`, `SchemaDefinition`, ...); `name` is None for
      unnamed definitions such as `schema { ... }`; `interfaces` is None when the
      node has no such property; `implementors` is the property the linking
      pass adds to interface definitions. */
  datatype Definition = Definition(
    kind: string,
    name: Option<string>,
    description: Option<Description>,
    directives: seq<Directive>,
    astNode: Option<AstNode>,
    interfaces: Option<seq<string>>,
    fields: seq<FieldNode>,
    values: seq<EnumValueNode>,
    types: seq<TypeRef>,
    implementors: Option<seq<string>>)

  /** The definitions grouped by kind, each group in document order, plus the
      name-to-kind index. */
  datatype Schema = Schema(buckets: map<string, seq<Definition>>, index: map<string, string>)

  /** Every definition has a name, so reading `name.value` of any of them does
      not throw. */
  predicate AllNamed(defs: seq<Definition>)
  {
    forall i :: 0 <= i < |defs| ==> defs[i].name.Some?
  }
}
