# GraphQL API page generator: schema projection core

This project models, in Dafny, the part of the GraphQL documentation-page
generator between parsing an SDL document and rendering the HTML page:

- the sanitizing walk over the JSON form of the syntax tree
  (`schemaSanitizer.js`), which rewrites every string with an HTML sanitizer
  and gives every `description` object a plain-text `text`;
- the bucketing of definitions by kind and the name index
  (`apiPageBuilder.js`);
- the page categories read out of the buckets (`elementsTypeFilter.js`);
- implementor linking, which appends to each interface definition the names
  of the object types that declare it (`schemaPreprocessor.js`);
- the directive helpers (`view_model/helpers.js`): case-insensitive lookup of
  `@range`, `@length`, `@deprecated` and their argument maps;
- the view objects the page template reads (`view_model/typeViewModel.js`,
  `view_model/viewModel.js`), including the rendering of type references in
  the SDL notation of section 2.11 (Type References) of the GraphQL
  specification.

On the path of `ApiPageBuilder.BuildPage` every throw of the source is an
`Err` of a `Result`: a definition of kind `index` pushed onto the name index,
an unnamed object definition reaching the `Types` filter, an unnamed
interface definition, and a missing `Query` or `Mutation` entry reaching the
linker. The sanitizing walk likewise returns an `Err` when it would assign
`text` to a `null` description. The HTML sanitizers are function parameters
`S` and `P`; the built graphql-js schema is reduced to the set of type names
it resolves.

The remaining throws of the source are preconditions of the members that
would throw. Each holds at the call site for the reason given:

- `TypeRefs.GetType` requires `Resolves`: `type.toString()` throws on the
  `undefined` that `typeFromAST` returns for an unknown name
  (`view_model/typeViewModel.js:15-17`). Every reference in a document that
  `buildASTSchema` accepted resolves in the schema built from it.
- `ElementsTypeFilter.Query`, `Mutation` and `Types` require `AllNamed` of the
  object bucket, because `element.name.value` throws on an unnamed definition
  (`elementsTypeFilter.js:30`, `:35`, `:41`). `ApiPageBuilder.LinkSchema`
  returns `UnnamedObject` before it calls them, and a successful
  `ApiPageBuilder.BuildPage` ensures it (`ApiPageBuilder.PageCategories`).
- `SchemaPreprocessor.AddImplementors` requires `NamedEntries` of the types
  and `AllNamed` of the interfaces, because `types[i].name.value` and
  `intfc.name.value` throw (`schemaPreprocessor.js:13`, `:17`). Its one
  caller, `LinkSchema`, checks both first.
- The view getters that read `this.ast.name.value` require `HasName`, and the
  getters a class does not have are excluded by their `requires`. On a built
  page the root views wrap defined, named nodes
  (`ViewModel.QueryViewOfPage`).

Modules, one per source file: `Wrappers`, `Json`, `Ast` (data),
`SchemaSanitizer`, `TypeRefs`, `Helpers`, `ElementsTypeFilter`,
`SchemaPreprocessor`, `ApiPageBuilder`, `TypeViewModel`, `ViewModel`.

## Notes on the source's behaviour

- `sanitizeBranch` keeps no visited set. It terminates because the page
  builder has already sent the tree through `JSON.stringify` and
  `JSON.parse`, which leaves a finite tree without shared nodes. The model
  therefore walks an inductive `Json` tree.
- `addImplementors` is not idempotent, and a repeated declaration is counted
  twice. It pushes once per declaration, and a second run appends every name
  again (`SchemaPreprocessor.LinkingTwiceAppendsAgain`).
- `basicType` removes exactly one wrapper (`type.ofType`), so `[X!]!` gives
  `[X!]`. The doc comment on `getType` promises `string` for `[string!]`; the
  code gives `string!` (`TypeRefs.DocCommentExample`,
  `TypeRefs.BasicTypeIsBaseNameIffShallow`).
- There is no Subscription category. The filter module and the view model
  export `Query`, `Mutation`, `Types`, `Interfaces`, `Enums`, `Unions`,
  `Input Types` and `Scalars`, in that order.
- A union view's `basicType` is the member's full `type`, not the peeled
  `basicType` of `getType`. The two agree exactly for named members
  (`TypeViewModel.UnionBasicTypeAgreesIffNamed`). The GraphQL grammar admits
  only named types as union members, so on a parsed document the difference
  does not show. The model still allows any reference there.

## Model

| member | source | states |
|---|---|---|
| Json.Get | schemaSanitizer.js:17 | a property read finds a value exactly when some member has that key, and the value is that of the first member with it (keys are unique in a parsed object, and `Set` keeps them so) |
| Json.Set | schemaSanitizer.js:17 | after an assignment the key reads the new value, every other key reads what it read before, at most one member is added, and keys that were unique stay unique |
| SchemaSanitizer.SanitizeBranch | schemaSanitizer.js:5-21 | the walk succeeds exactly when no `description` property at any depth is `null`; arrays keep their length, objects stay objects, primitives are returned as they are |
| SchemaSanitizer.SanitizeProperty | schemaSanitizer.js:9-19 | one property fails exactly when it is a `null` description or contains one; on success a string becomes its sanitized form and a container keeps its kind |
| SchemaSanitizer.WithText | schemaSanitizer.js:16-18 | a description object gains `text` equal to the plain sanitizer of its `value`, and no other property changes |
| SchemaSanitizer.SanitizeItems | schemaSanitizer.js:6-20 | the loop over an array succeeds exactly when every element does, and each result element is its own element walked |
| SchemaSanitizer.SanitizeMembers | schemaSanitizer.js:6-20 | the loop over an object keeps every key in place and walks each value, with `description` treated as a description |
| SchemaSanitizer.SanitizePreservesPaths | schemaSanitizer.js:5-21 | along every path not entering an overwritten `text`, the sanitized tree has a node exactly where the input has one, and that node is the input's node sanitized |
| SchemaSanitizer.SanitizeSetsDescriptionText | schemaSanitizer.js:13-18 | every `description` object at any depth ends with `text` equal to the plain sanitizer of its sanitized `value` |
| SchemaSanitizer.DescriptionTextOfString | schemaSanitizer.js:9-18 | a description whose `value` was the string `s` ends with `text` = P(S(s)): the rich sanitizer runs before the plain one |
| SchemaSanitizer.PropertyPath | schemaSanitizer.js:13-14 | the path-preservation invariant of the recursion: a walked property keeps every node, each corresponding to the original one |
| SchemaSanitizer.DescriptionPath | schemaSanitizer.js:13-18 | the recursive step of the `text` property: it holds under any number of enclosing objects and arrays |
| TypeRefs.Render | view_model/typeViewModel.js:17 | a list renders inside brackets, a non-null ends in `!`, and only an empty name renders empty |
| TypeRefs.GetType | view_model/typeViewModel.js:14-20 | `type` reads back as the reference itself, `basicType` reads back as the reference with one wrapper removed, and a named type has both equal |
| TypeRefs.RenderRoundTrip | view_model/typeViewModel.js:17 | parsing a rendered reference gives back the reference, for names the GraphQL grammar allows |
| TypeRefs.BasicTypeIsBaseNameIffShallow | view_model/typeViewModel.js:18 | `basicType` is the innermost named type exactly when at most one wrapper surrounds it |
| TypeRefs.DocCommentExample | view_model/typeViewModel.js:4-10 | for `[string!]` the code yields basic type `string!`, not the `string` the doc comment promises |
| TypeRefs.NonNullListExample | view_model/typeViewModel.js:14-20 | `[Student!]!` renders as itself with basic type `[Student!]` |
| Helpers.DirectiveToArgs | view_model/helpers.js:9-15 | the argument map has a key exactly for each argument name, holding the value of the last argument with that name |
| Helpers.ArgsOf | view_model/helpers.js:11-13 | the `forEach` over any prefix of the arguments builds the same name-to-last-value map |
| Helpers.FindDirective | view_model/helpers.js:41 | `find` returns the position of the first directive matching the name ignoring case, and nothing exactly when none matches |
| Helpers.GetDirective | view_model/helpers.js:38-45 | absent exactly when there is no `astNode` or no matching directive; otherwise the argument map of the first match |
| Helpers.MatchingDirectives | view_model/helpers.js:55 | the filtered list holds only matching directives, holds every matching one, and is empty exactly when none matches |
| Helpers.MatchingHead | view_model/helpers.js:41-55 | the directive `find` returns is the head of the list `filter` returns |
| Helpers.MatchingConcat | view_model/helpers.js:55 | filtering distributes over concatenation, so matches keep declaration order |
| Helpers.GetDirectives | view_model/helpers.js:53-59 | absent exactly when there is no `astNode` or no match, never an empty list; otherwise the argument maps of the matches in declaration order |
| Helpers.GetDirectiveIsFirstOfGetDirectives | view_model/helpers.js:38-59 | the single lookup is absent exactly when the repeated one is, and is otherwise its first element |
| Helpers.Deprecated | view_model/helpers.js:25-30 | absent exactly when there is no `@deprecated`; the result is always truthy; it is the `reason` when that is truthy and `This <kind> is deprecated` otherwise |
| Helpers.DeprecatedWithoutReason | view_model/helpers.js:29 | `@deprecated` without arguments yields `This <kind> is deprecated` for every kind |
| Helpers.DeprecatedEmptyReason | view_model/helpers.js:29 | an empty `reason` is falsy, so it also yields the default message |
| Helpers.NotDeprecatedExample | view_model/helpers.js:26-27 | an element with only a `@length` directive is not deprecated |
| Helpers.RepeatedLengthExample | view_model/helpers.js:53-59 | two `@length` uses give two argument maps in declaration order, and the single lookup gives the first |
| Helpers.MapToArray | view_model/helpers.js:80-83 | every value whose key does not start with `__` is kept, and every kept value comes from such a key |
| Helpers.MapToArrayConcat | view_model/helpers.js:80-83 | `mapToArray` distributes over concatenation, so it keeps property order |
| ApiPageBuilder.FilterFactoryReadsBuckets | elementsTypeFilter.js:15-22 | the filter `filterFactory(kind)` makes yields, on the bucketed document, exactly the definitions of that kind in document order, and on the page the same for every kind but the interfaces |
| ElementsTypeFilter.FirstNamed | elementsTypeFilter.js:30-31 | the result is absent exactly when no definition has the name, and is otherwise the first one that has it |
| ElementsTypeFilter.Query | elementsTypeFilter.js:28-32 | always one entry: the first object definition named `Query`, or `undefined` exactly when there is none |
| ElementsTypeFilter.Mutation | elementsTypeFilter.js:33-37 | always one entry: the first object definition named `Mutation`, or `undefined` exactly when there is none |
| ElementsTypeFilter.WithoutRoots | elementsTypeFilter.js:40-42 | keeps exactly the definitions that are neither `Query` nor `Mutation` |
| ElementsTypeFilter.WithoutRootsConcat | elementsTypeFilter.js:40-42 | the filter distributes over concatenation, so `Types` keeps definition order |
| ElementsTypeFilter.Types | elementsTypeFilter.js:38-43 | an object definition is listed exactly when it is not a root, and nothing else is listed |
| ElementsTypeFilter.PlainCategoriesReturnBucket | elementsTypeFilter.js:44-48 | the five plain categories return their kind's bucket unchanged |
| ApiPageBuilder.CategoriesOfBuckets | elementsTypeFilter.js:28-48 | on a schema bucketed from a document, `Query` and `Mutation` hold the first object definition with the root's name, `Types` the other object definitions in order, and each plain category its kind's definitions in order |
| ApiPageBuilder.PageCategories | elementsTypeFilter.js:28-48 | on a built page, `Query` and `Mutation` each hold a defined root, `Types` the non-root object definitions in document order, the interfaces one entry per interface definition, and each other category its kind's definitions in order |
| SchemaPreprocessor.AddImplementors | schemaPreprocessor.js:2-21 | fails exactly when a type entry is `undefined`; otherwise each interface gains, in type order, the name of every type once per declaration of that interface, and nothing else changes |
| SchemaPreprocessor.LinkNamesSpec | schemaPreprocessor.js:9-19 | the inner loop appends the type's name to each interface once per declaration of its name |
| SchemaPreprocessor.ExtendTwice | schemaPreprocessor.js:15-17 | two appends in a row equal one append of both lists |
| SchemaPreprocessor.ContributionsConcat | schemaPreprocessor.js:4-20 | contributions of concatenated type lists concatenate, so implementors follow the order of the types |
| SchemaPreprocessor.ContributionsMembers | schemaPreprocessor.js:12-17 | a name is contributed exactly when some type with that name declares the interface |
| SchemaPreprocessor.UndeclaredInterfaceUntouched | schemaPreprocessor.js:12-16 | an interface no type declares is left exactly as it was and does not gain an empty list |
| SchemaPreprocessor.LinkingTwiceAppendsAgain | schemaPreprocessor.js:15-17 | linking is not idempotent: a second run appends every contribution again |
| SchemaPreprocessor.StudentCourseExample | schemaPreprocessor.js:2-21 | `Student` and `Course` declaring `Named` give `Named` the implementors `[Student, Course]`, and an undeclared interface gets none |
| ApiPageBuilder.OfKind | apiPageBuilder.js:32-34 | the reference bucket: a definition is in it exactly when it is in the input and has that kind |
| ApiPageBuilder.OfKindConcat | apiPageBuilder.js:31-34 | buckets of concatenated definition lists concatenate, so buckets keep document order |
| ApiPageBuilder.BuildSchema | apiPageBuilder.js:22-37 | fails exactly when a definition has kind `index`; otherwise buckets exist exactly for the kinds present, each holds its kind's definitions in order, and the index maps every name to the kind of the last definition with it |
| ApiPageBuilder.HasKindStep | apiPageBuilder.js:32 | appending a definition adds exactly its kind to the kinds present |
| ApiPageBuilder.BucketStep | apiPageBuilder.js:32-34 | one push extends exactly its own kind's bucket |
| ApiPageBuilder.IndexStep | apiPageBuilder.js:35-36 | a later definition's name overrides an earlier one's in the index |
| ApiPageBuilder.LinkedTypes | apiPageBuilder.js:42 | the linker's input is `Types` followed by the two root entries |
| ApiPageBuilder.LinkedTypesPresent | apiPageBuilder.js:42 | every entry of the linker's input is defined exactly when both root types exist |
| ApiPageBuilder.PresentLinkedTypes | apiPageBuilder.js:42 | with both roots present the linker's input is `Types`, then `Query`, then `Mutation` |
| ApiPageBuilder.LinkSchema | apiPageBuilder.js:40-43 | linking succeeds exactly when objects are named, both roots exist and every interface is named (stricter than the source, see Left out); on success only the interface bucket changes, each interface gaining what the linker computes |
| ApiPageBuilder.BuildPage | apiPageBuilder.js:22-43 | the whole preparation succeeds exactly when no definition has kind `index`, objects and interfaces are named and both roots exist; the index and all buckets but the interfaces are those of the bucketing step |
| ApiPageBuilder.BuildPageLinksInterfaces | apiPageBuilder.js:40-43 | on success each interface of the page is the input interface extended by the linker's contributions from `Types`, `Query`, `Mutation` |
| ApiPageBuilder.LinkedNonRootContributions | apiPageBuilder.js:40-43 | a non-root name is contributed to an interface exactly when an object definition with that name declares it |
| ApiPageBuilder.LinkedImplementorsOfNonRoot | apiPageBuilder.js:40-43 | after linking, a non-root name is an implementor exactly when it already was or an object definition with it declares the interface |
| ApiPageBuilder.PageImplementorsOfNonRoot | apiPageBuilder.js:31-43 | the same characterization in terms of the document's definitions |
| TypeViewModel.Kind | view_model/typeViewModel.js:37-153 | no view reports the abstract `Object`; enum values, arguments and fields are recognized exactly by their labels, and definition views use the six definition labels |
| TypeViewModel.KindDeterminesDefinitionClass | view_model/typeViewModel.js:58-153 | two definition views share a kind exactly when they are of the same class |
| TypeViewModel.DescriptionText | view_model/typeViewModel.js:49-51 | empty exactly when the description, its text, or the text's content is missing; otherwise the stored text |
| TypeViewModel.DeprecatedOf | view_model/typeViewModel.js:53-55 | absent for parser nodes and exactly when `@deprecated` is missing; otherwise truthy: the directive's `reason` when that is usable, and a message naming the view's own kind when it is not |
| TypeViewModel.Fields | view_model/typeViewModel.js:69-91 | one field view per field in order, all of kind `Field`; they are input-field views exactly for an input type |
| TypeViewModel.Arguments | view_model/typeViewModel.js:117-125 | an input field has no arguments; a field has one argument view per argument in order, of kind `Argument` |
| TypeViewModel.TypeOf | view_model/typeViewModel.js:95-97 | the field's `type` reads back as its type reference |
| TypeViewModel.BasicTypeOf | view_model/typeViewModel.js:99-101 | the field's `basicType` reads back as its reference with one wrapper removed, and equals `type` for a named type |
| TypeViewModel.Range | view_model/typeViewModel.js:103-105 | absent exactly when there is no `astNode` or no `@range`; otherwise the argument map of the first `@range` |
| TypeViewModel.Length | view_model/typeViewModel.js:107-109 | absent exactly when there is no `astNode` or no `@length`; otherwise the argument maps of every `@length` in declaration order, never an empty list, headed by the single lookup |
| TypeViewModel.Values | view_model/typeViewModel.js:139-141 | one enum-value view per value in order, of kind `Enum Value` |
| TypeViewModel.UnionTypes | view_model/typeViewModel.js:155-160 | one entry per member in order; `basicType` equals `type`, which reads back as the member reference |
| TypeViewModel.UnionBasicTypeAgreesIffNamed | view_model/typeViewModel.js:155-160 | a union's `basicType` agrees with `getType`'s exactly for a named member |
| ViewModel.GetterNamed | view_model/viewModel.js:12-14 | looking a getter up by name finds a category whose filter is exported under that name |
| ViewModel.GetterNamesAreFilterKeys | view_model/viewModel.js:12-14 | every filter key finds the getter of its own category, and a name finds a getter exactly when it is a filter key |
| ViewModel.RoleKind | view_model/viewModel.js:32-83 | the view class each getter constructs carries the category's kind label |
| ViewModel.Getter | view_model/viewModel.js:32-83 | one view per filter entry in order, each of the category's class wrapping that entry; `Query` and `Mutation` give exactly one |
| ViewModel.QueryViewOfPage | view_model/viewModel.js:32-34 | on a built page the `Query` view wraps a defined node named `Query` |
| ViewModel.InterfaceViewWraps | view_model/viewModel.js:53-55 | the k-th interface view wraps the k-th interface definition |
| ViewModel.InterfaceViewImplementors | view_model/viewModel.js:53-55 | end to end: a non-root name is an implementor of an interface view exactly when it already was or an object definition with that name declares the interface |

## Left out

- I/O and glue: the command line (`commandline.js`, `index.js`), reading the
  SDL file, writing `out.json`, EJS rendering, and `process.exit`. None of
  these is part of the projection.
- The stringify/parse round trip of the syntax tree, and the conversion of
  the sanitized JSON into the typed `Ast` records. The model takes the tree as
  an inductive `Json` value and the definitions as typed records.
- `graphql.parse`, `buildASTSchema` and `typeFromAST` are external library
  code. The built schema is the set of names it resolves. `TypeRefs.Resolves`
  states when `typeFromAST` yields a type.
- `makeGettersEnumerable` (`view_model/helpers.js:63-74`) only changes
  property enumerability on prototypes, which has no counterpart in the
  model's datatypes.
- The `description` getter calls `graphql.getDescription`, which is library
  code, and is not modelled.
- The sanitize-html internals: `S` and `P` are arbitrary function parameters.
- An array-valued `description` receives a `text` property in the source that
  JSON cannot hold. The model leaves such an array unchanged.
- Property names that collide with the object prototype (`__proto__`,
  `hasOwnProperty`) as kinds, definition names or JSON keys. Objects are
  modelled as plain member lists.
- Helpers.Lower: ASCII lower-casing only, where `toLowerCase` folds all of
  Unicode; its contract states only that the length is kept.
- ApiPageBuilder.LinkSchema: reports an unnamed interface definition as an
  error up front. The source throws only once some linked type declares an
  interface and the filter reaches the unnamed one
  (`schemaPreprocessor.js:13`). With no declaring type the source succeeds,
  while the model fails. A faithful model would let `AddImplementors` return
  the interfaces unchanged in that case. It would carry unnamed interfaces
  through every linking lemma, so it is left out.
- ApiPageBuilder.BuildPage: inherits the same stricter handling of unnamed
  interface definitions from `LinkSchema`.
- Getters that a view of the wrong class does not have (for example
  `fields` on an enum view) are excluded by `requires` clauses instead of
  yielding `undefined`.
- TypeViewModel.Implementors has no contract of its own: it returns the
  wrapped node's `implementors`. Its meaning on a built page is stated by
  `ViewModel.InterfaceViewImplementors`.
- ElementsTypeFilter.FilterFactory: its contract only repeats the filter it
  returns. What the filter yields on a bucketed document is stated by
  `ApiPageBuilder.FilterFactoryReadsBuckets`.
- TypeViewModel.Name: a plain projection of the wrapped node's name, and its
  contract says only which name it reads. That the root views are named is
  stated by `ViewModel.QueryViewOfPage`.
- ElementsTypeFilter.FilterByKind, Interfaces, Enums, Unions, InputTypes and
  Scalars are plain bucket reads without contracts of their own.
  `ApiPageBuilder.BuildSchema` states what each bucket holds, and
  `ElementsTypeFilter.PlainCategoriesReturnBucket` states that these filters
  return it.
