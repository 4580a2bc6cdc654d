/** The directive helpers of `view_model/helpers.js`: directive lookup by
    name, argument flattening, deprecation, and `mapToArray`. The helpers read
    `astNode.directives` of the element they are given, so they take that
    `astNode` property (None when the element has none). */
module Helpers {
  import opened Wrappers
  import opened Ast

  /** The object `directiveToArgs` builds: argument name to `arg.value.value`. */
  type Args = map<string, Option<Literal>>

  const DeprecatedName := "deprecated"
  const ReasonArg := "reason"

  /** ASCII lower-casing of one character. */
  function LowerChar(c: char): char
  {
    if 'A' <= c <= 'Z' then (c as int + 32) as char else c
  }

  /** `toLowerCase`, on ASCII letters. */
  function Lower(s: string): (r: string)
    ensures |r| == |s|
  {
    if |s| == 0 then "" else [LowerChar(s[0])] + Lower(s[1..])
  }

  /** The directive's name equals `name` when case is ignored. */
  predicate NameMatches(d: Directive, name: string)
  {
    Lower(d.name) == Lower(name)
  }

  predicate HasMatch(ds: seq<Directive>, name: string)
  {
    exists i :: 0 <= i < |ds| && NameMatches(ds[i], name)
  }

  /** `i` is the position of the first directive matching `name`. */
  predicate IsFirstMatch(ds: seq<Directive>, name: string, i: int)
  {
    0 <= i < |ds| && NameMatches(ds[i], name) &&
    forall j :: 0 <= j < i ==> !NameMatches(ds[j], name)
  }

  /** `i` is the position of the last argument named `k`. */
  predicate IsLastWithName(args: seq<DirectiveArg>, k: string, i: int)
  {
    0 <= i < |args| && args[i].name == k &&
    forall j :: i < j < |args| ==> args[j].name != k
  }

  /** `directiveToArgs`: one entry per argument name, holding the value of the
      last argument with that name (a later assignment overwrites). */
  function DirectiveToArgs(d: Directive): (r: Args)
    ensures forall k :: k in r <==> exists i :: 0 <= i < |d.arguments| && d.arguments[i].name == k
    ensures forall k :: k in r ==>
      exists i :: IsLastWithName(d.arguments, k, i) && r[k] == d.arguments[i].value
  {
    ArgsOf(d.arguments)
  }

  /** The `forEach` of `directiveToArgs` over the first `|args|` arguments. */
  function ArgsOf(args: seq<DirectiveArg>): (r: Args)
    ensures forall k :: k in r <==> exists i :: 0 <= i < |args| && args[i].name == k
    ensures forall k :: k in r ==> exists i :: IsLastWithName(args, k, i) && r[k] == args[i].value
  {
    if |args| == 0 then map[]
    else
      var front := args[..|args| - 1];
      var last := args[|args| - 1];
      var r := ArgsOf(front)[last.name := last.value];
      assert args == front + [last];
      ArgsOfStep(front, last, ArgsOf(front));
      r
  }

  /** Adding one argument at the end updates the map built from the ones before. */
  lemma ArgsOfStep(front: seq<DirectiveArg>, last: DirectiveArg, m: Args)
    requires forall k :: k in m <==> exists i :: 0 <= i < |front| && front[i].name == k
    requires forall k :: k in m ==> exists i :: IsLastWithName(front, k, i) && m[k] == front[i].value
    ensures var args := front + [last];
      var r := m[last.name := last.value];
      (forall k :: k in r <==> exists i :: 0 <= i < |args| && args[i].name == k) &&
      (forall k :: k in r ==> exists i :: IsLastWithName(args, k, i) && r[k] == args[i].value)
  {
    var args := front + [last];
    var r := m[last.name := last.value];
    assert IsLastWithName(args, last.name, |args| - 1);
    forall k | k in r
      ensures exists i :: 0 <= i < |args| && args[i].name == k
      ensures exists i :: IsLastWithName(args, k, i) && r[k] == args[i].value
    {
      if k != last.name {
        var i :| IsLastWithName(front, k, i) && m[k] == front[i].value;
        assert args[i] == front[i];
        assert IsLastWithName(args, k, i);
      }
    }
    forall k | exists i :: 0 <= i < |args| && args[i].name == k
      ensures k in r
    {
      var i :| 0 <= i < |args| && args[i].name == k;
      if i < |front| {
        assert front[i].name == k;
      }
    }
  }

  /** The `find` of `getDirective`: the position of the first match. */
  function FindDirective(ds: seq<Directive>, name: string): (r: Option<nat>)
    ensures r.Some? ==> IsFirstMatch(ds, name, r.value)
    ensures r.None? <==> !HasMatch(ds, name)
  {
    if |ds| == 0 then None
    else if NameMatches(ds[0], name) then Some(0)
    else match FindDirective(ds[1..], name)
      case Some(i) => Some(i + 1)
      case None => None
  }

  /** `getDirective`: the arguments of the first directive whose name matches
      `name` ignoring case; None (the source's `false`) when the element has no
      `astNode` or no directive matches. */
  function GetDirective(astNode: Option<AstNode>, name: string): (r: Option<Args>)
    ensures r.None? <==> astNode.None? || !HasMatch(astNode.value.directives, name)
    ensures r.Some? ==>
      exists i :: IsFirstMatch(astNode.value.directives, name, i) &&
        r.value == DirectiveToArgs(astNode.value.directives[i])
  {
    if astNode.None? then None
    else match FindDirective(astNode.value.directives, name)
      case None => None
      case Some(i) => Some(DirectiveToArgs(astNode.value.directives[i]))
  }

  /** The `filter` of `getDirectives`: the matching directives in declaration order. */
  function MatchingDirectives(ds: seq<Directive>, name: string): (r: seq<Directive>)
    ensures |r| <= |ds|
    ensures forall i :: 0 <= i < |r| ==> NameMatches(r[i], name)
    ensures forall i :: 0 <= i < |ds| && NameMatches(ds[i], name) ==> ds[i] in r
    ensures |r| > 0 <==> HasMatch(ds, name)
  {
    if |ds| == 0 then []
    else
      var rest := MatchingDirectives(ds[1..], name);
      if NameMatches(ds[0], name) then [ds[0]] + rest else rest
  }

  /** The first matching directive heads the matching list. */
  lemma {:induction false} MatchingHead(ds: seq<Directive>, name: string, i: int)
    requires IsFirstMatch(ds, name, i)
    ensures |MatchingDirectives(ds, name)| > 0 && MatchingDirectives(ds, name)[0] == ds[i]
  {
    if i > 0 {
      assert !NameMatches(ds[0], name);
      assert IsFirstMatch(ds[1..], name, i - 1);
      MatchingHead(ds[1..], name, i - 1);
    }
  }

  /** Matching distributes over concatenation, so it keeps declaration order. */
  lemma {:induction false} MatchingConcat(a: seq<Directive>, b: seq<Directive>, name: string)
    ensures MatchingDirectives(a + b, name) == MatchingDirectives(a, name) + MatchingDirectives(b, name)
  {
    if |a| > 0 {
      var ab := a + b;
      assert ab[0] == a[0];
      assert ab[1..] == a[1..] + b;
      MatchingConcat(a[1..], b, name);
      var front := if NameMatches(a[0], name) then [a[0]] else [];
      assert MatchingDirectives(ab, name) == front + MatchingDirectives(a[1..] + b, name);
      assert MatchingDirectives(a, name) == front + MatchingDirectives(a[1..], name);
      assert front + (MatchingDirectives(a[1..], name) + MatchingDirectives(b, name))
          == (front + MatchingDirectives(a[1..], name)) + MatchingDirectives(b, name);
    } else {
      assert a + b == b;
    }
  }

  /** `getDirectives`: the arguments of every matching directive, in declaration
      order; None (never an empty list) when there is no `astNode` or no match. */
  function GetDirectives(astNode: Option<AstNode>, name: string): (r: Option<seq<Args>>)
    ensures r.None? <==> astNode.None? || !HasMatch(astNode.value.directives, name)
    ensures r.Some? ==> |r.value| > 0
    ensures r.Some? ==>
      var ms := MatchingDirectives(astNode.value.directives, name);
      |r.value| == |ms| && forall i :: 0 <= i < |ms| ==> r.value[i] == DirectiveToArgs(ms[i])
  {
    if astNode.None? then None
    else
      var ms := MatchingDirectives(astNode.value.directives, name);
      if |ms| == 0 then None
      else Some(seq(|ms|, i requires 0 <= i < |ms| => DirectiveToArgs(ms[i])))
  }

  /** The single and the repeated lookup agree: `getDirective` is absent exactly
      when `getDirectives` is, and otherwise is its first element. */
  lemma GetDirectiveIsFirstOfGetDirectives(astNode: Option<AstNode>, name: string)
    ensures GetDirective(astNode, name).None? <==> GetDirectives(astNode, name).None?
    ensures GetDirectives(astNode, name).Some? ==>
      GetDirective(astNode, name) == Some(GetDirectives(astNode, name).value[0])
  {
    if astNode.Some? {
      var ds := astNode.value.directives;
      match FindDirective(ds, name) {
        case Some(i) => MatchingHead(ds, name, i);
        case None =>
      }
    }
  }

  /** JavaScript truthiness of an argument value. */
  predicate Truthy(l: Literal)
  {
    match l
    case LString(s) => s != ""
    case LBool(b) => b
  }

  /** The message used when `@deprecated` carries no usable reason. */
  function DefaultReason(kind: string): string
  {
    "This " + kind + " is deprecated"
  }

  /** The `reason` argument is present and truthy, so `deprecated` returns it. */
  predicate HasUsableReason(args: Args)
  {
    ReasonArg in args && args[ReasonArg].Some? && Truthy(args[ReasonArg].value)
  }

  /** `deprecated(itemSchema, kind)`: None (the source's `false`) when there is
      no `@deprecated`; otherwise the `reason` argument when it is truthy, else
      the default message for `kind`. The result is never a falsy value. */
  function Deprecated(astNode: Option<AstNode>, kind: string): (r: Option<Literal>)
    ensures r.None? <==> GetDirective(astNode, DeprecatedName).None?
    ensures r.Some? ==> Truthy(r.value)
    ensures r.Some? ==>
              var args := GetDirective(astNode, DeprecatedName).value;
              if HasUsableReason(args) then r == args[ReasonArg]
              else r == Some(LString(DefaultReason(kind)))
  {
    match GetDirective(astNode, DeprecatedName)
    case None => None
    case Some(args) =>
      if HasUsableReason(args) then args[ReasonArg]
      else Some(LString(DefaultReason(kind)))
  }

  /** An element whose only directive is `d` gets `d`'s arguments when
      looked up by `d`'s own name. */
  lemma SoleDirectiveArgs(d: Directive)
    ensures GetDirective(Some(AstNode([d])), d.name) == Some(DirectiveToArgs(d))
  {
    assert IsFirstMatch([d], d.name, 0);
  }

  /** One argument flattens to a one-entry map. */
  lemma SingleArg(a: DirectiveArg)
    ensures ArgsOf([a]) == map[a.name := a.value]
  {
    assert [a][..0] == [];
  }

  lemma EmptyReasonUnusable()
    ensures !HasUsableReason(map[ReasonArg := Some(LString(""))])
  {
  }

  /** Without a usable reason the message names the kind. */
  lemma DefaultWhenNoUsableReason(node: Option<AstNode>, kind: string, args: Args)
    requires GetDirective(node, DeprecatedName) == Some(args) && !HasUsableReason(args)
    ensures Deprecated(node, kind) == Some(LString(DefaultReason(kind)))
  {
  }

  /** `@deprecated` with no arguments yields the default message,
      `This <kind> is deprecated`. */
  lemma DeprecatedWithoutReason(d: Directive, kind: string)
    requires d.name == DeprecatedName && d.arguments == []
    ensures Deprecated(Some(AstNode([d])), kind) == Some(LString("This " + kind + " is deprecated"))
  {
    SoleDirectiveArgs(d);
    assert DirectiveToArgs(d) == map[];
    DefaultWhenNoUsableReason(Some(AstNode([d])), kind, map[]);
  }

  /** An empty `reason` is falsy, so it also gets the default message. */
  lemma DeprecatedEmptyReason(d: Directive, kind: string)
    requires d.name == DeprecatedName && d.arguments == [DirectiveArg(ReasonArg, Some(LString("")))]
    ensures Deprecated(Some(AstNode([d])), kind) == Some(LString("This " + kind + " is deprecated"))
  {
    SoleDirectiveArgs(d);
    SingleArg(d.arguments[0]);
    EmptyReasonUnusable();
    DefaultWhenNoUsableReason(Some(AstNode([d])), kind, map[ReasonArg := Some(LString(""))]);
  }

  /** An element carrying only other directives is not deprecated. */
  lemma NotDeprecatedExample()
    ensures Deprecated(Some(AstNode([Directive("length", [])])), "Field").None?
  {
    var f := Directive("length", []);
    assert |Lower(f.name)| != |Lower(DeprecatedName)|;
    assert !HasMatch([f], DeprecatedName);
  }

  /** Two `@length` uses give two argument maps in declaration order, and the
      single lookup gives the first. */
  lemma RepeatedLengthExample()
    ensures var node := Some(AstNode([
        Directive("length", [DirectiveArg("min", Some(LString("1")))]),
        Directive("length", [DirectiveArg("max", Some(LString("10")))])]));
      GetDirectives(node, "length") == Some([map["min" := Some(LString("1"))], map["max" := Some(LString("10"))]]) &&
      GetDirective(node, "length") == Some(map["min" := Some(LString("1"))])
  {
    var a := Directive("length", [DirectiveArg("min", Some(LString("1")))]);
    var b := Directive("length", [DirectiveArg("max", Some(LString("10")))]);
    var n := Some(AstNode([a, b]));
    assert MatchingDirectives([a, b], "length") == [a, b] by {
      assert [a, b][1..] == [b];
      assert [b][1..] == [];
    }
    assert a.arguments[..0] == [] && b.arguments[..0] == [];
    assert DirectiveToArgs(a) == map["min" := Some(LString("1"))];
    assert DirectiveToArgs(b) == map["max" := Some(LString("10"))];
    assert FindDirective([a, b], "length") == Some(0);
    var all := GetDirectives(n, "length").value;
    assert |all| == 2 && all[0] == DirectiveToArgs(a) && all[1] == DirectiveToArgs(b);
    assert all == [map["min" := Some(LString("1"))], map["max" := Some(LString("10"))]];
  }

  predicate StartsWithDoubleUnderscore(k: string)
  {
    |k| >= 2 && k[0] == '_' && k[1] == '_'
  }

  /** `mapToArray`: the values of the properties, in property order, skipping
      every key that starts with `__`. */
  function MapToArray<T>(props: seq<(string, T)>): (r: seq<T>)
    ensures |r| <= |props|
    ensures forall i :: 0 <= i < |props| && !StartsWithDoubleUnderscore(props[i].0) ==> props[i].1 in r
    ensures forall v :: v in r ==> exists i :: 0 <= i < |props| && !StartsWithDoubleUnderscore(props[i].0) && props[i].1 == v
  {
    if |props| == 0 then []
    else
      var rest := MapToArray(props[1..]);
      assert forall i :: 1 <= i < |props| ==> props[i] == props[1..][i - 1];
      if StartsWithDoubleUnderscore(props[0].0) then rest else [props[0].1] + rest
  }

  /** `mapToArray` distributes over concatenation: it keeps property order. */
  lemma {:induction false} MapToArrayConcat<T>(a: seq<(string, T)>, b: seq<(string, T)>)
    ensures MapToArray(a + b) == MapToArray(a) + MapToArray(b)
  {
    if |a| > 0 {
      assert (a + b)[0] == a[0];
      assert (a + b)[1..] == a[1..] + b;
      MapToArrayConcat(a[1..], b);
    } else {
      assert a + b == b;
    }
  }
}
