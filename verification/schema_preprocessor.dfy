/** `schemaPreprocessor.js`: implementor linking. Each interface definition
    receives an `implementors` list naming, in the order the types are given,
    every object type that declares it, once per declaration. */
module SchemaPreprocessor {
  import opened Wrappers
  import opened Ast

  /** Reading `interfaces` of an `undefined` type entry throws. */
  datatype LinkError = UndefinedType

  /** The interface names a type declares; a type without an `interfaces`
      property declares none (the `for ... in` over `undefined` does nothing). */
  function Declared(t: Definition): seq<string>
  {
    t.interfaces.GetOr([])
  }

  /** Every present type entry has a name. */
  predicate NamedEntries(types: seq<Option<Definition>>)
  {
    forall i :: 0 <= i < |types| && types[i].Some? ==> types[i].value.name.Some?
  }

  predicate AllPresent(types: seq<Option<Definition>>)
  {
    forall i :: 0 <= i < |types| ==> types[i].Some?
  }

  /** The type entries of a list without `undefined`. */
  function Present(types: seq<Option<Definition>>): (r: seq<Definition>)
    requires AllPresent(types)
    ensures |r| == |types| && forall i :: 0 <= i < |types| ==> types[i] == Some(r[i])
  {
    seq(|types|, i requires 0 <= i < |types| => types[i].value)
  }

  /** `if (!intfc.implementors) intfc.implementors = []; intfc.implementors.push(name)`. */
  function Push(iface: Definition, typeName: string): Definition
  {
    iface.(implementors := Some(iface.implementors.GetOr([]) + [typeName]))
  }

  /** The `filter(...).forEach(...)` for one declared interface name: every
      interface definition with that name receives the type's name. */
  function AddToMatching(ifaces: seq<Definition>, iname: string, typeName: string): seq<Definition>
  {
    seq(|ifaces|, k requires 0 <= k < |ifaces| =>
      if ifaces[k].name == Some(iname) then Push(ifaces[k], typeName) else ifaces[k])
  }

  /** The inner loop over the interface names one type declares. */
  function LinkNames(names: seq<string>, typeName: string, ifaces: seq<Definition>): seq<Definition>
    decreases |names|
  {
    if |names| == 0 then ifaces
    else LinkNames(names[1..], typeName, AddToMatching(ifaces, names[0], typeName))
  }

  /** The interface `iface` after `names` were appended to its implementors;
      with nothing to append the definition is untouched (an absent list stays absent). */
  function Extend(iface: Definition, names: seq<string>): Definition
  {
    if names == [] then iface
    else iface.(implementors := Some(iface.implementors.GetOr([]) + names))
  }

  function Count(names: seq<string>, n: string): nat
  {
    if |names| == 0 then 0 else (if names[0] == n then 1 else 0) + Count(names[1..], n)
  }

  function Repeat(x: string, n: nat): (r: seq<string>)
    ensures |r| == n && forall i :: 0 <= i < n ==> r[i] == x
  {
    seq(n, _ => x)
  }

  /** The reference definition of what an interface named `iname` receives: for
      each type in order, its name once per declaration of `iname`. */
  function Contributions(types: seq<Definition>, iname: string): seq<string>
    requires AllNamed(types)
  {
    if |types| == 0 then []
    else Repeat(types[0].name.value, Count(Declared(types[0]), iname)) + Contributions(types[1..], iname)
  }

  /** `addImplementors(types, interfaces)`, as a function returning the updated
      interface definitions. It throws exactly when some type entry is
      `undefined`. Otherwise interface `k` has the contributions of the types
      appended to its implementors, and nothing else about it changes. */
  function AddImplementors(types: seq<Option<Definition>>, ifaces: seq<Definition>): (r: Result<seq<Definition>, LinkError>)
    requires NamedEntries(types) && AllNamed(ifaces)
    ensures r.Ok? <==> AllPresent(types)
    ensures r.Ok? ==> |r.value| == |ifaces|
    ensures r.Ok? ==>
              forall k :: 0 <= k < |ifaces| ==>
                r.value[k] == Extend(ifaces[k], Contributions(Present(types), ifaces[k].name.value))
    decreases |types|
  {
    if |types| == 0 then Ok(ifaces)
    else match types[0]
      case None => Err(UndefinedType)
      case Some(t) =>
        var linked := LinkNames(Declared(t), t.name.value, ifaces);
        LinkNamesSpec(Declared(t), t.name.value, ifaces);
        var r := AddImplementors(types[1..], linked);
        if r.Ok? then
          forall k | 0 <= k < |ifaces|
            ensures r.value[k] == Extend(ifaces[k], Contributions(Present(types), ifaces[k].name.value))
          {
            var n := ifaces[k].name.value;
            assert Present(types)[1..] == Present(types[1..]);
            ExtendTwice(ifaces[k], Repeat(t.name.value, Count(Declared(t), n)), Contributions(Present(types[1..]), n));
          }
          r
        else
          r
  }

  /** Two extensions in a row are one extension by both lists. */
  lemma ExtendTwice(iface: Definition, a: seq<string>, b: seq<string>)
    ensures Extend(Extend(iface, a), b) == Extend(iface, a + b)
  {
    if a == [] {
      assert a + b == b;
    } else if b == [] {
      assert a + b == a;
    } else {
      assert (iface.implementors.GetOr([]) + a) + b == iface.implementors.GetOr([]) + (a + b);
    }
  }

  /** The inner loop appends, to each interface, the type's name once per
      declaration of that interface's name. */
  lemma {:induction false} LinkNamesSpec(names: seq<string>, typeName: string, ifaces: seq<Definition>)
    requires AllNamed(ifaces)
    ensures |LinkNames(names, typeName, ifaces)| == |ifaces|
    ensures AllNamed(LinkNames(names, typeName, ifaces))
    ensures forall k :: 0 <= k < |ifaces| ==>
      LinkNames(names, typeName, ifaces)[k]
        == Extend(ifaces[k], Repeat(typeName, Count(names, ifaces[k].name.value)))
    decreases |names|
  {
    if |names| == 0 {
      forall k | 0 <= k < |ifaces|
        ensures LinkNames(names, typeName, ifaces)[k]
          == Extend(ifaces[k], Repeat(typeName, Count(names, ifaces[k].name.value)))
      {
        assert Repeat(typeName, 0) == [];
      }
    } else {
      var step := AddToMatching(ifaces, names[0], typeName);
      LinkNamesSpec(names[1..], typeName, step);
      forall k | 0 <= k < |ifaces|
        ensures LinkNames(names, typeName, ifaces)[k]
          == Extend(ifaces[k], Repeat(typeName, Count(names, ifaces[k].name.value)))
      {
        var n := ifaces[k].name.value;
        var first := if names[0] == n then [typeName] else [];
        assert step[k] == Extend(ifaces[k], first);
        ExtendTwice(ifaces[k], first, Repeat(typeName, Count(names[1..], n)));
        assert first + Repeat(typeName, Count(names[1..], n)) == Repeat(typeName, Count(names, n));
      }
    }
  }

  /** The contributions of concatenated type lists concatenate: implementors
      follow the order in which the types are given. */
  lemma {:induction false} ContributionsConcat(a: seq<Definition>, b: seq<Definition>, iname: string)
    requires AllNamed(a) && AllNamed(b)
    ensures AllNamed(a + b)
    ensures Contributions(a + b, iname) == Contributions(a, iname) + Contributions(b, iname)
  {
    if |a| == 0 {
      assert a + b == b;
    } else {
      var ab := a + b;
      assert ab[0] == a[0];
      assert ab[1..] == a[1..] + b;
      ContributionsConcat(a[1..], b, iname);
      var head := Repeat(a[0].name.value, Count(Declared(a[0]), iname));
      assert Contributions(ab, iname) == head + Contributions(a[1..] + b, iname);
      assert head + (Contributions(a[1..], iname) + Contributions(b, iname))
          == (head + Contributions(a[1..], iname)) + Contributions(b, iname);
    }
  }

  /** A name is contributed exactly when some type with that name declares the
      interface; names of interfaces no type declares never matter. */
  lemma {:induction false} ContributionsMembers(types: seq<Definition>, iname: string, x: string)
    requires AllNamed(types)
    ensures x in Contributions(types, iname) <==>
      exists i :: 0 <= i < |types| && types[i].name == Some(x) && iname in Declared(types[i])
  {
    if |types| > 0 {
      ContributionsMembers(types[1..], iname, x);
      CountPositive(Declared(types[0]), iname);
      var head := Repeat(types[0].name.value, Count(Declared(types[0]), iname));
      assert x in head <==> types[0].name == Some(x) && iname in Declared(types[0]) by {
        if x in head {
          var j :| 0 <= j < |head| && head[j] == x;
        }
        if types[0].name == Some(x) && iname in Declared(types[0]) {
          assert head[0] == x;
        }
      }
      if exists i :: 0 <= i < |types| && types[i].name == Some(x) && iname in Declared(types[i]) {
        var i :| 0 <= i < |types| && types[i].name == Some(x) && iname in Declared(types[i]);
        if i > 0 { assert types[1..][i - 1] == types[i]; }
      }
    }
  }

  lemma {:induction false} CountPositive(names: seq<string>, n: string)
    ensures Count(names, n) > 0 <==> n in names
  {
    if |names| > 0 {
      CountPositive(names[1..], n);
      assert n in names <==> names[0] == n || n in names[1..];
    }
  }

  /** An interface no type declares is left exactly as it was: in particular
      one without `implementors` does not gain an empty list. Declared names
      that match no interface are ignored in the same way. */
  lemma UndeclaredInterfaceUntouched(types: seq<Option<Definition>>, ifaces: seq<Definition>, k: nat)
    requires NamedEntries(types) && AllNamed(ifaces) && AllPresent(types)
    requires k < |ifaces|
    requires forall i :: 0 <= i < |types| ==> ifaces[k].name.value !in Declared(types[i].value)
    ensures AddImplementors(types, ifaces).value[k] == ifaces[k]
  {
    var p := Present(types);
    assert forall i :: 0 <= i < |p| ==> p[i] == types[i].value;
    NoDeclarerNoContributions(p, ifaces[k].name.value);
  }

  lemma {:induction false} NoDeclarerNoContributions(types: seq<Definition>, n: string)
    requires AllNamed(types)
    requires forall i :: 0 <= i < |types| ==> n !in Declared(types[i])
    ensures Contributions(types, n) == []
  {
    if |types| > 0 {
      CountPositive(Declared(types[0]), n);
      assert forall i :: 0 <= i < |types[1..]| ==> types[1..][i] == types[i + 1];
      NoDeclarerNoContributions(types[1..], n);
    }
  }

  /** Linking is not idempotent: a second run appends every contribution again. */
  lemma LinkingTwiceAppendsAgain(types: seq<Option<Definition>>, ifaces: seq<Definition>)
    requires NamedEntries(types) && AllNamed(ifaces) && AllPresent(types)
    ensures var once := AddImplementors(types, ifaces).value;
      AllNamed(once) &&
      var twice := AddImplementors(types, once).value;
      forall k :: 0 <= k < |ifaces| ==>
        var c := Contributions(Present(types), ifaces[k].name.value);
        twice[k] == Extend(ifaces[k], c + c)
  {
    var once := AddImplementors(types, ifaces).value;
    forall k | 0 <= k < |ifaces|
      ensures once[k].name == ifaces[k].name
    {
    }
    var twice := AddImplementors(types, once).value;
    forall k | 0 <= k < |ifaces|
      ensures twice[k] == Extend(ifaces[k], Contributions(Present(types), ifaces[k].name.value) + Contributions(Present(types), ifaces[k].name.value))
    {
      var c := Contributions(Present(types), ifaces[k].name.value);
      ExtendTwice(ifaces[k], c, c);
    }
  }

  function ObjectType(name: string, interfaces: Option<seq<string>>): Definition
  {
    Definition("ObjectTypeDefinition", Some(name), None, [], None, interfaces, [], [], [], None)
  }

  function InterfaceType(name: string): Definition
  {
    Definition("InterfaceTypeDefinition", Some(name), None, [], None, None, [], [], [], None)
  }

  /** A single type contributes its name once per declaration. */
  lemma ContributionsOfOne(t: Definition, iname: string)
    requires t.name.Some?
    ensures Contributions([t], iname) == Repeat(t.name.value, Count(Declared(t), iname))
  {
    assert [t][1..] == [];
  }

  lemma CountOfOne(x: string, n: string)
    ensures Count([x], n) == if x == n then 1 else 0
  {
    assert [x][1..] == [];
  }

  /** The contributions in the example below. */
  lemma StudentCourseContributions()
    ensures var p := [ObjectType("Student", Some(["Named"])), ObjectType("Course", Some(["Named"])),
                      ObjectType("Book", None)];
      && AllNamed(p)
      && Contributions(p, "Named") == ["Student", "Course"]
      && Contributions(p, "Other") == []
  {
    var s := ObjectType("Student", Some(["Named"]));
    var c := ObjectType("Course", Some(["Named"]));
    var b := ObjectType("Book", None);
    assert [s, c, b] == [s] + [c] + [b];
    ContributionsConcat([s], [c], "Named");
    ContributionsConcat([s] + [c], [b], "Named");
    ContributionsConcat([s], [c], "Other");
    ContributionsConcat([s] + [c], [b], "Other");
    ContributionsOfOne(s, "Named");
    ContributionsOfOne(c, "Named");
    ContributionsOfOne(b, "Named");
    ContributionsOfOne(s, "Other");
    ContributionsOfOne(c, "Other");
    ContributionsOfOne(b, "Other");
    CountOfOne("Named", "Named");
    CountOfOne("Named", "Other");
    assert Repeat("Student", 1) == ["Student"] && Repeat("Course", 1) == ["Course"];
  }

  /** `Student` and `Course` implement `Named`, `Book` implements nothing and
      `Other` is declared by nobody: `Named` lists both types in order and
      `Other` gets no `implementors` property. */
  lemma StudentCourseExample()
    ensures var types := [Some(ObjectType("Student", Some(["Named"]))),
                          Some(ObjectType("Course", Some(["Named"]))),
                          Some(ObjectType("Book", None))];
      var r := AddImplementors(types, [InterfaceType("Named"), InterfaceType("Other")]);
      r.Ok? && r.value[0].implementors == Some(["Student", "Course"]) && r.value[1].implementors.None?
  {
    var types := [Some(ObjectType("Student", Some(["Named"]))),
                  Some(ObjectType("Course", Some(["Named"]))),
                  Some(ObjectType("Book", None))];
    var p := Present(types);
    assert p == [ObjectType("Student", Some(["Named"])), ObjectType("Course", Some(["Named"])), ObjectType("Book", None)];
    StudentCourseContributions();
    var ifaces := [InterfaceType("Named"), InterfaceType("Other")];
    var r := AddImplementors(types, ifaces);
    assert r.value[0] == Extend(ifaces[0], ["Student", "Course"]);
    assert [] + ["Student", "Course"] == ["Student", "Course"];
    assert r.value[1] == Extend(ifaces[1], []);
  }
}
