/** The sanitizing walk of `schemaSanitizer.js` over the JSON form of the
    syntax tree. The walk rewrites every string property with the HTML
    sanitizer `S` and gives every `description` object a plain-text `text`
    property computed by the tag-stripping sanitizer `P`. Both sanitizers are
    parameters: the model makes no assumption about what they do. */
module SchemaSanitizer {
  import opened Wrappers
  import opened Json

  const DescriptionKey := "description"
  const TextKey := "text"
  const ValueKey := "value"

  /** Assigning `text` to a `description` property that holds `null` throws. */
  datatype SanitizeError = NullDescription

  /** The rich sanitizer applied to every string leaf. */
  type Sanitizer = string -> string

  /** The tag-stripping sanitizer, applied to whatever the `value` property of a
      description object holds (None when it has no such property). */
  type PlainSanitizer = Option<Json> -> string

  /** True when some `description` property at any depth holds `null`. */
  predicate HasNullDescription(j: Json)
  {
    match j
    case Arr(items) => exists i :: 0 <= i < |items| && HasNullDescription(items[i])
    case Obj(ms) =>
      exists i :: 0 <= i < |ms| &&
        ((ms[i].key == DescriptionKey && ms[i].value == Null) || HasNullDescription(ms[i].value))
    case _ => false
  }

  /** A node after the walk matches the node before it: a string is sanitized,
      a container keeps its kind (and an array its length), any other leaf is unchanged. */
  predicate Corresponds(S: Sanitizer, before: Json, after: Json)
  {
    match before
    case Str(s) => after == Str(S(s))
    case Arr(items) => after.Arr? && |after.items| == |items|
    case Obj(_) => after.Obj?
    case _ => after == before
  }

  /** `sanitizeBranch`: walks the own properties of an object or array. A
      primitive has no properties to walk and is returned as it is. */
  function SanitizeBranch(S: Sanitizer, P: PlainSanitizer, branch: Json): (r: Result<Json, SanitizeError>)
    ensures r.Ok? <==> !HasNullDescription(branch)
    ensures r.Ok? && branch.Arr? ==> r.value.Arr? && |r.value.items| == |branch.items|
    ensures r.Ok? && branch.Obj? ==> r.value.Obj?
    ensures r.Ok? && !branch.Arr? && !branch.Obj? ==> r.value == branch
    decreases branch, 0
  {
    match branch
    case Arr(items) =>
      var xs :- SanitizeItems(S, P, branch, 0);
      Ok(Arr(xs))
    case Obj(ms) =>
      var ms' :- SanitizeMembers(S, P, branch, 0);
      Ok(Obj(ms'))
    case _ => Ok(branch)
  }

  /** One iteration of the loop: the property is a description exactly when its key is
      `description` (array indices never are). A string is sanitized; an object or
      array is walked first and, under `description`, then receives `text`. */
  function SanitizeProperty(S: Sanitizer, P: PlainSanitizer, isDescription: bool, v: Json): (r: Result<Json, SanitizeError>)
    ensures r.Ok? <==> !(isDescription && v == Null) && !HasNullDescription(v)
    ensures r.Ok? ==> Corresponds(S, v, r.value)
    decreases v, 1
  {
    match v
    case Str(s) => Ok(Str(S(s)))
    case Null => if isDescription then Err(NullDescription) else Ok(Null)
    case Arr(_) => SanitizeBranch(S, P, v)
    case Obj(_) =>
      var w :- SanitizeBranch(S, P, v);
      if isDescription then Ok(WithText(P, w)) else Ok(w)
    case _ => Ok(v)
  }

  /** `branch[item].text = sanitize(branch[item].value, {allowedTags: []})`. An array
      cannot carry a named property in the JSON tree, so it is returned unchanged. */
  function WithText(P: PlainSanitizer, w: Json): (r: Json)
    ensures w.Obj? ==> r.Obj? && Get(r.members, TextKey) == Some(Str(P(Get(w.members, ValueKey))))
    ensures w.Obj? ==> forall k :: k != TextKey ==> Get(r.members, k) == Get(w.members, k)
    ensures !w.Obj? ==> r == w
  {
    if w.Obj? then Obj(Set(w.members, TextKey, Str(P(Get(w.members, ValueKey))))) else w
  }

  /** The walk over the elements of an array from index `from` on. */
  function SanitizeItems(S: Sanitizer, P: PlainSanitizer, branch: Json, from: nat): (r: Result<seq<Json>, SanitizeError>)
    requires branch.Arr? && from <= |branch.items|
    ensures r.Ok? <==> forall i :: from <= i < |branch.items| ==> SanitizeProperty(S, P, false, branch.items[i]).Ok?
    ensures r.Ok? ==> |r.value| == |branch.items| - from
    ensures r.Ok? ==> forall i :: from <= i < |branch.items| ==>
      SanitizeProperty(S, P, false, branch.items[i]) == Ok(r.value[i - from])
    decreases branch, 0, |branch.items| - from
  {
    if from == |branch.items| then Ok([])
    else
      var x :- SanitizeProperty(S, P, false, branch.items[from]);
      var rest :- SanitizeItems(S, P, branch, from + 1);
      Ok([x] + rest)
  }

  /** The walk over the members of an object from position `from` on; keys are kept. */
  function SanitizeMembers(S: Sanitizer, P: PlainSanitizer, branch: Json, from: nat): (r: Result<seq<Member>, SanitizeError>)
    requires branch.Obj? && from <= |branch.members|
    ensures r.Ok? <==> forall i :: from <= i < |branch.members| ==>
      SanitizeProperty(S, P, branch.members[i].key == DescriptionKey, branch.members[i].value).Ok?
    ensures r.Ok? ==> |r.value| == |branch.members| - from
    ensures r.Ok? ==> forall i :: from <= i < |branch.members| ==>
      r.value[i - from].key == branch.members[i].key &&
      SanitizeProperty(S, P, branch.members[i].key == DescriptionKey, branch.members[i].value) == Ok(r.value[i - from].value)
    decreases branch, 0, |branch.members| - from
  {
    if from == |branch.members| then Ok([])
    else
      var m := branch.members[from];
      var x :- SanitizeProperty(S, P, m.key == DescriptionKey, m.value);
      var rest :- SanitizeMembers(S, P, branch, from + 1);
      Ok([Member(m.key, x)] + rest)
  }

  /** The path steps from a `description` property straight into its `text`
      property: the one place where the walk overwrites what was there. */
  predicate ThroughDescriptionText(p: seq<Step>)
  {
    exists i :: 0 <= i < |p| - 1 && p[i] == Key(DescriptionKey) && p[i + 1] == Key(TextKey)
  }

  lemma NotThroughTail(p: seq<Step>)
    requires |p| > 0 && !ThroughDescriptionText(p)
    ensures !ThroughDescriptionText(p[1..])
    ensures !(p[0] == Key(DescriptionKey) && |p| > 1 && p[1] == Key(TextKey))
  {
    forall i | 0 <= i < |p| - 2
      ensures !(p[1..][i] == Key(DescriptionKey) && p[1..][i + 1] == Key(TextKey))
    {
      assert p[1..][i] == p[i + 1] && p[1..][i + 1] == p[i + 2];
    }
  }

  /** Reading a key of an object after the walk gives the walked value of the
      same key before it. */
  lemma {:induction false} GetAfterWalk(S: Sanitizer, P: PlainSanitizer, ms: seq<Member>, ms2: seq<Member>, k: string)
    requires |ms2| == |ms|
    requires forall i :: 0 <= i < |ms| ==>
      ms2[i].key == ms[i].key &&
      SanitizeProperty(S, P, ms[i].key == DescriptionKey, ms[i].value) == Ok(ms2[i].value)
    ensures Get(ms2, k).Some? == Get(ms, k).Some?
    ensures Get(ms, k).Some? ==>
      SanitizeProperty(S, P, k == DescriptionKey, Get(ms, k).value) == Ok(Get(ms2, k).value)
  {
    if |ms| > 0 && ms[0].key != k {
      GetAfterWalk(S, P, ms[1..], ms2[1..], k);
    }
  }

  /** One step of a path before and after the walk: the walked property has a
      child exactly where the original has one (except the overwritten `text`),
      and that child is the walked original child. */
  lemma ChildAfterWalk(S: Sanitizer, P: PlainSanitizer, isDescription: bool, v: Json, step: Step)
    requires SanitizeProperty(S, P, isDescription, v).Ok?
    requires !(isDescription && step == Key(TextKey))
    ensures var w := SanitizeProperty(S, P, isDescription, v).value;
      Child(w, step).Some? == Child(v, step).Some? &&
      (Child(v, step).Some? ==>
        SanitizeProperty(S, P, step == Key(DescriptionKey), Child(v, step).value) == Ok(Child(w, step).value))
  {
    var w := SanitizeProperty(S, P, isDescription, v).value;
    match v {
      case Obj(ms) =>
        if step.Key? {
          var ms2 := SanitizeMembers(S, P, v, 0).value;
          GetAfterWalk(S, P, ms, ms2, step.name);
        }
      case Arr(items) =>
        assert SanitizeItems(S, P, v, 0).Ok?;
      case _ =>
    }
  }

  /** Along any path that does not enter an overwritten `text`, the walked
      property has a node exactly where the original has one, and that node
      corresponds to the original node. */
  lemma {:induction false} PropertyPath(S: Sanitizer, P: PlainSanitizer, isDescription: bool, v: Json, p: seq<Step>)
    requires SanitizeProperty(S, P, isDescription, v).Ok?
    requires !ThroughDescriptionText(p)
    requires !(isDescription && |p| > 0 && p[0] == Key(TextKey))
    ensures var w := SanitizeProperty(S, P, isDescription, v).value;
      At(v, p).Some? == At(w, p).Some? &&
      (At(v, p).Some? ==> Corresponds(S, At(v, p).value, At(w, p).value))
    decreases |p|
  {
    if |p| > 0 {
      NotThroughTail(p);
      ChildAfterWalk(S, P, isDescription, v, p[0]);
      if Child(v, p[0]).Some? {
        PropertyPath(S, P, p[0] == Key(DescriptionKey), Child(v, p[0]).value, p[1..]);
      }
    }
  }

  /** The base case of `DescriptionPath`: a `description` member of `v` itself. */
  lemma DescriptionHere(S: Sanitizer, P: PlainSanitizer, isDescription: bool, v: Json)
    requires SanitizeProperty(S, P, isDescription, v).Ok?
    requires Child(v, Key(DescriptionKey)).Some? && Child(v, Key(DescriptionKey)).value.Obj?
    ensures var w := SanitizeProperty(S, P, isDescription, v).value;
      Child(w, Key(DescriptionKey)).Some? &&
      Child(Child(w, Key(DescriptionKey)).value, Key(TextKey))
        == Some(Str(P(Child(Child(w, Key(DescriptionKey)).value, Key(ValueKey)))))
  {
    ChildAfterWalk(S, P, isDescription, v, Key(DescriptionKey));
    var c := Child(v, Key(DescriptionKey)).value;
    var sb := SanitizeBranch(S, P, c).value;
    assert sb.Obj?;
  }

  /** Under a `description` object reached along `q`, the walked `text` is the
      plain sanitizer applied to the walked `value`. */
  lemma {:induction false} DescriptionPath(S: Sanitizer, P: PlainSanitizer, isDescription: bool, v: Json, q: seq<Step>)
    requires SanitizeProperty(S, P, isDescription, v).Ok?
    requires !ThroughDescriptionText(q)
    requires !(isDescription && |q| > 0 && q[0] == Key(TextKey))
    requires At(v, q + [Key(DescriptionKey)]).Some? && At(v, q + [Key(DescriptionKey)]).value.Obj?
    ensures var w := SanitizeProperty(S, P, isDescription, v).value;
      At(w, q + [Key(DescriptionKey), Key(TextKey)])
        == Some(Str(P(At(w, q + [Key(DescriptionKey), Key(ValueKey)]))))
    decreases |q|
  {
    var w := SanitizeProperty(S, P, isDescription, v).value;
    var d := [Key(DescriptionKey)];
    var dt := [Key(DescriptionKey), Key(TextKey)];
    var dv := [Key(DescriptionKey), Key(ValueKey)];
    if |q| == 0 {
      assert q + d == d && q + dt == dt && q + dv == dv;
      DescriptionHere(S, P, isDescription, v);
      var c := Child(v, Key(DescriptionKey)).value;
      assert At(c, []) == Some(c);
      var c2 := Child(w, Key(DescriptionKey)).value;
      assert dt[1..] == [Key(TextKey)] && dv[1..] == [Key(ValueKey)];
      assert At(w, dt) == At(c2, [Key(TextKey)]);
      assert At(w, dv) == At(c2, [Key(ValueKey)]);
      match Child(c2, Key(ValueKey)) {
        case Some(x) => assert At(x, []) == Some(x);
        case None =>
      }
      match Child(c2, Key(TextKey)) {
        case Some(x) => assert At(x, []) == Some(x);
        case None =>
      }
    } else {
      NotThroughTail(q);
      assert (q + d)[0] == q[0] && (q + d)[1..] == q[1..] + d;
      assert (q + dt)[0] == q[0] && (q + dt)[1..] == q[1..] + dt;
      assert (q + dv)[0] == q[0] && (q + dv)[1..] == q[1..] + dv;
      ChildAfterWalk(S, P, isDescription, v, q[0]);
      DescriptionPath(S, P, q[0] == Key(DescriptionKey), Child(v, q[0]).value, q[1..]);
    }
  }

  /** Shape and leaves: at every non-empty path that does not enter an
      overwritten `text`, the sanitized tree has a node exactly where the input
      has one; strings there are sanitized exactly once, other leaves are
      unchanged, arrays keep their length and objects stay objects. */
  lemma SanitizePreservesPaths(S: Sanitizer, P: PlainSanitizer, j: Json, p: seq<Step>)
    requires SanitizeBranch(S, P, j).Ok?
    requires |p| > 0 && !ThroughDescriptionText(p)
    ensures var t := SanitizeBranch(S, P, j).value;
      At(j, p).Some? == At(t, p).Some? &&
      (At(j, p).Some? ==> Corresponds(S, At(j, p).value, At(t, p).value))
  {
    if j.Obj? || j.Arr? {
      assert SanitizeProperty(S, P, false, j) == SanitizeBranch(S, P, j);
      PropertyPath(S, P, false, j, p);
    }
  }

  /** Every `description` object of the input gets a `text` equal to the plain
      sanitizer applied to its `value` after the walk. */
  lemma SanitizeSetsDescriptionText(S: Sanitizer, P: PlainSanitizer, j: Json, q: seq<Step>)
    requires SanitizeBranch(S, P, j).Ok?
    requires !ThroughDescriptionText(q)
    requires At(j, q + [Key(DescriptionKey)]).Some? && At(j, q + [Key(DescriptionKey)]).value.Obj?
    ensures var t := SanitizeBranch(S, P, j).value;
      At(t, q + [Key(DescriptionKey), Key(TextKey)])
        == Some(Str(P(At(t, q + [Key(DescriptionKey), Key(ValueKey)]))))
  {
    if j.Obj? || j.Arr? {
      assert SanitizeProperty(S, P, false, j) == SanitizeBranch(S, P, j);
      DescriptionPath(S, P, false, j, q);
    }
  }

  /** The `text` of a description whose `value` was the string `s` is `P(S(s))`:
      the value is sanitized before the text is computed from it. */
  lemma DescriptionTextOfString(S: Sanitizer, P: PlainSanitizer, j: Json, q: seq<Step>, s: string)
    requires SanitizeBranch(S, P, j).Ok?
    requires !ThroughDescriptionText(q)
    requires At(j, q + [Key(DescriptionKey)]).Some? && At(j, q + [Key(DescriptionKey)]).value.Obj?
    requires At(j, q + [Key(DescriptionKey), Key(ValueKey)]) == Some(Str(s))
    ensures At(SanitizeBranch(S, P, j).value, q + [Key(DescriptionKey), Key(TextKey)])
      == Some(Str(P(Some(Str(S(s))))))
  {
    var p := q + [Key(DescriptionKey), Key(ValueKey)];
    forall i | 0 <= i < |p| - 1
      ensures !(p[i] == Key(DescriptionKey) && p[i + 1] == Key(TextKey))
    {
      if i < |q| - 1 {
        assert p[i] == q[i] && p[i + 1] == q[i + 1];
      }
    }
    SanitizePreservesPaths(S, P, j, p);
    SanitizeSetsDescriptionText(S, P, j, q);
  }
}
