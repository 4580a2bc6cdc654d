/** A finite JSON tree: the shape of the syntax tree after the stringify/parse
    round trip of the page builder, which removes every shared or cyclic
    reference. Objects are member sequences in property order. */
module Json {
  import opened Wrappers

  datatype Json =
    | Null
    | Bool(b: bool)
    | Num(n: real)
    | Str(s: string)
    | Arr(items: seq<Json>)
    | Obj(members: seq<Member>)

  datatype Member = Member(key: string, value: Json)

  /** One step of a property path: an object key or an array index. */
  datatype Step = Key(name: string) | Index(i: nat)

  /** `i` is the position of the first member with key `key`. */
  predicate IsFirstKey(ms: seq<Member>, key: string, i: int)
  {
    0 <= i < |ms| && ms[i].key == key && forall j :: 0 <= j < i ==> ms[j].key != key
  }

  /** Property read `obj[key]`: the member with that key, or `undefined`. A
      parsed object has unique keys, and `Set` never adds a second member with
      an existing key; should a list hold one twice, the first one is read. */
  function Get(ms: seq<Member>, key: string): (r: Option<Json>)
    ensures r.Some? <==> exists i :: 0 <= i < |ms| && ms[i].key == key
    ensures r.Some? ==> exists i :: IsFirstKey(ms, key, i) && ms[i].value == r.value
  {
    if |ms| == 0 then None
    else if ms[0].key == key then
      assert IsFirstKey(ms, key, 0);
      Some(ms[0].value)
    else
      var r := Get(ms[1..], key);
      if r.Some? then
        var i :| IsFirstKey(ms[1..], key, i) && ms[1..][i].value == r.value;
        assert IsFirstKey(ms, key, i + 1);
        r
      else r
  }

  /** No two members share a key, as in every parsed object. */
  predicate UniqueKeys(ms: seq<Member>)
  {
    forall i, j :: 0 <= i < j < |ms| ==> ms[i].key != ms[j].key
  }

  /** Property assignment `obj[key] = v`: an existing member keeps its position
      and takes the new value; a new key is appended after all others. */
  function Set(ms: seq<Member>, key: string, v: Json): (r: seq<Member>)
    ensures Get(r, key) == Some(v)
    ensures forall k :: k != key ==> Get(r, k) == Get(ms, k)
    ensures |r| == |ms| || |r| == |ms| + 1
    ensures UniqueKeys(ms) ==> UniqueKeys(r)
  {
    if |ms| == 0 then [Member(key, v)]
    else if ms[0].key == key then
      assert UniqueKeys(ms) ==> UniqueKeys([Member(key, v)] + ms[1..]) by {
        if UniqueKeys(ms) {
          forall i, j | 0 <= i < j < |ms| ensures ([Member(key, v)] + ms[1..])[i].key != ([Member(key, v)] + ms[1..])[j].key {
            assert ([Member(key, v)] + ms[1..])[j] == ms[j];
            if i > 0 { assert ([Member(key, v)] + ms[1..])[i] == ms[i]; }
          }
        }
      }
      [Member(key, v)] + ms[1..]
    else
      var rest := Set(ms[1..], key, v);
      assert UniqueKeys(ms) ==> UniqueKeys([ms[0]] + rest) by {
        if UniqueKeys(ms) {
          assert UniqueKeys(ms[1..]);
          assert Get(ms[1..], ms[0].key).None?;
          assert Get(rest, ms[0].key).None?;
          forall i, j | 0 <= i < j < |[ms[0]] + rest|
            ensures ([ms[0]] + rest)[i].key != ([ms[0]] + rest)[j].key
          {
            assert ([ms[0]] + rest)[j] == rest[j - 1];
            if i > 0 { assert ([ms[0]] + rest)[i] == rest[i - 1]; }
          }
        }
      }
      [ms[0]] + rest
  }

  /** The child of `j` selected by one step, or None when there is none. */
  function Child(j: Json, step: Step): (r: Option<Json>)
    ensures r.Some? ==> r.value < j
  {
    match step
    case Key(k) => if j.Obj? then Get(j.members, k) else None
    case Index(i) => if j.Arr? && i < |j.items| then Some(j.items[i]) else None
  }

  /** The node reached from `j` along `path`, or None when the path leaves the tree. */
  function At(j: Json, path: seq<Step>): Option<Json>
    decreases |path|
  {
    if |path| == 0 then Some(j)
    else match Child(j, path[0])
      case Some(c) => At(c, path[1..])
      case None => None
  }
}
