/** Parsed JSON values as JavaScript holds them, and the property reads and object
    copies the validator makes of them. */
module Json {
  import opened Wrappers
  import opened JsText

  /** A value `JSON.parse` can produce. An object keeps its own properties as a
      sequence in JavaScript's enumeration order; numbers are their mathematical
      values (so -0 and 0 are one value, as `JSON.stringify` prints them). */
  datatype Json =
    | Null
    | Bool(b: bool)
    | Number(n: real)
    | Str(s: JsString)
    | Arr(items: seq<Json>)
    | Obj(members: seq<Member>)

  datatype Member = Member(key: JsString, value: Json)

  function Keys(ms: seq<Member>): (ks: seq<JsString>)
    ensures |ks| == |ms| && forall i :: 0 <= i < |ms| ==> ks[i] == ms[i].key
  {
    seq(|ms|, i requires 0 <= i < |ms| => ms[i].key)
  }

  /** No name appears twice. */
  ghost predicate Distinct(names: seq<JsString>)
  {
    forall i, j :: 0 <= i < j < |names| ==> names[i] != names[j]
  }

  /** No key appears twice: true of every object `JSON.parse` builds. */
  ghost predicate DistinctKeys(ms: seq<Member>)
  {
    Distinct(Keys(ms))
  }

  /** The value of an object's own property `name`, if it has one. */
  function Lookup(ms: seq<Member>, name: JsString): (r: Option<Json>)
    ensures r.None? <==> name !in Keys(ms)
    ensures r.Some? ==> Member(name, r.value) in ms
    decreases |ms|
  {
    if ms == [] then None
    else if ms[0].key == name then Some(ms[0].value)
    else Lookup(ms[1..], name)
  }

  /** In an object without repeated keys, every member is what a lookup of its key finds. */
  lemma {:induction false} LookupMember(ms: seq<Member>, i: int)
    requires DistinctKeys(ms) && 0 <= i < |ms|
    ensures Lookup(ms, ms[i].key) == Some(ms[i].value)
    decreases |ms|
  {
    if i > 0 {
      assert Keys(ms[1..]) == Keys(ms)[1..];
      assert Keys(ms)[0] != Keys(ms)[i];
      LookupMember(ms[1..], i - 1);
    }
  }

  /** Reading property `name` of a value, `v.name` or a destructuring `{ name } = v`:
      it throws on null; a value that is not an object has none of the properties
      the validator reads (none of them is on a prototype), so those read as absent. */
  function Property(v: Json, name: JsString): (r: Completion<Option<Json>>)
    ensures r == Throw <==> v == Null
    ensures r.Normal? && r.value.Some? ==> v.Obj? && Member(name, r.value.value) in v.members
  {
    match v
    case Null => Throw
    case Obj(ms) => Normal(Lookup(ms, name))
    case _ => Normal(None)
  }

  /** The names of `names` that are keys of `ks`, in the order of `names`. */
  function Present(names: seq<JsString>, ks: seq<JsString>): (r: seq<JsString>)
    ensures forall n :: n in r <==> n in names && n in ks
    decreases |names|
  {
    if names == [] then []
    else if names[0] in ks then [names[0]] + Present(names[1..], ks)
    else Present(names[1..], ks)
  }

  /** The object literal `{ n1, n2, ... }` built from variables destructured out of
      an object: a name whose property is absent is `undefined`, which
      `JSON.stringify` leaves out, so it is simply not a member. */
  function Pick(ms: seq<Member>, names: seq<JsString>): (r: seq<Member>)
    ensures Keys(r) == Present(names, Keys(ms))
    ensures forall m :: m in r ==> m in ms
    decreases |names|
  {
    if names == [] then []
    else match Lookup(ms, names[0])
      case None => Pick(ms, names[1..])
      case Some(v) => [Member(names[0], v)] + Pick(ms, names[1..])
  }

  /** A value with no members gives an empty copy. */
  lemma PickOfEmpty(names: seq<JsString>)
    ensures Pick([], names) == []
  {
    var r := Pick([], names);
    if r != [] {
      assert Keys(r)[0] in Present(names, Keys([]));
    }
  }

  /** When the object's own keys are exactly the present names in the copy's order,
      the copy is the object itself; otherwise their keys differ. */
  lemma PickIsIdentity(ms: seq<Member>, names: seq<JsString>)
    requires DistinctKeys(ms)
    ensures Pick(ms, names) == ms <==> Keys(ms) == Present(names, Keys(ms))
  {
    if Keys(ms) == Present(names, Keys(ms)) {
      SameKeysSameMembers(Pick(ms, names), ms);
    }
  }

  /** Members drawn from an object without repeated keys, with that object's key
      sequence, are that object's members. */
  lemma SameKeysSameMembers(r: seq<Member>, ms: seq<Member>)
    requires DistinctKeys(ms) && Keys(r) == Keys(ms)
    requires forall m :: m in r ==> m in ms
    ensures r == ms
  {
    forall i | 0 <= i < |ms|
      ensures r[i] == ms[i]
    {
      assert Keys(r)[i] == Keys(ms)[i];
      assert r[i] in ms;
      var j :| 0 <= j < |ms| && ms[j] == r[i];
      assert ms[j].key == ms[i].key;
    }
  }

  /** The names of `ks` other than `name`, in order. */
  function Drop(ks: seq<JsString>, name: JsString): (r: seq<JsString>)
    ensures forall n :: n in r <==> n in ks && n != name
    decreases |ks|
  {
    if ks == [] then []
    else if ks[0] == name then Drop(ks[1..], name)
    else [ks[0]] + Drop(ks[1..], name)
  }

  /** The members of an object after `delete obj.name`: the others, in order and
      unchanged (`LookupWithout` says what the values are). */
  function Without(ms: seq<Member>, name: JsString): (r: seq<Member>)
    ensures Keys(r) == Drop(Keys(ms), name)
    decreases |ms|
  {
    if ms == [] then []
    else
      assert Keys(ms)[1..] == Keys(ms[1..]);
      if ms[0].key == name then Without(ms[1..], name)
      else [ms[0]] + Without(ms[1..], name)
  }

  /** After `delete obj.name` the property is absent, and every other property
      reads as before. */
  lemma {:induction false} LookupWithout(ms: seq<Member>, name: JsString)
    ensures forall n :: Lookup(Without(ms, name), n) == if n == name then None else Lookup(ms, n)
    decreases |ms|
  {
    if ms != [] {
      LookupWithout(ms[1..], name);
      if ms[0].key != name {
        assert ([ms[0]] + Without(ms[1..], name))[1..] == Without(ms[1..], name);
      }
    }
  }

  /** The members of an object after `obj.name = v` for a key it already has: the
      same keys, in the same order (`LookupUpdate` says what the values are). */
  function Update(ms: seq<Member>, name: JsString, v: Json): (r: seq<Member>)
    ensures Keys(r) == Keys(ms)
    decreases |ms|
  {
    if ms == [] then []
    else
      var head := if ms[0].key == name then Member(name, v) else ms[0];
      var rest := Update(ms[1..], name, v);
      var r := [head] + rest;
      assert |r| == |ms|;
      assert forall i :: 1 <= i < |r| ==> r[i].key == rest[i - 1].key == ms[1..][i - 1].key;
      r
  }

  /** After `obj.name = v` for a key the object has, the property reads as `v`. */
  lemma {:induction false} LookupUpdateSame(ms: seq<Member>, name: JsString, v: Json)
    requires name in Keys(ms)
    ensures Lookup(Update(ms, name, v), name) == Some(v)
    decreases |ms|
  {
    var r := Update(ms, name, v);
    if ms[0].key != name {
      assert Keys(ms) == [ms[0].key] + Keys(ms[1..]);
      assert r[1..] == Update(ms[1..], name, v);
      LookupUpdateSame(ms[1..], name, v);
    }
  }

  /** After `obj.name = v`, every other property reads as before. */
  lemma {:induction false} LookupUpdateOther(ms: seq<Member>, name: JsString, v: Json, n: JsString)
    requires n != name
    ensures Lookup(Update(ms, name, v), n) == Lookup(ms, n)
    decreases |ms|
  {
    if ms != [] {
      var r := Update(ms, name, v);
      assert r[1..] == Update(ms[1..], name, v);
      LookupUpdateOther(ms[1..], name, v, n);
    }
  }

  /** Deleting a property after overwriting it is the same as deleting it. */
  lemma {:induction false} WithoutUpdate(ms: seq<Member>, name: JsString, v: Json)
    ensures Without(Update(ms, name, v), name) == Without(ms, name)
    decreases |ms|
  {
    if ms != [] {
      WithoutUpdate(ms[1..], name, v);
      var u := Update(ms, name, v);
      assert u[1..] == Update(ms[1..], name, v);
    }
  }
}
