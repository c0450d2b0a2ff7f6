/** Class records: resolving a class name against the caller's scope, the
    visibility prefixes of property-bag keys, and what the two record kinds
    (`O:` property bags, `C:` custom payloads) decode to. */
module Classes {
  import opened Results
  import opened Values
  import Containers

  /** What `getClassReference` yields: a fresh instance of a prototype found
      in scope, or the incomplete-class placeholder for a missing name. */
  datatype Instance = Fresh(className: string, proto: Prototype) | Placeholder(className: string)

  /** `getClassReference`: a name in scope gives a fresh instance; a missing
      name fails under strict mode and gives the placeholder otherwise. */
  function ResolveClass(className: string, scope: Scope, strict: bool): (r: Result<Instance>)
    ensures r.Ok? <==> className in scope || !strict
    ensures r.Ok? ==> r.value.className == className
    ensures r.Ok? ==> (r.value.Fresh? <==> className in scope)
    ensures r.Ok? && r.value.Fresh? ==> r.value.proto == scope[className]
    ensures r.Err? ==> r.error == ClassNotFound(className)
  {
    if className in scope then Ok(Fresh(className, scope[className]))
    else if strict then Err(ClassNotFound(className))
    else Ok(Placeholder(className))
  }

  /** `\0<ClassName>\0`, which marks a private property of that class. */
  function PrivatePrefix(className: string): string
  {
    "\0" + className + "\0"
  }

  /** `\0*\0`, which marks a protected property. */
  const ProtectedPrefix: string := "\0*\0"

  /** The stored name of a property-bag key: the private prefix is checked
      first, then the protected one; at most one prefix is removed and the
      rest of the key is kept as it is. */
  function StripVisibility(className: string, key: string): (r: string)
    ensures |r| <= |key| && key == key[..|key| - |r|] + r
    ensures key[..|key| - |r|] in {PrivatePrefix(className), ProtectedPrefix, ""}
    ensures PrivatePrefix(className) <= key ==> |key| - |r| == |PrivatePrefix(className)|
    ensures !(PrivatePrefix(className) <= key) && ProtectedPrefix <= key ==> |key| - |r| == |ProtectedPrefix|
    ensures !(PrivatePrefix(className) <= key) && !(ProtectedPrefix <= key) ==> r == key
  {
    if PrivatePrefix(className) <= key then
      assert key[..|PrivatePrefix(className)|] == PrivatePrefix(className);
      key[|PrivatePrefix(className)|..]
    else if ProtectedPrefix <= key then
      assert key[..|ProtectedPrefix|] == ProtectedPrefix;
      key[|ProtectedPrefix|..]
    else key
  }

  /** The declared visibility of a property in the origin runtime. */
  datatype Visibility = Public | Protected | Private

  /** The name under which the origin runtime serializes a property: the
      inverse of `StripVisibility`. */
  function Mangle(vis: Visibility, className: string, prop: string): string
  {
    match vis
    case Public => prop
    case Protected => ProtectedPrefix + prop
    case Private => PrivatePrefix(className) + prop
  }

  /** Stripping undoes mangling: always for a private property; for a
      protected one unless the mangled key happens to start with the private
      prefix too; for a public one whose name does not start with `\0`. */
  lemma StripMangle(vis: Visibility, className: string, prop: string)
    requires vis == Protected ==> !(PrivatePrefix(className) <= ProtectedPrefix + prop)
    requires vis == Public ==> prop == [] || prop[0] != '\0'
    ensures StripVisibility(className, Mangle(vis, className, prop)) == prop
  {
    var key := Mangle(vis, className, prop);
    match vis
    case Private =>
      assert PrivatePrefix(className) <= key;
      assert key[|PrivatePrefix(className)|..] == prop;
    case Protected =>
      assert ProtectedPrefix <= key;
      assert key[|ProtectedPrefix|..] == prop;
    case Public =>
      assert PrivatePrefix(className)[0] == '\0' && ProtectedPrefix[0] == '\0';
  }

  predicate AllStringKeys(pairs: seq<Pair>)
  {
    forall i :: 0 <= i < |pairs| ==> pairs[i].key.Str?
  }

  /** The pairs of a property bag as `(stored name, value)` entries, in order. */
  function PropertyEntries(className: string, pairs: seq<Pair>): (es: seq<(string, Value)>)
    requires AllStringKeys(pairs)
    ensures |es| == |pairs|
    ensures forall i :: 0 <= i < |pairs| ==> es[i] == (StripVisibility(className, pairs[i].key.s), pairs[i].value)
  {
    seq(|pairs|, i requires 0 <= i < |pairs| => (StripVisibility(className, pairs[i].key.s), pairs[i].value))
  }

  lemma PropertyEntriesSnoc(className: string, pairs: seq<Pair>, p: Pair)
    requires AllStringKeys(pairs) && p.key.Str?
    ensures AllStringKeys(pairs + [p])
    ensures PropertyEntries(className, pairs + [p])
         == PropertyEntries(className, pairs) + [(StripVisibility(className, p.key.s), p.value)]
  {
    assert forall i :: 0 <= i < |pairs| ==> (pairs + [p])[i] == pairs[i];
  }

  /** The properties an `O:` record assigns: every key must be a string (the
      source calls `key.startsWith`, which throws on anything else); a later
      pair for the same stored name replaces an earlier one. */
  function PropsOf(className: string, pairs: seq<Pair>): (r: Result<map<string, Value>>)
    ensures r.Ok? <==> AllStringKeys(pairs)
    ensures r.Err? ==> r.error == PropertyKeyNotString
  {
    if AllStringKeys(pairs) then Ok(Containers.LastWins(PropertyEntries(className, pairs)))
    else Err(PropertyKeyNotString)
  }

  /** What the stored properties are: exactly the stripped keys, each holding
      the value of the last pair whose key strips to it. */
  lemma PropsOfContents(className: string, pairs: seq<Pair>)
    requires AllStringKeys(pairs)
    ensures forall name :: name in PropsOf(className, pairs).value
              <==> exists i :: 0 <= i < |pairs| && StripVisibility(className, pairs[i].key.s) == name
    ensures forall i :: 0 <= i < |pairs|
              && (forall j :: i < j < |pairs| ==> StripVisibility(className, pairs[j].key.s) != StripVisibility(className, pairs[i].key.s))
              ==> PropsOf(className, pairs).value[StripVisibility(className, pairs[i].key.s)] == pairs[i].value
  {
    var es := PropertyEntries(className, pairs);
    forall name ensures name in Containers.LastWins(es)
                  <==> exists i :: 0 <= i < |pairs| && StripVisibility(className, pairs[i].key.s) == name
    {
      Containers.LastWinsKeys(es, name);
      if name in Containers.LastWins(es) {
        var i :| 0 <= i < |es| && es[i].0 == name;
        assert StripVisibility(className, pairs[i].key.s) == name;
      }
    }
    forall i | 0 <= i < |pairs|
      && (forall j :: i < j < |pairs| ==> StripVisibility(className, pairs[j].key.s) != StripVisibility(className, pairs[i].key.s))
      ensures Containers.LastWins(es)[StripVisibility(className, pairs[i].key.s)] == pairs[i].value
    {
      Containers.LastWinsValue(es, i);
    }
  }

  /** The source's `forEach` over the pairs of an `O:` record, assigning each
      value under its stripped key and failing at the first key that is not
      a string. */
  method AssignProperties(className: string, pairs: seq<Pair>) returns (r: Result<map<string, Value>>)
    ensures r == PropsOf(className, pairs)
  {
    var m: map<string, Value> := map[];
    for i := 0 to |pairs|
      invariant AllStringKeys(pairs[..i])
      invariant m == Containers.LastWins(PropertyEntries(className, pairs[..i]))
    {
      var key := pairs[i].key;
      if !key.Str? {
        return Err(PropertyKeyNotString);
      }
      assert pairs[..i + 1] == pairs[..i] + [pairs[i]];
      PropertyEntriesSnoc(className, pairs[..i], pairs[i]);
      Containers.LastWinsSnoc(PropertyEntries(className, pairs[..i]), (StripVisibility(className, key.s), pairs[i].value));
      m := m[StripVisibility(className, key.s) := pairs[i].value];
    }
    assert pairs[..|pairs|] == pairs;
    r := Ok(m);
  }

  /** An `O:` record: the instance with its properties, or the placeholder
      carrying the class name and the same properties. */
  function ObjectValue(inst: Instance, props: map<string, Value>): (v: Value)
    ensures v.Obj? <==> inst.Fresh?
    ensures v.Obj? || v.Incomplete?
    ensures v.className == inst.className && v.props == props
    ensures v.Obj? ==> v.hookPayload == None
  {
    match inst
    case Fresh(name, _) => Obj(name, props, None)
    case Placeholder(name) => Incomplete(name, props)
  }

  /** A `C:` record: a real instance has its `unserialize` hook called with
      the raw payload, and lacking the hook is an error; the placeholder is
      returned as it is and no hook is called. */
  function CustomValue(inst: Instance, payload: string): (r: Result<Value>)
    ensures inst.Placeholder? ==> r == Ok(Incomplete(inst.className, map[]))
    ensures inst.Fresh? ==> (r.Ok? <==> inst.proto.hasUnserialize)
    ensures inst.Fresh? && r.Ok? ==> r.value == Obj(inst.className, map[], Some(payload))
    ensures r.Err? ==> r.error == MissingUnserializeHook(inst.className)
  {
    match inst
    case Placeholder(name) => Ok(Incomplete(name, map[]))
    case Fresh(name, proto) =>
      if proto.hasUnserialize then Ok(Obj(name, map[], Some(payload)))
      else Err(MissingUnserializeHook(name))
  }
}
