/** How the pairs of an `a:` container become a value: a list when every key is
    its own zero-based position, otherwise a map in which a later pair for the
    same key replaces an earlier one. */
module Containers {
  import opened Values

  /** The list test: the key at every position `i` is the integer `i`. */
  predicate IsListLike(pairs: seq<Pair>)
  {
    forall i :: 0 <= i < |pairs| ==> pairs[i].key == Int(i)
  }

  /** The map that assigning the entries one after the other, in order, builds. */
  function LastWins<K, V>(es: seq<(K, V)>): map<K, V>
  {
    if es == [] then map[] else LastWins(es[..|es| - 1])[es[|es| - 1].0 := es[|es| - 1].1]
  }

  /** Assigning one more entry updates the map at that entry's key. */
  lemma LastWinsSnoc<K, V>(es: seq<(K, V)>, e: (K, V))
    ensures LastWins(es + [e]) == LastWins(es)[e.0 := e.1]
  {
    assert (es + [e])[..|es|] == es;
  }

  /** A key is in the map exactly when some entry carries it. */
  lemma {:induction false} LastWinsKeys<K, V>(es: seq<(K, V)>, k: K)
    ensures k in LastWins(es) <==> exists i :: 0 <= i < |es| && es[i].0 == k
  {
    if es != [] {
      var init := es[..|es| - 1];
      LastWinsKeys(init, k);
      assert forall i :: 0 <= i < |init| ==> init[i] == es[i];
      if k in LastWins(es) && k != es[|es| - 1].0 {
        var i :| 0 <= i < |init| && init[i].0 == k;
        assert es[i].0 == k;
      }
    }
  }

  /** The value stored under a key is that of the last entry carrying the key. */
  lemma {:induction false} LastWinsValue<K, V>(es: seq<(K, V)>, i: nat)
    requires i < |es|
    requires forall j :: i < j < |es| ==> es[j].0 != es[i].0
    ensures es[i].0 in LastWins(es) && LastWins(es)[es[i].0] == es[i].1
  {
    if i < |es| - 1 {
      var init := es[..|es| - 1];
      assert init[i] == es[i];
      forall j | i < j < |init| ensures init[j].0 != init[i].0 {
        assert init[j] == es[j];
      }
      LastWinsValue(init, i);
    }
  }

  /** The map has at most as many keys as there are entries. */
  lemma {:induction false} LastWinsSize<K, V>(es: seq<(K, V)>)
    ensures |LastWins(es)| <= |es|
  {
    if es != [] {
      LastWinsSize(es[..|es| - 1]);
    }
  }

  /** The pairs as `(key, value)` entries, in arrival order. */
  function Entries(pairs: seq<Pair>): (es: seq<(Value, Value)>)
    ensures |es| == |pairs|
    ensures forall i :: 0 <= i < |pairs| ==> es[i] == (pairs[i].key, pairs[i].value)
  {
    seq(|pairs|, i requires 0 <= i < |pairs| => (pairs[i].key, pairs[i].value))
  }

  /** The values of the pairs, in arrival order. */
  function ValuesOf(pairs: seq<Pair>): (vs: seq<Value>)
    ensures |vs| == |pairs|
    ensures forall i :: 0 <= i < |pairs| ==> vs[i] == pairs[i].value
  {
    seq(|pairs|, i requires 0 <= i < |pairs| => pairs[i].value)
  }

  /** The value an `a:` container decodes to. */
  function ContainerOf(pairs: seq<Pair>): Value
  {
    if IsListLike(pairs) then List(ValuesOf(pairs)) else Map(LastWins(Entries(pairs)))
  }

  /** The list-or-map rule, both directions: a list holding the values in
      order exactly when every key is its position; otherwise a map whose keys
      are all the keys and whose values are those of the last pair per key. */
  lemma ContainerShape(pairs: seq<Pair>)
    ensures ContainerOf(pairs).List? <==> IsListLike(pairs)
    ensures ContainerOf(pairs).List? ==>
      |ContainerOf(pairs).items| == |pairs|
      && forall i :: 0 <= i < |pairs| ==> ContainerOf(pairs).items[i] == pairs[i].value
    ensures ContainerOf(pairs).Map? ==>
      (forall k :: k in ContainerOf(pairs).entries <==> exists i :: 0 <= i < |pairs| && pairs[i].key == k)
      && forall i :: 0 <= i < |pairs| && (forall j :: i < j < |pairs| ==> pairs[j].key != pairs[i].key)
           ==> ContainerOf(pairs).entries[pairs[i].key] == pairs[i].value
  {
    if !IsListLike(pairs) {
      var es := Entries(pairs);
      forall k ensures k in LastWins(es) <==> exists i :: 0 <= i < |pairs| && pairs[i].key == k {
        LastWinsKeys(es, k);
        if k in LastWins(es) {
          var i :| 0 <= i < |es| && es[i].0 == k;
          assert pairs[i].key == k;
        }
      }
      forall i | 0 <= i < |pairs| && (forall j :: i < j < |pairs| ==> pairs[j].key != pairs[i].key)
        ensures LastWins(es)[pairs[i].key] == pairs[i].value
      {
        LastWinsValue(es, i);
      }
    }
  }

  /** Zero pairs decode to the empty list. */
  lemma EmptyIsList()
    ensures ContainerOf([]) == List([])
  {
  }

  /** A single pair whose key is not its position turns the whole container into a map. */
  lemma OneMisplacedKeyMakesMap(pairs: seq<Pair>, i: nat)
    requires i < |pairs| && pairs[i].key != Int(i)
    ensures ContainerOf(pairs).Map?
  {
  }

  /** The source's `forEach` that assigns `result[key] = value` into a fresh
      array or object. In the list case every key is the array's current
      length, so each assignment appends. */
  method BuildContainer(pairs: seq<Pair>) returns (v: Value)
    ensures v == ContainerOf(pairs)
  {
    if IsListLike(pairs) {
      var items: seq<Value> := [];
      for i := 0 to |pairs|
        invariant |items| == i
        invariant forall j :: 0 <= j < i ==> items[j] == pairs[j].value
      {
        items := items + [pairs[i].value];
      }
      v := List(items);
    } else {
      var m: map<Value, Value> := map[];
      ghost var es := Entries(pairs);
      for i := 0 to |pairs|
        invariant m == LastWins(es[..i])
      {
        assert es[..i + 1] == es[..i] + [es[i]];
        LastWinsSnoc(es[..i], es[i]);
        m := m[pairs[i].key := pairs[i].value];
      }
      assert es[..|pairs|] == es;
      v := Map(m);
    }
  }
}
