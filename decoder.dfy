/** The decoder as the source runs it: recursive methods that move one shared
    cursor, a counted loop that collects the pairs of a container, and the
    entry point that fills in default options. Each method is proved to
    compute what the matching function of `Grammar` describes. */
module Decoder {
  import opened Results
  import opened Values
  import opened Scan
  import Stream
  import Grammar
  import GrammarFacts
  import Containers
  import Classes

  /** `unserializeItem`: the type marker, then the branch for that type.
      Each branch is a method of its own, proved against the matching
      function of `Grammar`. */
  method UnserializeItem(c: Stream.Cursor, scope: Scope, options: Options) returns (r: Result<Value>)
    requires c.Valid()
    modifies c
    decreases |c.input| - c.index, 0
    ensures c.Valid()
    ensures At(r, c.index) == Grammar.DecodeItem(c.input, old(c.index), scope, options.strict)
  {
    var kind :- c.GetType();
    match kind
    case NullKind =>
      r := Ok(Null);
    case IntKind =>
      r := UnserializeNumber(c, false);
    case FloatKind =>
      r := UnserializeNumber(c, true);
    case BoolKind =>
      var t :- c.ReadAhead(1);
      r := Ok(Bool(t == "1"));
    case StringKind =>
      r := UnserializeString(c, options);
    case ArrayObject =>
      r := UnserializeArray(c, scope, options);
    case NotSerializableClass =>
      r := UnserializeObject(c, scope, options);
    case SerializableClass =>
      r := UnserializeCustom(c, scope, options);
  }

  /** The `int`/`float` branch: the literal up to `;`. */
  method UnserializeNumber(c: Stream.Cursor, float: bool) returns (r: Result<Value>)
    requires c.Valid()
    modifies c
    ensures c.Valid()
    ensures At(r, c.index) == if float then Grammar.DecodeFloat(c.input, old(c.index))
                              else Grammar.DecodeInt(c.input, old(c.index))
  {
    var lit :- c.ReadUntil(';');
    if float {
      r := Err(FloatNotModelled(lit));
    } else {
      var n :- ParseInteger(lit);
      r := Ok(Int(n));
    }
  }

  /** The `string` branch: the declared length, `:"`, the text up to the
      next `"`, the quote itself, then the byte-length policy. */
  method UnserializeString(c: Stream.Cursor, options: Options) returns (r: Result<Value>)
    requires c.Valid()
    modifies c
    ensures c.Valid()
    ensures At(r, c.index) == Grammar.DecodeString(c.input, old(c.index), options.strict)
  {
    var length :- c.GetLength();
    var _ :- c.SeekExpected(":\"");
    var text :- c.ReadUntil('"');
    var _ := c.ReadAhead(1);  // the closing quote
    var bytes := Utf8Length(text);
    if bytes != length && options.strict {
      r := Err(StringLengthMismatch(length, bytes));
    } else {
      r := Ok(Str(text));
    }
  }

  /** The `array-object` branch. */
  method UnserializeArray(c: Stream.Cursor, scope: Scope, options: Options) returns (r: Result<Value>)
    requires c.Valid()
    modifies c
    decreases |c.input| - c.index, 3
    ensures c.Valid()
    ensures At(r, c.index) == Grammar.DecodeArray(c.input, old(c.index), scope, options.strict)
  {
    var n :- c.OpenByLength("{");
    var pairs :- UnserializePairs(c, n, scope, options);
    var _ :- c.SeekExpected("}");
    var v := Containers.BuildContainer(pairs);
    r := Ok(v);
  }

  /** The `notserializable-class` branch: name, `:`, the pairs, then the
      class and the visibility-stripped properties. */
  method UnserializeObject(c: Stream.Cursor, scope: Scope, options: Options) returns (r: Result<Value>)
    requires c.Valid()
    modifies c
    decreases |c.input| - c.index, 3
    ensures c.Valid()
    ensures At(r, c.index) == Grammar.DecodeObject(c.input, old(c.index), scope, options.strict)
  {
    var name :- c.ReadByLength("\"", "\"");
    var _ :- c.SeekExpected(":");
    var n :- c.OpenByLength("{");
    var pairs :- UnserializePairs(c, n, scope, options);
    var _ :- c.SeekExpected("}");
    var inst :- Classes.ResolveClass(name, scope, options.strict);
    var props :- Classes.AssignProperties(name, pairs);
    r := Ok(Classes.ObjectValue(inst, props));
  }

  /** The `serializable-class` branch: name, `:`, the raw payload, then the
      class and its hook. */
  method UnserializeCustom(c: Stream.Cursor, scope: Scope, options: Options) returns (r: Result<Value>)
    requires c.Valid()
    modifies c
    ensures c.Valid()
    ensures At(r, c.index) == Grammar.DecodeCustom(c.input, old(c.index), scope, options.strict)
  {
    var name :- c.ReadByLength("\"", "\"");
    var _ :- c.SeekExpected(":");
    var payload :- c.ReadByLength("{", "}");
    var inst :- Classes.ResolveClass(name, scope, options.strict);
    r := Classes.CustomValue(inst, payload);
  }

  /** `unserializePairs`: a counted loop that decodes a key, requires `;`,
      decodes a value, consumes a `;` if one follows, and pushes the pair. */
  method UnserializePairs(c: Stream.Cursor, length: nat, scope: Scope, options: Options)
    returns (r: Result<seq<Pair>>)
    requires c.Valid()
    modifies c
    decreases |c.input| - c.index, 2
    ensures c.Valid()
    ensures At(r, c.index) == Grammar.DecodePairs(c.input, old(c.index), length, scope, options.strict)
  {
    ghost var s, start := c.input, c.index;
    var pairs: seq<Pair> := [];
    GrammarFacts.PrependEmpty(Grammar.DecodePairs(s, start, length, scope, options.strict));
    for i := 0 to length
      invariant c.Valid() && start <= c.index
      invariant Grammar.DecodePairs(s, start, length, scope, options.strict)
                == Grammar.Prepend(pairs, Grammar.DecodePairs(s, c.index, length - i, scope, options.strict))
    {
      ghost var here := c.index;
      var pair := UnserializePair(c, scope, options);
      assert At(pair, c.index) == Grammar.DecodePair(s, here, scope, options.strict);
      if pair.Err? {
        PairsFail(s, here, length - i, scope, options.strict, pairs, pair.error);
        return Err(pair.error);
      }
      PairsStep(s, here, length - i, scope, options.strict, pairs, pair.value, c.index);
      pairs := pairs + [pair.value];
    }
    assert Grammar.DecodePairs(s, c.index, 0, scope, options.strict) == Ok(Step([], c.index));
    assert pairs + [] == pairs;
    r := Ok(pairs);
  }

  /** The body of the loop of `unserializePairs`: a key, the required `;`, a
      value, and a `;` consumed only if it is the next character. */
  method UnserializePair(c: Stream.Cursor, scope: Scope, options: Options) returns (r: Result<Pair>)
    requires c.Valid()
    modifies c
    decreases |c.input| - c.index, 1
    ensures c.Valid()
    ensures At(r, c.index) == Grammar.DecodePair(c.input, old(c.index), scope, options.strict)
  {
    ghost var s, p0 := c.input, c.index;
    var key := UnserializeItem(c, scope, options);
    if key.Err? {
      assert Grammar.DecodeItem(s, p0, scope, options.strict) == Err(key.error);
      return Err(key.error);
    }
    ghost var p1 := c.index;
    assert Grammar.DecodeItem(s, p0, scope, options.strict) == Ok(Step(key.value, p1));
    var semicolon := c.SeekExpected(";");
    if semicolon.Err? {
      assert SeekExpected(s, p1, ";") == Err(semicolon.error);
      return Err(semicolon.error);
    }
    assert c.index == p1 + 1;
    assert p1 < |s| && s[p1] == ';' by {
      assert s[p1..p1 + 1] == ";";
    }
    var value := UnserializeItem(c, scope, options);
    if value.Err? {
      GrammarFacts.PairValueFails(s, p0, scope, options.strict, key.value, p1, value.error);
      return Err(value.error);
    }
    ghost var p3 := c.index;
    assert Grammar.DecodeItem(s, p1 + 1, scope, options.strict) == Ok(Step(value.value, p3));
    var next := c.PeekAhead(1);
    PeekIs(s, p3, ';');
    if next == ";" {
      c.Advance(1);
    }
    assert c.index == if p3 < |s| && s[p3] == ';' then p3 + 1 else p3;
    GrammarFacts.PairRead(s, p0, scope, options.strict, key.value, p1, value.value, p3);
    r := Ok(Pair(key.value, value.value));
  }

  /** One more pair read: it joins the pairs already read, and `n - 1` remain. */
  lemma PairsStep(s: seq<char>, pos: nat, n: nat, scope: Scope, strict: bool,
                  done: seq<Pair>, p: Pair, next: nat)
    requires pos <= |s| && n > 0
    requires Grammar.DecodePair(s, pos, scope, strict) == Ok(Step(p, next))
    ensures Grammar.Prepend(done, Grammar.DecodePairs(s, pos, n, scope, strict))
            == Grammar.Prepend(done + [p], Grammar.DecodePairs(s, next, n - 1, scope, strict))
  {
    var rest := Grammar.DecodePairs(s, next, n - 1, scope, strict);
    if rest.Ok? {
      assert done + ([p] + rest.value.val) == (done + [p]) + rest.value.val;
    }
  }

  /** A pair that fails to decode fails the whole sequence. */
  lemma PairsFail(s: seq<char>, pos: nat, n: nat, scope: Scope, strict: bool, done: seq<Pair>, e: Error)
    requires pos <= |s| && n > 0
    requires Grammar.DecodePair(s, pos, scope, strict) == Err(e)
    ensures Grammar.Prepend(done, Grammar.DecodePairs(s, pos, n, scope, strict)) == Err(e)
  {
  }

  /** The option defaulting of `unserialize`: omitted options mean
      `{ strict: false }`; given options without `strict` become strict; the
      encoding defaults to `utf8`. */
  function ResolveOptions(given: Option<PartialOptions>): (o: Options)
    ensures given.None? ==> o == Options(false, "utf8")
    ensures given.Some? ==> o.strict == (given.value.strict.None? || given.value.strict.value)
    ensures given.Some? && given.value.encoding.Some? ==> o.encoding == given.value.encoding.value
    ensures given.Some? && given.value.encoding.None? ==> o.encoding == "utf8"
  {
    var p := if given.Some? then given.value else PartialOptions(Some(false), None);
    Options(
      if p.strict.Some? then p.strict.value else true,
      if p.encoding.Some? then p.encoding.value else "utf8")
  }

  /** `unserialize`: the scope defaults to the empty one; the cursor starts at
      the beginning of the input and one item is decoded. */
  method Unserialize(item: string, scope: Option<Scope>, given: Option<PartialOptions>) returns (r: Result<Value>)
    ensures r == Grammar.Decode(item, if scope.Some? then scope.value else map[], ResolveOptions(given))
  {
    var options := ResolveOptions(given);
    var sc := if scope.Some? then scope.value else map[];
    var c := new Stream.Cursor(item);
    r := UnserializeItem(c, sc, options);
  }
}
