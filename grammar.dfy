/** The decoder as functions of the input and a position: what
    `unserializeItem` and `unserializePairs` compute, one function per branch.
    The imperative decoder in `Decoder` is proved to agree with these, and the
    lemmas of `GrammarFacts` state the format's rules about them. */
module Grammar {
  import opened Results
  import opened Values
  import opened Scan
  import Containers
  import Classes

  /** One item starting at `pos`: its type marker, then the branch for it. */
  function DecodeItem(s: seq<char>, pos: nat, scope: Scope, strict: bool): (r: Result<Step<Value>>)
    requires pos <= |s|
    decreases |s| - pos, 0
    ensures r.Ok? ==> pos < r.value.next <= |s|
  {
    var Step(kind, p) :- GetType(s, pos);
    DecodeBody(kind, s, p, scope, strict)
  }

  /** What follows the type marker, read as the record of that type. */
  function DecodeBody(kind: Kind, s: seq<char>, p: nat, scope: Scope, strict: bool): (r: Result<Step<Value>>)
    requires p <= |s|
    decreases |s| - p, 4
    ensures r.Ok? ==> p <= r.value.next <= |s|
  {
    match kind
    case NullKind => Ok(Step(Null, p))
    case IntKind => DecodeInt(s, p)
    case FloatKind => DecodeFloat(s, p)
    case BoolKind => DecodeBool(s, p)
    case StringKind => DecodeString(s, p, strict)
    case ArrayObject => DecodeArray(s, p, scope, strict)
    case NotSerializableClass => DecodeObject(s, p, scope, strict)
    case SerializableClass => DecodeCustom(s, p, scope, strict)
  }

  /** `i:<literal>;`: the literal up to the next `;`, which is left unread. */
  function DecodeInt(s: seq<char>, pos: nat): (r: Result<Step<Value>>)
    requires pos <= |s|
    ensures r.Ok? ==> pos <= r.value.next < |s|
  {
    var Step(lit, p) :- ReadUntil(s, pos, ';');
    var n :- ParseInteger(lit);
    Ok(Step(Int(n), p))
  }

  /** `d:<literal>;`: the literal is read but floating point is not modelled. */
  function DecodeFloat(s: seq<char>, pos: nat): (r: Result<Step<Value>>)
    requires pos <= |s|
    ensures r.Err?
  {
    var Step(lit, _) :- ReadUntil(s, pos, ';');
    Err(FloatNotModelled(lit))
  }

  /** `b:<c>`: one character, true exactly when it is `1`. */
  function DecodeBool(s: seq<char>, pos: nat): (r: Result<Step<Value>>)
    requires pos <= |s|
    ensures r.Ok? ==> pos < r.value.next <= |s|
  {
    var Step(c, p) :- ReadAhead(s, pos, 1);
    Ok(Step(Bool(c == "1"), p))
  }

  /** The declared length and the text of a string record. */
  datatype StringLiteral = StringLiteral(declared: nat, text: string)

  /** `<length>:"<text>"`: the text runs up to the first following `"`, and
      that quote is consumed. */
  function ScanString(s: seq<char>, pos: nat): (r: Result<Step<StringLiteral>>)
    requires pos <= |s|
    ensures r.Ok? ==> pos < r.value.next <= |s|
  {
    var Step(len, p1) :- GetLength(s, pos);
    var Step(_, p2) :- SeekExpected(s, p1, ":\"");
    var Step(text, p3) :- ReadUntil(s, p2, '"');
    ReadUntilFinds(s, p2, '"');
    // reading the closing quote, on which ReadUntil stopped, cannot fail
    Ok(Step(StringLiteral(len, text), ReadAhead(s, p3, 1).value.next))
  }

  /** The text of a string record sits between `:"` and the first `"` after
      it, and the declared length before it runs up to the first `:`. */
  lemma ScanStringShape(s: seq<char>, pos: nat)
    requires pos <= |s|
    ensures ScanString(s, pos).Ok? ==>
      var Step(StringLiteral(_, text), q) := ScanString(s, pos).value;
      pos + |text| + 3 < q
      && s[q - |text| - 3..q] == ":\"" + text + "\""
      && '"' !in text
      && ':' !in s[pos..q - |text| - 3]
  {
    if ScanString(s, pos).Ok? {
      GetLengthShape(s, pos);
      var Step(_, p1) := GetLength(s, pos).value;
      var p2 := p1 + 2;
      ReadUntilFinds(s, p2, '"');
      var Step(text, p3) := ReadUntil(s, p2, '"').value;
      assert s[p1..p3 + 1] == s[p1..p2] + text + [s[p3]];
    }
  }

  /** The byte-length policy: a mismatch between the declared length and the
      UTF-8 length of the text is fatal only in strict mode. */
  function CheckLength(lit: StringLiteral, strict: bool): (r: Result<Value>)
    ensures r.Ok? ==> r.value == Str(lit.text)
    ensures r.Err? <==> strict && Utf8Length(lit.text) != lit.declared
    ensures r.Err? ==> r.error == StringLengthMismatch(lit.declared, Utf8Length(lit.text))
  {
    var bytes := Utf8Length(lit.text);
    if bytes != lit.declared && strict then Err(StringLengthMismatch(lit.declared, bytes))
    else Ok(Str(lit.text))
  }

  function DecodeString(s: seq<char>, pos: nat, strict: bool): (r: Result<Step<Value>>)
    requires pos <= |s|
    ensures r.Ok? ==> pos < r.value.next <= |s|
  {
    var Step(lit, p) :- ScanString(s, pos);
    var v :- CheckLength(lit, strict);
    Ok(Step(v, p))
  }

  /** One key, the required `;`, one value, and a `;` consumed only when it
      is the next character. */
  function DecodePair(s: seq<char>, pos: nat, scope: Scope, strict: bool): (r: Result<Step<Pair>>)
    requires pos <= |s|
    decreases |s| - pos, 1
    ensures r.Ok? ==> pos < r.value.next <= |s|
  {
    var Step(key, p1) :- DecodeItem(s, pos, scope, strict);
    var Step(_, p2) :- SeekExpected(s, p1, ";");
    var Step(value, p3) :- DecodeItem(s, p2, scope, strict);
    // the source's `peekAhead(1) === ';'` (see Scan.PeekIs)
    var p4 := if p3 < |s| && s[p3] == ';' then p3 + 1 else p3;
    Ok(Step(Pair(key, value), p4))
  }

  /** Exactly `n` pairs, in arrival order. */
  function DecodePairs(s: seq<char>, pos: nat, n: nat, scope: Scope, strict: bool): (r: Result<Step<seq<Pair>>>)
    requires pos <= |s|
    decreases |s| - pos, 2
    ensures r.Ok? ==> pos <= r.value.next <= |s|
  {
    if n == 0 then Ok(Step([], pos))
    else
      var Step(first, p) :- DecodePair(s, pos, scope, strict);
      var Step(rest, q) :- DecodePairs(s, p, n - 1, scope, strict);
      Ok(Step([first] + rest, q))
  }

  /** The pairs already read, put in front of the outcome of reading the rest. */
  function Prepend(done: seq<Pair>, rest: Result<Step<seq<Pair>>>): Result<Step<seq<Pair>>>
  {
    match rest
    case Ok(Step(ps, q)) => Ok(Step(done + ps, q))
    case Err(e) => Err(e)
  }

  /** `a:<count>:{<pairs>}`. */
  function DecodeArray(s: seq<char>, pos: nat, scope: Scope, strict: bool): (r: Result<Step<Value>>)
    requires pos <= |s|
    decreases |s| - pos, 3
    ensures r.Ok? ==> pos < r.value.next <= |s|
  {
    var Step(n, p1) :- OpenByLength(s, pos, "{");
    var Step(pairs, p2) :- DecodePairs(s, p1, n, scope, strict);
    var Step(_, p3) :- SeekExpected(s, p2, "}");
    Ok(Step(Containers.ContainerOf(pairs), p3))
  }

  /** The class name and the pair count at the head of an `O:` record. */
  datatype ClassHeader = ClassHeader(name: string, count: nat)

  /** `<len>:"<name>":<count>:{`: read before any pair. */
  function ObjectHead(s: seq<char>, pos: nat): (r: Result<Step<ClassHeader>>)
    requires pos <= |s|
    ensures r.Ok? ==> pos < r.value.next <= |s|
  {
    var Step(name, p1) :- ReadByLength(s, pos, "\"", "\"");
    var Step(_, p2) :- SeekExpected(s, p1, ":");
    var Step(n, p3) :- OpenByLength(s, p2, "{");
    Ok(Step(ClassHeader(name, n), p3))
  }

  /** What an `O:` record with decoded pairs becomes: the class is resolved
      first and the property keys are checked after it. The result is a real
      instance exactly when the class is in scope, the placeholder only in
      lenient mode, and its properties are `PropsOf` the pairs. */
  function ObjectOf(name: string, pairs: seq<Pair>, scope: Scope, strict: bool): (r: Result<Value>)
    ensures r.Ok? <==> (name in scope || !strict) && Classes.AllStringKeys(pairs)
    ensures r.Ok? ==> (r.value.Obj? || r.value.Incomplete?) && r.value.className == name
                      && (r.value.Obj? <==> name in scope)
                      && Classes.PropsOf(name, pairs) == Ok(r.value.props)
    ensures r.Ok? && r.value.Obj? ==> r.value.hookPayload == None
    ensures r.Err? ==> r.error == if name in scope || !strict then PropertyKeyNotString else ClassNotFound(name)
  {
    var inst :- Classes.ResolveClass(name, scope, strict);
    var props :- Classes.PropsOf(name, pairs);
    Ok(Classes.ObjectValue(inst, props))
  }

  /** `O:<len>:"<name>":<count>:{<pairs>}`: the pairs are decoded before the
      class is resolved. */
  function DecodeObject(s: seq<char>, pos: nat, scope: Scope, strict: bool): (r: Result<Step<Value>>)
    requires pos <= |s|
    decreases |s| - pos, 3
    ensures r.Ok? ==> pos < r.value.next <= |s|
  {
    var Step(head, p1) :- ObjectHead(s, pos);
    var Step(pairs, p2) :- DecodePairs(s, p1, head.count, scope, strict);
    var Step(_, p3) :- SeekExpected(s, p2, "}");
    var v :- ObjectOf(head.name, pairs, scope, strict);
    Ok(Step(v, p3))
  }

  /** The class name and the raw payload of a `C:` record. */
  datatype CustomHeader = CustomHeader(name: string, payload: string)

  /** `<len>:"<name>":<len>:{<payload>}`: the payload is not decoded. */
  function CustomHead(s: seq<char>, pos: nat): (r: Result<Step<CustomHeader>>)
    requires pos <= |s|
    ensures r.Ok? ==> pos < r.value.next <= |s|
  {
    var Step(name, p1) :- ReadByLength(s, pos, "\"", "\"");
    var Step(_, p2) :- SeekExpected(s, p1, ":");
    var Step(payload, p3) :- ReadByLength(s, p2, "{", "}");
    Ok(Step(CustomHeader(name, payload), p3))
  }

  /** What a `C:` record becomes: a class in scope must have an `unserialize`
      hook, which receives the payload; a class not in scope fails in strict
      mode and gives the bare placeholder otherwise. */
  function CustomOf(name: string, payload: string, scope: Scope, strict: bool): (r: Result<Value>)
    ensures r.Ok? <==> (name in scope && scope[name].hasUnserialize) || (name !in scope && !strict)
    ensures r.Ok? ==> (r.value.Obj? || r.value.Incomplete?) && r.value.className == name
                      && r.value.props == map[] && (r.value.Obj? <==> name in scope)
    ensures r.Ok? && r.value.Obj? ==> r.value.hookPayload == Some(payload)
    ensures r.Err? ==> r.error == if name in scope then MissingUnserializeHook(name) else ClassNotFound(name)
  {
    var inst :- Classes.ResolveClass(name, scope, strict);
    Classes.CustomValue(inst, payload)
  }

  /** A `C:` record: its header, then what `CustomOf` makes of it. */
  function DecodeCustom(s: seq<char>, pos: nat, scope: Scope, strict: bool): (r: Result<Step<Value>>)
    requires pos <= |s|
    ensures r.Ok? ==> pos < r.value.next <= |s|
  {
    var Step(head, p) :- CustomHead(s, pos);
    var v :- CustomOf(head.name, head.payload, scope, strict);
    Ok(Step(v, p))
  }

  /** The whole decode: one item from the start of the input; whatever
      follows it is not examined. */
  function Decode(input: seq<char>, scope: Scope, options: Options): Result<Value>
  {
    var Step(v, _) :- DecodeItem(input, 0, scope, options.strict);
    Ok(v)
  }
}
