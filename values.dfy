/** The decoded values, the caller-supplied class scope and the decode options. */
module Values {
  import opened Results

  /** A decoded value. Integers are unbounded, and the source's choice
      between a native number and a BigInt is not kept. */
  datatype Value =
    | Null
    | Int(i: int)
    | Bool(b: bool)
    | Str(s: string)
    | List(items: seq<Value>)
    | Map(entries: map<Value, Value>)
      /** A fresh instance of a class found in scope, its assigned properties and,
          for a `C:` record, the raw payload its unserialize hook received. */
    | Obj(className: string, props: map<string, Value>, hookPayload: Option<string>)
      /** The placeholder for a class name that is not in scope (lenient mode only). */
    | Incomplete(className: string, props: map<string, Value>)

  /** One decoded key/value pair of an `a:` container or an `O:` record. */
  datatype Pair = Pair(key: Value, value: Value)

  /** What the decoder needs to know of a class prototype: whether it has an
      `unserialize` hook for custom-payload records. */
  datatype Prototype = Prototype(hasUnserialize: bool)

  type Scope = map<string, Prototype>

  datatype Options = Options(strict: bool, encoding: string)

  /** Options as a caller may give them, every field optional. */
  datatype PartialOptions = PartialOptions(strict: Option<bool>, encoding: Option<string>)

  /** Number of bytes the UTF-8 encoding of one code point takes. */
  function Utf8Width(c: char): (w: nat)
    ensures 1 <= w <= 4
    ensures w == 1 <==> c as int < 0x80
  {
    if c as int < 0x80 then 1
    else if c as int < 0x800 then 2
    else if c as int < 0x1_0000 then 3
    else 4
  }

  /** Number of bytes of the UTF-8 encoding of a text. */
  function Utf8Length(t: string): nat
  {
    if t == [] then 0 else Utf8Width(t[0]) + Utf8Length(t[1..])
  }

  /** The byte length is never below the character count, and equals it
      exactly when every character is ASCII. */
  lemma {:induction false} Utf8LengthBounds(t: string)
    ensures |t| <= Utf8Length(t) <= 4 * |t|
    ensures Utf8Length(t) == |t| <==> forall i :: 0 <= i < |t| ==> t[i] as int < 0x80
  {
    if t != [] {
      Utf8LengthBounds(t[1..]);
      assert forall i :: 1 <= i < |t| ==> t[i] == t[1..][i - 1];
    }
  }
}
