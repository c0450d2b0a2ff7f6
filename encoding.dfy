/** The writer's side of the format, for the values this decoder can read
    back: the spelling the origin runtime's `serialize` gives them, and the
    round trip — decoding that spelling yields the value again, in either
    mode and whatever the scope. */
module Encoding {
  import opened Results
  import opened Values
  import opened Scan
  import Grammar
  import Containers
  import GrammarFacts

  /** Values whose spelling this decoder reads back: scalars, strings without
      a `"` (the decoder ends a string at the first quote it meets), and lists
      of such values. */
  predicate Encodable(v: Value)
  {
    match v
    case Null => true
    case Int(_) => true
    case Bool(_) => true
    case Str(t) => '"' !in t
    case List(items) => forall i :: 0 <= i < |items| ==> Encodable(items[i])
    case _ => false
  }

  /** `i:<digits>;`, which also spells the key of a list entry. */
  function IntText(i: int): string
  {
    "i:" + ShowInt(i) + ";"
  }

  /** `s:<bytes>:"<text>";`, with the UTF-8 length of the text. */
  function StrText(t: string): string
  {
    "s:" + ShowNat(Utf8Length(t)) + ":\"" + t + "\";"
  }

  /** The spelling of a value. A list is spelled as an `a:` container whose
      keys are the positions `0, 1, ...` in order. */
  function Encode(v: Value): string
    requires Encodable(v)
    decreases v, 1
  {
    match v
    case Null => "N;"
    case Int(i) => IntText(i)
    case Bool(b) => "b:" + (if b then "1" else "0") + ";"
    case Str(t) => StrText(t)
    case List(items) => "a:" + ShowNat(|items|) + ":{" + PairsText(v, 0) + "}"
  }

  /** The entries of a list from position `j` on: each key, then its value. */
  function PairsText(v: Value, j: nat): string
    requires v.List? && Encodable(v) && j <= |v.items|
    decreases v, 0, |v.items| - j
  {
    if j == |v.items| then ""
    else IntText(j) + Encode(v.items[j]) + PairsText(v, j + 1)
  }

  /** Whether the decoder leaves the final `;` of a value's spelling unread:
      it does after an integer, a bool and a string, whose branches stop on
      or before it; the pair loop then consumes it. */
  function Trail(v: Value): nat
  {
    if v.Int? || v.Bool? || v.Str? then 1 else 0
  }

  /** The pairs a list decodes from: each value under its own position. */
  function ListPairs(items: seq<Value>): seq<Pair>
  {
    seq(|items|, i requires 0 <= i < |items| => Pair(Int(i), items[i]))
  }

  /** The list pairs form a list container holding the items. */
  lemma ListPairsContainer(items: seq<Value>)
    ensures Containers.ContainerOf(ListPairs(items)) == List(items)
  {
    assert Containers.IsListLike(ListPairs(items));
    assert Containers.ValuesOf(ListPairs(items)) == items;
  }

  /** `s` holds `t` at `pos`, character by character. */
  predicate Holds(s: seq<char>, pos: nat, t: string)
    decreases |t|
  {
    pos + |t| <= |s| && (t == [] || (s[pos] == t[0] && Holds(s, pos + 1, t[1..])))
  }

  lemma {:induction false} HoldsSlice(s: seq<char>, pos: nat, t: string)
    requires Holds(s, pos, t)
    decreases |t|
    ensures s[pos..pos + |t|] == t
  {
    if t != [] {
      HoldsSlice(s, pos + 1, t[1..]);
      assert s[pos..pos + |t|] == [s[pos]] + s[pos + 1..pos + 1 + |t[1..]|];
      assert t == [t[0]] + t[1..];
    }
  }

  /** Every input holds its own suffixes. */
  lemma {:induction false} HoldsSuffix(s: seq<char>, k: nat)
    requires k <= |s|
    decreases |s| - k
    ensures Holds(s, k, s[k..])
  {
    if k < |s| {
      HoldsSuffix(s, k + 1);
      assert s[k..][1..] == s[k + 1..];
    }
  }

  lemma {:induction false} HoldsConcat(s: seq<char>, pos: nat, a: string, b: string)
    requires Holds(s, pos, a + b)
    decreases |a|
    ensures Holds(s, pos, a) && Holds(s, pos + |a|, b)
  {
    if a == [] {
      assert a + b == b;
    } else {
      assert (a + b)[1..] == a[1..] + b;
      HoldsConcat(s, pos + 1, a[1..], b);
    }
  }

  lemma {:induction false} HoldsChar(s: seq<char>, pos: nat, t: string, k: nat)
    requires Holds(s, pos, t) && k < |t|
    decreases k
    ensures s[pos + k] == t[k]
  {
    if k > 0 {
      HoldsChar(s, pos + 1, t[1..], k - 1);
    }
  }

  /** Every spelling is at least two characters, starts with its marker, and
      ends with the `;` the decoder leaves unread where it leaves one. */
  lemma EncodeShape(v: Value)
    requires Encodable(v)
    ensures |Encode(v)| >= 2
    ensures Trail(v) == 1 ==> Encode(v)[|Encode(v)| - 1] == ';'
  {
  }

  /** The entries from `j` on start with the key marker `i`, when there are any. */
  lemma PairsTextStart(v: Value, j: nat)
    requires v.List? && Encodable(v) && j < |v.items|
    ensures |PairsText(v, j)| > 0 && PairsText(v, j)[0] == 'i'
  {
    assert PairsText(v, j) == IntText(j) + (Encode(v.items[j]) + PairsText(v, j + 1));
  }

  /** An integer's spelling holds no `;`, so its literal runs to the `;` after it. */
  lemma ShowIntNoSemicolon(i: int)
    ensures ';' !in ShowInt(i)
  {
    var m: nat := if i < 0 then -i else i;
    ShowNatDigits(m);
    DigitsNoSemicolon(ShowNat(m));
    if i < 0 {
      assert ShowInt(i) == "-" + ShowNat(m);
    }
  }

  /** A run of digits holds no `;`. */
  lemma DigitsNoSemicolon(t: string)
    requires AllDigits(t)
    ensures ';' !in t
  {
    forall k | 0 <= k < |t| ensures t[k] != ';' {
      assert IsDigit(t[k]);
    }
  }

  lemma NullDecoded(s: seq<char>, pos: nat, scope: Scope, strict: bool)
    requires Holds(s, pos, "N;")
    ensures Grammar.DecodeItem(s, pos, scope, strict) == Ok(Step(Null, pos + 2))
  {
    HoldsChar(s, pos, "N;", 0);
    HoldsChar(s, pos, "N;", 1);
  }

  /** A marker and separator in place read as that kind. */
  lemma MarkerHolds(s: seq<char>, pos: nat, t: string, kind: Kind)
    requires Holds(s, pos, t) && |t| >= 2 && KindOf(t[0]) == Some(kind) && t[1] == Separator(kind)
    ensures GetType(s, pos) == Ok(Step(kind, pos + 2))
  {
    HoldsChar(s, pos, t, 0);
    HoldsChar(s, pos, t, 1);
    assert s[pos + 1..pos + 2] == [Separator(kind)];
  }

  lemma IntItem(s: seq<char>, pos: nat, r: Result<Step<Value>>, scope: Scope, strict: bool)
    requires pos <= |s| && GetType(s, pos) == Ok(Step(IntKind, pos + 2))
    requires Grammar.DecodeInt(s, pos + 2) == r
    ensures Grammar.DecodeItem(s, pos, scope, strict) == r
  {
  }

  lemma StrItem(s: seq<char>, pos: nat, r: Result<Step<Value>>, scope: Scope, strict: bool)
    requires pos <= |s| && GetType(s, pos) == Ok(Step(StringKind, pos + 2))
    requires Grammar.DecodeString(s, pos + 2, strict) == r
    ensures Grammar.DecodeItem(s, pos, scope, strict) == r
  {
  }

  lemma ArrayItem(s: seq<char>, pos: nat, r: Result<Step<Value>>, scope: Scope, strict: bool)
    requires pos <= |s| && GetType(s, pos) == Ok(Step(ArrayObject, pos + 2))
    requires Grammar.DecodeArray(s, pos + 2, scope, strict) == r
    ensures Grammar.DecodeItem(s, pos, scope, strict) == r
  {
  }

  /** The literal of an `i:` record runs up to the `;` and is read as an integer. */
  lemma IntBody(s: seq<char>, p: nat, lit: string, i: int, end: nat)
    requires Holds(s, p, lit + ";") && ';' !in lit && ParseInteger(lit) == Ok(i) && end == p + |lit|
    ensures Grammar.DecodeInt(s, p) == Ok(Step(Int(i), end))
  {
    HoldsConcat(s, p, lit, ";");
    HoldsChar(s, p + |lit|, ";", 0);
    HoldsSlice(s, p, lit);
    ReadUntilAt(s, p, ';', p + |lit|);
  }

  /** The spelling of an integer record, split at its marker. */
  lemma IntTextSplit(s: seq<char>, pos: nat, i: int)
    requires Holds(s, pos, IntText(i))
    ensures Holds(s, pos, "i:") && Holds(s, pos + 2, ShowInt(i) + ";")
    ensures |IntText(i)| == |ShowInt(i)| + 3
  {
    assert IntText(i) == "i:" + (ShowInt(i) + ";");
    HoldsConcat(s, pos, "i:", ShowInt(i) + ";");
  }

  lemma IntDecoded(s: seq<char>, pos: nat, i: int, scope: Scope, strict: bool)
    requires Holds(s, pos, IntText(i))
    ensures Grammar.DecodeItem(s, pos, scope, strict) == Ok(Step(Int(i), pos + |IntText(i)| - 1))
  {
    IntTextSplit(s, pos, i);
    MarkerHolds(s, pos, "i:", IntKind);
    IntRest(s, pos, i, pos + |IntText(i)| - 1, scope, strict);
  }

  /** An integer record past its marker. */
  lemma IntRest(s: seq<char>, pos: nat, i: int, end: nat, scope: Scope, strict: bool)
    requires pos + 2 <= |s| && GetType(s, pos) == Ok(Step(IntKind, pos + 2))
    requires Holds(s, pos + 2, ShowInt(i) + ";") && end == pos + 2 + |ShowInt(i)|
    ensures Grammar.DecodeItem(s, pos, scope, strict) == Ok(Step(Int(i), end))
  {
    ShowIntNoSemicolon(i);
    ParseShowInt(i);
    IntBody(s, pos + 2, ShowInt(i), i, end);
    IntItem(s, pos, Ok(Step(Int(i), end)), scope, strict);
  }

  lemma BoolDecoded(s: seq<char>, pos: nat, b: bool, scope: Scope, strict: bool)
    requires Holds(s, pos, "b:" + (if b then "1" else "0") + ";")
    ensures Grammar.DecodeItem(s, pos, scope, strict) == Ok(Step(Bool(b), pos + 3))
  {
    var t := "b:" + (if b then "1" else "0") + ";";
    HoldsChar(s, pos, t, 0);
    HoldsChar(s, pos, t, 1);
    HoldsChar(s, pos, t, 2);
    assert Scan.GetType(s, pos) == Ok(Step(BoolKind, pos + 2));
    assert s[pos + 2..pos + 3] == [t[2]];
  }

  /** Digits followed by `:` read as the length they spell. */
  lemma LengthDigits(s: seq<char>, p: nat, len: string)
    requires len != [] && AllDigits(len)
    requires Holds(s, p, len + ":")
    ensures GetLength(s, p) == Ok(Step(DigitsValue(len), p + |len|))
  {
    HoldsConcat(s, p, len, ":");
    HoldsChar(s, p + |len|, ":", 0);
    HoldsSlice(s, p, len);
    GetLengthAt(s, p, len);
  }

  /** The writer's spelling of a length, followed by `:`, reads as that length. */
  lemma LengthHolds(s: seq<char>, p: nat, n: nat)
    requires Holds(s, p, ShowNat(n) + ":")
    ensures GetLength(s, p) == Ok(Step(n, p + |ShowNat(n)|))
  {
    ShowNatDigits(n);
    LengthDigits(s, p, ShowNat(n));
  }

  /** A literal that is next in the input is consumed. */
  lemma SeekHolds(s: seq<char>, p: nat, lit: string)
    requires Holds(s, p, lit)
    ensures SeekExpected(s, p, lit) == Ok(Step((), p + |lit|))
  {
    HoldsSlice(s, p, lit);
  }

  /** Text without `d`, then `d`, is what `ReadUntil` reads. */
  lemma ReadUntilHolds(s: seq<char>, p: nat, t: string, d: char)
    requires Holds(s, p, t + [d]) && d !in t
    ensures ReadUntil(s, p, d) == Ok(Step(t, p + |t|))
  {
    HoldsConcat(s, p, t, [d]);
    HoldsChar(s, p + |t|, [d], 0);
    HoldsSlice(s, p, t);
    ReadUntilAt(s, p, d, p + |t|);
  }

  /** The steps of a string record after its marker, at named positions. */
  lemma StrSteps(s: seq<char>, p: nat, p1: nat, t: string, p3: nat, strict: bool)
    requires p <= |s|
    requires GetLength(s, p) == Ok(Step(Utf8Length(t), p1))
    requires SeekExpected(s, p1, ":\"") == Ok(Step((), p1 + 2))
    requires ReadUntil(s, p1 + 2, '"') == Ok(Step(t, p3))
    ensures Grammar.DecodeString(s, p, strict) == Ok(Step(Str(t), p3 + 1))
  {
  }

  /** The spelling of a string record, split at its marker. */
  lemma StrTextSplit(s: seq<char>, pos: nat, t: string)
    requires Holds(s, pos, StrText(t))
    ensures Holds(s, pos, "s:")
    ensures Holds(s, pos + 2, ShowNat(Utf8Length(t)) + ":\"" + t + "\"")
    ensures |StrText(t)| == |ShowNat(Utf8Length(t))| + |t| + 6
  {
    var rest := ShowNat(Utf8Length(t)) + ":\"" + t + "\"";
    assert StrText(t) == "s:" + rest + ";";
    HoldsConcat(s, pos, "s:" + rest, ";");
    HoldsConcat(s, pos, "s:", rest);
  }

  /** The length, `:"`, the text and its closing quote, one by one. */
  lemma StrBodySplit(s: seq<char>, p: nat, len: string, t: string)
    requires Holds(s, p, len + ":\"" + t + "\"")
    ensures Holds(s, p, len + ":")
    ensures Holds(s, p + |len|, ":\"")
    ensures Holds(s, p + |len| + 2, t + "\"")
  {
    assert len + ":\"" + t + "\"" == (len + ":") + "\"" + (t + "\"");
    HoldsConcat(s, p, (len + ":") + "\"", t + "\"");
    HoldsConcat(s, p, len + ":", "\"");
    assert len + ":\"" + t + "\"" == len + ":\"" + (t + "\"");
    HoldsConcat(s, p, len + ":\"", t + "\"");
    HoldsConcat(s, p, len, ":\"");
  }

  /** A string record after its marker decodes to the text. */
  lemma StrBody(s: seq<char>, p: nat, t: string, strict: bool)
    requires '"' !in t
    requires Holds(s, p, ShowNat(Utf8Length(t)) + ":\"" + t + "\"")
    ensures Grammar.DecodeString(s, p, strict) == Ok(Step(Str(t), p + |ShowNat(Utf8Length(t))| + 3 + |t|))
  {
    StrBodySplit(s, p, ShowNat(Utf8Length(t)), t);
    LengthHolds(s, p, Utf8Length(t));
    SeekHolds(s, p + |ShowNat(Utf8Length(t))|, ":\"");
    ReadUntilHolds(s, p + |ShowNat(Utf8Length(t))| + 2, t, '"');
    StrSteps(s, p, p + |ShowNat(Utf8Length(t))|, t, p + |ShowNat(Utf8Length(t))| + 2 + |t|, strict);
  }

  lemma StrDecoded(s: seq<char>, pos: nat, t: string, scope: Scope, strict: bool)
    requires '"' !in t
    requires Holds(s, pos, StrText(t))
    ensures Grammar.DecodeItem(s, pos, scope, strict) == Ok(Step(Str(t), pos + |StrText(t)| - 1))
  {
    StrTextSplit(s, pos, t);
    MarkerHolds(s, pos, "s:", StringKind);
    StrBody(s, pos + 2, t, strict);
    StrItem(s, pos, Ok(Step(Str(t), pos + |StrText(t)| - 1)), scope, strict);
  }

  /** The head of an `a:` container: the count, `:` and `{`. */
  lemma ArrayOpen(s: seq<char>, p: nat, n: nat)
    requires Holds(s, p, ShowNat(n) + ":{")
    ensures Scan.OpenByLength(s, p, "{") == Ok(Step(n, p + |ShowNat(n)| + 2))
  {
    OpenSplit(s, p, ShowNat(n));
    LengthHolds(s, p, n);
    SeekHolds(s, p + |ShowNat(n)|, ":{");
    OpenSteps(s, p, n, p + |ShowNat(n)|);
  }

  /** A count and `:{`, split at the `:`. */
  lemma OpenSplit(s: seq<char>, p: nat, len: string)
    requires Holds(s, p, len + ":{")
    ensures Holds(s, p, len + ":") && Holds(s, p + |len|, ":{")
  {
    assert len + ":{" == (len + ":") + "{";
    HoldsConcat(s, p, len + ":", "{");
    HoldsConcat(s, p, len, ":{");
  }

  /** A count, then `:{`, opens a container of that many entries. */
  lemma OpenSteps(s: seq<char>, p: nat, n: nat, p1: nat)
    requires p <= |s| && GetLength(s, p) == Ok(Step(n, p1))
    requires SeekExpected(s, p1, ":{") == Ok(Step((), p1 + 2))
    ensures Scan.OpenByLength(s, p, "{") == Ok(Step(n, p1 + 2))
  {
    assert [':'] + "{" == ":{";
  }

  /** A container whose head and list pairs are read, followed by `}`. */
  lemma ArrayClose(s: seq<char>, p: nat, n: nat, p1: nat, items: seq<Value>, q: nat, scope: Scope, strict: bool)
    requires p <= |s|
    requires Scan.OpenByLength(s, p, "{") == Ok(Step(n, p1))
    requires Grammar.DecodePairs(s, p1, n, scope, strict) == Ok(Step(ListPairs(items), q))
    requires q < |s| && s[q] == '}'
    ensures Grammar.DecodeArray(s, p, scope, strict) == Ok(Step(List(items), q + 1))
  {
    assert s[q..q + 1] == "}";
    ListPairsContainer(items);
  }

  /** A scalar's spelling decodes to the scalar. */
  lemma ScalarDecoded(s: seq<char>, pos: nat, v: Value, scope: Scope, strict: bool)
    requires Encodable(v) && !v.List?
    requires Holds(s, pos, Encode(v))
    ensures Grammar.DecodeItem(s, pos, scope, strict) == Ok(Step(v, pos + |Encode(v)| - Trail(v)))
  {
    if v.Null? {
      NullEncoded(s, pos, v, scope, strict);
    } else if v.Int? {
      IntEncoded(s, pos, v, scope, strict);
    } else if v.Bool? {
      BoolEncoded(s, pos, v, scope, strict);
    } else {
      StrEncoded(s, pos, v, scope, strict);
    }
  }

  lemma NullEncoded(s: seq<char>, pos: nat, v: Value, scope: Scope, strict: bool)
    requires v.Null? && Encodable(v) && Holds(s, pos, Encode(v))
    ensures Grammar.DecodeItem(s, pos, scope, strict) == Ok(Step(v, pos + |Encode(v)| - Trail(v)))
  {
    assert Encode(v) == "N;";
    NullDecoded(s, pos, scope, strict);
  }

  lemma IntEncoded(s: seq<char>, pos: nat, v: Value, scope: Scope, strict: bool)
    requires v.Int? && Encodable(v) && Holds(s, pos, Encode(v))
    ensures Grammar.DecodeItem(s, pos, scope, strict) == Ok(Step(v, pos + |Encode(v)| - Trail(v)))
  {
    assert Encode(v) == IntText(v.i);
    IntDecoded(s, pos, v.i, scope, strict);
  }

  lemma BoolEncoded(s: seq<char>, pos: nat, v: Value, scope: Scope, strict: bool)
    requires v.Bool? && Encodable(v) && Holds(s, pos, Encode(v))
    ensures Grammar.DecodeItem(s, pos, scope, strict) == Ok(Step(v, pos + |Encode(v)| - Trail(v)))
  {
    assert Encode(v) == "b:" + (if v.b then "1" else "0") + ";";
    BoolDecoded(s, pos, v.b, scope, strict);
  }

  lemma StrEncoded(s: seq<char>, pos: nat, v: Value, scope: Scope, strict: bool)
    requires v.Str? && Encodable(v) && Holds(s, pos, Encode(v))
    ensures Grammar.DecodeItem(s, pos, scope, strict) == Ok(Step(v, pos + |Encode(v)| - Trail(v)))
  {
    assert Encode(v) == StrText(v.s) && '"' !in v.s;
    StrDecoded(s, pos, v.s, scope, strict);
  }

  /** Decoding a value's spelling, wherever it stands in the input, gives the
      value back and stops at the end of the spelling, before a final `;` it
      leaves for the pair loop. */
  lemma {:induction false} DecodeEncoded(s: seq<char>, pos: nat, v: Value, scope: Scope, strict: bool)
    requires Encodable(v)
    requires Holds(s, pos, Encode(v))
    decreases v, 2, 0
    ensures Grammar.DecodeItem(s, pos, scope, strict) == Ok(Step(v, pos + |Encode(v)| - Trail(v)))
  {
    if v.List? {
      ListDecoded(s, pos, v, scope, strict);
    } else {
      ScalarDecoded(s, pos, v, scope, strict);
    }
  }

  /** The spelling of a list, split into its marker, its head, its entries
      and the closing `}`. */
  lemma ListTextSplit(s: seq<char>, pos: nat, v: Value)
    requires v.List? && Encodable(v)
    requires Holds(s, pos, Encode(v))
    ensures Holds(s, pos, "a:")
    ensures Holds(s, pos + 2, ShowNat(|v.items|) + ":{")
    ensures Holds(s, pos + 4 + |ShowNat(|v.items|)|, PairsText(v, 0))
    ensures |Encode(v)| == |ShowNat(|v.items|)| + |PairsText(v, 0)| + 5
    ensures s[pos + 4 + |ShowNat(|v.items|)| + |PairsText(v, 0)|] == '}'
  {
    var len := ShowNat(|v.items|);
    var body := PairsText(v, 0);
    assert Encode(v) == "a:" + (len + ":{") + body + "}";
    HoldsConcat(s, pos, "a:" + (len + ":{") + body, "}");
    HoldsConcat(s, pos, "a:" + (len + ":{"), body);
    HoldsConcat(s, pos, "a:", len + ":{");
    HoldsChar(s, pos + |Encode(v)| - 1, "}", 0);
  }

  /** The head of a list's spelling read: its marker and its count, then
      the entries, then `}`. */
  lemma ListHead(s: seq<char>, pos: nat, v: Value)
    requires v.List? && Encodable(v)
    requires Holds(s, pos, Encode(v))
    ensures GetType(s, pos) == Ok(Step(ArrayObject, pos + 2))
    ensures Scan.OpenByLength(s, pos + 2, "{") == Ok(Step(|v.items|, pos + 4 + |ShowNat(|v.items|)|))
    ensures Holds(s, pos + 4 + |ShowNat(|v.items|)|, PairsText(v, 0))
    ensures pos + 4 + |ShowNat(|v.items|)| + |PairsText(v, 0)| < |s|
    ensures s[pos + 4 + |ShowNat(|v.items|)| + |PairsText(v, 0)|] == '}'
    ensures |Encode(v)| == |ShowNat(|v.items|)| + |PairsText(v, 0)| + 5
  {
    ListTextSplit(s, pos, v);
    MarkerHolds(s, pos, "a:", ArrayObject);
    ArrayOpen(s, pos + 2, |v.items|);
  }

  /** A list record read step by step, at named positions. */
  lemma ListSteps(s: seq<char>, pos: nat, n: nat, p2: nat, items: seq<Value>, q: nat, scope: Scope, strict: bool)
    requires pos + 2 <= |s| && GetType(s, pos) == Ok(Step(ArrayObject, pos + 2))
    requires Scan.OpenByLength(s, pos + 2, "{") == Ok(Step(n, p2))
    requires Grammar.DecodePairs(s, p2, n, scope, strict) == Ok(Step(ListPairs(items), q))
    requires q < |s| && s[q] == '}'
    ensures Grammar.DecodeItem(s, pos, scope, strict) == Ok(Step(List(items), q + 1))
  {
    ArrayClose(s, pos + 2, n, p2, items, q, scope, strict);
    ArrayItem(s, pos, Ok(Step(List(items), q + 1)), scope, strict);
  }

  lemma {:induction false} ListDecoded(s: seq<char>, pos: nat, v: Value, scope: Scope, strict: bool)
    requires v.List? && Encodable(v)
    requires Holds(s, pos, Encode(v))
    decreases v, 1, |v.items| + 1
    ensures Grammar.DecodeItem(s, pos, scope, strict) == Ok(Step(v, pos + |Encode(v)|))
  {
    ListHead(s, pos, v);
    ListRest(s, pos, v, pos + 4 + |ShowNat(|v.items|)|, pos + 4 + |ShowNat(|v.items|)| + |PairsText(v, 0)|,
             scope, strict);
  }

  /** A list whose head has been read at `pos`: its entries run from `p2`
      to the closing `}` at `q`. */
  lemma {:induction false} ListRest(s: seq<char>, pos: nat, v: Value, p2: nat, q: nat, scope: Scope, strict: bool)
    requires v.List? && Encodable(v)
    requires pos + 2 <= |s| && GetType(s, pos) == Ok(Step(ArrayObject, pos + 2))
    requires Scan.OpenByLength(s, pos + 2, "{") == Ok(Step(|v.items|, p2))
    requires Holds(s, p2, PairsText(v, 0)) && q == p2 + |PairsText(v, 0)|
    requires q < |s| && s[q] == '}'
    decreases v, 1, 0
    ensures Grammar.DecodeItem(s, pos, scope, strict) == Ok(Step(v, q + 1))
  {
    PairsDecoded(s, p2, v, scope, strict);
    ListSteps(s, pos, |v.items|, p2, v.items, q, scope, strict);
  }

  /** The entries from `j` on, split into the entry at `j` and the rest;
      neither the first entry nor the rest is followed by a `;`. */
  lemma PairsTextSplit(s: seq<char>, p: nat, v: Value, j: nat)
    requires v.List? && Encodable(v) && j < |v.items|
    requires Holds(s, p, PairsText(v, j)) && p + |PairsText(v, j)| < |s| && s[p + |PairsText(v, j)|] != ';'
    ensures Holds(s, p, IntText(j) + Encode(v.items[j]))
    ensures Holds(s, p + |IntText(j) + Encode(v.items[j])|, PairsText(v, j + 1))
    ensures |PairsText(v, j)| == |IntText(j) + Encode(v.items[j])| + |PairsText(v, j + 1)|
    ensures s[p + |IntText(j) + Encode(v.items[j])|] != ';'
  {
    var head := IntText(j) + Encode(v.items[j]);
    var rest := PairsText(v, j + 1);
    assert PairsText(v, j) == head + rest;
    HoldsConcat(s, p, head, rest);
    if j + 1 < |v.items| {
      PairsTextStart(v, j + 1);
      HoldsChar(s, p + |head|, rest, 0);
    }
  }

  /** Where each entry of a list's spelling starts, for entries that end
      at `e`; the last position is `e` itself. */
  function Starts(v: Value, e: int): seq<int>
    requires v.List? && Encodable(v)
  {
    seq(|v.items| + 1, i requires 0 <= i <= |v.items| => e - |PairsText(v, i)|)
  }

  /** The entry at `i` of a list's spelling stands at `a` and ends at `b`,
      where no `;` follows. */
  predicate EntryAt(s: seq<char>, a: int, b: int, v: Value, i: nat)
    requires v.List? && Encodable(v) && i < |v.items|
  {
    0 <= a && Holds(s, a, IntText(i) + Encode(v.items[i]))
    && b == a + |IntText(i) + Encode(v.items[i])| && b < |s| && s[b] != ';'
  }

  /** Every entry of a list's spelling stands at its start. */
  predicate Laid(s: seq<char>, starts: seq<int>, v: Value)
    requires v.List? && Encodable(v)
  {
    |starts| == |v.items| + 1 &&
    forall i :: 0 <= i < |v.items| ==> EntryAt(s, starts[i], starts[i + 1], v, i)
  }

  /** The entries from `j` on, spelled at `p` and ending at `e`: the one at
      `i` stands at its start. */
  lemma {:induction false} LaidAt(s: seq<char>, p: nat, v: Value, j: nat, e: int, i: nat)
    requires v.List? && Encodable(v) && j <= i < |v.items|
    requires Holds(s, p, PairsText(v, j)) && e == p + |PairsText(v, j)| && e < |s| && s[e] != ';'
    decreases i - j
    ensures EntryAt(s, Starts(v, e)[i], Starts(v, e)[i + 1], v, i)
  {
    EntryHead(s, p, v, j, e);
    if j < i {
      LaidAt(s, p + |IntText(j) + Encode(v.items[j])|, v, j + 1, e, i);
    }
  }

  /** The first of the entries from `j` on stands at its start, and the
      rest follow it. */
  lemma EntryHead(s: seq<char>, p: nat, v: Value, j: nat, e: int)
    requires v.List? && Encodable(v) && j < |v.items|
    requires Holds(s, p, PairsText(v, j)) && e == p + |PairsText(v, j)| && e < |s| && s[e] != ';'
    ensures EntryAt(s, Starts(v, e)[j], Starts(v, e)[j + 1], v, j)
    ensures Holds(s, p + |IntText(j) + Encode(v.items[j])|, PairsText(v, j + 1))
    ensures e == p + |IntText(j) + Encode(v.items[j])| + |PairsText(v, j + 1)|
  {
    PairsTextSplit(s, p, v, j);
    assert Starts(v, e)[j] == p;
    assert Starts(v, e)[j + 1] == p + |IntText(j) + Encode(v.items[j])|;
  }

  /** A first pair and the rest make up the pairs. */
  lemma PairsCons(s: seq<char>, p: nat, n: nat, pair: Pair, q: nat, rest: seq<Pair>, r: nat, scope: Scope, strict: bool)
    requires p <= |s| && n > 0
    requires Grammar.DecodePair(s, p, scope, strict) == Ok(Step(pair, q))
    requires Grammar.DecodePairs(s, q, n - 1, scope, strict) == Ok(Step(rest, r))
    ensures Grammar.DecodePairs(s, p, n, scope, strict) == Ok(Step([pair] + rest, r))
  {
  }

  /** The entries of a list's spelling, when what follows them is not a
      `;`, decode to the list pairs. */
  lemma {:induction false} PairsDecoded(s: seq<char>, p: nat, v: Value, scope: Scope, strict: bool)
    requires v.List? && Encodable(v)
    requires Holds(s, p, PairsText(v, 0)) && p + |PairsText(v, 0)| < |s| && s[p + |PairsText(v, 0)|] != ';'
    decreases v, 0, 3
    ensures Grammar.DecodePairs(s, p, |v.items|, scope, strict) == Ok(Step(ListPairs(v.items), p + |PairsText(v, 0)|))
  {
    LaidAll(s, p, v, p + |PairsText(v, 0)|);
    EntriesDecoded(s, v, p, p + |PairsText(v, 0)|, scope, strict);
  }

  lemma LaidAll(s: seq<char>, p: nat, v: Value, e: int)
    requires v.List? && Encodable(v)
    requires Holds(s, p, PairsText(v, 0)) && e == p + |PairsText(v, 0)| && e < |s| && s[e] != ';'
    ensures Laid(s, Starts(v, e), v) && p == e - |PairsText(v, 0)| && 0 <= e < |s|
  {
    forall i | 0 <= i < |v.items| ensures EntryAt(s, Starts(v, e)[i], Starts(v, e)[i + 1], v, i) {
      LaidAt(s, p, v, 0, e, i);
    }
  }

  /** Pairs that decode one after another, each where the last one ended. */
  predicate Chained(s: seq<char>, starts: seq<int>, pairs: seq<Pair>, scope: Scope, strict: bool)
  {
    |starts| == |pairs| + 1 &&
    forall i :: 0 <= i < |pairs| ==> Link(s, starts[i], starts[i + 1], pairs[i], scope, strict)
  }

  /** `pair` decodes at `a` and the pair loop goes on at `b`. */
  predicate Link(s: seq<char>, a: int, b: int, pair: Pair, scope: Scope, strict: bool)
  {
    0 <= a <= |s| && 0 <= b && Grammar.DecodePair(s, a, scope, strict) == Ok(Step(pair, b))
  }

  /** Chained pairs from `k` on are what the pair loop reads from there. */
  lemma {:induction false} ChainDecoded(s: seq<char>, starts: seq<int>, pairs: seq<Pair>, k: nat, scope: Scope, strict: bool)
    requires Chained(s, starts, pairs, scope, strict) && k <= |pairs| && 0 <= starts[|pairs|] <= |s|
    decreases |pairs| - k
    ensures 0 <= starts[k] <= |s|
    ensures Grammar.DecodePairs(s, starts[k], |pairs| - k, scope, strict) == Ok(Step(pairs[k..], starts[|pairs|]))
  {
    if k < |pairs| {
      ChainDecoded(s, starts, pairs, k + 1, scope, strict);
      assert pairs[k..] == [pairs[k]] + pairs[k + 1..];
      assert |pairs| - k - 1 == |pairs| - (k + 1);
      PairsCons(s, starts[k], |pairs| - k, pairs[k], starts[k + 1], pairs[k + 1..], starts[|pairs|], scope, strict);
    } else {
      assert pairs[k..] == [];
    }
  }

  /** The entry at `i` of a list's spelling decodes to its pair. */
  lemma {:induction false} EntryDecoded(s: seq<char>, a: int, b: int, v: Value, i: nat, x: Pair, scope: Scope, strict: bool)
    requires v.List? && Encodable(v) && i < |v.items|
    requires EntryAt(s, a, b, v, i) && x == Pair(Int(i), v.items[i])
    decreases v, 0, 1
    ensures Link(s, a, b, x, scope, strict)
  {
    PairDecoded(s, a, v, i, scope, strict);
  }

  /** Laid-out entries, from `p` to `e`, decode to the list pairs. */
  lemma {:induction false} EntriesDecoded(s: seq<char>, v: Value, p: nat, e: int, scope: Scope, strict: bool)
    requires v.List? && Encodable(v)
    requires Laid(s, Starts(v, e), v) && p == e - |PairsText(v, 0)| && 0 <= e < |s|
    decreases v, 0, 2
    ensures Grammar.DecodePairs(s, p, |v.items|, scope, strict) == Ok(Step(ListPairs(v.items), e))
  {
    forall i | 0 <= i < |v.items|
      ensures Link(s, Starts(v, e)[i], Starts(v, e)[i + 1], ListPairs(v.items)[i], scope, strict)
    {
      EntryDecoded(s, Starts(v, e)[i], Starts(v, e)[i + 1], v, i, ListPairs(v.items)[i], scope, strict);
    }
    ChainDecoded(s, Starts(v, e), ListPairs(v.items), 0, scope, strict);
    assert ListPairs(v.items)[0..] == ListPairs(v.items);
  }

  /** One entry of a list — its key, `;`, its value — decodes to the pair,
      when what follows it is not a `;`. */
  lemma {:induction false} PairDecoded(s: seq<char>, p: nat, v: Value, j: nat, scope: Scope, strict: bool)
    requires v.List? && Encodable(v) && j < |v.items|
    requires Holds(s, p, IntText(j) + Encode(v.items[j]))
    requires p + |IntText(j) + Encode(v.items[j])| < |s| && s[p + |IntText(j) + Encode(v.items[j])|] != ';'
    decreases v, 0, 0
    ensures Grammar.DecodePair(s, p, scope, strict)
            == Ok(Step(Pair(Int(j), v.items[j]), p + |IntText(j) + Encode(v.items[j])|))
  {
    PairTextFacts(s, p, v, j);
    PairParts(s, p, j, v.items[j], p + |IntText(j) + Encode(v.items[j])|, scope, strict);
  }

  /** A key `j` spelled at `p`, then a value spelled right after it: the
      pair, which ends at `end`. */
  lemma {:induction false} PairParts(s: seq<char>, p: nat, j: nat, x: Value, end: nat, scope: Scope, strict: bool)
    requires Encodable(x)
    requires Holds(s, p, IntText(j)) && Holds(s, p + |IntText(j)|, Encode(x)) && s[p + |IntText(j)| - 1] == ';'
    requires var p3 := p + |IntText(j)| + |Encode(x)| - Trail(x);
             end == if p3 < |s| && s[p3] == ';' then p3 + 1 else p3
    decreases x, 3
    ensures Grammar.DecodePair(s, p, scope, strict) == Ok(Step(Pair(Int(j), x), end))
  {
    PairAt(s, p, j, x, p + |IntText(j)|, p + |IntText(j)| + |Encode(x)| - Trail(x), end, scope, strict);
  }

  /** A key and a value spelled at named positions: the value starts at
      `q`, and its decoding stops at `p3`. */
  lemma {:induction false} PairAt(s: seq<char>, p: nat, j: nat, x: Value, q: nat, p3: nat, end: nat, scope: Scope, strict: bool)
    requires Encodable(x)
    requires Holds(s, p, IntText(j)) && q == p + |IntText(j)| && s[q - 1] == ';'
    requires Holds(s, q, Encode(x)) && p3 == q + |Encode(x)| - Trail(x)
    requires end == if p3 < |s| && s[p3] == ';' then p3 + 1 else p3
    decreases x, 2, 1
    ensures Grammar.DecodePair(s, p, scope, strict) == Ok(Step(Pair(Int(j), x), end))
  {
    IntDecoded(s, p, j, scope, strict);
    DecodeEncoded(s, q, x, scope, strict);
    PairSteps(s, p, q, Int(j), x, p3, end, scope, strict);
  }

  /** What the spelling of an entry says about its parts: the key, `;`,
      the value, and where the pair loop stops after it. */
  lemma PairTextFacts(s: seq<char>, p: nat, v: Value, j: nat)
    requires v.List? && Encodable(v) && j < |v.items|
    requires Holds(s, p, IntText(j) + Encode(v.items[j]))
    requires p + |IntText(j) + Encode(v.items[j])| < |s| && s[p + |IntText(j) + Encode(v.items[j])|] != ';'
    ensures Encodable(v.items[j])
    ensures Holds(s, p, IntText(j))
    ensures Holds(s, p + |IntText(j)|, Encode(v.items[j]))
    ensures s[p + |IntText(j)| - 1] == ';'
    ensures var p3 := p + |IntText(j)| + |Encode(v.items[j])| - Trail(v.items[j]);
            (if p3 < |s| && s[p3] == ';' then p3 + 1 else p3) == p + |IntText(j) + Encode(v.items[j])|
  {
    var key := IntText(j);
    var e := Encode(v.items[j]);
    HoldsConcat(s, p, key, e);
    HoldsChar(s, p, key, |key| - 1);
    EncodeShape(v.items[j]);
    PairEnd(s, p + |key|, e, Trail(v.items[j]));
  }

  /** A key ending just before a `;`, then a value: the pair, at named positions. */
  lemma PairSteps(s: seq<char>, p: nat, q: nat, key: Value, value: Value, p3: nat, end: nat, scope: Scope, strict: bool)
    requires p <= |s| && 0 < q <= |s|
    requires Grammar.DecodeItem(s, p, scope, strict) == Ok(Step(key, q - 1))
    requires s[q - 1] == ';'
    requires Grammar.DecodeItem(s, q, scope, strict) == Ok(Step(value, p3))
    requires end == if p3 < |s| && s[p3] == ';' then p3 + 1 else p3
    ensures Grammar.DecodePair(s, p, scope, strict) == Ok(Step(Pair(key, value), end))
  {
    GrammarFacts.PairRead(s, p, scope, strict, key, q - 1, value, p3);
  }

  /** Where the pair loop stops after a value spelled `e` at `q`: past the
      final `;` of `e` when the value's branch left it unread, and at the
      end of `e` otherwise, when no `;` follows. */
  lemma PairEnd(s: seq<char>, q: nat, e: string, t: nat)
    requires Holds(s, q, e) && t <= 1 && t <= |e|
    requires t == 1 ==> e[|e| - 1] == ';'
    requires q + |e| < |s| && s[q + |e|] != ';'
    ensures var p3 := q + |e| - t; (if p3 < |s| && s[p3] == ';' then p3 + 1 else p3) == q + |e|
  {
    if t == 1 {
      HoldsChar(s, q, e, |e| - 1);
    }
  }

  /** The round trip: decoding the spelling of a value gives the value, in
      either mode and whatever the scope. */
  lemma RoundTrip(v: Value, scope: Scope, options: Options)
    requires Encodable(v)
    ensures Grammar.Decode(Encode(v), scope, options) == Ok(v)
  {
    HoldsSuffix(Encode(v), 0);
    DecodeEncoded(Encode(v), 0, v, scope, options.strict);
  }
}
