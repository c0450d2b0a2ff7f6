/** The rules of the format, stated about the functions of `Grammar`: how
    many pairs a container yields and in which order, where `;` is required
    and where it is optional, what each record kind decodes to, and what
    makes a record fail. */
module GrammarFacts {
  import opened Results
  import opened Values
  import opened Scan
  import opened Grammar
  import Containers

  // ---------------------------------------------------------------- pairs

  lemma PrependEmpty(rest: Result<Step<seq<Pair>>>)
    ensures Prepend([], rest) == rest
  {
    if rest.Ok? {
      assert [] + rest.value.val == rest.value.val;
    }
  }

  /** Putting `a` and then `b` in front is putting `a + b` in front. */
  lemma PrependPrepend(a: seq<Pair>, b: seq<Pair>, rest: Result<Step<seq<Pair>>>)
    ensures Prepend(a, Prepend(b, rest)) == Prepend(a + b, rest)
  {
    if rest.Ok? {
      assert a + (b + rest.value.val) == (a + b) + rest.value.val;
    }
  }

  /** A declared count of `n` gives exactly `n` pairs, never fewer or more. */
  lemma {:induction false} PairsCount(s: seq<char>, pos: nat, n: nat, scope: Scope, strict: bool)
    requires pos <= |s|
    decreases n
    ensures DecodePairs(s, pos, n, scope, strict).Ok? ==> |DecodePairs(s, pos, n, scope, strict).value.val| == n
  {
    if n > 0 {
      match DecodePair(s, pos, scope, strict)
      case Err(_) =>
      case Ok(Step(_, p)) => PairsCount(s, p, n - 1, scope, strict);
    }
  }

  /** Reading `m + k` pairs is reading `m` pairs and then `k` more from where
      the first `m` stopped; the first `m` come first. */
  lemma {:induction false} PairsSplit(s: seq<char>, pos: nat, m: nat, k: nat, scope: Scope, strict: bool)
    requires pos <= |s|
    decreases m
    ensures DecodePairs(s, pos, m + k, scope, strict) ==
      match DecodePairs(s, pos, m, scope, strict)
      case Err(e) => Err(e)
      case Ok(Step(first, q)) => Prepend(first, DecodePairs(s, q, k, scope, strict))
  {
    if m == 0 {
      PrependEmpty(DecodePairs(s, pos, k, scope, strict));
    } else {
      match DecodePair(s, pos, scope, strict)
      case Err(_) =>
      case Ok(Step(p, q1)) =>
        PairsSplit(s, q1, m - 1, k, scope, strict);
        assert m + k - 1 == (m - 1) + k;
        match DecodePairs(s, q1, m - 1, scope, strict)
        case Err(_) =>
        case Ok(Step(more, q)) =>
          PrependPrepend([p], more, DecodePairs(s, q, k, scope, strict));
    }
  }

  /** The first of `n > 0` pairs is the pair read at the start. */
  lemma PairsHead(s: seq<char>, pos: nat, n: nat, scope: Scope, strict: bool)
    requires pos <= |s| && n > 0
    requires DecodePairs(s, pos, n, scope, strict).Ok?
    ensures DecodePair(s, pos, scope, strict).Ok?
    ensures |DecodePairs(s, pos, n, scope, strict).value.val| > 0
    ensures DecodePairs(s, pos, n, scope, strict).value.val[0] == DecodePair(s, pos, scope, strict).value.val
  {
  }

  /** Arrival order: the `i`-th pair of a container is the pair that starts
      where the first `i` pairs end. */
  lemma PairsInOrder(s: seq<char>, pos: nat, n: nat, scope: Scope, strict: bool, i: nat)
    requires pos <= |s| && i < n
    requires DecodePairs(s, pos, n, scope, strict).Ok?
    ensures |DecodePairs(s, pos, n, scope, strict).value.val| == n
    ensures DecodePairs(s, pos, i, scope, strict).Ok?
    ensures DecodePair(s, DecodePairs(s, pos, i, scope, strict).value.next, scope, strict).Ok?
    ensures DecodePairs(s, pos, n, scope, strict).value.val[i]
         == DecodePair(s, DecodePairs(s, pos, i, scope, strict).value.next, scope, strict).value.val
  {
    PairsCount(s, pos, n, scope, strict);
    PairsSplit(s, pos, i, n - i, scope, strict);
    assert i + (n - i) == n;
    var Step(first, q) := DecodePairs(s, pos, i, scope, strict).value;
    PairsCount(s, pos, i, scope, strict);
    var rest := DecodePairs(s, q, n - i, scope, strict);
    assert DecodePairs(s, pos, n, scope, strict).value.val == first + rest.value.val;
    PairsHead(s, q, n - i, scope, strict);
  }

  // ----------------------------------------------------------- separators

  /** A key read up to `p1`, the `;` there, and a value read up to `p3` make a
      pair; a `;` right after the value is consumed, and its absence is no
      error. */
  lemma PairRead(s: seq<char>, pos: nat, scope: Scope, strict: bool, key: Value, p1: nat, value: Value, p3: nat)
    requires pos <= |s|
    requires DecodeItem(s, pos, scope, strict) == Ok(Step(key, p1))
    requires p1 < |s| && s[p1] == ';'
    requires DecodeItem(s, p1 + 1, scope, strict) == Ok(Step(value, p3))
    ensures DecodePair(s, pos, scope, strict)
            == Ok(Step(Pair(key, value), if p3 < |s| && s[p3] == ';' then p3 + 1 else p3))
  {
    assert s[p1..p1 + 1] == [s[p1]];
    assert SeekExpected(s, p1, ";") == Ok(Step((), p1 + 1));
  }

  /** The `;` between a key and its value is required. */
  lemma KeySeparatorRequired(s: seq<char>, pos: nat, scope: Scope, strict: bool, key: Value, p1: nat)
    requires pos <= |s|
    requires DecodeItem(s, pos, scope, strict) == Ok(Step(key, p1))
    requires !(p1 < |s| && s[p1] == ';')
    ensures DecodePair(s, pos, scope, strict) == Err(UnexpectedToken(";", p1))
  {
    if p1 + 1 <= |s| {
      assert s[p1..p1 + 1][0] == s[p1];
    }
    assert SeekExpected(s, p1, ";") == Err(UnexpectedToken(";", p1));
  }

  /** A value that fails to decode after a key and its `;` fails the pair. */
  lemma PairValueFails(s: seq<char>, pos: nat, scope: Scope, strict: bool, key: Value, p1: nat, e: Error)
    requires pos <= |s|
    requires DecodeItem(s, pos, scope, strict) == Ok(Step(key, p1))
    requires p1 < |s| && s[p1] == ';'
    requires DecodeItem(s, p1 + 1, scope, strict) == Err(e)
    ensures DecodePair(s, pos, scope, strict) == Err(e)
  {
    assert SeekExpected(s, p1, ";") == Ok(Step((), p1 + 1));
  }

  // -------------------------------------------------------------- records

  /** `N;` and nothing else decodes to null, consuming both characters. */
  lemma NullRecord(s: seq<char>, pos: nat, scope: Scope, strict: bool)
    requires pos < |s| && s[pos] == 'N'
    ensures DecodeItem(s, pos, scope, strict).Ok? <==> pos + 2 <= |s| && s[pos + 1] == ';'
    ensures DecodeItem(s, pos, scope, strict).Ok? ==> DecodeItem(s, pos, scope, strict).value == Step(Null, pos + 2)
  {
  }

  /** `b:<c>` is true exactly when `c` is `1`; any other character is false. */
  lemma BoolRecord(s: seq<char>, pos: nat, scope: Scope, strict: bool)
    requires pos + 3 <= |s| && s[pos] == 'b' && s[pos + 1] == ':'
    ensures DecodeItem(s, pos, scope, strict) == Ok(Step(Bool(s[pos + 2] == '1'), pos + 3))
  {
    assert SeekExpected(s, pos + 1, [':']) == Ok(Step((), pos + 2));
    assert s[pos + 2..pos + 3] == [s[pos + 2]];
  }

  /** A `b:` with no character after it runs off the end of the input. */
  lemma BoolTruncated(s: seq<char>, pos: nat, scope: Scope, strict: bool)
    requires pos + 2 == |s| && s[pos] == 'b' && s[pos + 1] == ':'
    ensures DecodeItem(s, pos, scope, strict) == Err(UnexpectedEnd(pos + 2))
  {
    assert SeekExpected(s, pos + 1, [':']) == Ok(Step((), pos + 2));
  }

  /** An `i:` record is its literal up to the next `;`, which is left for the
      caller, and the literal must parse as an integer. */
  lemma IntRecord(s: seq<char>, pos: nat, scope: Scope, strict: bool)
    requires pos < |s| && s[pos] == 'i'
    requires DecodeItem(s, pos, scope, strict).Ok?
    ensures var Step(v, q) := DecodeItem(s, pos, scope, strict).value;
      pos + 2 <= q < |s| && s[pos + 1] == ':' && s[q] == ';' && ';' !in s[pos + 2..q]
      && v.Int? && ParseInteger(s[pos + 2..q]) == Ok(v.i)
  {
    ReadUntilFinds(s, pos + 2, ';');
  }

  /** A marker character outside `N i d b s a O C` fails, whatever the mode. */
  lemma UnknownMarker(s: seq<char>, pos: nat, scope: Scope)
    requires pos < |s| && KindOf(s[pos]).None?
    ensures DecodeItem(s, pos, scope, true) == Err(UnknownType(s[pos]))
    ensures DecodeItem(s, pos, scope, false) == Err(UnknownType(s[pos]))
  {
  }

  /** An `s:` record is its text between `:"` and the first `"` after it; a
      declared length that is not the text's UTF-8 byte length is an error in
      strict mode and ignored otherwise. */
  lemma StringRecord(s: seq<char>, pos: nat, scope: Scope, strict: bool)
    requires pos < |s| && s[pos] == 's'
    requires DecodeItem(s, pos, scope, strict).Ok?
    ensures ScanString(s, pos + 2).Ok?
    ensures var lit := ScanString(s, pos + 2).value.val;
      DecodeItem(s, pos, scope, strict).value == Step(Str(lit.text), ScanString(s, pos + 2).value.next)
      && (strict ==> Utf8Length(lit.text) == lit.declared)
  {
  }

  /** A well-formed `s:` record in each mode: lenient mode returns the text
      whatever length was declared; strict mode returns it only when the
      declared length is its UTF-8 byte length. */
  lemma StringByMode(s: seq<char>, pos: nat, scope: Scope, strict: bool, lit: StringLiteral, q: nat)
    requires pos + 2 <= |s| && s[pos] == 's' && s[pos + 1] == ':'
    requires ScanString(s, pos + 2) == Ok(Step(lit, q))
    ensures DecodeItem(s, pos, scope, strict)
         == if strict && Utf8Length(lit.text) != lit.declared
            then Err(StringLengthMismatch(lit.declared, Utf8Length(lit.text)))
            else Ok(Step(Str(lit.text), q))
  {
    assert SeekExpected(s, pos + 1, [':']) == Ok(Step((), pos + 2));
  }

  /** An `a:` record holds exactly the declared number of pairs and decodes to
      the container they make: a list as long as the count, or a map that
      has at most that many keys. */
  lemma ArrayRecord(s: seq<char>, pos: nat, scope: Scope, strict: bool)
    requires pos <= |s|
    requires DecodeArray(s, pos, scope, strict).Ok?
    ensures OpenByLength(s, pos, "{").Ok?
    ensures var Step(n, p1) := OpenByLength(s, pos, "{").value;
      DecodePairs(s, p1, n, scope, strict).Ok?
      && DecodeArray(s, pos, scope, strict).value.val
         == Containers.ContainerOf(DecodePairs(s, p1, n, scope, strict).value.val)
    ensures var Step(n, _) := OpenByLength(s, pos, "{").value;
      var v := DecodeArray(s, pos, scope, strict).value.val;
      (v.List? || v.Map?) && (v.List? ==> |v.items| == n) && (v.Map? ==> |v.entries| <= n)
  {
    var Step(n, p1) := OpenByLength(s, pos, "{").value;
    var pairs := DecodePairs(s, p1, n, scope, strict).value.val;
    PairsCount(s, p1, n, scope, strict);
    Containers.LastWinsSize(Containers.Entries(pairs));
  }

  /** An `O:` record is its header, exactly the declared number of pairs,
      and what `ObjectOf` makes of them. */
  lemma ObjectRecord(s: seq<char>, pos: nat, scope: Scope, strict: bool)
    requires pos <= |s|
    requires DecodeObject(s, pos, scope, strict).Ok?
    ensures ObjectHead(s, pos).Ok?
    ensures var Step(head, p) := ObjectHead(s, pos).value;
      DecodePairs(s, p, head.count, scope, strict).Ok?
      && |DecodePairs(s, p, head.count, scope, strict).value.val| == head.count
      && ObjectOf(head.name, DecodePairs(s, p, head.count, scope, strict).value.val, scope, strict)
         == Ok(DecodeObject(s, pos, scope, strict).value.val)
  {
    var Step(head, p) := ObjectHead(s, pos).value;
    PairsCount(s, p, head.count, scope, strict);
  }

  /** A `C:` record is its header and what `CustomOf` makes of it. */
  lemma CustomRecord(s: seq<char>, pos: nat, scope: Scope, strict: bool)
    requires pos <= |s|
    requires DecodeCustom(s, pos, scope, strict).Ok?
    ensures CustomHead(s, pos).Ok?
    ensures var head := CustomHead(s, pos).value.val;
      CustomOf(head.name, head.payload, scope, strict) == Ok(DecodeCustom(s, pos, scope, strict).value.val)
  {
  }

  /** A well-formed `C:` record whose class is in scope without an
      `unserialize` hook fails, in either mode. */
  lemma CustomHookMissing(s: seq<char>, pos: nat, scope: Scope, strict: bool)
    requires pos <= |s|
    requires CustomHead(s, pos).Ok?
    requires var name := CustomHead(s, pos).value.val.name;
      name in scope && !scope[name].hasUnserialize
    ensures DecodeCustom(s, pos, scope, strict) == Err(MissingUnserializeHook(CustomHead(s, pos).value.val.name))
  {
  }
}
