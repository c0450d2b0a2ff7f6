/** The reading operations of the stream cursor, as functions of the input and
    a position. Each returns the text or token read and the position after it;
    the `Stream.Cursor` methods are proved to behave exactly like these. */
module Scan {
  import opened Results

  /** The type categories a marker character stands for. */
  datatype Kind =
    | NullKind | IntKind | FloatKind | BoolKind | StringKind
    | ArrayObject | NotSerializableClass | SerializableClass

  function Min(a: nat, b: nat): nat { if a <= b then a else b }

  /** Up to `n` characters from `pos`, fewer at the end of the input; reads nothing. */
  function Peek(s: seq<char>, pos: nat, n: nat): (t: string)
    requires pos <= |s|
    ensures |t| == Min(n, |s| - pos)
    ensures t == s[pos..pos + |t|]
  {
    if pos + n <= |s| then s[pos..pos + n] else s[pos..]
  }

  /** Peeking one character compares it with `c`, and sees nothing at the end. */
  lemma PeekIs(s: seq<char>, pos: nat, c: char)
    requires pos <= |s|
    ensures Peek(s, pos, 1) == [c] <==> pos < |s| && s[pos] == c
  {
    if pos < |s| {
      assert Peek(s, pos, 1) == [s[pos]];
    }
  }

  /** Exactly `n` characters, or `UnexpectedEnd` when fewer remain. */
  function ReadAhead(s: seq<char>, pos: nat, n: nat): (r: Result<Step<string>>)
    requires pos <= |s|
    ensures r.Ok? <==> pos + n <= |s|
    ensures r.Ok? ==> r.value.next == pos + n && r.value.val == s[pos..pos + n]
    ensures r.Err? ==> r.error == UnexpectedEnd(pos)
  {
    if pos + n <= |s| then Ok(Step(s[pos..pos + n], pos + n)) else Err(UnexpectedEnd(pos))
  }

  /** The first position at or after `pos` that holds `d`. */
  function IndexOf(s: seq<char>, pos: nat, d: char): (r: Option<nat>)
    requires pos <= |s|
    decreases |s| - pos
    ensures r.Some? ==> pos <= r.value < |s|
  {
    if pos == |s| then None
    else if s[pos] == d then Some(pos)
    else IndexOf(s, pos + 1, d)
  }

  /** `IndexOf` finds the first `d`, and finds none only when there is none. */
  lemma {:induction false} IndexOfFirst(s: seq<char>, pos: nat, d: char)
    requires pos <= |s|
    decreases |s| - pos
    ensures IndexOf(s, pos, d).Some? ==> s[IndexOf(s, pos, d).value] == d
    ensures forall i :: pos <= i < |s| && (IndexOf(s, pos, d).None? || i < IndexOf(s, pos, d).value) ==> s[i] != d
  {
    if pos < |s| && s[pos] != d {
      IndexOfFirst(s, pos + 1, d);
    }
  }

  /** Everything up to, not including, the next `d`; the cursor stops on the `d`. */
  function ReadUntil(s: seq<char>, pos: nat, d: char): (r: Result<Step<string>>)
    requires pos <= |s|
    ensures r.Ok? ==> pos <= r.value.next < |s| && r.value.val == s[pos..r.value.next]
    ensures r.Err? ==> r.error == DelimiterNotFound(d, pos)
  {
    match IndexOf(s, pos, d)
    case Some(j) => Ok(Step(s[pos..j], j))
    case None => Err(DelimiterNotFound(d, pos))
  }

  /** `ReadUntil` succeeds exactly when a `d` follows, and stops on the first. */
  lemma ReadUntilFinds(s: seq<char>, pos: nat, d: char)
    requires pos <= |s|
    ensures ReadUntil(s, pos, d).Ok? <==> d in s[pos..]
    ensures ReadUntil(s, pos, d).Ok? ==>
      s[ReadUntil(s, pos, d).value.next] == d && d !in ReadUntil(s, pos, d).value.val
  {
    IndexOfFirst(s, pos, d);
    assert forall i :: pos <= i < |s| ==> s[i] == s[pos..][i - pos];
  }

  /** Consumes `lit` when the input continues with it, otherwise fails in place. */
  function SeekExpected(s: seq<char>, pos: nat, lit: string): (r: Result<Step<()>>)
    requires pos <= |s|
    ensures r.Ok? <==> pos + |lit| <= |s| && s[pos..pos + |lit|] == lit
    ensures r.Ok? ==> r.value.next == pos + |lit|
    ensures r.Err? ==> r.error == UnexpectedToken(lit, pos)
  {
    if pos + |lit| <= |s| && s[pos..pos + |lit|] == lit then Ok(Step((), pos + |lit|))
    else Err(UnexpectedToken(lit, pos))
  }

  function KindOf(c: char): Option<Kind>
  {
    match c
    case 'N' => Some(NullKind)
    case 'i' => Some(IntKind)
    case 'd' => Some(FloatKind)
    case 'b' => Some(BoolKind)
    case 's' => Some(StringKind)
    case 'a' => Some(ArrayObject)
    case 'O' => Some(NotSerializableClass)
    case 'C' => Some(SerializableClass)
    case _ => None
  }

  /** The separator that follows a marker: `;` after `N`, `:` after every other. */
  function Separator(k: Kind): char
  {
    if k == NullKind then ';' else ':'
  }

  /** The marker character and its separator, as in `N;` or `s:`. */
  function GetType(s: seq<char>, pos: nat): (r: Result<Step<Kind>>)
    requires pos <= |s|
    ensures r.Ok? <==> pos + 2 <= |s| && KindOf(s[pos]).Some? && s[pos + 1] == Separator(KindOf(s[pos]).value)
    ensures r.Ok? ==> r.value.next == pos + 2 && KindOf(s[pos]) == Some(r.value.val)
    ensures pos < |s| && KindOf(s[pos]).None? ==> r == Err(UnknownType(s[pos]))
  {
    if pos == |s| then Err(UnexpectedEnd(pos))
    else
      match KindOf(s[pos])
      case None => Err(UnknownType(s[pos]))
      case Some(k) =>
        var Step(_, next) :- SeekExpected(s, pos + 1, [Separator(k)]);
        Ok(Step(k, next))
  }

  predicate IsDigit(c: char) { '0' <= c <= '9' }

  predicate AllDigits(t: string) { forall i :: 0 <= i < |t| ==> IsDigit(t[i]) }

  function DigitValue(c: char): nat
    requires IsDigit(c)
  {
    c as int - '0' as int
  }

  /** The number a string of decimal digits spells. */
  function DigitsValue(t: string): nat
    requires AllDigits(t)
  {
    if t == [] then 0 else DigitsValue(t[..|t| - 1]) * 10 + DigitValue(t[|t| - 1])
  }

  /** The longest prefix of decimal digits, which is what `parseInt` reads. */
  function LeadingDigits(t: string): (d: string)
    ensures |d| <= |t|
  {
    if t != [] && IsDigit(t[0]) then [t[0]] + LeadingDigits(t[1..]) else []
  }

  /** `LeadingDigits` is a prefix of digits that stops before a non-digit. */
  lemma {:induction false} LeadingDigitsPrefix(t: string)
    ensures LeadingDigits(t) <= t
    ensures AllDigits(LeadingDigits(t))
    ensures |LeadingDigits(t)| < |t| ==> !IsDigit(t[|LeadingDigits(t)|])
  {
    if t != [] && IsDigit(t[0]) {
      LeadingDigitsPrefix(t[1..]);
      assert t == [t[0]] + t[1..];
    }
  }

  /** A declared length or count: the text up to the next `:`, whose leading
      decimal digits give the number; the cursor stops on the `:`. The parser
      module is not part of this model, and this is the reading it is assumed
      to perform. */
  function GetLength(s: seq<char>, pos: nat): (r: Result<Step<nat>>)
    requires pos <= |s|
    ensures r.Ok? ==> pos < r.value.next < |s|
  {
    var Step(t, next) :- ReadUntil(s, pos, ':');
    var d := LeadingDigits(t);
    LeadingDigitsPrefix(t);
    if d == [] then Err(MalformedLength(pos)) else Ok(Step(DigitsValue(d), next))
  }

  /** A length stops on the first `:` and starts with a digit. */
  lemma GetLengthShape(s: seq<char>, pos: nat)
    requires pos <= |s|
    ensures GetLength(s, pos).Ok? ==>
      var next := GetLength(s, pos).value.next;
      s[next] == ':' && ':' !in s[pos..next] && IsDigit(s[pos])
  {
    ReadUntilFinds(s, pos, ':');
    if GetLength(s, pos).Ok? {
      var t := ReadUntil(s, pos, ':').value.val;
      LeadingDigitsPrefix(t);
      assert t[0] == s[pos];
    }
  }

  /** The head of `getByLength`: the length, then `:` and the opening delimiter. */
  function OpenByLength(s: seq<char>, pos: nat, open: string): (r: Result<Step<nat>>)
    requires pos <= |s|
    ensures r.Ok? ==> pos < r.value.next <= |s|
  {
    var Step(n, p1) :- GetLength(s, pos);
    var Step(_, p2) :- SeekExpected(s, p1, [':'] + open);
    Ok(Step(n, p2))
  }

  /** `getByLength` whose continuation reads exactly the declared number of
      characters (class names and custom payloads). */
  function ReadByLength(s: seq<char>, pos: nat, open: string, close: string): (r: Result<Step<string>>)
    requires pos <= |s|
    ensures r.Ok? ==> pos < r.value.next <= |s|
  {
    var Step(n, p1) :- OpenByLength(s, pos, open);
    var Step(t, p2) :- ReadAhead(s, p1, n);
    var Step(_, p3) :- SeekExpected(s, p2, close);
    Ok(Step(t, p3))
  }

  /** The literal of an `i:` record: `[+-]digits` is the integer it spells; a
      literal `parseFloat` would take (one with a `.`, or `NaN`) is a float;
      the empty literal is zero, the big-integer conversion of `""`. */
  function ParseInteger(lit: string): (r: Result<int>)
  {
    if '.' in lit || lit == "NaN" then Err(FloatNotModelled(lit))
    else if lit == [] then Ok(0)
    else if IsSignedDigits(lit) then Ok(SignedValue(lit))
    else Err(MalformedInt(lit))
  }

  /** The literal without its sign, if it has one. */
  function Unsigned(lit: string): string
  {
    if |lit| > 0 && (lit[0] == '+' || lit[0] == '-') then lit[1..] else lit
  }

  predicate IsSignedDigits(lit: string)
  {
    Unsigned(lit) != [] && AllDigits(Unsigned(lit))
  }

  function SignedValue(lit: string): int
    requires IsSignedDigits(lit)
  {
    if lit[0] == '-' then -(DigitsValue(Unsigned(lit)) as int) else DigitsValue(Unsigned(lit))
  }

  /** The digit character for `d`. */
  function DigitChar(d: nat): (c: char)
    requires d < 10
    ensures IsDigit(c) && DigitValue(c) == d
  {
    ('0' as int + d) as char
  }

  /** The decimal spelling of a natural number, without leading zeros, as the
      origin runtime's writer and `toString` produce it. */
  function ShowNat(n: nat): string
  {
    (if n < 10 then [] else ShowNat(n / 10)) + [DigitChar(n % 10)]
  }

  /** The spelling of a number is a non-empty run of digits that spells it. */
  lemma {:induction false} ShowNatDigits(n: nat)
    ensures ShowNat(n) != [] && AllDigits(ShowNat(n))
    ensures DigitsValue(ShowNat(n)) == n
  {
    if n >= 10 {
      ShowNatDigits(n / 10);
    }
    ShowNatLast(n);
  }

  /** One step of the spelling: the spelling of `n / 10`, then the last digit. */
  lemma ShowNatLast(n: nat)
    requires n >= 10 ==> AllDigits(ShowNat(n / 10)) && DigitsValue(ShowNat(n / 10)) == n / 10
    ensures ShowNat(n) != [] && AllDigits(ShowNat(n))
    ensures DigitsValue(ShowNat(n)) == n
  {
    var init := if n < 10 then [] else ShowNat(n / 10);
    assert ShowNat(n) == init + [DigitChar(n % 10)];
    DigitsSnoc(init, n % 10);
  }

  /** A digit appended to a run of digits: the value shifts one place. */
  lemma DigitsSnoc(init: string, d: nat)
    requires AllDigits(init) && d < 10
    ensures AllDigits(init + [DigitChar(d)])
    ensures DigitsValue(init + [DigitChar(d)]) == DigitsValue(init) * 10 + d
  {
    var t := init + [DigitChar(d)];
    assert AllDigits(t) by {
      forall k | 0 <= k < |t| ensures IsDigit(t[k]) {
        if k < |init| {
          assert t[k] == init[k];
        }
      }
    }
    assert t[..|t| - 1] == init;
  }

  /** The decimal spelling of an integer: a `-` before the magnitude of a negative one. */
  function ShowInt(i: int): string
  {
    if i < 0 then "-" + ShowNat(-i) else ShowNat(i)
  }

  /** A run of digits reads as the number it spells, and as its negation
      after a `-`. */
  lemma ParseDigits(t: string)
    requires t != [] && AllDigits(t)
    ensures ParseInteger(t) == Ok(DigitsValue(t))
    ensures ParseInteger("-" + t) == Ok(-(DigitsValue(t) as int))
  {
    assert IsDigit(t[0]);
    assert ("-" + t)[1..] == t;
  }

  /** Reading back the spelling of any integer gives that integer. */
  lemma ParseShowInt(i: int)
    ensures ParseInteger(ShowInt(i)) == Ok(i)
  {
    var m: nat := if i < 0 then -i else i;
    ShowNatDigits(m);
    ParseDigits(ShowNat(m));
  }

  /** `ReadUntil` stops on the `d` at `j` when none comes before it. */
  lemma ReadUntilAt(s: seq<char>, pos: nat, d: char, j: nat)
    requires pos <= j < |s| && s[j] == d && d !in s[pos..j]
    ensures ReadUntil(s, pos, d) == Ok(Step(s[pos..j], j))
  {
    IndexOfFirst(s, pos, d);
    assert forall i :: pos <= i < j ==> s[i] == s[pos..j][i - pos];
  }

  /** A run of digits is its own longest digit prefix. */
  lemma {:induction false} LeadingDigitsAll(t: string)
    requires AllDigits(t)
    ensures LeadingDigits(t) == t
  {
    if t != [] {
      LeadingDigitsAll(t[1..]);
      assert t == [t[0]] + t[1..];
    }
  }

  /** A run of digits followed by `:` reads as the length it spells. */
  lemma GetLengthAt(s: seq<char>, pos: nat, t: string)
    requires t != [] && AllDigits(t)
    requires pos + |t| < |s| && s[pos..pos + |t|] == t && s[pos + |t|] == ':'
    ensures GetLength(s, pos) == Ok(Step(DigitsValue(t), pos + |t|))
  {
    assert ':' !in t by {
      assert forall k :: 0 <= k < |t| ==> IsDigit(t[k]);
    }
    ReadUntilAt(s, pos, ':', pos + |t|);
    LeadingDigitsAll(t);
  }
}
