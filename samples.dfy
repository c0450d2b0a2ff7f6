/** Worked inputs: the byte-length policy on a text with a two-byte character. */
module Samples {
  import opened Results
  import opened Values
  import opened Scan
  import Grammar
  import GrammarFacts

  const Cafe: string := "caf\U{E9}"

  /** `é` takes two bytes, so `café` is five bytes long but four characters. */
  lemma CafeIsFiveBytes()
    ensures |Cafe| == 4 && Utf8Length(Cafe) == 5
  {
  }

  /** The record `s:<d>:"café";` for a single declared-length digit `d`. */
  function CafeRecord(d: char): string
  {
    "s:" + [d] + ":\"" + Cafe + "\";"
  }

  /** Reading it finds the length `d` and the whole text. */
  lemma ScanCafe(d: char)
    requires IsDigit(d)
    ensures Grammar.ScanString(CafeRecord(d), 2) == Ok(Step(Grammar.StringLiteral(DigitValue(d), Cafe), 10))
  {
    var t := CafeRecord(d);
    assert t[2] == d && t[3] == ':' && t[4] == '"' && t[9] == '"';
    assert IndexOf(t, 2, ':') == Some(3);
    assert t[2..3] == [d];
    assert ReadUntil(t, 2, ':') == Ok(Step([d], 3));
    assert LeadingDigits([d]) == [d];
    assert DigitsValue([d]) == DigitsValue([]) * 10 + DigitValue(d);
    assert SeekExpected(t, 3, ":\"") == Ok(Step((), 5));
    assert IndexOf(t, 5, '"') == IndexOf(t, 6, '"') == IndexOf(t, 7, '"') == IndexOf(t, 8, '"') == Some(9);
    assert t[5..9] == Cafe;
    assert ReadUntil(t, 5, '"') == Ok(Step(Cafe, 9));
  }

  /** Declaring the five bytes decodes in either mode. */
  lemma CafeDeclaredFive(t: string, strict: bool)
    requires t == CafeRecord('5')
    ensures Grammar.Decode(t, map[], Options(strict, "utf8")) == Ok(Str(Cafe))
  {
    ScanCafe('5');
    CafeIsFiveBytes();
    GrammarFacts.StringByMode(t, 0, map[], strict, Grammar.StringLiteral(5, Cafe), 10);
  }

  /** Declaring the four characters is a mismatch in strict mode only. */
  lemma CafeDeclaredFour(t: string)
    requires t == CafeRecord('4')
    ensures Grammar.Decode(t, map[], Options(true, "utf8")) == Err(StringLengthMismatch(4, 5))
    ensures Grammar.Decode(t, map[], Options(false, "utf8")) == Ok(Str(Cafe))
  {
    ScanCafe('4');
    CafeIsFiveBytes();
    GrammarFacts.StringByMode(t, 0, map[], true, Grammar.StringLiteral(4, Cafe), 10);
    GrammarFacts.StringByMode(t, 0, map[], false, Grammar.StringLiteral(4, Cafe), 10);
  }
}
