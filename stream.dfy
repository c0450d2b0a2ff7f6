/** The stream cursor: an immutable input and a read position that every
    decoding step moves forward. Each fallible operation returns a `Result`
    instead of throwing, and each is proved to do exactly what the matching
    function of `Scan` describes. */
module Stream {
  import opened Results
  import Scan

  class Cursor {
    const input: seq<char>
    var index: nat

    ghost predicate Valid()
      reads this
    {
      index <= |input|
    }

    constructor (input: seq<char>)
      ensures Valid() && this.input == input && index == 0
    {
      this.input := input;
      index := 0;
    }

    /** Up to `n` characters from the position, without moving it. */
    method PeekAhead(n: nat) returns (t: string)
      requires Valid()
      ensures t == Scan.Peek(input, index, n)
    {
      if index + n <= |input| {
        t := input[index..index + n];
      } else {
        t := input[index..];
      }
    }

    /** Moves the position forward unconditionally; used after a peek has
        shown that the characters are there. */
    method Advance(n: nat)
      requires Valid() && index + n <= |input|
      modifies this
      ensures Valid() && index == old(index) + n
    {
      index := index + n;
    }

    method ReadAhead(n: nat) returns (r: Result<string>)
      requires Valid()
      modifies this
      ensures Valid()
      ensures At(r, index) == Scan.ReadAhead(input, old(index), n)
      ensures r.Err? ==> index == old(index)
    {
      if index + n <= |input| {
        r := Ok(input[index..index + n]);
        index := index + n;
      } else {
        r := Err(UnexpectedEnd(index));
      }
    }

    /** Scans for the next `d` and consumes what precedes it. The parser
        module is not part of this model; it is assumed to stop on the first
        `d` at or after the position. */
    method ReadUntil(d: char) returns (r: Result<string>)
      requires Valid()
      modifies this
      ensures Valid()
      ensures At(r, index) == Scan.ReadUntil(input, old(index), d)
      ensures r.Err? ==> index == old(index)
    {
      var j := index;
      while j < |input| && input[j] != d
        invariant index <= j <= |input|
        invariant forall i :: index <= i < j ==> input[i] != d
      {
        j := j + 1;
      }
      Scan.IndexOfFirst(input, index, d);
      if j == |input| {
        r := Err(DelimiterNotFound(d, index));
      } else {
        r := Ok(input[index..j]);
        index := j;
      }
    }

    method SeekExpected(lit: string) returns (r: Result<()>)
      requires Valid()
      modifies this
      ensures Valid()
      ensures At(r, index) == Scan.SeekExpected(input, old(index), lit)
      ensures r.Err? ==> index == old(index)
    {
      if index + |lit| <= |input| && input[index..index + |lit|] == lit {
        index := index + |lit|;
        r := Ok(());
      } else {
        r := Err(UnexpectedToken(lit, index));
      }
    }

    method GetType() returns (r: Result<Scan.Kind>)
      requires Valid()
      modifies this
      ensures Valid()
      ensures At(r, index) == Scan.GetType(input, old(index))
    {
      if index == |input| {
        return Err(UnexpectedEnd(index));
      }
      match Scan.KindOf(input[index])
      case None =>
        r := Err(UnknownType(input[index]));
      case Some(k) =>
        index := index + 1;
        var _ :- SeekExpected([Scan.Separator(k)]);
        r := Ok(k);
    }

    method GetLength() returns (r: Result<nat>)
      requires Valid()
      modifies this
      ensures Valid()
      ensures At(r, index) == Scan.GetLength(input, old(index))
    {
      var start := index;
      var t :- ReadUntil(':');
      var d := Scan.LeadingDigits(t);
      Scan.LeadingDigitsPrefix(t);
      if d == [] {
        r := Err(MalformedLength(start));
      } else {
        r := Ok(Scan.DigitsValue(d));
      }
    }

    /** The head of `getByLength`: the length, then `:` and `open`. */
    method OpenByLength(open: string) returns (r: Result<nat>)
      requires Valid()
      modifies this
      ensures Valid()
      ensures At(r, index) == Scan.OpenByLength(input, old(index), open)
    {
      var n :- GetLength();
      var _ :- SeekExpected([':'] + open);
      r := Ok(n);
    }

    /** `getByLength(open, close, n => readAhead(n))`. */
    method ReadByLength(open: string, close: string) returns (r: Result<string>)
      requires Valid()
      modifies this
      ensures Valid()
      ensures At(r, index) == Scan.ReadByLength(input, old(index), open, close)
    {
      var n :- OpenByLength(open);
      var t :- ReadAhead(n);
      var _ :- SeekExpected(close);
      r := Ok(t);
    }
  }
}
