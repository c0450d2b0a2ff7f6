/** Error kinds of the decoder and the failure-compatible result types the
    whole model threads through every step instead of throwing. */
module Results {

  /** Why a decode failed. Positions are character offsets into the input. */
  datatype Error =
    | UnknownType(marker: char)              // a type marker outside N i d b s a O C
    | UnexpectedEnd(at: nat)                 // fewer characters left than a read needs
    | DelimiterNotFound(delim: char, at: nat)
    | UnexpectedToken(expected: string, at: nat)
    | MalformedLength(at: nat)               // a length prefix that is not a digit string
    | MalformedInt(literal: string)          // an `i:` literal that is not [+-]digits
    | FloatNotModelled(literal: string)      // floating-point literals are outside the model
    | StringLengthMismatch(declared: nat, actual: nat)
    | ClassNotFound(className: string)
    | MissingUnserializeHook(className: string)
    | PropertyKeyNotString                   // an `O:` property key that is not a string

  datatype Result<+T> = Ok(value: T) | Err(error: Error) {
    predicate IsFailure() { Err? }

    function PropagateFailure<U>(): Result<U>
      requires Err?
    {
      Err(error)
    }

    function Extract(): T
      requires Ok?
    {
      value
    }
  }

  datatype Option<+T> = None | Some(value: T)

  /** A value read from the input together with the position just after it. */
  datatype Step<+T> = Step(val: T, next: nat)

  /** The result of a cursor method, seen as a step ending at the cursor's new position. */
  function At<T>(r: Result<T>, pos: nat): (s: Result<Step<T>>)
    ensures s.Ok? <==> r.Ok?
    ensures s.Ok? ==> s.value.val == r.value && s.value.next == pos
    ensures s.Err? ==> s.error == r.error
  {
    match r
    case Ok(v) => Ok(Step(v, pos))
    case Err(e) => Err(e)
  }
}
