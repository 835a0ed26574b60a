/** Optional values, the parser's syntax errors, and the two failure-compatible
    shapes the model uses: `Result` for the imperative parser's methods and
    `Step` (a value together with the state after it) for the specification. */
module Outcomes {

  datatype Option<+T> = None | Some(value: T)

  /** What went wrong; each kind stands for one message the parser reports. */
  datatype ErrorKind =
    | UnexpectedEndOfFile            // "unexpected end of file"
    | UnterminatedString             // "unterminated string"
    | UnterminatedComment            // "unterminated comment"
    | UnexpectedSlash                // "unexpected '/'"
    | CommentOutOfBounds             // a bare "//" as the last two characters (a runtime exception)
    | ExpectedWord                   // "expected a word"
    | ExpectedInteger(text: string)  // "expected an integer but was <text>"
    | ExpectedSemicolon              // "expected ';'"
    | ExpectedEquals                 // "expected '='"
    | ExpectedEqualsInOption         // "expected '=' in option"
    | ExpectedOpenBrace              // "expected '{'"
    | ExpectedComma                  // "expected ','"
    | NestedPackage                  // "nested package"
    | NestedOption                   // "nested option"
    | TooManyPackageNames            // "too many package names"
    | FieldsMustBeNested             // "fields must be nested"
    | ExtensionsMustBeNested         // "extensions must be nested"
    | UnexpectedLabel(word: string)  // "unexpected label: <word>"

  /** A syntax error at a 1-based line and column. */
  datatype Error = Error(kind: ErrorKind, line: int, column: int)

  /** What a method of the parser returns: its value, or the error that aborts the parse. */
  datatype Result<+T> = Success(value: T) | Failure(error: Error) {
    predicate IsFailure() { Failure? }
    function PropagateFailure<U>(): Result<U> requires Failure? { Failure(error) }
    function Extract(): T requires Success? { value }
  }

  /** What a specification function returns: a value and the state after it, or an error. */
  datatype Step<+T, +S> = Next(value: T, next: S) | Abort(error: Error) {
    predicate IsFailure() { Abort? }
    function PropagateFailure<U, S2>(): Step<U, S2> requires Abort? { Abort(error) }
    function Extract(): Step<T, S> requires Next? { this }
  }

  /** The method's result `r` and its state `now` are the ones the specification `spec` gives. */
  predicate Agrees<T(==), S(==)>(r: Result<T>, spec: Step<T, S>, now: S)
  {
    match spec
    case Next(v, s) => r == Success(v) && now == s
    case Abort(e) => r == Failure(e)
  }
}
