/** What a guard can end in: it returns, it throws the caller's exception, or something else throws first. */
module Errors {
  import opened Wrappers

  /**
   * Exceptions raised by evaluating or rendering a condition rather than by the
   * guard failing: a member read off null, a member the value does not have,
   * operands of incompatible types, division by zero, a body that is not
   * boolean, `First()` on an empty argument list, the lambda parameter met
   * where no parameter is bound, and a cast of a non-constant target.
   * Unrepresentable marks a decimal or floating result the model's integers
   * cannot hold: a quotient with a fraction, or a floating infinity or NaN.
   */
  datatype Fault =
    | NullTarget | MemberNotFound | TypeMismatch | DivideByZero
    | NotBoolean | NoArguments | UnboundParameter | InvalidCast
    | Unrepresentable

  /** The exception type a guard throws on failure. */
  datatype ErrorKind =
    | ArgumentException | ArgumentOutOfRangeException | NullReferenceException
    | Custom(typeName: string)

  /**
   * Returned: the call returned normally with `value`.
   * Thrown: the guard failed and threw `kind`, built from `message`.
   * Faulted: an exception other than the guard's own escaped.
   */
  datatype Outcome<+T> =
    | Returned(value: T)
    | Thrown(kind: ErrorKind, message: string)
    | Faulted(fault: Fault)

  /** An exception object: its type, its Message, and its ParamName when it is an argument exception. */
  datatype Raised = Raised(kind: ErrorKind, message: string, paramName: Option<string>)

  /** The default message of ArgumentOutOfRangeException. */
  const OutOfRangeDefault := "Specified argument was out of the range of valid values."

  /**
   * Activator.CreateInstance(type, text) as the guards call it: the type's
   * constructor taking one string. For ArgumentOutOfRangeException that string
   * is the parameter name, so the exception keeps its default message and
   * appends "Parameter name: " and the text on a new line.
   */
  function Activated(kind: ErrorKind, text: string): (x: Raised)
    ensures x.kind == kind
    ensures kind != ArgumentOutOfRangeException ==> x.message == text && x.paramName == None
  {
    if kind == ArgumentOutOfRangeException then
      Raised(kind, if text == "" then OutOfRangeDefault else OutOfRangeDefault + "\r\nParameter name: " + text, Some(text))
    else Raised(kind, text, None)
  }

  /** An out-of-range failure does not carry the rendered condition as its message: the text ends up as ParamName. */
  lemma OutOfRangeLosesMessage(text: string)
    ensures Activated(ArgumentOutOfRangeException, text).message != text
    ensures Activated(ArgumentOutOfRangeException, text).paramName == Some(text)
  {
    if text != "" {
      assert |Activated(ArgumentOutOfRangeException, text).message| > |text|;
    }
  }

  /**
   * The exception the guards evidently mean to throw: every type carries the
   * rendered condition as its Message (for ArgumentOutOfRangeException, the
   * (paramName, message) constructor with no parameter name). This is what
   * Outcome.Thrown(kind, message) stands for throughout the model.
   */
  function Intended(kind: ErrorKind, text: string): (x: Raised)
    ensures x.kind == kind && x.message == text
  {
    Raised(kind, text, None)
  }

  /** The two constructions differ only for ArgumentOutOfRangeException. */
  lemma ActivatedAsIntended(kind: ErrorKind, text: string)
    ensures Activated(kind, text) == Intended(kind, text) <==> kind != ArgumentOutOfRangeException
  {
    if kind == ArgumentOutOfRangeException {
      OutOfRangeLosesMessage(text);
    }
  }
}
