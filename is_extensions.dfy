/**
 * IsExtensions: `value.Is("name")` starts a condition, and each builder
 * assembles its predicate as an expression tree over the parameter and hands
 * it to Check with the exception type it throws.
 */
module IsExtensions {
  import opened Wrappers
  import opened Values
  import opened Expressions
  import opened Errors
  import opened Evaluator
  import opened English
  import opened Conditions

  /** value.Is(name): a condition holding exactly that name and value. */
  function Is(value: Val, name: string): (c: IsCondition)
    ensures c.name == name && c.value == value
  {
    IsCondition(name, value)
  }

  /** A bound as the builders embed it: a constant of the bound's runtime type, converted to the parameter's type. */
  function Bound(v: Val): Expr
  {
    Unary(Convert, ConstantOf(v))
  }

  /** How a bound prints: by the type code of its runtime type. */
  function BoundText(v: Val): string
  {
    ConstantText(ConstantOf(v).declared, v)
  }

  /** x >= min AndAlso x <= max. */
  function InRangeBody(min: Val, max: Val): Expr
  {
    Binary(AndAlso, Binary(GreaterThanOrEqual, Param, Bound(min)), Binary(LessThanOrEqual, Param, Bound(max)))
  }

  /** x != null, against an untyped null constant. */
  function NotNullBody(): Expr
  {
    Binary(NotEqual, Param, ConstantOf(Null))
  }

  /** !string.IsNullOrWhiteSpace(x). */
  function NotNullOrWhiteSpaceBody(): Expr
  {
    Unary(Not, Call(Some("String"), "IsNullOrWhiteSpace", [Param], Null))
  }

  function EqualToBody(compare: Val): Expr
  {
    Binary(Equal, Param, Bound(compare))
  }

  function NotEqualToBody(compare: Val): Expr
  {
    Binary(NotEqual, Param, Bound(compare))
  }

  /** InRange(min, max): both bounds inclusive; throws ArgumentOutOfRangeException. */
  function InRange(c: IsCondition, min: Val, max: Val): (o: Outcome<IsCondition>)
    ensures o.Thrown? ==> o.kind == ArgumentOutOfRangeException
  {
    Check(c, ArgumentOutOfRangeException, InRangeBody(min, max))
  }

  /** NotNull(): throws NullReferenceException. */
  function NotNull(c: IsCondition): (o: Outcome<IsCondition>)
    ensures o.Thrown? ==> o.kind == NullReferenceException
  {
    Check(c, NullReferenceException, NotNullBody())
  }

  /** NotNullOrWhiteSpace(): the default check, throwing ArgumentException. */
  function NotNullOrWhiteSpace(c: IsCondition): (o: Outcome<IsCondition>)
    ensures o.Thrown? ==> o.kind == ArgumentException
  {
    CheckArgument(c, NotNullOrWhiteSpaceBody())
  }

  /** EqualTo(compare): throws ArgumentException. */
  function EqualTo(c: IsCondition, compare: Val): (o: Outcome<IsCondition>)
    ensures o.Thrown? ==> o.kind == ArgumentException
  {
    Check(c, ArgumentException, EqualToBody(compare))
  }

  /** NotEqualTo(compare): throws ArgumentException. */
  function NotEqualTo(c: IsCondition, compare: Val): (o: Outcome<IsCondition>)
    ensures o.Thrown? ==> o.kind == ArgumentException
  {
    Check(c, ArgumentException, NotEqualToBody(compare))
  }

  /** The parameter's text in the messages below: "name : value", or nothing without a name. */
  function Subject(c: IsCondition): string
  {
    ParameterText(Scope(c.name, c.value))
  }

  /** An integer bound of a type the renderer prints plainly appears as its digits; one of the other integer types (SByte, UInt16, UInt32, UInt64) appears as nothing. */
  lemma BoundTextOfNumber(v: Val)
    requires v.Num?
    ensures PlainCode(v.code) ==> BoundText(v) == IntText(v.n)
    ensures !PlainCode(v.code) && v.code != String ==> BoundText(v) == ""
  {
  }

  /** A comparison of the parameter with a bound renders as "subject phrase bound". */
  lemma ComparisonMessage(op: BinaryOp, c: IsCondition, v: Val)
    ensures Render(Binary(op, Param, Bound(v)), c.name, c.value) == Ok(Subject(c) + Phrase(op) + BoundText(v))
  {
    BinaryInfix(op, Param, Bound(v), c.name, c.value);
    UnaryTransparent(Convert, ConstantOf(v), c.name, c.value);
  }

  /** The InRange message names the subject twice, once against each bound. */
  lemma InRangeMessage(c: IsCondition, min: Val, max: Val)
    ensures Render(InRangeBody(min, max), c.name, c.value) ==
      Ok(Subject(c) + " should be greater than or equal to " + BoundText(min) + " and also "
         + Subject(c) + " should be less than or equal to " + BoundText(max))
  {
    var left := Binary(GreaterThanOrEqual, Param, Bound(min));
    var right := Binary(LessThanOrEqual, Param, Bound(max));
    ComparisonMessage(GreaterThanOrEqual, c, min);
    ComparisonMessage(LessThanOrEqual, c, max);
    BinaryInfix(AndAlso, left, right, c.name, c.value);
    Regroup(Subject(c) + " should be greater than or equal to " + BoundText(min) + " and also ",
      Subject(c), " should be less than or equal to ", BoundText(max));
  }

  /** The InRange predicate is true exactly for a number between the bounds. */
  lemma InRangeVerdict(v: Val, min: Val, max: Val)
    requires v.Num? || v.Null?
    requires min.Num? && max.Num?
    ensures Truth(InRangeBody(min, max), Some(v)) == Ok(v.Num? && min.n <= v.n <= max.n)
  {
    var arg := Some(v);
    assert Eval(Bound(min), arg) == Ok(min);
    assert Eval(Bound(max), arg) == Ok(max);
    assert Eval(Binary(GreaterThanOrEqual, Param, Bound(min)), arg) == Ok(Bool(v.Num? && v.n >= min.n));
    assert Eval(Binary(LessThanOrEqual, Param, Bound(max)), arg) == Ok(Bool(v.Num? && v.n <= max.n));
  }

  /**
   * InRange on numbers is inclusive at both ends: it hands back the condition
   * exactly when min <= value <= max. A null value (an empty nullable) is in
   * no range. Out of range it throws with the two-sided message.
   */
  lemma InRangeInclusive(c: IsCondition, min: Val, max: Val)
    requires c.value.Num? || c.value.Null?
    requires min.Num? && max.Num?
    ensures InRange(c, min, max).Returned? <==> c.value.Num? && min.n <= c.value.n <= max.n
    ensures InRange(c, min, max).Returned? ==> InRange(c, min, max).value == c
    ensures !InRange(c, min, max).Returned? ==>
      InRange(c, min, max) == Thrown(ArgumentOutOfRangeException,
        Subject(c) + " should be greater than or equal to " + BoundText(min) + " and also "
        + Subject(c) + " should be less than or equal to " + BoundText(max))
  {
    InRangeVerdict(c.value, min, max);
    InRangeMessage(c, min, max);
  }

  /** NotNull passes exactly for a non-null value; a null value throws "subject should not be equal to null". */
  lemma NotNullPasses(c: IsCondition)
    ensures NotNull(c).Returned? <==> c.value != Null
    ensures c.value != Null ==> NotNull(c) == Returned(c)
    ensures c.value == Null ==> NotNull(c) == Thrown(NullReferenceException, Subject(c) + " should not be equal to null")
  {
    BinaryInfix(NotEqual, Param, ConstantOf(Null), c.name, c.value);
  }

  /**
   * NotNullOrWhiteSpace on a string condition passes exactly for a string with
   * a character that is not white space; otherwise it throws
   * "subject should not be null or whitespace " (trailing space included).
   */
  lemma NotNullOrWhiteSpacePasses(c: IsCondition)
    requires c.value.Null? || c.value.Str?
    ensures NotNullOrWhiteSpace(c).Returned? <==> c.value.Str? && !AllWhiteSpace(c.value.s)
    ensures NotNullOrWhiteSpace(c).Returned? ==> NotNullOrWhiteSpace(c).value == c
    ensures !NotNullOrWhiteSpace(c).Returned? ==>
      NotNullOrWhiteSpace(c) == Thrown(ArgumentException, Subject(c) + " should not be null or whitespace ")
  {
    NullOrWhiteSpacePhrase(Param, [], Null, c.name, c.value);
    assert [Param] + [] == [Param];
  }

  /**
   * EqualTo passes exactly when the value equals the bound, handing back the
   * condition; any mismatch, values of different kinds included, throws
   * "subject should be equal to bound".
   */
  lemma EqualToPasses(c: IsCondition, compare: Val)
    ensures EqualTo(c, compare).Returned? <==> Equals(c.value, compare)
    ensures EqualTo(c, compare).Returned? ==> EqualTo(c, compare).value == c
    ensures !Equals(c.value, compare) ==>
      EqualTo(c, compare) == Thrown(ArgumentException, Subject(c) + " should be equal to " + BoundText(compare))
  {
    assert Eval(Bound(compare), Some(c.value)) == Ok(compare);
    assert Eval(EqualToBody(compare), Some(c.value)) == Apply(Equal, c.value, compare);
    ComparisonMessage(Equal, c, compare);
  }

  /** NotEqualTo is EqualTo's complement, with its own phrase; values of different kinds pass it. */
  lemma NotEqualToPasses(c: IsCondition, compare: Val)
    ensures NotEqualTo(c, compare).Returned? <==> !Equals(c.value, compare)
    ensures NotEqualTo(c, compare).Returned? ==> NotEqualTo(c, compare).value == c
    ensures Equals(c.value, compare) ==>
      NotEqualTo(c, compare) == Thrown(ArgumentException, Subject(c) + " should not be equal to " + BoundText(compare))
  {
    assert Eval(Bound(compare), Some(c.value)) == Ok(compare);
    assert Eval(NotEqualToBody(compare), Some(c.value)) == Apply(NotEqual, c.value, compare);
    ComparisonMessage(NotEqual, c, compare);
  }

  /** Chaining NotNull and InRange on a number: the chain hands back the condition exactly when the value lies in range. */
  lemma NotNullThenInRange(c: IsCondition, min: Val, max: Val)
    requires c.value.Num? || c.value.Null?
    requires min.Num? && max.Num?
    ensures var chained := AndThen(NotNull(c), x => InRange(x, min, max));
      (chained.Returned? <==> c.value.Num? && min.n <= c.value.n <= max.n) &&
      (c.value.Null? ==> chained.Thrown? && chained.kind == NullReferenceException)
  {
    NotNullPasses(c);
    InRangeInclusive(c, min, max);
  }

  /** As written, an InRange failure raises an exception whose Message is not the rendered condition. */
  lemma InRangeMessageAsWritten(c: IsCondition, min: Val, max: Val)
    requires InRange(c, min, max).Thrown?
    ensures Activated(ArgumentOutOfRangeException, InRange(c, min, max).message).message != InRange(c, min, max).message
    ensures Activated(ArgumentOutOfRangeException, InRange(c, min, max).message).paramName == Some(InRange(c, min, max).message)
  {
    OutOfRangeLosesMessage(InRange(c, min, max).message);
  }
}
