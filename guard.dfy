/**
 * Guard.Is: a check over a parameterless condition. It returns when the
 * condition holds and otherwise throws the requested exception with the
 * condition rendered under no name.
 */
module Guard {
  import opened Wrappers
  import opened Values
  import opened Expressions
  import opened Errors
  import opened Evaluator
  import opened English
  import Conditions

  /**
   * Guard.Is<TException>(condition): returns exactly when the condition
   * evaluates to true; on false throws `kind` carrying the render of the
   * condition with an empty name and a null value.
   */
  function Is(kind: ErrorKind, condition: Expr): (o: Outcome<()>)
    ensures o.Returned? <==> Truth(condition, None) == Ok(true)
    ensures o.Thrown? <==> Truth(condition, None) == Ok(false) && Render(condition, "", Null).Ok?
    ensures o.Thrown? ==> o.kind == kind && Render(condition, "", Null) == Ok(o.message)
    ensures o.Faulted? ==>
      Truth(condition, None) == Err(o.fault) ||
      (Truth(condition, None) == Ok(false) && Render(condition, "", Null) == Err(o.fault))
  {
    var verdict := Truth(condition, None);
    if verdict.Err? then Faulted(verdict.error)
    else if verdict.value then Returned(())
    else
      var message := Render(condition, "", Null);
      if message.Err? then Faulted(message.error) else Thrown(kind, message.value)
  }

  /** Guard.Is(condition) is Guard.Is<ArgumentException>(condition). */
  function IsArgument(condition: Expr): (o: Outcome<()>)
    ensures o.Thrown? ==> o.kind == ArgumentException
    ensures o == Is(ArgumentException, condition)
  {
    Is(ArgumentException, condition)
  }

  /** ArgumentException and a custom exception carry the same text. */
  lemma MessageIndependentOfKind(k1: ErrorKind, k2: ErrorKind, condition: Expr)
    ensures Is(k1, condition).Returned? == Is(k2, condition).Returned?
    ensures Is(k1, condition).Thrown? ==> Is(k2, condition) == Thrown(k2, Is(k1, condition).message)
  {
  }

  /**
   * A guard is an unnamed check: for a condition that does not use the lambda
   * parameter, Guard.Is agrees with Check on a condition with an empty name,
   * whatever value that condition holds.
   */
  lemma GuardIsUnnamedCheck(kind: ErrorKind, condition: Expr, v: Val)
    requires !MentionsParam(condition)
    ensures var checked := Conditions.Check(Conditions.IsCondition("", v), kind, condition);
      (Is(kind, condition).Returned? <==> checked.Returned?) &&
      (Is(kind, condition).Thrown? <==> checked.Thrown?) &&
      (Is(kind, condition).Thrown? ==> Is(kind, condition).message == checked.message)
  {
    EvalIgnoresArgument(condition, None, Some(v));
    NamelessIgnoresValue(condition, Null, v);
  }
}
