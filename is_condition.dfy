/**
 * IsCondition: a value with the name it is reported under. Check evaluates a
 * predicate on the value; it hands back the same condition when the predicate
 * holds and throws the caller's exception, with the rendered predicate as its
 * message, when it does not.
 */
module Conditions {
  import opened Wrappers
  import opened Values
  import opened Expressions
  import opened Errors
  import opened Evaluator
  import opened English

  /** The constructor stores the name and the value; neither is ever reassigned. */
  datatype IsCondition = IsCondition(name: string, value: Val)

  /**
   * Check<TException>(expression): the body is evaluated with the parameter
   * bound to the stored value. True hands back the condition itself; false
   * renders the body with the stored name and value and throws `kind`. The
   * message is rendered on the failure path only.
   */
  function Check(c: IsCondition, kind: ErrorKind, body: Expr): (o: Outcome<IsCondition>)
    ensures o.Returned? <==> Truth(body, Some(c.value)) == Ok(true)
    ensures o.Returned? ==> o.value == c
    ensures o.Thrown? <==> Truth(body, Some(c.value)) == Ok(false) && Render(body, c.name, c.value).Ok?
    ensures o.Thrown? ==> o.kind == kind && Render(body, c.name, c.value) == Ok(o.message)
    ensures o.Faulted? ==>
      Truth(body, Some(c.value)) == Err(o.fault) ||
      (Truth(body, Some(c.value)) == Ok(false) && Render(body, c.name, c.value) == Err(o.fault))
  {
    var verdict := Truth(body, Some(c.value));
    if verdict.Err? then Faulted(verdict.error)
    else if verdict.value then Returned(c)
    else
      var message := Render(body, c.name, c.value);
      if message.Err? then Faulted(message.error) else Thrown(kind, message.value)
  }

  /** Check(expression) is Check<ArgumentException>(expression). */
  function CheckArgument(c: IsCondition, body: Expr): (o: Outcome<IsCondition>)
    ensures o.Thrown? ==> o.kind == ArgumentException
    ensures o == Check(c, ArgumentException, body)
  {
    Check(c, ArgumentException, body)
  }

  /** The exception type decides nothing but the kind thrown: passing, faulting and the message are the same for every kind. */
  lemma KindOnlyNamesException(c: IsCondition, k1: ErrorKind, k2: ErrorKind, body: Expr)
    ensures Check(c, k1, body).Returned? == Check(c, k2, body).Returned?
    ensures Check(c, k1, body).Faulted? ==> Check(c, k2, body) == Check(c, k1, body)
    ensures Check(c, k1, body).Thrown? ==> Check(c, k2, body) == Thrown(k2, Check(c, k1, body).message)
  {
  }

  /** Passing one check hands back the condition itself, so a following check sees the same name and value. */
  function AndThen(o: Outcome<IsCondition>, next: IsCondition -> Outcome<IsCondition>): Outcome<IsCondition>
  {
    if o.Returned? then next(o.value) else o
  }

  /** A chain of two checks passes exactly when each passes on the original condition, and hands that condition on. */
  lemma ChainPassesBoth(c: IsCondition, k1: ErrorKind, b1: Expr, k2: ErrorKind, b2: Expr)
    ensures var chained := AndThen(Check(c, k1, b1), x => Check(x, k2, b2));
      (chained.Returned? <==> Check(c, k1, b1).Returned? && Check(c, k2, b2).Returned?) &&
      (chained.Returned? ==> chained.value == c) &&
      (!Check(c, k1, b1).Returned? ==> chained == Check(c, k1, b1))
  {
  }
}
