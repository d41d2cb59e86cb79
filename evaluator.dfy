/**
 * What `Expression.Compile().Invoke()` computes, as a function over the tree:
 * the truth value of a condition and the value of each sub-expression.
 */
module Evaluator {
  import opened Wrappers
  import opened Values
  import opened Expressions
  import opened Errors

  /** C# integer division: the quotient is truncated toward zero. */
  function TruncDiv(a: int, b: int): int
    requires b != 0
  {
    var q := Abs(a) / Abs(b);
    if (a < 0) != (b < 0) then -q else q
  }

  /** C# `%`: the remainder takes the sign of the dividend. */
  function TruncRem(a: int, b: int): int
    requires b != 0
  {
    a - b * TruncDiv(a, b)
  }

  function Abs(a: int): nat
  {
    if a < 0 then -a else a
  }

  /** The truncating quotient and remainder reassemble the dividend; the remainder is smaller than the divisor and never has the opposite sign of the dividend. */
  lemma TruncDivRem(a: int, b: int)
    requires b != 0
    ensures TruncDiv(a, b) * b + TruncRem(a, b) == a
    ensures Abs(TruncRem(a, b)) < Abs(b)
    ensures a >= 0 ==> TruncRem(a, b) >= 0
    ensures a <= 0 ==> TruncRem(a, b) <= 0
  {
    var A: int, B: int := Abs(a), Abs(b);
    var q: int, r: int := A / B, A % B;
    assert A == q * B + r && 0 <= r < B;
    var d := TruncDiv(a, b);
    assert b * d == (if a < 0 then -(q * B) else q * B) by {
      SignedProduct(a, b, q, B);
    }
    assert TruncRem(a, b) == (if a < 0 then -r else r);
    assert d * b == b * d;
  }

  /** b times the truncated quotient, by the signs of a and b. */
  lemma SignedProduct(a: int, b: int, q: int, B: int)
    requires b != 0 && B == Abs(b) && q == Abs(a) / B
    ensures b * TruncDiv(a, b) == (if a < 0 then -(q * B) else q * B)
  {
    var d := TruncDiv(a, b);
    if b < 0 {
      assert b == -B;
      if a < 0 {
        assert d == q;
        assert b * d == (-B) * q == -(q * B);
      } else {
        assert d == -q;
        assert b * d == (-B) * (-q) == q * B;
      }
    } else {
      assert b == B;
      if a < 0 {
        assert d == -q;
        assert b * d == B * (-q) == -(q * B);
      } else {
        assert d == q;
        assert b * d == B * q == q * B;
      }
    }
  }

  /**
   * `==` between two evaluated operands: value equality, with null equal only
   * to null. A char against a number compares its code point, as after the
   * compiler's conversion of the char to int. Operands of other different
   * kinds meet only under `object`, where the comparison is by reference and
   * yields false.
   */
  function Equals(a: Val, b: Val): (r: bool)
    ensures r <==> a == b || ((a.Num? || a.Chr?) && (b.Num? || b.Chr?) && Ordinal(a) == Ordinal(b))
  {
    if a.Null? || b.Null? then a == b
    else match (a, b)
      case (Num(_, x), Num(_, y)) => x == y
      case (Num(_, x), Chr(y)) => x == y as int
      case (Chr(x), Num(_, y)) => x as int == y
      case (Bool(x), Bool(y)) => x == y
      case (Chr(x), Chr(y)) => x == y
      case (Str(x), Str(y)) => x == y
      case (Obj(_, _, _), Obj(_, _, _)) => a == b
      case _ => false
  }

  /** The integer an ordered operand compares by (a char by its code point). */
  function Ordinal(v: Val): int
    requires v.Num? || v.Chr?
  {
    if v.Num? then v.n else v.c as int
  }

  /**
   * The strict/non-strict orderings. A null operand (a nullable with no value)
   * makes every ordering false, as C#'s lifted comparisons do. A char
   * compares by its code point, against a char or a number alike.
   */
  function Compare(op: BinaryOp, a: Val, b: Val): Result<bool, Fault>
    requires op in {LessThan, LessThanOrEqual, GreaterThan, GreaterThanOrEqual}
  {
    if (a.Null? && (b.Null? || b.Num? || b.Chr?)) || (b.Null? && (a.Num? || a.Chr?)) then Ok(false)
    else if (a.Num? || a.Chr?) && (b.Num? || b.Chr?) then
      var x, y := Ordinal(a), Ordinal(b);
      Ok(match op
        case LessThan => x < y
        case LessThanOrEqual => x <= y
        case GreaterThan => x > y
        case GreaterThanOrEqual => x >= y)
    else Err(TypeMismatch)
  }

  /** A char converted for comparison with a number orders and equals by its code point. */
  lemma CharAgainstNumber(c: char, t: TypeCode, n: int)
    ensures Eval(Binary(LessThan, Unary(Convert, Const(Char, Chr(c))), Const(t, Num(t, n))), None) == Ok(Bool(c as int < n))
    ensures Eval(Binary(Equal, Unary(Convert, Const(Char, Chr(c))), Const(t, Num(t, n))), None) == Ok(Bool(c as int == n))
  {
    var x, y := Unary(Convert, Const(Char, Chr(c))), Const(t, Num(t, n));
    assert Eval(x, None) == Ok(Chr(c));
    assert Eval(y, None) == Ok(Num(t, n));
    assert Compare(LessThan, Chr(c), Num(t, n)) == Ok(c as int < n);
    assert Eval(Binary(LessThan, x, y), None) == Apply(LessThan, Chr(c), Num(t, n));
    assert Eval(Binary(Equal, x, y), None) == Apply(Equal, Chr(c), Num(t, n));
  }

  /** Single, Double and Decimal: division on them is not integer division. */
  predicate FractionalCode(t: TypeCode)
  {
    t == Single || t == Double || t == Decimal
  }

  /**
   * Arithmetic on numbers; a null operand lifts the result to null. Integer
   * `/` truncates; a decimal or floating `/` is exact, so a quotient with a
   * fraction is Unrepresentable, and so is a floating division by zero, which
   * yields an infinity or NaN where integers and decimals throw.
   */
  function Arithmetic(op: BinaryOp, a: Val, b: Val): Result<Val, Fault>
    requires op in {Add, Subtract, Multiply, Divide, Modulo}
  {
    if (a.Null? && (b.Null? || b.Num?)) || (b.Null? && a.Num?) then Ok(Null)
    else if a.Num? && b.Num? then
      match op
      case Add => Ok(Num(a.code, a.n + b.n))
      case Subtract => Ok(Num(a.code, a.n - b.n))
      case Multiply => Ok(Num(a.code, a.n * b.n))
      case Divide =>
        if b.n == 0 then Err(if a.code == Single || a.code == Double then Unrepresentable else DivideByZero)
        else if FractionalCode(a.code) && TruncRem(a.n, b.n) != 0 then Err(Unrepresentable)
        else Ok(Num(a.code, TruncDiv(a.n, b.n)))
      case Modulo =>
        if b.n == 0 then Err(if a.code == Single || a.code == Double then Unrepresentable else DivideByZero)
        else Ok(Num(a.code, TruncRem(a.n, b.n)))
    else Err(TypeMismatch)
  }

  /**
   * Division is truncating on the integer types only. On a decimal or floating
   * operand it yields a result exactly when the divisor divides the dividend,
   * and that result multiplied back gives the dividend.
   */
  lemma DivisionByKind(t: TypeCode, x: int, y: int)
    requires y != 0
    ensures !FractionalCode(t) ==> Arithmetic(Divide, Num(t, x), Num(t, y)) == Ok(Num(t, TruncDiv(x, y)))
    ensures FractionalCode(t) ==>
      (Arithmetic(Divide, Num(t, x), Num(t, y)).Ok? <==> exists q :: q * y == x)
    ensures Arithmetic(Divide, Num(t, x), Num(t, y)).Ok? && FractionalCode(t) ==>
      Arithmetic(Divide, Num(t, x), Num(t, y)).value.n * y == x
  {
    TruncDivRem(x, y);
    if FractionalCode(t) && TruncRem(x, y) != 0 {
      forall q | q * y == x
        ensures false
      {
        ExactQuotient(x, y, q);
      }
    }
  }

  /** When y divides x, the truncating remainder is zero. */
  lemma ExactQuotient(x: int, y: int, q: int)
    requires y != 0 && q * y == x
    ensures TruncRem(x, y) == 0
  {
    TruncDivRem(x, y);
    var d := TruncDiv(x, y) - q;
    assert d * y + TruncRem(x, y) == 0;
    if d != 0 {
      AbsProduct(d, y);
    }
  }

  lemma AbsProduct(d: int, y: int)
    requires d != 0
    ensures Abs(d * y) >= Abs(y)
  {
    var D: nat, Y: nat := Abs(d), Abs(y);
    NaturalProduct(D, Y);
    if d < 0 && y < 0 {
      assert d * y == D * Y;
    } else if d < 0 {
      assert d * y == -(D * Y);
    } else if y < 0 {
      assert d * y == -(D * Y);
    } else {
      assert d * y == D * Y;
    }
  }

  /** A positive multiplier never shrinks a natural. */
  lemma {:induction false} NaturalProduct(D: nat, Y: nat)
    requires D >= 1
    ensures D * Y >= Y
  {
    if D > 1 {
      NaturalProduct(D - 1, Y);
      assert D * Y == (D - 1) * Y + Y;
    }
  }

  /** An eagerly evaluated binary operator applied to both operands' values. */
  function Apply(op: BinaryOp, a: Val, b: Val): Result<Val, Fault>
    requires op != AndAlso && op != OrElse
  {
    match op
    case Equal => Ok(Bool(Equals(a, b)))
    case NotEqual => Ok(Bool(!Equals(a, b)))
    case LessThan => var c :- Compare(op, a, b); Ok(Bool(c))
    case LessThanOrEqual => var c :- Compare(op, a, b); Ok(Bool(c))
    case GreaterThan => var c :- Compare(op, a, b); Ok(Bool(c))
    case GreaterThanOrEqual => var c :- Compare(op, a, b); Ok(Bool(c))
    case And => if a.Bool? && b.Bool? then Ok(Bool(a.b && b.b)) else Err(TypeMismatch)
    case Or => if a.Bool? && b.Bool? then Ok(Bool(a.b || b.b)) else Err(TypeMismatch)
    case ExclusiveOr => if a.Bool? && b.Bool? then Ok(Bool(a.b != b.b)) else Err(TypeMismatch)
    case Add => Arithmetic(op, a, b)
    case Subtract => Arithmetic(op, a, b)
    case Multiply => Arithmetic(op, a, b)
    case Divide => Arithmetic(op, a, b)
    case Modulo => Arithmetic(op, a, b)
  }

  /**
   * The value of e when the lambda parameter is bound to `arg` (None: the
   * lambda has no parameter). AndAlso and OrElse short-circuit; every other
   * operator evaluates both operands, left first. With its argument bound, or
   * in a body that never mentions it, the parameter is never found unbound.
   */
  function Eval(e: Expr, arg: Option<Val>): (r: Result<Val, Fault>)
    ensures arg.Some? || !MentionsParam(e) ==> r != Err(UnboundParameter)
    decreases e, 1, 0
  {
    match e
    case Const(_, v) => Ok(v)
    case Param => if arg.Some? then Ok(arg.value) else Err(UnboundParameter)
    case Member(target, name) =>
      var container :- Eval(target, arg);
      if container.Null? then Err(NullTarget)
      else if MemberOf(container, name).None? then Err(MemberNotFound)
      else Ok(MemberOf(container, name).value)
    case Unary(Convert, x) => Eval(x, arg)
    case Unary(Not, x) =>
      var v :- Eval(x, arg);
      (match v
       case Bool(b) => Ok(Bool(!b))
       case Num(code, n) => Ok(Num(code, -n - 1))
       case Null => Ok(Null)
       case _ => Err(TypeMismatch))
    case Binary(op, l, r) =>
      var a :- Eval(l, arg);
      if op == AndAlso || op == OrElse then
        if !a.Bool? then Err(TypeMismatch)
        else if a.b == (op == OrElse) then Ok(a)
        else
          var b :- Eval(r, arg);
          if b.Bool? then Ok(b) else Err(TypeMismatch)
      else
        var b :- Eval(r, arg);
        Apply(op, a, b)
    case Call(_, _, args, result) =>
      if IsNullOrWhiteSpaceCall(e) then
        if |args| == 0 then Err(NoArguments)
        else
          var s :- Eval(args[0], arg);
          (match s
           case Null => Ok(Bool(true))
           case Str(t) => Ok(Bool(AllWhiteSpace(t)))
           case _ => Err(TypeMismatch))
      else
        var _ :- EvalArgs(e, 0, arg);
        Ok(result)
  }

  /** Evaluates e's arguments from index i on, left to right, stopping at the first fault. */
  function EvalArgs(e: Expr, i: nat, arg: Option<Val>): (r: Result<(), Fault>)
    requires e.Call? && i <= |e.args|
    ensures arg.Some? || !MentionsParam(e) ==> r != Err(UnboundParameter)
    decreases e, 0, |e.args| - i
  {
    if i == |e.args| then Ok(())
    else
      var _ :- Eval(e.args[i], arg);
      EvalArgs(e, i + 1, arg)
  }

  /**
   * The condition's truth value; a body that is not boolean is a fault. A
   * compiled lambda invoked with its argument, or a parameterless body, never
   * finds the parameter unbound.
   */
  function Truth(e: Expr, arg: Option<Val>): (r: Result<bool, Fault>)
    ensures arg.Some? || !MentionsParam(e) ==> r != Err(UnboundParameter)
  {
    var v :- Eval(e, arg);
    if v.Bool? then Ok(v.b) else Err(NotBoolean)
  }

  /**
   * Comparing a number with a bound: the non-strict orderings hold at equality,
   * the strict ones fail there, and each ordering is the integer one.
   */
  lemma OrderingAtBound(op: BinaryOp, x: int, y: int, cx: TypeCode, cy: TypeCode)
    requires op in {LessThan, LessThanOrEqual, GreaterThan, GreaterThanOrEqual}
    ensures Eval(Binary(op, Const(cx, Num(cx, x)), Const(cy, Num(cy, y))), None) ==
      Ok(Bool(match op
        case LessThan => x < y
        case LessThanOrEqual => x <= y
        case GreaterThan => x > y
        case GreaterThanOrEqual => x >= y))
    ensures x == y ==>
      ((Truth(Binary(op, Const(cx, Num(cx, x)), Const(cy, Num(cy, y))), None) == Ok(true)) <==>
       op in {LessThanOrEqual, GreaterThanOrEqual})
  {
  }

  /** Without the lambda parameter, the bound argument is irrelevant to the value. */
  lemma {:induction false} EvalIgnoresArgument(e: Expr, a1: Option<Val>, a2: Option<Val>)
    requires !MentionsParam(e)
    ensures Eval(e, a1) == Eval(e, a2)
    decreases e, 1, 0
  {
    match e
    case Const(_, _) =>
    case Param =>
    case Member(target, _) => EvalIgnoresArgument(target, a1, a2);
    case Unary(_, x) => EvalIgnoresArgument(x, a1, a2);
    case Binary(_, l, r) => EvalIgnoresArgument(l, a1, a2); EvalIgnoresArgument(r, a1, a2);
    case Call(_, _, args, _) =>
      if |args| > 0 { EvalIgnoresArgument(args[0], a1, a2); }
      EvalArgsIgnoreArgument(e, 0, a1, a2);
  }

  lemma {:induction false} EvalArgsIgnoreArgument(e: Expr, i: nat, a1: Option<Val>, a2: Option<Val>)
    requires e.Call? && i <= |e.args| && !MentionsParam(e)
    ensures EvalArgs(e, i, a1) == EvalArgs(e, i, a2)
    decreases e, 0, |e.args| - i
  {
    if i < |e.args| {
      EvalIgnoresArgument(e.args[i], a1, a2);
      EvalArgsIgnoreArgument(e, i + 1, a1, a2);
    }
  }
}
