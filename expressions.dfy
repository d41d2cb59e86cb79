/**
 * The predicate as data: the closed set of expression nodes a guard condition
 * is built from (System.Linq.Expressions, restricted to what the library meets).
 */
module Expressions {
  import opened Wrappers
  import opened Values

  /** The binary ExpressionType values a condition can contain. */
  datatype BinaryOp =
    | And | Or | ExclusiveOr | AndAlso | OrElse
    | Equal | NotEqual | LessThan | LessThanOrEqual | GreaterThan | GreaterThanOrEqual
    | Add | Subtract | Multiply | Divide | Modulo

  /** ExpressionType.ToString(): the operator's enum name. */
  function OpName(op: BinaryOp): string
  {
    match op
    case And => "And"
    case Or => "Or"
    case ExclusiveOr => "ExclusiveOr"
    case AndAlso => "AndAlso"
    case OrElse => "OrElse"
    case Equal => "Equal"
    case NotEqual => "NotEqual"
    case LessThan => "LessThan"
    case LessThanOrEqual => "LessThanOrEqual"
    case GreaterThan => "GreaterThan"
    case GreaterThanOrEqual => "GreaterThanOrEqual"
    case Add => "Add"
    case Subtract => "Subtract"
    case Multiply => "Multiply"
    case Divide => "Divide"
    case Modulo => "Modulo"
  }

  datatype UnaryOp = Not | Convert

  /**
   * A condition body.
   * - Const: a constant with the static type it was declared with.
   * - Param: the lambda's single parameter (the checked value).
   * - Member: a field or property read off the target's value.
   * - Call: a static method call; `result` is what invoking it returns, carried
   *   as data because the model does not compile and run arbitrary methods.
   *   A missing declaring type is None.
   */
  datatype Expr =
    | Const(declared: TypeCode, value: Val)
    | Param
    | Member(target: Expr, name: string)
    | Unary(uop: UnaryOp, operand: Expr)
    | Binary(bop: BinaryOp, left: Expr, right: Expr)
    | Call(declaringType: Option<string>, methodName: string, args: seq<Expr>, result: Val)

  /** The one call both the evaluator and the renderer treat specially. */
  predicate IsNullOrWhiteSpaceCall(e: Expr)
  {
    e.Call? && e.declaringType == Some("String") && e.methodName == "IsNullOrWhiteSpace"
  }

  /** Whether the lambda parameter occurs in e. */
  predicate MentionsParam(e: Expr)
  {
    match e
    case Const(_, _) => false
    case Param => true
    case Member(target, _) => MentionsParam(target)
    case Unary(_, x) => MentionsParam(x)
    case Binary(_, l, r) => MentionsParam(l) || MentionsParam(r)
    case Call(_, _, args, _) => exists i :: 0 <= i < |args| && MentionsParam(args[i])
  }

  /** Expression.Constant(object): the declared type is the value's runtime type, object for null. */
  function ConstantOf(v: Val): (e: Expr)
    ensures e.Const? && e.value == v
    ensures v != Null ==> e.declared == RuntimeCode(v)
  {
    Const(if v == Null then Object else RuntimeCode(v), v)
  }
}
