/**
 * The current renderer: ConditionToEnglish walks a condition and appends an
 * English description of it to a string buffer. `Rendering` is the
 * specification of one Visit call; the class below is the visitor itself,
 * whose methods are proved to append exactly what `Rendering` describes.
 */
module English {
  import opened Wrappers
  import opened Values
  import opened Expressions
  import opened Errors
  import opened Evaluator

  /** The parameter name and value a translation is made with. */
  datatype Scope = Scope(name: string, value: Val)

  /**
   * What one Visit call produces: the text it appends, and, when the node it
   * hands back is a constant, that constant's value (None otherwise).
   */
  datatype Visited = Visited(text: string, constant: Option<Val>)

  /** The type codes whose non-null constants are appended as their plain ToString text. */
  predicate PlainCode(t: TypeCode)
  {
    t in {Int16, Int32, Int64, Boolean, Byte, Char, DateTime, Double, Decimal, Single}
  }

  /** VisitConstant: a null constant, then the declared type code decides the text. */
  function ConstantText(declared: TypeCode, v: Val): string
  {
    if v.Null? then "null"
    else if PlainCode(declared) then ValText(v)
    else if declared == String then Quote(ValText(v))
    else ""
  }

  /** How VisitParameter prints the checked value: null as "null", strings quoted. */
  function ValueText(v: Val): string
  {
    if v.Null? then "null" else if v.Str? then Quote(v.s) else ValText(v)
  }

  /** VisitParameter: "name : value", or nothing when no name was given. */
  function ParameterText(s: Scope): string
  {
    if s.name == "" then "" else s.name + " : " + ValueText(s.value)
  }

  /** The text VisitBinary puts between the two operands. */
  function Phrase(op: BinaryOp): string
  {
    match op
    case And => " and "
    case Or => " or "
    case Equal => " should be equal to "
    case NotEqual => " should not be equal to "
    case LessThan => " should be less than "
    case LessThanOrEqual => " should be less than or equal to "
    case GreaterThan => " should be greater than "
    case GreaterThanOrEqual => " should be greater than or equal to "
    case AndAlso => " and also "
    case Add => " plus "
    case Subtract => " subtract "
    case Multiply => " multiply by "
    case Divide => " divide by "
    case _ => " " + OpName(op) + " "
  }

  /** The text VisitMethodCall opens a non-special call with. */
  function CallHead(declaringType: Option<string>, methodName: string): string
  {
    if declaringType.Some? then declaringType.value + " " + methodName + " (" else methodName + " ("
  }

  /** What visiting e in scope s appends and hands back, or the exception it throws. */
  function Rendering(e: Expr, s: Scope): Result<Visited, Fault>
    decreases e, 2, 0
  {
    match e
    case Const(t, v) => Ok(Visited(ConstantText(t, v), Some(v)))
    case Param => Ok(Visited(ParameterText(s), None))
    case Member(_, _) => MemberRendering(e, s)
    case Unary(_, _) => UnaryRendering(e, s)
    case Binary(_, _, _) => BinaryRendering(e, s)
    case Call(_, _, _, _) => CallRendering(e, s)
  }

  /**
   * VisitMember: the target is visited; when it hands back a constant, the
   * member is read off that value and printed as "Name : " and the value under
   * the constant rules of its runtime type, and the value is handed back.
   */
  function MemberRendering(e: Expr, s: Scope): Result<Visited, Fault>
    requires e.Member?
    decreases e, 1, 0
  {
    var inner := Rendering(e.target, s);
    if inner.Err? then Err(inner.error)
    else if inner.value.constant.None? then Ok(Visited(inner.value.text, None))
    else
      var container := inner.value.constant.value;
      if container.Null? then Err(NullTarget)
      else if MemberOf(container, e.name).None? then Err(MemberNotFound)
      else
        var v := MemberOf(container, e.name).value;
        Ok(Visited(inner.value.text + e.name + " : " + ConstantText(RuntimeCode(v), v), Some(v)))
  }

  /** The base visitor's VisitUnary: the operand's text, and no constant handed back. */
  function UnaryRendering(e: Expr, s: Scope): Result<Visited, Fault>
    requires e.Unary?
    decreases e, 1, 0
  {
    var inner := Rendering(e.operand, s);
    if inner.Err? then Err(inner.error) else Ok(Visited(inner.value.text, None))
  }

  /** VisitBinary: left operand, the operator's phrase, right operand. */
  function BinaryRendering(e: Expr, s: Scope): Result<Visited, Fault>
    requires e.Binary?
    decreases e, 1, 0
  {
    var left := Rendering(e.left, s);
    if left.Err? then Err(left.error)
    else
      var right := Rendering(e.right, s);
      if right.Err? then Err(right.error)
      else Ok(Visited(left.value.text + Phrase(e.bop) + right.value.text, None))
  }

  /**
   * VisitMethodCall: String.IsNullOrWhiteSpace prints its first argument and a
   * fixed phrase; any other call prints its head, its arguments one after the
   * other, and the value invoking it returns. That invocation compiles the call
   * as a lambda of its own, which fails when the call mentions the outer
   * lambda's parameter, whatever path evaluation would take.
   */
  function CallRendering(e: Expr, s: Scope): Result<Visited, Fault>
    requires e.Call?
    decreases e, 1, 0
  {
    if IsNullOrWhiteSpaceCall(e) then
      if |e.args| == 0 then Err(NoArguments)
      else
        var first := Rendering(e.args[0], s);
        if first.Err? then Err(first.error)
        else Ok(Visited(first.value.text + " should not be null or whitespace ", None))
    else
      var argsText := ArgsRendering(e, |e.args|, s);
      if argsText.Err? then Err(argsText.error)
      else if MentionsParam(e) then Err(UnboundParameter)
      else
        var result := Eval(e, None);
        if result.Err? then Err(result.error)
        else Ok(Visited(CallHead(e.declaringType, e.methodName) + argsText.value + ") returned " + ValText(result.value), None))
  }

  /** The texts of e's first k arguments, visited left to right; the first fault stops the walk. */
  function ArgsRendering(e: Expr, k: nat, s: Scope): Result<string, Fault>
    requires e.Call? && k <= |e.args|
    decreases e, 0, k
  {
    if k == 0 then Ok("")
    else
      var before := ArgsRendering(e, k - 1, s);
      if before.Err? then before
      else
        var last := Rendering(e.args[k - 1], s);
        if last.Err? then Err(last.error) else Ok(before.value + last.value.text)
  }

  /** Once an argument has thrown, every longer prefix of the arguments ends in that exception. */
  lemma {:induction false} ArgsFaultPersists(e: Expr, k: nat, m: nat, s: Scope)
    requires e.Call? && k <= m <= |e.args| && ArgsRendering(e, k, s).Err?
    ensures ArgsRendering(e, m, s) == ArgsRendering(e, k, s)
    decreases m - k
  {
    if k < m {
      ArgsFaultPersists(e, k, m - 1, s);
    }
  }

  /** Translate(expression, parameterName, value): the whole message, or the exception. */
  function Render(e: Expr, name: string, value: Val): Result<string, Fault>
  {
    var d := Rendering(e, Scope(name, value));
    if d.Err? then Err(d.error) else Ok(d.value.text)
  }

  /** `p` put in front of a successful text; a fault passes through. */
  function Prefixed(p: string, r: Result<string, Fault>): Result<string, Fault>
  {
    if r.Ok? then Ok(p + r.value) else r
  }

  lemma Regroup(a: string, b: string, c: string, d: string)
    ensures a + b + c + d == a + (b + c + d)
  {
  }

  /** One Visit call did what `spec` says: appended its text and handed back its constant, or threw its fault. */
  ghost predicate Appended(spec: Result<Visited, Fault>, r: Result<Option<Val>, Fault>, before: string, after: string)
  {
    (spec.Ok? ==> r == Ok(spec.value.constant) && after == before + spec.value.text) &&
    (spec.Err? ==> r == Err(spec.error))
  }

  /**
   * The visitor. `sb` is the StringBuilder, `name` and `value` the parameter
   * name and value the current translation was started with.
   */
  class ConditionToEnglish {
    var sb: string
    var name: string
    var value: Val

    constructor ()
      ensures sb == "" && name == "" && value == Null
    {
      sb := "";
      name := "";
      value := Null;
    }

    /** Each translation runs on a new instance, so its result depends on its arguments alone. */
    static method Translate(e: Expr, parameterName: string, v: Val) returns (r: Result<string, Fault>)
      ensures r == Render(e, parameterName, v)
    {
      var translator := new ConditionToEnglish();
      r := translator.TranslateInternal(e, parameterName, v);
    }

    method TranslateInternal(e: Expr, parameterName: string, v: Val) returns (r: Result<string, Fault>)
      modifies this
      ensures name == parameterName && value == v
      ensures r == Render(e, parameterName, v)
      ensures r.Ok? ==> sb == r.value
    {
      sb := "";
      name := parameterName;
      value := v;
      var visited := Visit(e);
      if visited.Err? {
        return Err(visited.error);
      }
      assert sb == "" + Rendering(e, Scope(name, value)).value.text == Rendering(e, Scope(name, value)).value.text;
      r := Ok(sb);
    }

    method Visit(e: Expr) returns (r: Result<Option<Val>, Fault>)
      modifies this`sb
      ensures Appended(Rendering(e, Scope(name, value)), r, old(sb), sb)
      decreases e, 2, 0
    {
      match e
      case Const(t, v) =>
        VisitConstant(t, v);
        r := Ok(Some(v));
      case Param =>
        VisitParameter();
        r := Ok(None);
      case Member(_, _) =>
        r := VisitMember(e);
      case Unary(_, _) =>
        r := VisitUnary(e);
      case Binary(_, _, _) =>
        r := VisitBinary(e);
      case Call(_, _, _, _) =>
        r := VisitMethodCall(e);
    }

    method VisitConstant(t: TypeCode, v: Val)
      modifies this`sb
      ensures sb == old(sb) + ConstantText(t, v)
    {
      if v.Null? {
        sb := sb + "null";
      } else if PlainCode(t) {
        sb := sb + ValText(v);
      } else if t == String {
        sb := sb + "\"" + ValText(v) + "\"";
      }
    }

    method VisitMember(e: Expr) returns (r: Result<Option<Val>, Fault>)
      requires e.Member?
      modifies this`sb
      ensures Appended(MemberRendering(e, Scope(name, value)), r, old(sb), sb)
      decreases e, 1, 0
    {
      var target := Visit(e.target);
      if target.Err? {
        return Err(target.error);
      }
      if target.value.None? {
        return Ok(None);
      }
      var container := target.value.value;
      if container.Null? {
        return Err(NullTarget);
      }
      var member := MemberOf(container, e.name);
      if member.None? {
        return Err(MemberNotFound);
      }
      sb := sb + (e.name + " : ");
      VisitConstant(RuntimeCode(member.value), member.value);
      r := Ok(Some(member.value));
    }

    method VisitParameter()
      modifies this`sb
      ensures sb == old(sb) + ParameterText(Scope(name, value))
    {
      if name != "" {
        var formatted := if value.Null? then "null" else ValText(value);
        if value.Str? {
          formatted := "\"" + formatted + "\"";
        }
        sb := sb + name + " : " + formatted;
      }
    }

    /** The base visitor's VisitUnary: the operand is visited, the operator adds no text. */
    method VisitUnary(e: Expr) returns (r: Result<Option<Val>, Fault>)
      requires e.Unary?
      modifies this`sb
      ensures Appended(UnaryRendering(e, Scope(name, value)), r, old(sb), sb)
      decreases e, 1, 0
    {
      var operand := Visit(e.operand);
      if operand.Err? {
        return Err(operand.error);
      }
      r := Ok(None);
    }

    method VisitMethodCall(e: Expr) returns (r: Result<Option<Val>, Fault>)
      requires e.Call?
      modifies this`sb
      ensures Appended(CallRendering(e, Scope(name, value)), r, old(sb), sb)
      decreases e, 1, 1
    {
      if e.declaringType.Some? {
        if e.declaringType.value == "String" && e.methodName == "IsNullOrWhiteSpace" {
          r := VisitNullOrWhiteSpace(e);
          return;
        }
        sb := sb + (e.declaringType.value + " " + e.methodName + " (");
      } else {
        sb := sb + (e.methodName + " (");
      }
      var args := VisitArguments(e);
      if args.Err? {
        return Err(args.error);
      }
      ghost var done := ArgsRendering(e, |e.args|, Scope(name, value)).value;
      if MentionsParam(e) {
        return Err(UnboundParameter);
      }
      var result := Eval(e, None);
      if result.Err? {
        return Err(result.error);
      }
      sb := sb + (") returned " + ValText(result.value));
      Regroup(old(sb), CallHead(e.declaringType, e.methodName), done, ") returned " + ValText(result.value));
      r := Ok(None);
    }

    /** The foreach of VisitMethodCall: each argument visited in order. */
    method VisitArguments(e: Expr) returns (r: Result<(), Fault>)
      requires e.Call?
      modifies this`sb
      ensures ArgsRendering(e, |e.args|, Scope(name, value)).Ok? ==>
        r.Ok? && sb == old(sb) + ArgsRendering(e, |e.args|, Scope(name, value)).value
      ensures ArgsRendering(e, |e.args|, Scope(name, value)).Err? ==>
        r == Err(ArgsRendering(e, |e.args|, Scope(name, value)).error)
      decreases e, 0, 0
    {
      ghost var s := Scope(name, value);
      var i := 0;
      while i < |e.args|
        invariant 0 <= i <= |e.args|
        invariant ArgsRendering(e, i, s).Ok?
        invariant sb == old(sb) + ArgsRendering(e, i, s).value
      {
        var arg := Visit(e.args[i]);
        if arg.Err? {
          ArgsFaultPersists(e, i + 1, |e.args|, s);
          return Err(arg.error);
        }
        i := i + 1;
      }
      r := Ok(());
    }

    /** The String.IsNullOrWhiteSpace branch of VisitMethodCall. */
    method VisitNullOrWhiteSpace(e: Expr) returns (r: Result<Option<Val>, Fault>)
      requires IsNullOrWhiteSpaceCall(e)
      modifies this`sb
      ensures Appended(CallRendering(e, Scope(name, value)), r, old(sb), sb)
      decreases e, 0, 1
    {
      if |e.args| == 0 {
        return Err(NoArguments);
      }
      var first := Visit(e.args[0]);
      if first.Err? {
        return Err(first.error);
      }
      sb := sb + " should not be null or whitespace ";
      r := Ok(None);
    }

    method VisitBinary(e: Expr) returns (r: Result<Option<Val>, Fault>)
      requires e.Binary?
      modifies this`sb
      ensures Appended(BinaryRendering(e, Scope(name, value)), r, old(sb), sb)
      decreases e, 1, 0
    {
      ghost var s := Scope(name, value);
      var left := Visit(e.left);
      if left.Err? {
        return Err(left.error);
      }
      sb := sb + Phrase(e.bop);
      var right := Visit(e.right);
      if right.Err? {
        return Err(right.error);
      }
      Regroup(old(sb), Rendering(e.left, s).value.text, Phrase(e.bop), Rendering(e.right, s).value.text);
      r := Ok(None);
    }
  }

  // Properties of the rendering.

  /**
   * A constant renders by its declared type: null as "null" whatever the type,
   * the listed scalar types as plain text, strings in quotes, every other type
   * (unsigned and signed-byte integers, objects, nullable wrappers) as nothing.
   */
  lemma ConstantByDeclaredType(t: TypeCode, v: Val, name: string, value: Val)
    ensures v == Null ==> Render(Const(t, v), name, value) == Ok("null")
    ensures v != Null && PlainCode(t) ==> Render(Const(t, v), name, value) == Ok(ValText(v))
    ensures v != Null && t == String ==> Render(Const(t, v), name, value) == Ok("\"" + ValText(v) + "\"")
    ensures v != Null && !PlainCode(t) && t != String ==> Render(Const(t, v), name, value) == Ok("")
  {
  }

  /** A condition the compiler folded to the constant false renders as exactly "False". */
  lemma FoldedFalse(name: string, value: Val)
    ensures Render(Const(Boolean, Bool(false)), name, value) == Ok("False")
  {
  }

  /** A binary node renders as its left operand, the operator's phrase, and its right operand; the first operand that throws decides the exception. */
  lemma BinaryInfix(op: BinaryOp, l: Expr, r: Expr, name: string, value: Val)
    ensures Render(Binary(op, l, r), name, value) ==
      if Render(l, name, value).Err? then Render(l, name, value)
      else if Render(r, name, value).Err? then Render(r, name, value)
      else Ok(Render(l, name, value).value + Phrase(op) + Render(r, name, value).value)
  {
    var e := Binary(op, l, r);
    assert Rendering(e, Scope(name, value)) == BinaryRendering(e, Scope(name, value));
  }

  /** The operators without an entry in the phrase table print their enum name between spaces. */
  lemma FallbackPhrase(op: BinaryOp)
    requires op in {ExclusiveOr, OrElse, Modulo}
    ensures Phrase(op) == " " + OpName(op) + " "
  {
  }

  /** Every phrase is set off by a space on each side. */
  lemma PhraseDelimited(op: BinaryOp)
    ensures |Phrase(op)| >= 3 && Phrase(op)[0] == ' ' && Phrase(op)[|Phrase(op)| - 1] == ' '
  {
  }

  /** The operator a phrase stands for, read back from the text. */
  function PhraseOperator(p: string): Option<BinaryOp>
  {
    if p == " " + OpName(ExclusiveOr) + " " then Some(ExclusiveOr)
    else if p == " " + OpName(OrElse) + " " then Some(OrElse)
    else if p == " " + OpName(Modulo) + " " then Some(Modulo)
    else if p == " and " then Some(And)
    else if p == " or " then Some(Or)
    else if p == " should be equal to " then Some(Equal)
    else if p == " should not be equal to " then Some(NotEqual)
    else if p == " should be less than " then Some(LessThan)
    else if p == " should be less than or equal to " then Some(LessThanOrEqual)
    else if p == " should be greater than " then Some(GreaterThan)
    else if p == " should be greater than or equal to " then Some(GreaterThanOrEqual)
    else if p == " and also " then Some(AndAlso)
    else if p == " plus " then Some(Add)
    else if p == " subtract " then Some(Subtract)
    else if p == " multiply by " then Some(Multiply)
    else if p == " divide by " then Some(Divide)
    else None
  }

  /** Each phrase names its operator: reading it back gives the operator, so no two operators print alike. */
  lemma PhraseNamesOperator(op: BinaryOp)
    ensures PhraseOperator(Phrase(op)) == Some(op)
  {
    if op in {And, Or, ExclusiveOr, AndAlso, OrElse} {
      LogicalPhraseNamesOperator(op);
    } else if op in {Equal, NotEqual, LessThan, LessThanOrEqual, GreaterThan, GreaterThanOrEqual} {
      ComparisonPhraseNamesOperator(op);
    } else {
      ArithmeticPhraseNamesOperator(op);
    }
  }

  lemma LogicalPhraseNamesOperator(op: BinaryOp)
    requires op in {And, Or, ExclusiveOr, AndAlso, OrElse}
    ensures PhraseOperator(Phrase(op)) == Some(op)
  {
    match op
    case And =>
    case Or =>
    case ExclusiveOr =>
    case AndAlso =>
    case OrElse =>
  }

  lemma ComparisonPhraseNamesOperator(op: BinaryOp)
    requires op in {Equal, NotEqual, LessThan, LessThanOrEqual, GreaterThan, GreaterThanOrEqual}
    ensures PhraseOperator(Phrase(op)) == Some(op)
  {
  }

  lemma ArithmeticPhraseNamesOperator(op: BinaryOp)
    requires op in {Add, Subtract, Multiply, Divide, Modulo}
    ensures PhraseOperator(Phrase(op)) == Some(op)
  {
    match op
    case Add =>
    case Subtract =>
    case Multiply =>
      assert (" " + OpName(ExclusiveOr) + " ")[1] == 'E';
    case Divide =>
    case Modulo =>
      assert |Phrase(op)| != |" " + OpName(ExclusiveOr) + " "|;
      assert Phrase(op)[1] == 'M' && (" " + OpName(OrElse) + " ")[1] == 'O';
  }

  /** The parameter prints as "name : value" (null as "null", a string in quotes), or not at all without a name. */
  lemma ParameterByName(name: string, value: Val)
    ensures name == "" ==> Render(Param, name, value) == Ok("")
    ensures name != "" && value == Null ==> Render(Param, name, value) == Ok(name + " : null")
    ensures name != "" && value.Str? ==> Render(Param, name, value) == Ok(name + " : \"" + value.s + "\"")
    ensures name != "" && value != Null && !value.Str? ==> Render(Param, name, value) == Ok(name + " : " + ValText(value))
  {
    if name != "" && value.Str? {
      assert name + " : " + Quote(value.s) == name + " : \"" + value.s + "\"";
    }
    assert name + " : " + "null" == name + " : null";
  }

  /**
   * A member read off a constant prints the constant, then "Member : " and the
   * member's value under the constant rules for its runtime type; a captured
   * closure (an object constant) prints nothing of its own. Reading off a null
   * constant throws.
   */
  lemma MemberOfConstant(t: TypeCode, container: Val, m: string, name: string, value: Val)
    requires container != Null && MemberOf(container, m).Some?
    ensures var v := MemberOf(container, m).value;
      Render(Member(Const(t, container), m), name, value) ==
        Ok(ConstantText(t, container) + m + " : " + ConstantText(RuntimeCode(v), v))
    ensures container.Obj? && t == Object ==>
      var v := MemberOf(container, m).value;
      Render(Member(Const(t, container), m), name, value) == Ok(m + " : " + ConstantText(RuntimeCode(v), v))
    ensures Render(Member(Const(t, Null), m), name, value) == Err(NullTarget)
  {
    var s := Scope(name, value);
    assert Rendering(Const(t, container), s) == Ok(Visited(ConstantText(t, container), Some(container)));
    assert Rendering(Member(Const(t, container), m), s) == MemberRendering(Member(Const(t, container), m), s);
    assert Rendering(Const(t, Null), s) == Ok(Visited("null", Some(Null)));
    assert Rendering(Member(Const(t, Null), m), s) == MemberRendering(Member(Const(t, Null), m), s);
    if container.Obj? && t == Object {
      var v := MemberOf(container, m).value;
      assert ConstantText(t, container) + m + " : " + ConstantText(RuntimeCode(v), v) == m + " : " + ConstantText(RuntimeCode(v), v);
    }
  }

  /** Not and Convert add no text. */
  lemma UnaryTransparent(op: UnaryOp, x: Expr, name: string, value: Val)
    ensures Render(Unary(op, x), name, value) == Render(x, name, value)
  {
    assert Rendering(Unary(op, x), Scope(name, value)) == UnaryRendering(Unary(op, x), Scope(name, value));
  }

  /** String.IsNullOrWhiteSpace(a) prints a and the fixed phrase, trailing space included; a surrounding Not adds nothing. */
  lemma NullOrWhiteSpacePhrase(a: Expr, rest: seq<Expr>, result: Val, name: string, value: Val)
    ensures var e := Unary(Not, Call(Some("String"), "IsNullOrWhiteSpace", [a] + rest, result));
      Render(e, name, value) ==
        if Render(a, name, value).Err? then Render(a, name, value)
        else Ok(Render(a, name, value).value + " should not be null or whitespace ")
  {
    var c := Call(Some("String"), "IsNullOrWhiteSpace", [a] + rest, result);
    var s := Scope(name, value);
    assert c.args[0] == a;
    assert Rendering(c, s) == CallRendering(c, s);
    assert Rendering(Unary(Not, c), s) == UnaryRendering(Unary(Not, c), s);
  }

  /** The parts joined one after the other, with no separator. */
  function Joined(parts: seq<string>): string
  {
    if parts == [] then "" else parts[0] + Joined(parts[1..])
  }

  lemma {:induction false} JoinedSnoc(parts: seq<string>, last: string)
    ensures Joined(parts + [last]) == Joined(parts) + last
  {
    if parts != [] {
      assert (parts + [last])[1..] == parts[1..] + [last];
      JoinedSnoc(parts[1..], last);
    }
  }

  /** When no argument throws, the arguments' texts are concatenated with no separator. */
  lemma {:induction false} ArgsJoined(e: Expr, k: nat, s: Scope)
    requires e.Call? && k <= |e.args|
    requires forall j :: 0 <= j < k ==> Rendering(e.args[j], s).Ok?
    ensures ArgsRendering(e, k, s) == Ok(Joined(seq(k, j requires 0 <= j < k => Rendering(e.args[j], s).value.text)))
    decreases k
  {
    if k > 0 {
      ArgsJoined(e, k - 1, s);
      var texts := seq(k, j requires 0 <= j < k => Rendering(e.args[j], s).value.text);
      assert texts == texts[..k - 1] + [texts[k - 1]];
      assert texts[..k - 1] == seq(k - 1, j requires 0 <= j < k - 1 => Rendering(e.args[j], s).value.text);
      JoinedSnoc(texts[..k - 1], texts[k - 1]);
    }
  }

  /**
   * Any other call prints "Type method (", its arguments' texts concatenated,
   * and ") returned " with what the call returned; without a declaring type it
   * starts with just "method (".
   */
  lemma CallSentence(e: Expr, name: string, value: Val)
    requires e.Call? && !IsNullOrWhiteSpaceCall(e) && !MentionsParam(e)
    requires forall j :: 0 <= j < |e.args| ==> Rendering(e.args[j], Scope(name, value)).Ok?
    requires Eval(e, None).Ok?
    ensures var texts := seq(|e.args|, j requires 0 <= j < |e.args| => Rendering(e.args[j], Scope(name, value)).value.text);
      Render(e, name, value) ==
        Ok((if e.declaringType.Some? then e.declaringType.value + " " + e.methodName + " (" else e.methodName + " (")
           + Joined(texts) + ") returned " + ValText(e.result))
  {
    ArgsJoined(e, |e.args|, Scope(name, value));
    assert Rendering(e, Scope(name, value)) == CallRendering(e, Scope(name, value));
  }

  /**
   * A call whose arguments mention the lambda parameter cannot be compiled on
   * its own: once its arguments have been printed, rendering it throws, even
   * when evaluation never reaches the parameter.
   */
  lemma CallWithParameterThrows(e: Expr, name: string, value: Val)
    requires e.Call? && !IsNullOrWhiteSpaceCall(e) && MentionsParam(e)
    requires forall j :: 0 <= j < |e.args| ==> Rendering(e.args[j], Scope(name, value)).Ok?
    ensures Render(e, name, value) == Err(UnboundParameter)
  {
    ArgsJoined(e, |e.args|, Scope(name, value));
    assert Rendering(e, Scope(name, value)) == CallRendering(e, Scope(name, value));
  }

  /** The rendering depends on the scope only through the parameter's text. */
  lemma {:induction false} ScopeThroughParameter(e: Expr, s1: Scope, s2: Scope)
    requires ParameterText(s1) == ParameterText(s2)
    ensures Rendering(e, s1) == Rendering(e, s2)
    decreases e, 2, 0
  {
    match e
    case Const(_, _) =>
    case Param =>
    case Member(target, _) => ScopeThroughParameter(target, s1, s2);
    case Unary(_, x) => ScopeThroughParameter(x, s1, s2);
    case Binary(_, l, r) => ScopeThroughParameter(l, s1, s2); ScopeThroughParameter(r, s1, s2);
    case Call(_, _, args, _) =>
      if |args| > 0 {
        ScopeThroughParameter(args[0], s1, s2);
      }
      ArgsThroughParameter(e, |args|, s1, s2);
  }

  lemma {:induction false} ArgsThroughParameter(e: Expr, k: nat, s1: Scope, s2: Scope)
    requires e.Call? && k <= |e.args| && ParameterText(s1) == ParameterText(s2)
    ensures ArgsRendering(e, k, s1) == ArgsRendering(e, k, s2)
    decreases e, 0, k
  {
    if k > 0 {
      ArgsThroughParameter(e, k - 1, s1, s2);
      ScopeThroughParameter(e.args[k - 1], s1, s2);
    }
  }

  /** Without a name the checked value never shows: any two values give the same message. */
  lemma NamelessIgnoresValue(e: Expr, v1: Val, v2: Val)
    ensures Render(e, "", v1) == Render(e, "", v2)
  {
    ScopeThroughParameter(e, Scope("", v1), Scope("", v2));
  }
}
