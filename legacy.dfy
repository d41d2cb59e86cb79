/**
 * The single-file version of the library: its own IsCondition.Check, Guard.Is,
 * builders and renderer. The checks and trees are those of the current
 * version; the renderer differs: the parameter prints as "name(value)", a
 * member is read straight off a constant target as "Member(value)", calls add
 * no text of their own, and NotEqual reads "should be not equal to".
 */
module Legacy {
  import opened Wrappers
  import opened Values
  import opened Expressions
  import opened Errors
  import opened Evaluator
  import English
  import Conditions
  import IsExtensions

  /** A value as the legacy renderer formats it: null as "null", otherwise its ToString text (strings unquoted). */
  function LegacyValueText(v: Val): string
  {
    if v.Null? then "null" else ValText(v)
  }

  /** VisitParameter: "name(value)", or nothing when no name was given. */
  function LegacyParameterText(s: English.Scope): string
  {
    if s.name == "" then "" else s.name + "(" + LegacyValueText(s.value) + ")"
  }

  /** The legacy phrase table: the current one, except for NotEqual's word order. */
  function LegacyPhrase(op: BinaryOp): string
  {
    if op == NotEqual then " should be not equal to " else English.Phrase(op)
  }

  /**
   * What the legacy visitor appends for e, or the exception it throws. A
   * member's target must itself be a constant (otherwise the cast fails), must
   * not be null, and must have a public field of that name.
   */
  function LegacyRendering(e: Expr, s: English.Scope): Result<string, Fault>
    decreases e, 1, 0
  {
    match e
    case Const(t, v) => Ok(English.ConstantText(t, v))
    case Param => Ok(LegacyParameterText(s))
    case Member(target, name) =>
      if !target.Const? then Err(InvalidCast)
      else if target.value.Null? then Err(NullTarget)
      else if FieldOf(target.value, name).None? then Err(MemberNotFound)
      else Ok(name + "(" + LegacyValueText(FieldOf(target.value, name).value) + ")")
    case Unary(_, x) => LegacyRendering(x, s)
    case Binary(op, l, r) =>
      var left := LegacyRendering(l, s);
      if left.Err? then left
      else
        var right := LegacyRendering(r, s);
        if right.Err? then right
        else Ok(left.value + LegacyPhrase(op) + right.value)
    case Call(_, _, args, _) => LegacyArgsRendering(e, |args|, s)
  }

  /** The base visitor's walk over a call's first k arguments; the first fault stops it. */
  function LegacyArgsRendering(e: Expr, k: nat, s: English.Scope): Result<string, Fault>
    requires e.Call? && k <= |e.args|
    decreases e, 0, k
  {
    if k == 0 then Ok("")
    else
      var before := LegacyArgsRendering(e, k - 1, s);
      if before.Err? then before
      else
        var last := LegacyRendering(e.args[k - 1], s);
        if last.Err? then last else Ok(before.value + last.value)
  }

  lemma {:induction false} LegacyArgsFaultPersists(e: Expr, k: nat, m: nat, s: English.Scope)
    requires e.Call? && k <= m <= |e.args| && LegacyArgsRendering(e, k, s).Err?
    ensures LegacyArgsRendering(e, m, s) == LegacyArgsRendering(e, k, s)
    decreases m - k
  {
    if k < m {
      LegacyArgsFaultPersists(e, k, m - 1, s);
    }
  }

  /** Translate(expression, parameterName, value) of the legacy renderer. */
  function LegacyRender(e: Expr, name: string, value: Val): Result<string, Fault>
  {
    LegacyRendering(e, English.Scope(name, value))
  }

  /** One legacy Visit call appended `spec`'s text, or threw its fault. */
  ghost predicate Appended(spec: Result<string, Fault>, r: Result<(), Fault>, before: string, after: string)
  {
    (spec.Ok? ==> r.Ok? && after == before + spec.value) &&
    (spec.Err? ==> r == Err(spec.error))
  }

  /** The legacy visitor: `sb` the StringBuilder, `name` and `value` the translation's parameter. */
  class ConditionToEnglish {
    var sb: string
    var name: string
    var value: Val

    constructor ()
      ensures sb == "" && name == "" && value == Null
    {
      sb := "";
      name := "";
      value := Null;
    }

    /** Starts a fresh buffer, records the parameter and visits the expression. */
    method Translate(e: Expr, parameterName: string, v: Val) returns (r: Result<string, Fault>)
      modifies this
      ensures name == parameterName && value == v
      ensures r == LegacyRender(e, parameterName, v)
      ensures r.Ok? ==> sb == r.value
    {
      sb := "";
      name := parameterName;
      value := v;
      var visited := Visit(e);
      if visited.Err? {
        return Err(visited.error);
      }
      assert sb == "" + LegacyRender(e, name, value).value == LegacyRender(e, name, value).value;
      r := Ok(sb);
    }

    method Visit(e: Expr) returns (r: Result<(), Fault>)
      modifies this`sb
      ensures Appended(LegacyRendering(e, English.Scope(name, value)), r, old(sb), sb)
      decreases e, 1, 0
    {
      match e
      case Const(t, v) =>
        VisitConstant(t, v);
        r := Ok(());
      case Param =>
        VisitParameter();
        r := Ok(());
      case Member(_, _) =>
        r := VisitMember(e);
      case Unary(_, x) =>
        r := Visit(x);
      case Binary(_, _, _) =>
        r := VisitBinary(e);
      case Call(_, _, _, _) =>
        r := VisitArguments(e);
    }

    method VisitConstant(t: TypeCode, v: Val)
      modifies this`sb
      ensures sb == old(sb) + English.ConstantText(t, v)
    {
      if v.Null? {
        sb := sb + "null";
      } else if English.PlainCode(t) {
        sb := sb + ValText(v);
      } else if t == String {
        sb := sb + ("\"" + ValText(v) + "\"");
      }
    }

    method VisitMember(e: Expr) returns (r: Result<(), Fault>)
      requires e.Member?
      modifies this`sb
      ensures Appended(LegacyRendering(e, English.Scope(name, value)), r, old(sb), sb)
    {
      if !e.target.Const? {
        return Err(InvalidCast);
      }
      var container := e.target.value;
      if container.Null? {
        return Err(NullTarget);
      }
      var field := FieldOf(container, e.name);
      if field.None? {
        return Err(MemberNotFound);
      }
      var memberValue := if field.value.Null? then "null" else ValText(field.value);
      sb := sb + (e.name + "(" + memberValue + ")");
      r := Ok(());
    }

    method VisitParameter()
      modifies this`sb
      ensures sb == old(sb) + LegacyParameterText(English.Scope(name, value))
    {
      if name != "" {
        var formatted := if value.Null? then "null" else ValText(value);
        sb := sb + (name + "(" + formatted + ")");
      }
    }

    /** The base visitor's VisitMethodCall: each argument visited in order, nothing else appended. */
    method VisitArguments(e: Expr) returns (r: Result<(), Fault>)
      requires e.Call?
      modifies this`sb
      ensures Appended(LegacyRendering(e, English.Scope(name, value)), r, old(sb), sb)
      decreases e, 0, 0
    {
      ghost var s := English.Scope(name, value);
      assert LegacyRendering(e, s) == LegacyArgsRendering(e, |e.args|, s);
      var i := 0;
      while i < |e.args|
        invariant 0 <= i <= |e.args|
        invariant LegacyArgsRendering(e, i, s).Ok?
        invariant sb == old(sb) + LegacyArgsRendering(e, i, s).value
      {
        var arg := Visit(e.args[i]);
        if arg.Err? {
          LegacyArgsFaultPersists(e, i + 1, |e.args|, s);
          return Err(arg.error);
        }
        i := i + 1;
      }
      r := Ok(());
    }

    method VisitBinary(e: Expr) returns (r: Result<(), Fault>)
      requires e.Binary?
      modifies this`sb
      ensures Appended(LegacyRendering(e, English.Scope(name, value)), r, old(sb), sb)
      decreases e, 0, 0
    {
      ghost var s := English.Scope(name, value);
      var left := Visit(e.left);
      if left.Err? {
        return left;
      }
      sb := sb + LegacyPhrase(e.bop);
      var right := Visit(e.right);
      if right.Err? {
        return right;
      }
      English.Regroup(old(sb), LegacyRendering(e.left, s).value, LegacyPhrase(e.bop), LegacyRendering(e.right, s).value);
      r := Ok(());
    }
  }

  /** IsCondition<T>.Check<E> of the single-file version: the same verdict, the legacy message. */
  function LegacyCheck(c: Conditions.IsCondition, kind: ErrorKind, body: Expr): (o: Outcome<Conditions.IsCondition>)
    ensures o.Returned? <==> Truth(body, Some(c.value)) == Ok(true)
    ensures o.Returned? ==> o.value == c
    ensures o.Thrown? <==> Truth(body, Some(c.value)) == Ok(false) && LegacyRender(body, c.name, c.value).Ok?
    ensures o.Thrown? ==> o.kind == kind && LegacyRender(body, c.name, c.value) == Ok(o.message)
  {
    var verdict := Truth(body, Some(c.value));
    if verdict.Err? then Faulted(verdict.error)
    else if verdict.value then Returned(c)
    else
      var message := LegacyRender(body, c.name, c.value);
      if message.Err? then Faulted(message.error) else Thrown(kind, message.value)
  }

  /** Check(expression) of the single-file version: throws ArgumentException. */
  function LegacyCheckArgument(c: Conditions.IsCondition, body: Expr): (o: Outcome<Conditions.IsCondition>)
    ensures o.Thrown? ==> o.kind == ArgumentException
    ensures o == LegacyCheck(c, ArgumentException, body)
  {
    LegacyCheck(c, ArgumentException, body)
  }

  /** Guard.Is<E> of the single-file version: the condition rendered with no name. */
  function LegacyGuardIs(kind: ErrorKind, condition: Expr): (o: Outcome<()>)
    ensures o.Returned? <==> Truth(condition, None) == Ok(true)
    ensures o.Thrown? <==> Truth(condition, None) == Ok(false) && LegacyRender(condition, "", Null).Ok?
    ensures o.Thrown? ==> o.kind == kind && LegacyRender(condition, "", Null) == Ok(o.message)
  {
    var verdict := Truth(condition, None);
    if verdict.Err? then Faulted(verdict.error)
    else if verdict.value then Returned(())
    else
      var message := LegacyRender(condition, "", Null);
      if message.Err? then Faulted(message.error) else Thrown(kind, message.value)
  }

  /** Guard.Is(condition) of the single-file version: throws ArgumentException. */
  function LegacyGuardIsArgument(condition: Expr): (o: Outcome<()>)
    ensures o.Thrown? ==> o.kind == ArgumentException
    ensures o == LegacyGuardIs(ArgumentException, condition)
  {
    LegacyGuardIs(ArgumentException, condition)
  }

  /** The single-file builders assemble the same trees as the current ones. */
  function LegacyInRange(c: Conditions.IsCondition, min: Val, max: Val): (o: Outcome<Conditions.IsCondition>)
    ensures o.Thrown? ==> o.kind == ArgumentOutOfRangeException
  {
    LegacyCheck(c, ArgumentOutOfRangeException, IsExtensions.InRangeBody(min, max))
  }

  function LegacyNotNull(c: Conditions.IsCondition): (o: Outcome<Conditions.IsCondition>)
    ensures o.Thrown? ==> o.kind == NullReferenceException
  {
    LegacyCheck(c, NullReferenceException, IsExtensions.NotNullBody())
  }

  function LegacyNotEqualTo(c: Conditions.IsCondition, compare: Val): (o: Outcome<Conditions.IsCondition>)
    ensures o.Thrown? ==> o.kind == ArgumentException
  {
    LegacyCheck(c, ArgumentException, IsExtensions.NotEqualToBody(compare))
  }

  function LegacyEqualTo(c: Conditions.IsCondition, compare: Val): (o: Outcome<Conditions.IsCondition>)
    ensures o.Thrown? ==> o.kind == ArgumentException
  {
    LegacyCheck(c, ArgumentException, IsExtensions.EqualToBody(compare))
  }

  // Properties of the single-file version.

  /** The two versions pass, fault on evaluation and choose the exception type alike; only the message text can differ. */
  lemma VersionsAgreeOnVerdict(c: Conditions.IsCondition, kind: ErrorKind, body: Expr)
    ensures LegacyCheck(c, kind, body).Returned? <==> Conditions.Check(c, kind, body).Returned?
    ensures LegacyCheck(c, kind, body).Returned? ==> LegacyCheck(c, kind, body) == Conditions.Check(c, kind, body)
    ensures LegacyCheck(c, kind, body).Thrown? && Conditions.Check(c, kind, body).Thrown? ==>
      LegacyCheck(c, kind, body).kind == Conditions.Check(c, kind, body).kind
    ensures Truth(body, Some(c.value)).Err? ==> LegacyCheck(c, kind, body) == Conditions.Check(c, kind, body)
  {
  }

  /** The parameter prints as "name(value)", unquoted even for a string, or not at all without a name. */
  lemma LegacyParameterByName(name: string, value: Val)
    ensures name == "" ==> LegacyRender(Param, name, value) == Ok("")
    ensures name != "" && value == Null ==> LegacyRender(Param, name, value) == Ok(name + "(null)")
    ensures name != "" && value != Null ==> LegacyRender(Param, name, value) == Ok(name + "(" + ValText(value) + ")")
  {
    assert name + "(" + "null" + ")" == name + "(null)";
  }

  /**
   * A member prints as "Member(value)" only when its target is a non-null
   * constant with a public field of that name; a property, a nested member or
   * a null target throws.
   */
  lemma LegacyMemberOfConstant(target: Expr, m: string, name: string, value: Val)
    ensures !target.Const? ==> LegacyRender(Member(target, m), name, value) == Err(InvalidCast)
    ensures target.Const? && target.value == Null ==> LegacyRender(Member(target, m), name, value) == Err(NullTarget)
    ensures target.Const? && target.value != Null && FieldOf(target.value, m).None? ==>
      LegacyRender(Member(target, m), name, value) == Err(MemberNotFound)
    ensures target.Const? && FieldOf(target.value, m).Some? ==>
      LegacyRender(Member(target, m), name, value) ==
        Ok(m + "(" + LegacyValueText(FieldOf(target.value, m).value) + ")")
  {
  }

  /** Only NotEqual reads differently in the two phrase tables. */
  lemma LegacyPhraseDiffers(op: BinaryOp)
    ensures LegacyPhrase(op) == English.Phrase(op) <==> op != NotEqual
  {
  }

  /** The trees on which the two renderers must agree: constants joined by operators other than NotEqual. */
  predicate ConstantsOnly(e: Expr)
  {
    match e
    case Const(_, _) => true
    case Unary(_, x) => ConstantsOnly(x)
    case Binary(op, l, r) => op != NotEqual && ConstantsOnly(l) && ConstantsOnly(r)
    case _ => false
  }

  /** On a tree of constants and operators other than NotEqual, both renderers produce the same message. */
  lemma {:induction false} VersionsAgreeOnConstants(e: Expr, name: string, value: Val)
    requires ConstantsOnly(e)
    ensures LegacyRender(e, name, value) == English.Render(e, name, value)
  {
    var s := English.Scope(name, value);
    match e
    case Const(_, _) =>
    case Unary(op, x) =>
      VersionsAgreeOnConstants(x, name, value);
      English.UnaryTransparent(op, x, name, value);
    case Binary(op, l, r) =>
      VersionsAgreeOnConstants(l, name, value);
      VersionsAgreeOnConstants(r, name, value);
      English.BinaryInfix(op, l, r, name, value);
  }

  /** A call adds nothing of its own: it prints its arguments' texts one after the other. */
  lemma {:induction false} LegacyCallJoinsArguments(e: Expr, k: nat, s: English.Scope)
    requires e.Call? && k <= |e.args|
    requires forall j :: 0 <= j < k ==> LegacyRendering(e.args[j], s).Ok?
    ensures LegacyArgsRendering(e, k, s) ==
      Ok(English.Joined(seq(k, j requires 0 <= j < k => LegacyRendering(e.args[j], s).value)))
    decreases k
  {
    if k > 0 {
      LegacyCallJoinsArguments(e, k - 1, s);
      var texts := seq(k, j requires 0 <= j < k => LegacyRendering(e.args[j], s).value);
      assert texts == texts[..k - 1] + [texts[k - 1]];
      assert texts[..k - 1] == seq(k - 1, j requires 0 <= j < k - 1 => LegacyRendering(e.args[j], s).value);
      English.JoinedSnoc(texts[..k - 1], texts[k - 1]);
    }
  }

  /** !string.IsNullOrWhiteSpace(x) prints only the parameter: the legacy renderer has no phrase for it. */
  lemma LegacyNullOrWhiteSpaceSilent(name: string, value: Val)
    ensures LegacyRender(IsExtensions.NotNullOrWhiteSpaceBody(), name, value) == LegacyRender(Param, name, value)
  {
    var call := Call(Some("String"), "IsNullOrWhiteSpace", [Param], Null);
    var s := English.Scope(name, value);
    assert LegacyArgsRendering(call, 0, s) == Ok("");
    assert LegacyArgsRendering(call, 1, s) == Ok("" + LegacyParameterText(s));
    assert "" + LegacyParameterText(s) == LegacyParameterText(s);
  }

  /** The parameter's text in the legacy messages. */
  function LegacySubject(c: Conditions.IsCondition): string
  {
    LegacyParameterText(English.Scope(c.name, c.value))
  }

  lemma LegacyComparisonMessage(op: BinaryOp, c: Conditions.IsCondition, v: Val)
    ensures LegacyRender(Binary(op, Param, IsExtensions.Bound(v)), c.name, c.value) ==
      Ok(LegacySubject(c) + LegacyPhrase(op) + IsExtensions.BoundText(v))
  {
    var s := English.Scope(c.name, c.value);
    var constant := ConstantOf(v);
    assert LegacyRendering(constant, s) == Ok(IsExtensions.BoundText(v));
    assert LegacyRendering(IsExtensions.Bound(v), s) == Ok(IsExtensions.BoundText(v));
    assert LegacyRendering(Param, s) == Ok(LegacySubject(c));
  }

  /** The legacy InRange message: the subject as "name(value)" against each bound. */
  lemma LegacyInRangeText(c: Conditions.IsCondition, min: Val, max: Val)
    ensures LegacyRender(IsExtensions.InRangeBody(min, max), c.name, c.value) ==
      Ok(LegacySubject(c) + " should be greater than or equal to " + IsExtensions.BoundText(min) + " and also "
         + LegacySubject(c) + " should be less than or equal to " + IsExtensions.BoundText(max))
  {
    LegacyComparisonMessage(GreaterThanOrEqual, c, min);
    LegacyComparisonMessage(LessThanOrEqual, c, max);
    English.Regroup(LegacySubject(c) + " should be greater than or equal to " + IsExtensions.BoundText(min) + " and also ",
      LegacySubject(c), " should be less than or equal to ", IsExtensions.BoundText(max));
  }

  /** The legacy InRange is inclusive at both ends too, and out of range throws the legacy two-sided message. */
  lemma LegacyInRangeInclusive(c: Conditions.IsCondition, min: Val, max: Val)
    requires c.value.Num? || c.value.Null?
    requires min.Num? && max.Num?
    ensures LegacyInRange(c, min, max).Returned? <==> c.value.Num? && min.n <= c.value.n <= max.n
    ensures !LegacyInRange(c, min, max).Returned? ==>
      LegacyInRange(c, min, max) == Thrown(ArgumentOutOfRangeException,
        LegacySubject(c) + " should be greater than or equal to " + IsExtensions.BoundText(min) + " and also "
        + LegacySubject(c) + " should be less than or equal to " + IsExtensions.BoundText(max))
  {
    IsExtensions.InRangeInclusive(c, min, max);
    LegacyInRangeText(c, min, max);
  }

  /** NotNull is where the two versions' messages part: "should be not equal to null" against "should not be equal to null". */
  lemma LegacyNotNullMessage(c: Conditions.IsCondition)
    ensures LegacyNotNull(c).Returned? <==> c.value != Null
    ensures c.value == Null ==>
      LegacyNotNull(c) == Thrown(NullReferenceException,
        LegacySubject(c) + " should be not equal to null")
  {
    IsExtensions.NotNullPasses(c);
  }

  /** The legacy EqualTo passes exactly on equal values; a mismatch throws "name(value) should be equal to bound". */
  lemma LegacyEqualToMessage(c: Conditions.IsCondition, compare: Val)
    ensures LegacyEqualTo(c, compare).Returned? <==> Equals(c.value, compare)
    ensures !Equals(c.value, compare) ==>
      LegacyEqualTo(c, compare) == Thrown(ArgumentException, LegacySubject(c) + " should be equal to " + IsExtensions.BoundText(compare))
  {
    IsExtensions.EqualToPasses(c, compare);
    VersionsAgreeOnVerdict(c, ArgumentException, IsExtensions.EqualToBody(compare));
    LegacyComparisonMessage(Equal, c, compare);
  }

  /** The legacy NotEqualTo passes exactly on different values; equal values throw "name(value) should be not equal to bound". */
  lemma LegacyNotEqualToMessage(c: Conditions.IsCondition, compare: Val)
    ensures LegacyNotEqualTo(c, compare).Returned? <==> !Equals(c.value, compare)
    ensures Equals(c.value, compare) ==>
      LegacyNotEqualTo(c, compare) == Thrown(ArgumentException, LegacySubject(c) + " should be not equal to " + IsExtensions.BoundText(compare))
  {
    IsExtensions.NotEqualToPasses(c, compare);
    VersionsAgreeOnVerdict(c, ArgumentException, IsExtensions.NotEqualToBody(compare));
    LegacyComparisonMessage(NotEqual, c, compare);
  }
}
