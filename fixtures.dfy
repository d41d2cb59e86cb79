/**
 * The guard fixtures of the test suite, as lemmas about concrete trees. A
 * lambda such as `() => CostPrice > 25m` reads the local through the compiler's
 * closure object, so the tree is a member read off an object constant.
 */
module Fixtures {
  import opened Wrappers
  import opened Values
  import opened Expressions
  import opened Errors
  import opened Evaluator
  import opened English
  import Guard
  import Legacy

  /** The closure object capturing one local of the test method. */
  function Closure(local: string, v: Val): Val
  {
    Obj("<>c__DisplayClass", map[local := v], map[])
  }

  /** A captured local as the lambda body reads it. */
  function Captured(local: string, v: Val): Expr
  {
    Member(Const(Object, Closure(local, v)), local)
  }

  function Dec(n: int): Val
  {
    Num(Decimal, n)
  }

  /** `local op bound` over a captured decimal and a decimal constant. */
  function Comparison(op: BinaryOp, local: string, n: int, bound: int): Expr
  {
    Binary(op, Captured(local, Dec(n)), Const(Decimal, Dec(bound)))
  }

  /** The decimal texts the fixtures print. */
  lemma FixtureDigits()
    ensures IntText(15) == "15" && IntText(25) == "25" && IntText(45) == "45" && IntText(55) == "55"
  {
    assert NatText(1) == "1" && NatText(2) == "2" && NatText(4) == "4" && NatText(5) == "5";
  }

  lemma CapturedValue(local: string, v: Val)
    ensures Eval(Captured(local, v), None) == Ok(v)
  {
  }

  /** An ordering of a captured decimal against a bound evaluates to the integer ordering. */
  lemma ComparisonTruth(op: BinaryOp, local: string, n: int, bound: int)
    requires op in {LessThan, LessThanOrEqual, GreaterThan, GreaterThanOrEqual}
    ensures Truth(Comparison(op, local, n, bound), None) ==
      Ok(match op
        case LessThan => n < bound
        case LessThanOrEqual => n <= bound
        case GreaterThan => n > bound
        case GreaterThanOrEqual => n >= bound)
  {
    CapturedValue(local, Dec(n));
    assert Eval(Comparison(op, local, n, bound), None) == Apply(op, Dec(n), Dec(bound));
  }

  /** The current renderer prints such a comparison as "Local : n phrase bound". */
  lemma ComparisonText(op: BinaryOp, local: string, n: int, bound: int)
    ensures Render(Comparison(op, local, n, bound), "", Null) ==
      Ok(local + " : " + IntText(n) + Phrase(op) + IntText(bound))
  {
    MemberOfConstant(Object, Closure(local, Dec(n)), local, "", Null);
    BinaryInfix(op, Captured(local, Dec(n)), Const(Decimal, Dec(bound)), "", Null);
  }

  /**
   * A failing comparison throws the guard's exception with "Local : n phrase
   * bound"; the texts are passed in so that a concrete instance needs no
   * reasoning about strings.
   */
  lemma ComparisonThrows(kind: ErrorKind, op: BinaryOp, local: string, n: int, bound: int, nt: string, pt: string, bt: string)
    requires op in {LessThan, LessThanOrEqual, GreaterThan, GreaterThanOrEqual}
    requires Truth(Comparison(op, local, n, bound), None) == Ok(false)
    requires IntText(n) == nt && Phrase(op) == pt && IntText(bound) == bt
    ensures Guard.Is(kind, Comparison(op, local, n, bound)) == Thrown(kind, local + " : " + nt + pt + bt)
  {
    ComparisonText(op, local, n, bound);
  }

  /** `() => CostPrice > 25m` with CostPrice = 15m throws ArgumentException "CostPrice : 15 should be greater than 25". */
  lemma GreaterThanFixture()
    ensures Guard.IsArgument(Comparison(GreaterThan, "CostPrice", 15, 25))
      == Thrown(ArgumentException, "CostPrice" + " : " + "15" + " should be greater than " + "25")
  {
    ComparisonTruth(GreaterThan, "CostPrice", 15, 25);
    FixtureDigits();
    ComparisonThrows(ArgumentException, GreaterThan, "CostPrice", 15, 25, "15", " should be greater than ", "25");
  }

  /** Converting the bound to the nullable type changes neither the verdict nor the message. */
  lemma ConvertedBound(kind: ErrorKind, op: BinaryOp, local: string, n: int, bound: int)
    requires op != AndAlso && op != OrElse
    ensures Guard.Is(kind, Binary(op, Captured(local, Dec(n)), Unary(Convert, Const(Decimal, Dec(bound)))))
      == Guard.Is(kind, Comparison(op, local, n, bound))
  {
    var c := Const(Decimal, Dec(bound));
    var body := Binary(op, Captured(local, Dec(n)), Unary(Convert, c));
    assert Eval(body, None) == Eval(Comparison(op, local, n, bound), None);
    UnaryTransparent(Convert, c, "", Null);
    BinaryInfix(op, Captured(local, Dec(n)), Unary(Convert, c), "", Null);
    BinaryInfix(op, Captured(local, Dec(n)), c, "", Null);
  }

  /** With decimal? the bound is converted to the nullable type; MyException carries the same text. */
  lemma NullableGreaterThanFixture()
    ensures Guard.Is(Custom("MyException"),
        Binary(GreaterThan, Captured("CostPrice", Dec(15)), Unary(Convert, Const(Decimal, Dec(25)))))
      == Thrown(Custom("MyException"), "CostPrice" + " : " + "15" + " should be greater than " + "25")
  {
    ConvertedBound(Custom("MyException"), GreaterThan, "CostPrice", 15, 25);
    ComparisonTruth(GreaterThan, "CostPrice", 15, 25);
    FixtureDigits();
    ComparisonThrows(Custom("MyException"), GreaterThan, "CostPrice", 15, 25, "15", " should be greater than ", "25");
  }

  /** A comparison of two constants is folded by the compiler to `false`, which prints as "False". */
  lemma ConstantsFoldedFixture()
    ensures Guard.IsArgument(Const(Boolean, Bool(false))) == Thrown(ArgumentException, "False")
  {
    FoldedFalse("", Null);
  }

  /** `CostPrice >= min && CostPrice <= max`. */
  function InRangeCondition(n: int, min: int, max: int): Expr
  {
    Binary(AndAlso, Comparison(GreaterThanOrEqual, "CostPrice", n, min), Comparison(LessThanOrEqual, "CostPrice", n, max))
  }

  /** Below the range the guard throws both halves of the condition, joined by " and also ". */
  lemma InRangeThrows(n: int, min: int, max: int, nt: string, mint: string, maxt: string)
    requires n < min
    requires IntText(n) == nt && IntText(min) == mint && IntText(max) == maxt
    ensures Guard.IsArgument(InRangeCondition(n, min, max)) ==
      Thrown(ArgumentException,
        ("CostPrice" + " : " + nt + " should be greater than or equal to " + mint)
        + " and also " + ("CostPrice" + " : " + nt + " should be less than or equal to " + maxt))
  {
    var left := Comparison(GreaterThanOrEqual, "CostPrice", n, min);
    var right := Comparison(LessThanOrEqual, "CostPrice", n, max);
    ComparisonTruth(GreaterThanOrEqual, "CostPrice", n, min);
    assert Truth(InRangeCondition(n, min, max), None) == Ok(false);
    ComparisonText(GreaterThanOrEqual, "CostPrice", n, min);
    ComparisonText(LessThanOrEqual, "CostPrice", n, max);
    BinaryInfix(AndAlso, left, right, "", Null);
  }

  /** `CostPrice >= 25m && CostPrice <= 45m` with CostPrice = 15m. */
  lemma InRangeFixture()
    ensures Guard.IsArgument(InRangeCondition(15, 25, 45))
      == Thrown(ArgumentException,
        ("CostPrice" + " : " + "15" + " should be greater than or equal to " + "25")
        + " and also " + ("CostPrice" + " : " + "15" + " should be less than or equal to " + "45"))
  {
    FixtureDigits();
    InRangeThrows(15, 25, 45, "15", "25", "45");
  }

  /** `!string.IsNullOrWhiteSpace(local)` over a captured string. */
  function NullOrWhiteSpaceCondition(local: string, v: Val): Expr
  {
    Unary(Not, Call(Some("String"), "IsNullOrWhiteSpace", [Captured(local, v)], Bool(true)))
  }

  /** A captured null string fails the condition and prints as "Local : null". */
  lemma NullOrWhiteSpaceThrows(local: string)
    ensures Guard.IsArgument(NullOrWhiteSpaceCondition(local, Null))
      == Thrown(ArgumentException, local + " : " + "null" + " should not be null or whitespace ")
  {
    var name := Captured(local, Null);
    var call := Call(Some("String"), "IsNullOrWhiteSpace", [name], Bool(true));
    CapturedValue(local, Null);
    assert Eval(call, None) == Ok(Bool(true));
    assert Truth(NullOrWhiteSpaceCondition(local, Null), None) == Ok(false);
    MemberOfConstant(Object, Closure(local, Null), local, "", Null);
    assert ConstantText(RuntimeCode(Null), Null) == "null";
    assert Render(name, "", Null) == Ok(local + " : " + "null");
    NullOrWhiteSpacePhrase(name, [], Bool(true), "", Null);
    assert [name] + [] == [name];
  }

  /** `!string.IsNullOrWhiteSpace(Name)` with Name = null. */
  lemma NullOrWhiteSpaceFixture()
    ensures Guard.IsArgument(NullOrWhiteSpaceCondition("Name", Null))
      == Thrown(ArgumentException, "Name" + " : " + "null" + " should not be null or whitespace ")
  {
    NullOrWhiteSpaceThrows("Name");
  }

  /** `CostPrice <= 45m` with CostPrice = 55m. */
  lemma LessThanOrEqualFixture()
    ensures Guard.IsArgument(Comparison(LessThanOrEqual, "CostPrice", 55, 45))
      == Thrown(ArgumentException, "CostPrice" + " : " + "55" + " should be less than or equal to " + "45")
  {
    ComparisonTruth(LessThanOrEqual, "CostPrice", 55, 45);
    FixtureDigits();
    ComparisonThrows(ArgumentException, LessThanOrEqual, "CostPrice", 55, 45, "55", " should be less than or equal to ", "45");
  }

  /** The single-file renderer prints a failing comparison as "Local(n) phrase bound". */
  lemma LegacyComparisonThrows(op: BinaryOp, local: string, n: int, bound: int, nt: string, pt: string, bt: string)
    requires op in {LessThan, LessThanOrEqual, GreaterThan, GreaterThanOrEqual}
    requires Truth(Comparison(op, local, n, bound), None) == Ok(false)
    requires IntText(n) == nt && Legacy.LegacyPhrase(op) == pt && IntText(bound) == bt
    ensures Legacy.LegacyGuardIsArgument(Comparison(op, local, n, bound)) ==
      Thrown(ArgumentException, local + "(" + nt + ")" + pt + bt)
  {
    Legacy.LegacyMemberOfConstant(Const(Object, Closure(local, Dec(n))), local, "", Null);
    var s := Scope("", Null);
    assert Legacy.LegacyRendering(Const(Decimal, Dec(bound)), s) == Ok(IntText(bound));
  }

  /** `CostPrice < 45m` with CostPrice = 55m: the "CostPrice(55)" form this fixture expects is the single-file renderer's. */
  lemma LessThanFixture()
    ensures Legacy.LegacyGuardIsArgument(Comparison(LessThan, "CostPrice", 55, 45))
      == Thrown(ArgumentException, "CostPrice" + "(" + "55" + ")" + " should be less than " + "45")
  {
    ComparisonTruth(LessThan, "CostPrice", 55, 45);
    FixtureDigits();
    LegacyComparisonThrows(LessThan, "CostPrice", 55, 45, "55", " should be less than ", "45");
  }

  /** The current renderer prints that failure as "CostPrice : 55 should be less than 45" instead. */
  lemma LessThanCurrentText()
    ensures Guard.IsArgument(Comparison(LessThan, "CostPrice", 55, 45))
      == Thrown(ArgumentException, "CostPrice" + " : " + "55" + " should be less than " + "45")
  {
    ComparisonTruth(LessThan, "CostPrice", 55, 45);
    FixtureDigits();
    ComparisonThrows(ArgumentException, LessThan, "CostPrice", 55, 45, "55", " should be less than ", "45");
  }
}
