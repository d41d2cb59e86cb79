# IsSharp guard conditions, modelled in Dafny

IsSharp is a small .NET library of argument guards. A guard is a lambda
expression tree. The library compiles the tree and runs it. When the result is
false, it translates the tree into an English sentence, such as
`CostPrice : 15 should be greater than 25`, and throws an exception of the
caller's chosen type with that sentence.

There are two entry points:
- `Guard.Is(() => condition)` takes a parameterless condition.
- `value.Is("name").InRange(min, max).NotNull()...` builds an `IsCondition`.
  Each builder assembles its own tree over the lambda parameter, and `Check`
  evaluates it against the stored value.

The repository holds the library twice:
- the current version, split over `IsSharp/*.cs`;
- an older single-file version, `IsSharp.cs`, with its own renderer.

This project models both.

| file | module | what it holds |
|---|---|---|
| `wrappers.dfy` | `Wrappers` | `Option` and `Result` |
| `values.dfy` | `Values` | runtime values and their .NET type codes; `ToString` of integers (with its parse-back); `Char.IsWhiteSpace`; member lookup on a captured object |
| `expressions.dfy` | `Expressions` | the expression-tree nodes the model covers |
| `errors.dfy` | `Errors` | guard outcomes; faults raised while evaluating or rendering; how `Activator.CreateInstance` builds the thrown exception |
| `evaluator.dfy` | `Evaluator` | what `Compile().Invoke()` computes: C# operators, lifted null comparisons, short-circuit `&&`/`\|\|`, truncating integer division; a decimal or floating division faults unless it is exact |
| `condition_to_english.dfy` | `English` | the current renderer. `Rendering` is a pure specification; `ConditionToEnglish` is the visitor class, whose string buffer `sb` is proved to receive exactly what `Rendering` describes |
| `is_condition.dfy` | `Conditions` | `IsCondition` and `Check` |
| `guard.dfy` | `Guard` | `Guard.Is` |
| `is_extensions.dfy` | `IsExtensions` | `Is` and the builders `InRange`, `NotNull`, `NotNullOrWhiteSpace`, `EqualTo`, `NotEqualTo` |
| `legacy.dfy` | `Legacy` | the single-file version: its renderer class, `Check`, `Guard.Is` and builders |
| `fixtures.dfy` | `Fixtures` | the guard test cases of the test suite, as lemmas on concrete trees |

How the model represents the program:
- A translation or a check that throws partway through ends in `Err(fault)`, or `Faulted(fault)` at guard level. Such throws include a member read off null, a member that does not exist, a failed cast, and evaluating a call that mentions the lambda parameter.
- A failed guard is `Thrown(kind, text)`. `kind` is the exception type the caller chose. `text` is the rendered condition handed to that type's constructor.
- A local captured by a lambda is a member read off the compiler's closure object, which appears in the tree as an object constant. The fixtures build their trees this way.

Three notes on how the model follows the source:
- In the current version, `IsCondition.Check` (`IsSharp/IsCondition.cs:21`) and `Guard.Is` (`IsSharp/Guard.cs:12`) call `new ConditionToEnglish().Translate(...)`. But `ConditionToEnglish` declares its constructor private and `Translate` static (`IsSharp/ConditionToEnglish.cs:18-27`). The model follows the renderer: both callers use the static `Translate`, which works on a fresh instance.
- The single-file `Is` (`IsSharp.cs:38-41`) is identical to the current one, so `IsExtensions.Is` models both. The single-file builders build the same trees as the current ones and reuse them.
- `GuardLessThanFixture` expects `CostPrice(55) should be less than 45`. That is the single-file renderer's format. The current renderer prints `CostPrice : 55 should be less than 45`. Both are proved (`Fixtures.LessThanFixture`, `Fixtures.LessThanCurrentText`).
The visitor methods (`English.ConditionToEnglish.Translate` and the others, and their `Legacy` counterparts) change the buffer, so their contracts speak of `old(sb)`. Each ties the buffer to `Rendering` or `LegacyRendering`, and the lemmas about those functions carry the properties.

## Model

| member | source | states |
|---|---|---|
| `Values.NatText` | IsSharp/ConditionToEnglish.cs:58 | the decimal text of a whole number is a non-empty run of digits, with no leading zero unless it is the single digit 0 |
| `Values.NatTextRoundTrip` | IsSharp/ConditionToEnglish.cs:58 | parsing the digits back gives the number |
| `Values.IntTextRoundTrip` | IsSharp/ConditionToEnglish.cs:58 | a signed integer's `ToString` text parses back to it |
| `Values.IntTextInjective` | IsSharp/ConditionToEnglish.cs:58 | two different integers never print alike |
| `Values.MemberOf` | IsSharp/ConditionToEnglish.cs:98-111 | a public field is found first; failing that, a property of the object is read; a string has only `Length`, its number of characters; any other value has no members |
| `Expressions.ConstantOf` | IsSharp/IsExtensions.cs:17 | `Expression.Constant(v)` holds `v`, typed by `v`'s runtime type |
| `Evaluator.Equals` | IsSharp/IsExtensions.cs:44 | `==` holds iff the operands are the same value, or numbers and chars with equal magnitude or code point; null equals only null, and operands of other different kinds are unequal rather than an error |
| `Evaluator.CharAgainstNumber` | IsSharp/IsCondition.cs:19 | a char compared with a number, through the conversion the compiler inserts, orders and equals by its code point |
| `Evaluator.Eval` | IsSharp/IsCondition.cs:19 | the compiled body invoked with its argument, or a body without the parameter, never finds the parameter unbound; `EvalIgnoresArgument`, `OrderingAtBound` and `IsExtensions.InRangeVerdict` carry its other properties |
| `Evaluator.Truth` | IsSharp/Guard.cs:10 | the condition's verdict; invoked with its argument, or without a parameter, it never finds the parameter unbound |
| `Evaluator.DivisionByKind` | IsSharp/IsCondition.cs:19 | integer `/` truncates toward zero; a decimal or floating `/` yields a value exactly when the divisor divides the dividend, and that value times the divisor is the dividend |
| `Evaluator.OrderingAtBound` | IsSharp/IsCondition.cs:19 | comparing a number with an equal bound passes the inclusive orderings and fails the strict ones; each ordering is the integer one |
| `Evaluator.TruncDivRem` | IsSharp/IsCondition.cs:19 | C# `/` and `%` truncate toward zero: `a == (a/b)*b + a%b`, with the remainder smaller than the divisor and carrying the dividend's sign |
| `Evaluator.EvalIgnoresArgument` | IsSharp/IsCondition.cs:19 | a body that never mentions the lambda parameter evaluates the same whatever value is bound |
| `English.ConditionToEnglish.Translate` | IsSharp/ConditionToEnglish.cs:24-27 | the text is exactly `Render` of the tree, name and value, or the fault that rendering raises |
| `English.ConditionToEnglish.TranslateInternal` | IsSharp/ConditionToEnglish.cs:29-36 | resets the buffer, records the name and value, and leaves exactly the rendered text in the buffer |
| `English.ConditionToEnglish.Visit` | IsSharp/ConditionToEnglish.cs:12-221 | appends exactly `Rendering(e)`'s text and hands back its constant, or throws `Rendering`'s fault |
| `English.ConditionToEnglish.VisitConstant` | IsSharp/ConditionToEnglish.cs:38-66 | appends the constant's text as its declared type code decides |
| `English.ConditionToEnglish.VisitMember` | IsSharp/ConditionToEnglish.cs:94-114 | visits the target; when that yields a constant, appends "Name : " and the member's value and hands the value back |
| `English.ConditionToEnglish.VisitParameter` | IsSharp/ConditionToEnglish.cs:117-133 | appends "name : value" (null as `null`, strings quoted), or nothing when the name is empty |
| `English.ConditionToEnglish.VisitMethodCall` | IsSharp/ConditionToEnglish.cs:135-167 | appends the call's head, its arguments and ") returned" with the call's result, or delegates `String.IsNullOrWhiteSpace`; a call that mentions the lambda parameter throws once its arguments are printed, because it cannot be compiled on its own |
| `English.ConditionToEnglish.VisitArguments` | IsSharp/ConditionToEnglish.cs:156-159 | the loop appends every argument's text in order; the first fault ends it |
| `English.ConditionToEnglish.VisitNullOrWhiteSpace` | IsSharp/ConditionToEnglish.cs:142-147 | appends the first argument and " should not be null or whitespace " |
| `English.ConditionToEnglish.VisitBinary` | IsSharp/ConditionToEnglish.cs:169-221 | appends left operand, the operator's phrase, right operand |
| `English.ConditionToEnglish.VisitUnary` | IsSharp/ConditionToEnglish.cs:12 | the inherited visit of a unary node appends its operand's text and nothing else |
| `English.ConstantByDeclaredType` | IsSharp/ConditionToEnglish.cs:38-66 | null prints `null`; the ten listed type codes print plain; strings print in quotes; every other type code prints nothing |
| `English.FoldedFalse` | IsSharp/ConditionToEnglish.cs:51-58 | a condition folded to the constant false prints `False` |
| `English.BinaryInfix` | IsSharp/ConditionToEnglish.cs:169-221 | a binary node prints infix, and the left operand's fault wins |
| `English.FallbackPhrase` | IsSharp/ConditionToEnglish.cs:214-216 | the operators without a table entry print their node-type name between spaces |
| `English.PhraseDelimited` | IsSharp/ConditionToEnglish.cs:173-217 | every phrase has a space at each end |
| `English.PhraseNamesOperator` | IsSharp/ConditionToEnglish.cs:173-217 | each operator's phrase reads back to that operator, so no two operators print alike |
| `English.ParameterByName` | IsSharp/ConditionToEnglish.cs:117-133 | the parameter prints as "name : value", with null as `null` and strings quoted, or not at all without a name |
| `English.MemberOfConstant` | IsSharp/ConditionToEnglish.cs:94-111 | a member of a constant prints "Member : value" after the constant's own text; a captured closure adds nothing; a null container throws |
| `English.UnaryTransparent` | IsSharp/ConditionToEnglish.cs:12 | `!` and conversions add no text |
| `English.NullOrWhiteSpacePhrase` | IsSharp/ConditionToEnglish.cs:142-147 | `!string.IsNullOrWhiteSpace(a)` prints a's text and the fixed phrase with its trailing space |
| `English.CallSentence` | IsSharp/ConditionToEnglish.cs:137-164 | any other call without the lambda parameter prints "Type method (", its arguments' texts concatenated, and ") returned " with its result |
| `English.CallWithParameterThrows` | IsSharp/ConditionToEnglish.cs:161-162 | a call whose arguments mention the lambda parameter throws while rendering, even where evaluation short-circuits past the parameter |
| `English.ScopeThroughParameter` | IsSharp/ConditionToEnglish.cs:117-133 | the name and value reach the text only through the parameter's text |
| `English.NamelessIgnoresValue` | IsSharp/ConditionToEnglish.cs:119 | with an empty name, the checked value never appears in the text |
| `Errors.Activated` | IsSharp/IsCondition.cs:22 | every exception type except ArgumentOutOfRangeException takes the text as its message |
| `Errors.OutOfRangeLosesMessage` | IsSharp/IsCondition.cs:22 | as written, an ArgumentOutOfRangeException carries the text as ParamName, and its message is not the text |
| `Errors.Intended` | IsSharp/IsCondition.cs:22 | the corrected construction: every exception type carries the rendered text as its message |
| `Errors.ActivatedAsIntended` | IsSharp/IsCondition.cs:22 | the written and the corrected construction agree exactly for the types other than ArgumentOutOfRangeException |
| `Conditions.Check` | IsSharp/IsCondition.cs:17-26 | returns the same condition iff the body evaluates to true on the stored value; on false it throws the requested type with `Render(body, name, value)`; otherwise the evaluation or rendering fault escapes |
| `Conditions.CheckArgument` | IsSharp/IsCondition.cs:28-31 | the default check throws ArgumentException |
| `Conditions.ChainPassesBoth` | IsSharp/IsCondition.cs:25 | chaining two checks passes iff both pass on the original condition; the first failure is the chain's outcome |
| `Guard.Is` | IsSharp/Guard.cs:8-14 | returns iff the parameterless condition is true; on false throws the requested type with the condition rendered under no name |
| `Guard.IsArgument` | IsSharp/Guard.cs:16-19 | the default guard throws ArgumentException |
| `Guard.GuardIsUnnamedCheck` | IsSharp/Guard.cs:8-14 | a guard behaves like `Check` on an unnamed condition: same verdict and same message, whatever value is held |
| `IsExtensions.Is` | IsSharp/IsExtensions.cs:9-12 | the condition holds exactly the given name and value |
| `IsExtensions.InRange` | IsSharp/IsExtensions.cs:14-24 | an InRange failure throws ArgumentOutOfRangeException |
| `IsExtensions.InRangeInclusive` | IsSharp/IsExtensions.cs:14-24 | on numbers, InRange passes iff min <= value <= max; a null value is in no range; a failure throws the two-sided "greater than or equal to ... and also ... less than or equal to" message |
| `IsExtensions.InRangeMessage` | IsSharp/IsExtensions.cs:16-20 | the InRange message names the subject against each bound |
| `IsExtensions.BoundTextOfNumber` | IsSharp/IsExtensions.cs:17-18 | a bound of a plainly printed integer type appears as its digits; an SByte, UInt16, UInt32 or UInt64 bound appears as nothing |
| `IsExtensions.InRangeMessageAsWritten` | IsSharp/IsExtensions.cs:23 | as written, an InRange failure's exception message is not the rendered condition |
| `IsExtensions.NotNull` | IsSharp/IsExtensions.cs:26-34 | a NotNull failure throws NullReferenceException |
| `IsExtensions.NotNullPasses` | IsSharp/IsExtensions.cs:26-34 | NotNull passes iff the value is not null, handing back the condition; null throws "subject should not be equal to null" |
| `IsExtensions.NotNullOrWhiteSpace` | IsSharp/IsExtensions.cs:36-39 | a NotNullOrWhiteSpace failure throws ArgumentException |
| `IsExtensions.NotNullOrWhiteSpacePasses` | IsSharp/IsExtensions.cs:36-39 | passes iff the string has a character that is not white space; otherwise throws "subject should not be null or whitespace " |
| `IsExtensions.NotEqualTo` | IsSharp/IsExtensions.cs:41-49 | a NotEqualTo failure throws ArgumentException |
| `IsExtensions.NotEqualToPasses` | IsSharp/IsExtensions.cs:41-49 | passes iff the value differs from the bound, values of different kinds included, handing back the condition; equality throws "subject should not be equal to bound" |
| `IsExtensions.EqualTo` | IsSharp/IsExtensions.cs:51-59 | an EqualTo failure throws ArgumentException |
| `IsExtensions.EqualToPasses` | IsSharp/IsExtensions.cs:51-59 | passes iff the value equals the bound, handing back the condition; any mismatch, values of different kinds included, throws "subject should be equal to bound" |
| `IsExtensions.NotNullThenInRange` | IsSharp/IsExtensions.cs:14-34 | `NotNull().InRange(min, max)` passes iff the value is a number in range; null stops at NotNull's NullReferenceException |
| `Legacy.ConditionToEnglish.Translate` | IsSharp.cs:116-123 | resets the buffer, records name and value, and yields exactly `LegacyRender` |
| `Legacy.ConditionToEnglish.Visit` | IsSharp.cs:104-232 | appends exactly `LegacyRendering(e)`'s text, or throws its fault |
| `Legacy.ConditionToEnglish.VisitConstant` | IsSharp.cs:125-153 | the same constant rules as the current renderer |
| `Legacy.ConditionToEnglish.VisitMember` | IsSharp.cs:155-165 | the target must be a non-null constant with a public field of that name; appends "Member(value)" |
| `Legacy.ConditionToEnglish.VisitParameter` | IsSharp.cs:167-177 | appends "name(value)", unquoted, or nothing without a name |
| `Legacy.ConditionToEnglish.VisitArguments` | IsSharp.cs:104 | the inherited visit of a call appends its arguments' texts in order and nothing else |
| `Legacy.ConditionToEnglish.VisitBinary` | IsSharp.cs:179-231 | appends left operand, the legacy phrase, right operand |
| `Legacy.LegacyCheck` | IsSharp.cs:19-28 | the single-file Check: same verdict rule, message from the legacy renderer |
| `Legacy.LegacyCheckArgument` | IsSharp.cs:30-33 | the default check throws ArgumentException |
| `Legacy.LegacyGuardIs` | IsSharp.cs:88-95 | returns iff the condition is true; on false throws the requested type with the legacy text |
| `Legacy.LegacyGuardIsArgument` | IsSharp.cs:97-100 | the default guard throws ArgumentException |
| `Legacy.LegacyInRange` | IsSharp.cs:43-53 | a legacy InRange failure throws ArgumentOutOfRangeException |
| `Legacy.LegacyInRangeInclusive` | IsSharp.cs:43-53 | the legacy InRange is inclusive at both ends and throws the two-sided message with the subject as "name(value)" |
| `Legacy.LegacyNotNull` | IsSharp.cs:55-63 | a legacy NotNull failure throws NullReferenceException |
| `Legacy.LegacyNotNullMessage` | IsSharp.cs:55-63 | passes iff not null; null throws "subject should be not equal to null" |
| `Legacy.LegacyNotEqualTo` | IsSharp.cs:65-73 | a legacy NotEqualTo failure throws ArgumentException |
| `Legacy.LegacyEqualTo` | IsSharp.cs:75-83 | a legacy EqualTo failure throws ArgumentException |
| `Legacy.LegacyEqualToMessage` | IsSharp.cs:75-83 | the legacy EqualTo passes iff the value equals the bound; a mismatch throws "name(value) should be equal to bound" |
| `Legacy.LegacyNotEqualToMessage` | IsSharp.cs:65-73 | the legacy NotEqualTo passes iff the value differs from the bound; equality throws "name(value) should be not equal to bound" |
| `Legacy.VersionsAgreeOnVerdict` | IsSharp.cs:19-28 | the two versions pass, fault on evaluation and pick the exception type alike |
| `Legacy.LegacyParameterByName` | IsSharp.cs:167-177 | the parameter prints "name(value)", a string unquoted |
| `Legacy.LegacyMemberOfConstant` | IsSharp.cs:155-165 | a non-constant target fails the cast; a null target throws; a property or missing field is not found; a field prints "Member(value)" |
| `Legacy.LegacyPhraseDiffers` | IsSharp.cs:179-227 | the two phrase tables differ only at NotEqual |
| `Legacy.VersionsAgreeOnConstants` | IsSharp.cs:125-231 | on trees of constants and operators other than NotEqual, both renderers print the same text |
| `Legacy.LegacyCallJoinsArguments` | IsSharp.cs:104 | a call prints only its arguments' texts, concatenated |
| `Legacy.LegacyNullOrWhiteSpaceSilent` | IsSharp.cs:104 | `!string.IsNullOrWhiteSpace(x)` prints only the parameter in the legacy renderer |
| `Fixtures.GreaterThanFixture` | IsSharp.Test/GuardGreaterThanToFixture.cs:11-17 | `CostPrice > 25m` with 15 throws ArgumentException "CostPrice : 15 should be greater than 25" |
| `Fixtures.NullableGreaterThanFixture` | IsSharp.Test/GuardGreaterThanToFixture.cs:20-26 | the `decimal?` form throws MyException with the same text |
| `Fixtures.ConstantsFoldedFixture` | IsSharp.Test/GuardGreaterThanToFixture.cs:29-34 | a folded constant condition throws "False" |
| `Fixtures.InRangeFixture` | IsSharp.Test/GuardInRangeFixture.cs:11-17 | the two-sided range message for 15 against 25..45 |
| `Fixtures.NullOrWhiteSpaceFixture` | IsSharp.Test/GuardIsNullOrWhiteSpaceFixture.cs:11-17 | a null Name throws "Name : null should not be null or whitespace " |
| `Fixtures.LessThanOrEqualFixture` | IsSharp.Test/GuardLessThanOrEqualToFixture.cs:11-17 | `CostPrice <= 45m` with 55 throws "CostPrice : 55 should be less than or equal to 45" |
| `Fixtures.LessThanFixture` | IsSharp.Test/GuardLessThanFixture.cs:11-17 | the expected "CostPrice(55) should be less than 45" is what the single-file renderer prints |
| `Fixtures.LessThanCurrentText` | IsSharp.Test/GuardLessThanFixture.cs:11-17 | the current renderer prints "CostPrice : 55 should be less than 45" for the same guard |

## Findings

| source | as written | input that shows it | evidently intended | confidence | as-written member | corrected member |
|---|---|---|---|---|---|---|
| IsSharp/IsCondition.cs:22 | `Activator.CreateInstance(typeof(TException), text)` calls the one-string constructor, which for ArgumentOutOfRangeException is `(string paramName)`. `InRange` (IsSharp/IsExtensions.cs:23; also IsSharp.cs:52) therefore raises an exception whose Message is the default out-of-range text, with the rendered condition only as ParamName | `5.Is("x").InRange(1, 3)` | the exception's Message is the rendered condition, as for every other exception type | medium, not executed | `Errors.OutOfRangeLosesMessage`, `IsExtensions.InRangeMessageAsWritten` | `Errors.Intended` (with `Errors.ActivatedAsIntended`); `Outcome.Thrown(kind, text)` carries the text as the message throughout |

## Left out

- The static-member branch of the current `VisitMember` (IsSharp/ConditionToEnglish.cs:70-92) is not modelled. That branch reads a static field or property and prints "Type Name : value". Every member node in the model has a target expression.
- Instance calls are not modelled: the model has no receiver object. A call node carries its declaring type, name and arguments. The value it returns is carried as data, because the method body is code the model cannot see.
- `Evaluator.Arithmetic`: a decimal or floating division whose quotient has a fraction, and a floating division by zero, end in the fault `Unrepresentable`. C# goes on with the fraction, the infinity or the NaN, so a guard over such a division faults in the model where in C# it passes or throws its own exception.
- Floating point, fractional decimals, `DateTime` and culture-specific formatting are left out. Numbers are unbounded integers tagged with their type code. `ToString` of a number is its decimal digits.
- Integer width and overflow are left out. Arithmetic on `Int32` and the other integer types does not wrap.
- The bitwise `&` and `|` on integers are left out. `And`, `Or` and `ExclusiveOr` are modelled on booleans only, and on other operands they fault. Lifted `bool?` logic is also left out.
- Tree-construction errors are left out. An example is `Expression.NotEqual` between a non-nullable value type and the untyped null constant in `NotNull<int>`, which throws while the tree is built.
- Expression nodes other than constants, parameters, member reads, `!`, conversions, binary operators and static calls are left out: `??`, unary minus, the conditional `?:`, array indexing, `Power`, shifts, checked arithmetic and `is` tests.
- `Expression.Convert` is modelled as value-preserving. Conversions that change or reject a value are not modelled.
- Object equality is modelled as structural. Reference identity is not modelled: under `T = object`, two boxed numbers or two equal strings that are distinct objects compare unequal in C#, and equal in the model. Operands of different kinds compare unequal in both.
- Reflection is reduced to lookup in the object's field and property maps; `String.Length` is the only built-in property, and it counts Unicode scalar values where .NET counts UTF-16 code units, so each character outside the Basic Multilingual Plane counts one less than in .NET. `Activator.CreateInstance` is modelled only as the choice of constructor argument (see Findings). The full .NET message text of an argument exception depends on the runtime version; the model uses the .NET Framework wording.
- A custom exception type is assumed to take its one string argument as its message.
- Exceptions are values (`Result`, `Outcome`), not control flow. An exception thrown partway through a translation leaves the buffer's partial contents unobserved.
- A null name is not modelled: a name is a Dafny string and cannot be null. `v.Is(null)` passes the empty-name test of IsSharp/ConditionToEnglish.cs:119 and prints " : value".
- `English.UnaryRendering`: the inherited visit of a unary node rebuilds it with `Update` when its operand's visit hands back a new constant (IsSharp/ConditionToEnglish.cs:104,110). That rebuild throws for `!` over a member whose value is null, such as `!flag` with `bool? flag = null`. In the model a unary node always prints its operand's text.
- A called method's own behaviour is not modelled. A call carries the value it returns, so invoking it never throws. Rendering invokes the call again (IsSharp/ConditionToEnglish.cs:162), so in the source a call that `&&` skipped during evaluation can still throw while the message is rendered.
