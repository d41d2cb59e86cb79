/**
 * The runtime values a guard predicate can see: .NET type codes, a small closed
 * value domain, the text `ToString` gives each value, and member lookup on a
 * captured object (what reflection's FieldInfo/PropertyInfo.GetValue does).
 */
module Values {
  import opened Wrappers

  /** System.TypeCode, the classification the renderer switches on. */
  datatype TypeCode =
    | Empty | Object | DBNull | Boolean | Char | SByte | Byte
    | Int16 | UInt16 | Int32 | UInt32 | Int64 | UInt64
    | Single | Double | Decimal | DateTime | String

  /**
   * A runtime value. Numbers are unbounded integers tagged with their runtime
   * type code (Decimal, Int32, ...); an object is its type name, its public
   * fields and its properties, each by name.
   */
  datatype Val =
    | Null
    | Num(code: TypeCode, n: int)
    | Bool(b: bool)
    | Chr(c: char)
    | Str(s: string)
    | Obj(typeName: string, fields: map<string, Val>, properties: map<string, Val>)

  /** Type.GetTypeCode(value.GetType()); TypeCode.Empty stands for null. */
  function RuntimeCode(v: Val): TypeCode
  {
    match v
    case Null => Empty
    case Num(code, _) => code
    case Bool(_) => Boolean
    case Chr(_) => Char
    case Str(_) => String
    case Obj(_, _, _) => Object
  }

  function DigitChar(d: nat): (c: char)
    requires d < 10
    ensures '0' <= c <= '9'
  {
    (48 + d) as char
  }

  function DigitValue(c: char): (d: nat)
    requires '0' <= c <= '9'
    ensures d < 10
  {
    c as int - 48
  }

  predicate IsDigits(s: string)
  {
    forall i :: 0 <= i < |s| ==> '0' <= s[i] <= '9'
  }

  /** Decimal digits of n, most significant first, without leading zeros. */
  function NatText(n: nat): (s: string)
    ensures |s| >= 1 && IsDigits(s)
    ensures |s| > 1 ==> s[0] != '0'
    ensures n < 10 <==> |s| == 1
  {
    if n < 10 then [DigitChar(n)] else NatText(n / 10) + [DigitChar(n % 10)]
  }

  function ParseNat(s: string): nat
    requires IsDigits(s)
  {
    if s == [] then 0 else ParseNat(s[..|s| - 1]) * 10 + DigitValue(s[|s| - 1])
  }

  /** Reading back the digits gives the number: the rendering loses nothing. */
  lemma {:induction false} NatTextRoundTrip(n: nat)
    ensures ParseNat(NatText(n)) == n
  {
    if n >= 10 {
      var s := NatText(n);
      assert s[..|s| - 1] == NatText(n / 10);
      NatTextRoundTrip(n / 10);
    }
  }

  /** Int32/Decimal.ToString() under the invariant culture, for whole numbers. */
  function IntText(i: int): (s: string)
  {
    if i < 0 then "-" + NatText(-i) else NatText(i)
  }

  function ParseInt(s: string): int
  {
    if |s| > 0 && s[0] == '-' && IsDigits(s[1..]) then -(ParseNat(s[1..]) as int)
    else if IsDigits(s) then ParseNat(s)
    else 0
  }

  lemma IntTextRoundTrip(i: int)
    ensures ParseInt(IntText(i)) == i
  {
    var s := IntText(i);
    if i < 0 {
      assert s[0] == '-' && s[1..] == NatText(-i);
      NatTextRoundTrip(-i);
    } else {
      assert IsDigits(s) && s[0] != '-';
      NatTextRoundTrip(i);
    }
  }

  /** Distinct numbers render differently. */
  lemma IntTextInjective(i: int, j: int)
    requires IntText(i) == IntText(j)
    ensures i == j
  {
    IntTextRoundTrip(i);
    IntTextRoundTrip(j);
  }

  /** Boolean.ToString(). */
  function BoolText(b: bool): string
  {
    if b then "True" else "False"
  }

  /**
   * object.ToString() as StringBuilder.Append and string.Format use it; a null
   * argument contributes nothing, an object without an override gives its type name.
   */
  function ValText(v: Val): string
  {
    match v
    case Null => ""
    case Num(_, n) => IntText(n)
    case Bool(b) => BoolText(b)
    case Chr(c) => [c]
    case Str(s) => s
    case Obj(typeName, _, _) => typeName
  }

  function Quote(s: string): string
  {
    "\"" + s + "\""
  }

  /** Char.IsWhiteSpace: the Unicode separators plus the control characters 9-13, 0x85 and 0xA0. */
  predicate IsWhiteSpace(c: char)
  {
    c == ' ' || ('\t' <= c <= '\r') || c == '\U{85}' || c == '\U{A0}' || c == '\U{1680}'
    || ('\U{2000}' <= c <= '\U{200A}') || c == '\U{2028}' || c == '\U{2029}'
    || c == '\U{202F}' || c == '\U{205F}' || c == '\U{3000}'
  }

  /** String.IsNullOrWhiteSpace on a non-null string: empty or only white space. */
  predicate AllWhiteSpace(s: string)
  {
    forall i :: 0 <= i < |s| ==> IsWhiteSpace(s[i])
  }

  /** The value of a public field of a captured object (Type.GetFields lookup). */
  function FieldOf(container: Val, member: string): Option<Val>
  {
    if container.Obj? && member in container.fields then Some(container.fields[member]) else None
  }

  /**
   * The value of a field or property read off a container, as FieldInfo or
   * PropertyInfo.GetValue returns it; String.Length is the one built-in property.
   */
  function MemberOf(container: Val, member: string): (r: Option<Val>)
    ensures FieldOf(container, member).Some? ==> r == FieldOf(container, member)
    ensures container.Obj? && member !in container.fields ==>
      r == (if member in container.properties then Some(container.properties[member]) else None)
    ensures container.Str? ==> r == (if member == "Length" then Some(Num(Int32, |container.s|)) else None)
    ensures !container.Obj? && !container.Str? ==> r == None
  {
    match container
    case Obj(_, fields, properties) =>
      if member in fields then Some(fields[member])
      else if member in properties then Some(properties[member])
      else None
    case Str(s) => if member == "Length" then Some(Num(Int32, |s|)) else None
    case _ => None
  }
}
