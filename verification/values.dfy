/** Step parameters. A macro step carries a string-keyed map of JSON values;
    the editor writes almost every value as a string, and the engine converts
    them with Python's `int()`, `float()` and truth tests at the point of use.
    A conversion that would raise is `None` here. */
module Values {
  import opened Wrappers
  import opened Text

  datatype Value =
    | Int(i: int)
    | Str(s: string)
    | Bool(b: bool)
    | IntList(xs: seq<int>)
    | Null

  type Params = map<string, Value>

  /** `p.get(key, default)`. */
  function Get(p: Params, key: string, default: Value): (v: Value)
    ensures key in p ==> v == p[key]
    ensures key !in p ==> v == default
  {
    if key in p then p[key] else default
  }

  /** Python's truth test on a JSON value. */
  predicate Truthy(v: Value) {
    match v
    case Int(i) => i != 0
    case Str(s) => |s| > 0
    case Bool(b) => b
    case IntList(xs) => |xs| > 0
    case Null => false
  }

  /** Python's `int(v)`: integers and booleans convert, strings are parsed,
      lists and `None` raise `TypeError`. */
  function ToInt(v: Value): (r: Option<int>)
    ensures v.Int? ==> r == Some(v.i)
    ensures v.IntList? || v.Null? ==> r.None?
    ensures v.Bool? ==> r.Some? && 0 <= r.value <= 1 && (r.value == 1 <==> v.b)
    ensures v.Str? ==> r == ParseInt(v.s)
  {
    match v
    case Int(i) => Some(i)
    case Bool(b) => Some(if b then 1 else 0)
    case Str(s) => ParseInt(s)
    case IntList(_) => None
    case Null => None
  }

  /** A string holding an integer's decimal numeral converts back to it;
      together with `ToInt` agreeing with Truthy on booleans this is the
      conversion the engine relies on for editor-written parameters. */
  lemma ToIntOfNumeral(i: int)
    ensures ToInt(Str(IntToString(i))) == Some(i)
  {
    ParseIntOfIntToString(i);
  }

  /** On an integer or a boolean, `int()` is non-zero exactly when the
      value is truthy. */
  lemma ToIntAgreesWithTruthy(v: Value)
    requires v.Int? || v.Bool?
    ensures ToInt(v).Some? && (ToInt(v).value != 0 <==> Truthy(v))
  {
  }

  /** The sign of a decimal literal `[+-]digits[.digits]` or `[+-].digits`. */
  datatype Decimal = Decimal(negative: bool, digits: string)

  /** `float()` on a string; like `int()`, it rejects an information
      separator anywhere. */
  function ParseDecimal(s: string): (r: Option<Decimal>)
    ensures HasInfoSeparator(s) ==> r.None?
  {
    var t := Strip(s);
    if HasInfoSeparator(s) then None else
    var negative := |t| > 0 && t[0] == '-';
    var body := if |t| > 0 && (t[0] == '-' || t[0] == '+') then t[1..] else t;
    if '.' in body then
      var k := FirstIndex(body, '.');
      var whole := body[..k];
      var frac := body[k + 1..];
      var wholeOk := |whole| == 0 || IsDigits(whole);
      var fracOk := |frac| == 0 || IsDigits(frac);
      if wholeOk && fracOk && |whole| + |frac| > 0 then Some(Decimal(negative, whole + frac))
      else None
    else if IsDigits(body) then Some(Decimal(negative, body))
    else None
  }

  predicate DecimalPositive(d: Decimal) {
    !d.negative && exists i :: 0 <= i < |d.digits| && d.digits[i] != '0'
  }

  /** Whether Python's `float(v)` succeeds (exponents, `inf` and `nan` are not
      modelled). */
  predicate FloatOk(v: Value) {
    match v
    case Int(_) => true
    case Bool(_) => true
    case Str(s) => ParseDecimal(s).Some?
    case IntList(_) => false
    case Null => false
  }

  /** Whether `float(v) > 0`, for a value that converts. */
  predicate FloatPositive(v: Value)
    requires FloatOk(v)
  {
    match v
    case Int(i) => i > 0
    case Bool(b) => b
    case Str(s) => DecimalPositive(ParseDecimal(s).value)
  }

  function JoinInts(xs: seq<int>): string
  {
    if |xs| == 0 then ""
    else if |xs| == 1 then IntToString(xs[0])
    else IntToString(xs[0]) + ", " + JoinInts(xs[1..])
  }

  /** `str(v)`, as an f-string renders a parameter. */
  function Render(v: Value): string
  {
    match v
    case Int(i) => IntToString(i)
    case Str(s) => s
    case Bool(b) => if b then "True" else "False"
    case IntList(xs) => "[" + JoinInts(xs) + "]"
    case Null => "None"
  }
}
