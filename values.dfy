/** Attribute values as the scripts see them through arcpy cursors: NULL
    (Python `None`), integers and text, with Python's truthiness and `str()`. */
module Values {

  /** A value that may be absent, for NULL fields and failed lookups. */
  datatype Option<T> = None | Some(value: T)

  datatype Value = Null | Int(i: int) | Str(s: string)

  /** Python truthiness: `None`, `0` and `''` are false. */
  predicate Truthy(v: Value) {
    match v
    case Null => false
    case Int(i) => i != 0
    case Str(s) => s != ""
  }

  function DigitChar(d: nat): (c: char)
    requires d <= 9
    ensures '0' <= c <= '9'
  {
    ('0' as int + d) as char
  }

  /** Decimal digits of `n`, most significant first. */
  function NatToString(n: nat): (r: string)
    ensures |r| >= 1
    ensures forall k :: 0 <= k < |r| ==> '0' <= r[k] <= '9'
  {
    if n < 10 then [DigitChar(n)] else NatToString(n / 10) + [DigitChar(n % 10)]
  }

  /** Most significant decimal digit of `n`. */
  function LeadingDigit(n: nat): (d: nat)
    ensures d <= 9
    ensures n > 0 ==> d > 0
  {
    if n < 10 then n else LeadingDigit(n / 10)
  }

  /** Python's `str(v)`. */
  function Display(v: Value): string {
    match v
    case Null => "None"
    case Int(i) => if i < 0 then "-" + NatToString(-i) else NatToString(i)
    case Str(s) => s
  }

  /** The first character of a number's decimal form is its leading digit. */
  lemma {:induction false} NatToStringHead(n: nat)
    ensures NatToString(n)[0] == DigitChar(LeadingDigit(n))
  {
    if n >= 10 {
      NatToStringHead(n / 10);
    }
  }

  /** A value has a non-empty `str()` exactly when it is not the empty text. */
  lemma DisplayNonEmpty(v: Value)
    ensures Display(v) == "" <==> v == Str("")
  {
  }
}
