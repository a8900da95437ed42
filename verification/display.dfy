/**
  The values a flattened variable can carry, and their textual form: the
  `Display` implementations `walk` in `src/main.rs` boxes behind `Box<Display>`,
  replaced here by a closed variant and one rendering function.
 */
module Display {
  import opened Wrappers
  import opened Toml

  /** A renderable leaf: what `walk` boxes for a string, integer, float or boolean. */
  datatype Scalar =
    | SStr(s: string)
    | SInt(i: Int64)
    | SFloat(text: string)
    | SBool(b: bool)

  /** The scalar a TOML value contributes, if it is one of the four renderable kinds. */
  function AsScalar(v: Value): (r: Option<Scalar>)
    ensures r.Some? <==> (v.Str? || v.Int? || v.Float? || v.Bool?)
  {
    match v
    case Str(s) => Some(SStr(s))
    case Int(i) => Some(SInt(i))
    case Float(t) => Some(SFloat(t))
    case Bool(b) => Some(SBool(b))
    case _ => None
  }

  predicate IsDigit(c: char)
  {
    '0' <= c <= '9'
  }

  function DigitChar(d: nat): (c: char)
    requires d < 10
    ensures IsDigit(c)
  {
    ['0', '1', '2', '3', '4', '5', '6', '7', '8', '9'][d]
  }

  function DigitValue(c: char): (d: nat)
    requires IsDigit(c)
    ensures d < 10
  {
    (c as int - '0' as int) as nat
  }

  /** Decimal digits of a natural number, most significant first, with no leading zero. */
  function NatToDigits(n: nat): (r: string)
    ensures |r| >= 1
    ensures forall k :: 0 <= k < |r| ==> IsDigit(r[k])
    ensures |r| > 1 ==> r[0] != '0'
    ensures n > 0 ==> r[0] != '0'
    decreases n
  {
    if n < 10 then [DigitChar(n)] else NatToDigits(n / 10) + [DigitChar(n % 10)]
  }

  function DigitsToNat(s: string): nat
    requires forall k :: 0 <= k < |s| ==> IsDigit(s[k])
  {
    if s == [] then 0 else DigitsToNat(s[..|s| - 1]) * 10 + DigitValue(s[|s| - 1])
  }

  /** Rust's `Display` for an integer: an optional minus sign, then decimal digits. */
  function IntToString(i: int): string
  {
    if i < 0 then "-" + NatToDigits(-i) else NatToDigits(i)
  }

  /** Reads back a decimal integer with an optional leading minus sign. */
  function ParseInt(s: string): Option<int>
  {
    if |s| > 1 && s[0] == '-' && forall k :: 1 <= k < |s| ==> IsDigit(s[k]) then
      Some(-(DigitsToNat(s[1..]) as int))
    else if |s| > 0 && forall k :: 0 <= k < |s| ==> IsDigit(s[k]) then
      Some(DigitsToNat(s))
    else
      None
  }

  /** The text `{}` formatting prints for a scalar. */
  function Render(v: Scalar): string
  {
    match v
    case SStr(s) => s
    case SInt(i) => IntToString(i)
    case SFloat(t) => t
    case SBool(b) => if b then "true" else "false"
  }

  lemma {:induction false} DigitsRoundTrip(n: nat)
    ensures DigitsToNat(NatToDigits(n)) == n
    decreases n
  {
    if n >= 10 {
      var d := NatToDigits(n / 10);
      assert NatToDigits(n) == d + [DigitChar(n % 10)];
      assert NatToDigits(n)[..|NatToDigits(n)| - 1] == d;
      DigitsRoundTrip(n / 10);
    }
  }

  lemma NegativeRoundTrip(n: nat)
    requires n > 0
    ensures ParseInt("-" + NatToDigits(n)) == Some(-(n as int))
  {
    var d := NatToDigits(n);
    var s := "-" + d;
    assert s[1..] == d;
    assert forall k :: 1 <= k < |s| ==> s[k] == d[k - 1];
    DigitsRoundTrip(n);
  }

  lemma NonNegativeRoundTrip(n: nat)
    ensures ParseInt(NatToDigits(n)) == Some(n)
  {
    var d := NatToDigits(n);
    assert IsDigit(d[0]);
    DigitsRoundTrip(n);
  }

  /** Integer rendering is decimal: reading the text back gives the integer. */
  lemma IntRoundTrip(i: int)
    ensures ParseInt(IntToString(i)) == Some(i)
  {
    if i < 0 {
      var n: nat := -i;
      assert IntToString(i) == "-" + NatToDigits(n);
      NegativeRoundTrip(n);
    } else {
      var n: nat := i;
      assert IntToString(i) == NatToDigits(n);
      NonNegativeRoundTrip(n);
    }
  }

  /**
    How each kind of scalar renders: strings verbatim and unquoted, floats as
    their carried text, booleans as `true`/`false`, integers in decimal.
   */
  lemma RenderShape(v: Scalar)
    ensures v.SStr? ==> Render(v) == v.s
    ensures v.SFloat? ==> Render(v) == v.text
    ensures v.SBool? ==> Render(v) == (if v.b then "true" else "false")
    ensures v.SInt? ==> ParseInt(Render(v)) == Some(v.i as int)
    ensures v.SInt? && v.i >= 0 ==> forall k :: 0 <= k < |Render(v)| ==> IsDigit(Render(v)[k])
    ensures v.SInt? && v.i >= 0 && |Render(v)| > 1 ==> Render(v)[0] != '0'
    ensures v.SInt? && v.i < 0 ==> |Render(v)| > 1 && Render(v)[0] == '-' && Render(v)[1] != '0'
  {
    if v.SInt? {
      IntRoundTrip(v.i);
    }
  }
}
