/** Cell values, rows and the text a cell renders to. */
module Values {
  import opened Errors

  /** The closed set of cell values: a boxed int, a string, a bool, or null. */
  datatype Value = Int(i: int) | Str(s: string) | Bool(b: bool) | Null

  /** A row maps column names to cells; lookups are exact (ordinal). */
  type Row = map<string, Value>

  predicate IsDigit(c: char) {
    '0' <= c <= '9'
  }

  predicate IsDigits(s: string) {
    forall i :: 0 <= i < |s| ==> IsDigit(s[i])
  }

  function DigitChar(d: nat): (c: char)
    requires d < 10
    ensures IsDigit(c) && c as int - '0' as int == d
  {
    ('0' as int + d) as char
  }

  /** The decimal digits of n, most significant first, without leading zeros. */
  function NatToDecimal(n: nat): (s: string)
    ensures |s| >= 1 && IsDigits(s)
    ensures s[0] == '0' ==> s == "0"
    decreases n
  {
    if n < 10 then [DigitChar(n)] else NatToDecimal(n / 10) + [DigitChar(n % 10)]
  }

  /** The number a string of decimal digits denotes. */
  function DecimalValue(s: string): nat
    requires IsDigits(s)
  {
    if s == [] then 0 else DecimalValue(s[..|s| - 1]) * 10 + (s[|s| - 1] as int - '0' as int)
  }

  /** Reading back the digits of n gives n: decimal rendering loses nothing. */
  lemma {:induction false} DecimalRoundTrip(n: nat)
    ensures DecimalValue(NatToDecimal(n)) == n
    decreases n
  {
    if n >= 10 {
      var s := NatToDecimal(n);
      assert s[..|s| - 1] == NatToDecimal(n / 10);
      DecimalRoundTrip(n / 10);
    }
  }

  /** Int32.ToString() with the invariant culture's minus sign. */
  function IntToDecimal(i: int): (s: string)
    ensures |s| >= 1
    ensures i < 0 <==> s[0] == '-'
    ensures i >= 0 ==> IsDigits(s) && DecimalValue(s) == i
    ensures i < 0 ==> IsDigits(s[1..]) && DecimalValue(s[1..]) == -i
  {
    if i < 0 then
      var d := NatToDecimal(-i);
      DecimalRoundTrip(-i);
      assert ("-" + d)[1..] == d;
      "-" + d
    else
      DecimalRoundTrip(i);
      NatToDecimal(i)
  }

  /** Distinct integers render to distinct texts. */
  lemma IntToDecimalInjective(a: int, b: int)
    requires IntToDecimal(a) == IntToDecimal(b)
    ensures a == b
  {
    if a < 0 {
      assert b < 0;
      var s := IntToDecimal(a);
      assert s[1..] == NatToDecimal(-a);
      assert IntToDecimal(b)[1..] == NatToDecimal(-b);
      NatToDecimalInjective(-a, -b);
    } else {
      assert b >= 0;
      NatToDecimalInjective(a, b);
    }
  }

  lemma NatToDecimalInjective(m: nat, n: nat)
    requires NatToDecimal(m) == NatToDecimal(n)
    ensures m == n
  {
    DecimalRoundTrip(m);
    DecimalRoundTrip(n);
  }

  /** cell?.ToString(): the text of a non-null cell, None for null. */
  function Render(v: Value): (r: Option<string>)
    ensures r.None? <==> v.Null?
  {
    match v
    case Int(i) => Some(IntToDecimal(i))
    case Str(s) => Some(s)
    case Bool(b) => Some(if b then "True" else "False")
    case Null => None
  }

  /** Two integer cells render alike exactly when they are equal; an integer
      cell and the string cell holding its digits render alike although the
      cells differ. */
  lemma RenderIntegers(a: int, b: int)
    ensures Render(Int(a)) == Render(Int(b)) <==> a == b
    ensures Render(Int(a)) == Render(Str(IntToDecimal(a))) && Int(a) != Str(IntToDecimal(a))
  {
    if Render(Int(a)) == Render(Int(b)) {
      IntToDecimalInjective(a, b);
    }
  }
}
