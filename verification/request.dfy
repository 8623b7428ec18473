/**
  Request parameters as the controllers see them: after the framework's default
  global middleware has trimmed strings and turned empty strings into null.
  Also PHP's truthiness of a parameter and the numeric readings of parameter text.
 */
module Request {
  import opened Wrappers
  import opened Text

  /** One request parameter: missing from the request, present as null, or present as text. */
  datatype Input = Absent | Null | Str(s: string)

  /**
    PHP truthiness of `request('x')`: a missing or null parameter is falsy,
    and so are exactly the strings "" and "0".
   */
  predicate Truthy(v: Input) {
    v.Str? && v.s != "" && v.s != "0"
  }

  /**
    The trimming and empty-to-null middleware applied to one parameter; `trim` is
    false for the password fields, which the trimming middleware exempts.
   */
  function Normalize(v: Input, trim: bool): (r: Input)
    ensures r.Absent? <==> v.Absent?
    ensures v.Null? ==> r.Null?
    ensures r.Str? ==> v.Str? && r.s != "" && r.s == (if trim then Trim(v.s) else v.s)
    ensures v.Str? && (if trim then Trim(v.s) else v.s) != "" ==> r.Str?
  {
    match v
    case Str(s) =>
      var t := if trim then Trim(s) else s;
      if t == "" then Null else Str(t)
    case _ => v
  }

  /** Text without surrounding whitespace passes the middleware untouched. */
  lemma NormalizeKeeps(s: string, trim: bool)
    requires s != "" && !IsSpace(s[0]) && !IsSpace(s[|s| - 1])
    ensures Normalize(Str(s), trim) == Str(s)
  {
    TrimmedIsFixed(s);
  }

  /** The length of the longest run of decimal digits that starts `s`. */
  function DigitPrefix(s: string): (n: nat)
    ensures n <= |s| && AllDigits(s[..n])
    ensures n < |s| ==> !IsDigit(s[n])
  {
    if |s| > 0 && IsDigit(s[0]) then
      var m := DigitPrefix(s[1..]);
      assert s[..1 + m] == [s[0]] + s[1..][..m];
      1 + m
    else 0
  }

  /**
    The longest numeric prefix of a text, split up: optional sign, whole digits,
    optional '.' with fraction digits, and whatever follows.
   */
  datatype Numeral = Numeral(negative: bool, whole: string, fraction: string, rest: string)

  function ScanNumber(s: string): (r: Numeral)
    ensures AllDigits(r.whole) && AllDigits(r.fraction)
    ensures |r.rest| <= |s|
  {
    var signed := |s| > 0 && (s[0] == '-' || s[0] == '+');
    var t := if signed then s[1..] else s;
    var w := DigitPrefix(t);
    var u := t[w..];
    if |u| > 0 && u[0] == '.' then
      var f := DigitPrefix(u[1..]);
      Numeral(signed && s[0] == '-', t[..w], u[1..][..f], u[1..][f..])
    else
      Numeral(signed && s[0] == '-', t[..w], "", u)
  }

  function Pow10(k: nat): (p: nat)
    ensures p > 0
  {
    if k == 0 then 1 else 10 * Pow10(k - 1)
  }

  /** The text is a plain decimal number: sign, digits, optional fraction, nothing else. */
  predicate IsNumeric(s: string) {
    var n := ScanNumber(s);
    n.rest == "" && |n.whole| + |n.fraction| > 0
  }

  /**
    The number a text denotes when compared with a numeric column: the value of its
    longest numeric prefix, and 0 when there is none.
   */
  function NumericValue(s: string): real {
    var n := ScanNumber(s);
    var magnitude := DigitsValue(n.whole) as real + DigitsValue(n.fraction) as real / Pow10(|n.fraction|) as real;
    if n.negative then -magnitude else magnitude
  }

  /** A blank text has no numeric prefix and compares as 0. */
  lemma BlankIsZero(s: string)
    requires Blank(s)
    ensures !IsNumeric(s) && NumericValue(s) == 0.0
  {
    if |s| > 0 {
      assert IsTrimChar(s[0]);
      assert DigitPrefix(s) == 0;
      assert s[0..] == s;
    }
  }

  /**
    The integer a page-number parameter denotes under PHP's integer validation:
    an optional sign and decimal digits without leading zeros. None otherwise.
   */
  function ValidatedInt(s: string): (r: Option<int>)
    ensures s == "" ==> r.None?
  {
    var signed := |s| > 0 && (s[0] == '-' || s[0] == '+');
    var t := if signed then s[1..] else s;
    if |t| == 0 || !AllDigits(t) || (|t| > 1 && t[0] == '0') then None
    else if signed && s[0] == '-' then Some(-(DigitsValue(t) as int))
    else Some(DigitsValue(t))
  }

  /** The canonical text of a natural number validates as that number. */
  lemma ValidatedNatText(n: nat)
    ensures ValidatedInt(NatText(n)) == Some(n)
  {
    NatTextRoundTrip(n);
  }

  /** The decimal text of any integer validates as that integer. */
  lemma ValidatedIntText(n: int)
    ensures ValidatedInt(IntText(n)) == Some(n)
  {
    if n >= 0 {
      ValidatedNatText(n);
    } else {
      var t := NatText(-n);
      assert IntText(n)[1..] == t;
      NatTextRoundTrip(-n);
    }
  }

  /** Number texts pass the trimming middleware untouched. */
  lemma NormalizeIntText(n: int, trim: bool)
    ensures Normalize(Str(IntText(n)), trim) == Str(IntText(n))
  {
    NormalizeKeeps(IntText(n), trim);
  }

  lemma ZeroPointZeroValue()
    ensures NumericValue("0.0") == 0.0
  {
    assert DigitPrefix("0.0") == 1;
    assert "0.0"[1..] == ".0";
    assert DigitPrefix("0") == 1;
  }
}
