/** Python's `int(str)` and `float(str)` on the literals a salary range can hold:
    an optional sign, then ASCII decimal digits (and, for `float`, one optional
    decimal point). Values are exact: integers are unbounded, floats are reals. */
module Numbers {
  import opened Wrappers
  import opened Text

  predicate IsDigit(c: char) {
    '0' <= c <= '9'
  }

  predicate AllDigits(s: string) {
    forall i :: 0 <= i < |s| ==> IsDigit(s[i])
  }

  function DigitValue(c: char): nat
    requires IsDigit(c)
  {
    c as int - '0' as int
  }

  /** The value of a run of decimal digits, most significant first. */
  function DigitsValue(s: string): nat
    requires AllDigits(s)
    decreases |s|
  {
    if s == [] then 0 else DigitsValue(s[..|s| - 1]) * 10 + DigitValue(s[|s| - 1])
  }

  function Pow10(n: nat): (p: nat)
    ensures p >= 1
  {
    if n == 0 then 1 else 10 * Pow10(n - 1)
  }

  /** An optional leading `+` or `-` split off: whether the number is negated, and the rest. */
  function SplitSign(s: string): (bool, string) {
    if |s| > 0 && (s[0] == '+' || s[0] == '-') then (s[0] == '-', s[1..]) else (false, s)
  }

  /** `int(s)`, or None where Python raises ValueError. */
  function ParseInt(s: string): Option<int> {
    var (negative, body) := SplitSign(s);
    if |body| > 0 && AllDigits(body) then
      Some(if negative then -(DigitsValue(body) as int) else DigitsValue(body))
    else None
  }

  /** `float(s)`, or None where Python raises ValueError: digits on either side of at
      most one decimal point, at least one digit in all. */
  function ParseFloat(s: string): Option<real> {
    var (negative, body) := SplitSign(s);
    var pieces := Split(body, '.');
    if |pieces| > 2 then None
    else
      var whole := pieces[0];
      var fraction := if |pieces| == 2 then pieces[1] else "";
      if AllDigits(whole) && AllDigits(fraction) && |whole| + |fraction| > 0 then
        var magnitude := DecimalValue(whole, fraction);
        Some(if negative then -magnitude else magnitude)
      else None
  }

  /** The value of `whole.fraction`: the whole part plus the fraction over the matching power of ten. */
  function DecimalValue(whole: string, fraction: string): real
    requires AllDigits(whole) && AllDigits(fraction)
  {
    DigitsValue(whole) as real + DigitsValue(fraction) as real / Pow10(|fraction|) as real
  }

  function DigitChar(d: nat): char
    requires d < 10
  {
    ('0' as int + d) as char
  }

  /** The decimal numeral of `n`, as Python's `str` writes it. */
  function NatToString(n: nat): string
    decreases n
  {
    if n < 10 then [DigitChar(n)] else NatToString(n / 10) + [DigitChar(n % 10)]
  }

  function IntToString(i: int): string {
    if i < 0 then "-" + NatToString(-i) else NatToString(i)
  }

  /** The numeral of `n` is a non-empty run of digits whose value is `n`. */
  lemma {:induction false} NatToStringDigits(n: nat)
    ensures |NatToString(n)| >= 1 && AllDigits(NatToString(n))
    ensures DigitsValue(NatToString(n)) == n
    decreases n
  {
    if n >= 10 {
      NatToStringDigits(n / 10);
      var s := NatToString(n);
      assert s[..|s| - 1] == NatToString(n / 10);
    }
  }

  /** `int` reads back every numeral `str` writes. */
  lemma ParseIntRoundTrip(i: int)
    ensures ParseInt(IntToString(i)) == Some(i)
  {
    if i < 0 {
      NatToStringDigits(-i);
      ParseIntAccepts("-", NatToString(-i));
    } else {
      NatToStringDigits(i);
      ParseIntAccepts("", NatToString(i));
      assert "" + NatToString(i) == NatToString(i);
    }
  }

  /** `float` reads a natural numeral as the same whole number. */
  lemma ParseFloatOfNat(n: nat)
    ensures ParseFloat(NatToString(n)) == Some(n as real)
  {
    NatToStringDigits(n);
    var s := NatToString(n);
    SplitNoSeparator(s, '.');
  }

  predicate IsNumeralChar(c: char) {
    IsDigit(c) || c == '+' || c == '-' || c == '.'
  }

  /** Characters of a join of digit runs are digits or the separator. */
  lemma {:induction false} JoinOfDigits(parts: seq<string>, sep: char)
    requires |parts| >= 1
    requires forall k :: 0 <= k < |parts| ==> AllDigits(parts[k])
    ensures forall i :: 0 <= i < |Join(parts, sep)| ==> IsDigit(Join(parts, sep)[i]) || Join(parts, sep)[i] == sep
    decreases |parts|
  {
    if |parts| > 1 {
      JoinOfDigits(parts[1..], sep);
      var j := Join(parts, sep);
      assert j == parts[0] + [sep] + Join(parts[1..], sep);
      forall i | 0 <= i < |j| ensures IsDigit(j[i]) || j[i] == sep {
        if i > |parts[0]| {
          assert j[i] == Join(parts[1..], sep)[i - |parts[0]| - 1];
        }
      }
    }
  }

  /** Whatever `int` accepts ends in a digit, and is made of digits after at most one leading
      sign; so a lone sign is rejected. */
  lemma ParseIntAlphabet(s: string)
    ensures ParseInt(s).Some? ==>
      |s| > 0 && IsDigit(s[|s| - 1]) &&
      forall i :: 0 <= i < |s| ==> IsDigit(s[i]) || (i == 0 && (s[i] == '+' || s[i] == '-'))
  {
    var (negative, body) := SplitSign(s);
    if ParseInt(s).Some? {
      forall i | 0 <= i < |s| ensures IsDigit(s[i]) || (i == 0 && (s[i] == '+' || s[i] == '-')) {
        if s != body && i > 0 {
          assert s[i] == body[i - 1];
        }
      }
      assert s[|s| - 1] == body[|body| - 1];
    }
  }

  /** Conversely, `int` accepts every optional sign followed by a non-empty run of digits,
      leading zeros included, and reads it as the signed value of the digits. */
  lemma ParseIntAccepts(sign: string, digits: string)
    requires sign == "" || sign == "+" || sign == "-"
    requires |digits| > 0 && AllDigits(digits)
    ensures ParseInt(sign + digits) == Some(if sign == "-" then -(DigitsValue(digits) as int) else DigitsValue(digits))
  {
    var s := sign + digits;
    if sign == "" {
      assert s == digits;
      assert IsDigit(s[0]);
    } else {
      assert s[0] == sign[0];
      assert s[1..] == digits;
    }
  }

  /** Whatever `float` accepts is made of a sign, digits and a decimal point only. */
  lemma ParseFloatAlphabet(s: string)
    ensures ParseFloat(s).Some? ==> forall i :: 0 <= i < |s| ==> IsNumeralChar(s[i])
  {
    var (negative, body) := SplitSign(s);
    var pieces := Split(body, '.');
    if ParseFloat(s).Some? {
      JoinSplit(body, '.');
      JoinOfDigits(pieces, '.');
      forall i | 0 <= i < |s| ensures IsNumeralChar(s[i]) {
        if s != body && i > 0 {
          assert s[i] == body[i - 1];
        }
      }
    }
  }

  /** A run of digits holds no character other than a digit. */
  lemma DigitsExclude(s: string, c: char)
    requires AllDigits(s) && !IsDigit(c)
    ensures c !in s
  {
  }

  /** Digits, a point and digits split at the point into the two runs. */
  lemma DecimalPieces(whole: string, fraction: string)
    requires AllDigits(whole) && AllDigits(fraction)
    ensures Split(whole + "." + fraction, '.') == [whole, fraction]
  {
    DigitsExclude(whole, '.');
    DigitsExclude(fraction, '.');
    assert Join([whole, fraction], '.') == whole + "." + fraction;
    SplitJoin([whole, fraction], '.');
  }

  /** An optional sign in front of a text that does not start with one splits off again. */
  lemma SignSplits(sign: string, body: string)
    requires sign == "" || sign == "+" || sign == "-"
    requires |body| > 0 && body[0] != '+' && body[0] != '-'
    ensures SplitSign(sign + body) == (sign == "-", body)
  {
    if sign == "" {
      assert sign + body == body;
    } else {
      assert (sign + body)[0] == sign[0];
      assert (sign + body)[1..] == body;
    }
  }

  /** A text whose sign splits off and whose rest splits at its one point into two runs of
      digits, not both empty, parses to their signed decimal value. */
  lemma ParseFloatOfPieces(s: string, negative: bool, body: string, whole: string, fraction: string)
    requires SplitSign(s) == (negative, body) && Split(body, '.') == [whole, fraction]
    requires AllDigits(whole) && AllDigits(fraction) && |whole| + |fraction| > 0
    ensures ParseFloat(s) == Some(if negative then -DecimalValue(whole, fraction) else DecimalValue(whole, fraction))
  {
  }

  /** The same for a rest without a point: one non-empty run of digits. */
  lemma ParseFloatOfWhole(s: string, negative: bool, body: string)
    requires SplitSign(s) == (negative, body) && Split(body, '.') == [body]
    requires |body| > 0 && AllDigits(body)
    ensures ParseFloat(s) == Some(if negative then -(DigitsValue(body) as real) else DigitsValue(body) as real)
  {
    assert DecimalValue(body, "") == DigitsValue(body) as real;
  }

  /** Conversely to `ParseFloatAlphabet` and `ParseFloatShape`, `float` accepts every optional
      sign followed by digits, a decimal point and digits, either run possibly empty but not
      both, leading zeros included, and reads the signed decimal value exactly. */
  lemma ParseFloatAccepts(sign: string, whole: string, fraction: string)
    requires sign == "" || sign == "+" || sign == "-"
    requires AllDigits(whole) && AllDigits(fraction) && |whole| + |fraction| > 0
    ensures ParseFloat(sign + whole + "." + fraction) ==
      Some(if sign == "-" then -DecimalValue(whole, fraction) else DecimalValue(whole, fraction))
  {
    var body := whole + "." + fraction;
    assert body[0] == if |whole| > 0 then whole[0] else '.';
    SignSplits(sign, body);
    assert sign + whole + "." + fraction == sign + body;
    DecimalPieces(whole, fraction);
    ParseFloatOfPieces(sign + body, sign == "-", body, whole, fraction);
  }

  /** `float` accepts every optional sign followed by a non-empty run of digits without a
      point, leading zeros included, and reads its signed value. */
  lemma ParseFloatAcceptsWhole(sign: string, whole: string)
    requires sign == "" || sign == "+" || sign == "-"
    requires |whole| > 0 && AllDigits(whole)
    ensures ParseFloat(sign + whole) == Some(if sign == "-" then -(DigitsValue(whole) as real) else DigitsValue(whole) as real)
  {
    assert IsDigit(whole[0]);
    SignSplits(sign, whole);
    DigitsExclude(whole, '.');
    SplitNoSeparator(whole, '.');
    ParseFloatOfWhole(sign + whole, sign == "-", whole);
  }

  /** A sign may stand only in front. */
  predicate SignOnlyInFront(s: string) {
    forall i :: 0 < i < |s| ==> s[i] != '+' && s[i] != '-'
  }

  predicate AtMostOnePoint(s: string) {
    forall i, j :: 0 <= i < j < |s| && s[i] == '.' ==> s[j] != '.'
  }

  predicate HasDigit(s: string) {
    exists i :: 0 <= i < |s| && IsDigit(s[i])
  }

  /** What `float` reads after the sign is digits with at most one point, at position `point`
      (or none, when `point` is past the end), and holds a digit. */
  lemma UnsignedShape(body: string)
    requires var pieces := Split(body, '.');
      |pieces| <= 2 && AllDigits(pieces[0]) && (|pieces| == 2 ==> AllDigits(pieces[1])) &&
      |pieces[0]| + (if |pieces| == 2 then |pieces[1]| else 0) > 0
    ensures var pieces := Split(body, '.');
      var point := if |pieces| == 2 then |pieces[0]| else |body|;
      forall k :: 0 <= k < |body| ==> IsDigit(body[k]) || (k == point && body[k] == '.')
    ensures HasDigit(body)
  {
    var pieces := Split(body, '.');
    JoinSplit(body, '.');
    var whole := pieces[0];
    if |pieces| == 1 {
      assert body == whole;
      assert IsDigit(body[0]);
    } else {
      var fraction := pieces[1];
      assert pieces[1..] == [fraction];
      assert body == whole + "." + fraction;
      forall k | 0 <= k < |body| ensures IsDigit(body[k]) || (k == |whole| && body[k] == '.') {
        if k > |whole| {
          assert body[k] == fraction[k - |whole| - 1];
        }
      }
      if |whole| > 0 {
        assert IsDigit(body[0]);
      } else {
        assert IsDigit(body[1]);
      }
    }
  }

  /** Whatever `float` accepts has a sign only in front, at most one decimal point, and a
      digit; so `"1.2.3"`, `"+"` and `"5-"` are rejected. */
  lemma ParseFloatShape(s: string)
    ensures ParseFloat(s).Some? ==> SignOnlyInFront(s) && AtMostOnePoint(s) && HasDigit(s)
  {
    var (negative, body) := SplitSign(s);
    if ParseFloat(s).Some? {
      UnsignedShape(body);
      var pieces := Split(body, '.');
      var point := if |pieces| == 2 then |pieces[0]| else |body|;
      var off := |s| - |body|;
      assert off == 0 || off == 1;
      assert forall k :: 0 <= k < |body| ==> s[k + off] == body[k];
      forall i | 0 < i < |s| ensures s[i] != '+' && s[i] != '-' {
        assert s[i] == body[i - off];
      }
      forall i, j | 0 <= i < j < |s| && s[i] == '.' ensures s[j] != '.' {
        if off == 1 {
          assert i > 0;
        }
        assert s[i] == body[i - off] && s[j] == body[j - off];
      }
      var d :| 0 <= d < |body| && IsDigit(body[d]);
      assert s[d + off] == body[d];
    }
  }

  /** `float` reads a decimal fraction exactly. */
  lemma ParseFloatFraction()
    ensures ParseFloat("12.5") == Some(12.5)
  {
    assert Split("12.5", '.') == ["12", "5"] by {
      assert Join(["12", "5"], '.') == "12.5";
      SplitJoin(["12", "5"], '.');
    }
    assert DigitsValue("12") == 12 by {
      assert "12"[..1] == "1";
      assert "1"[..0] == "";
    }
    assert DigitsValue("5") == 5 by {
      assert "5"[..0] == "";
    }
  }

  /** A bare decimal point is not a number. */
  lemma ParseFloatBarePoint()
    ensures ParseFloat(".") == None
  {
    assert Split(".", '.') == ["", ""] by {
      assert Join(["", ""], '.') == ".";
      SplitJoin(["", ""], '.');
    }
  }
}
