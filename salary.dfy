/** `calc_avgsalary`, the parser that turns a `salary_range` cell into one number. */
module Salary {
  import opened Wrappers
  import opened Text
  import opened Numbers

  /** A null cell stays null. A cell holding `-` loses its `$` signs and is split at
      every `-`; the result is the mean of the first two pieces read as integers, or
      null if either is not an integer. Any other cell is read whole, `$` included,
      as a float, or null if it is not one. */
  function CalcAvgSalary(salaryRange: Option<string>): Option<real> {
    match salaryRange
    case None => None
    case Some(s) =>
      if '-' in s then
        var stripped := RemoveChar(s, '$');
        RemoveCharMembers(s, '$', '-');
        SplitPieces(stripped, '-');
        MeanOfFirstTwo(Split(stripped, '-'))
      else ParseFloat(s)
  }

  /** `(int(parts[0]) + int(parts[1])) / 2`, or null when either `int` fails. */
  function MeanOfFirstTwo(parts: seq<string>): Option<real>
    requires |parts| >= 2
  {
    var low, high := ParseInt(parts[0]), ParseInt(parts[1]);
    if low.Some? && high.Some? then Some((low.value + high.value) as real / 2.0) else None
  }

  /** A null salary range parses to null. */
  lemma NullRangeIsNull()
    ensures CalcAvgSalary(None) == None
  {
  }

  /** A join of two or more pieces with `-` holds a `-`. */
  lemma JoinHasSeparator(parts: seq<string>, sep: char)
    requires |parts| >= 2
    ensures sep in Join(parts, sep)
  {
    assert Join(parts, sep)[|parts[0]|] == sep;
  }

  /** A cell whose `$`-free text is the `-`-join of `parts` parses as the mean of the first two of them. */
  lemma HyphenRangePieces(s: string, parts: seq<string>)
    requires |parts| >= 2
    requires forall k :: 0 <= k < |parts| ==> '-' !in parts[k]
    requires RemoveChar(s, '$') == Join(parts, '-')
    ensures CalcAvgSalary(Some(s)) == MeanOfFirstTwo(parts)
  {
    JoinHasSeparator(parts, '-');
    RemoveCharMembers(s, '$', '-');
    SplitJoin(parts, '-');
  }

  /** When the `$`-free cell is `A-B` followed by any further `-`-separated pieces, and `A`
      and `B` are integers, the result is their mean; the further pieces play no part. */
  lemma HyphenRange(s: string, parts: seq<string>, low: int, high: int)
    requires |parts| >= 2
    requires forall k :: 0 <= k < |parts| ==> '-' !in parts[k]
    requires RemoveChar(s, '$') == Join(parts, '-')
    requires ParseInt(parts[0]) == Some(low) && ParseInt(parts[1]) == Some(high)
    ensures CalcAvgSalary(Some(s)) == Some((low + high) as real / 2.0)
  {
    HyphenRangePieces(s, parts);
    MeanOfIntegers(parts, low, high);
  }

  lemma MeanOfIntegers(parts: seq<string>, low: int, high: int)
    requires |parts| >= 2
    requires ParseInt(parts[0]) == Some(low) && ParseInt(parts[1]) == Some(high)
    ensures MeanOfFirstTwo(parts) == Some((low + high) as real / 2.0)
  {
  }

  /** When either of the first two pieces is not an integer, the result is null. */
  lemma HyphenRangeUnparsable(s: string, parts: seq<string>)
    requires |parts| >= 2
    requires forall k :: 0 <= k < |parts| ==> '-' !in parts[k]
    requires RemoveChar(s, '$') == Join(parts, '-')
    requires ParseInt(parts[0]).None? || ParseInt(parts[1]).None?
    ensures CalcAvgSalary(Some(s)) == None
  {
    HyphenRangePieces(s, parts);
  }

  lemma NumeralHasNoSign(n: nat, c: char)
    requires !IsDigit(c)
    ensures c !in NatToString(n)
  {
    NatToStringDigits(n);
  }

  /** Removing the `$` signs from `$X-$Y` leaves `X-Y`. */
  lemma StripDollarTail(sy: string)
    requires '$' !in sy
    ensures RemoveChar("-" + ("$" + sy), '$') == "-" + sy
  {
    RemoveCharCons('$', sy, '$');
    RemoveCharAbsent(sy, '$');
    RemoveCharCons('-', "$" + sy, '$');
  }

  lemma DollarRangeShape(sx: string, sy: string)
    ensures "$" + sx + "-$" + sy == "$" + (sx + ("-" + ("$" + sy)))
  {
  }

  lemma StripDollars(sx: string, sy: string)
    requires '$' !in sx && '$' !in sy
    ensures RemoveChar("$" + sx + "-$" + sy, '$') == sx + "-" + sy
  {
    var middle := "-" + ("$" + sy);
    var body := sx + middle;
    calc {
      RemoveChar("$" + sx + "-$" + sy, '$');
      == { DollarRangeShape(sx, sy); }
      RemoveChar("$" + body, '$');
      == { RemoveCharCons('$', body, '$'); }
      RemoveChar(body, '$');
      == { RemoveCharConcat(sx, middle, '$'); }
      RemoveChar(sx, '$') + RemoveChar(middle, '$');
      == { RemoveCharAbsent(sx, '$'); StripDollarTail(sy); }
      sx + ("-" + sy);
    }
  }

  /** A range written `$X-$Y` with natural numbers X and Y parses to their exact mean. */
  lemma DollarRange(x: nat, y: nat)
    ensures CalcAvgSalary(Some("$" + NatToString(x) + "-$" + NatToString(y))) == Some((x + y) as real / 2.0)
  {
    var sx, sy := NatToString(x), NatToString(y);
    NumeralHasNoSign(x, '$');
    NumeralHasNoSign(y, '$');
    NumeralHasNoSign(x, '-');
    NumeralHasNoSign(y, '-');
    StripDollars(sx, sy);
    assert Join([sx, sy], '-') == sx + "-" + sy;
    ParseIntRoundTrip(x);
    ParseIntRoundTrip(y);
    HyphenRange("$" + sx + "-$" + sy, [sx, sy], x, y);
  }

  /** Without a `-`, a cell holding a character other than a digit, `+` or `.` is not a
      float and parses to null: `"Negotiable"`, `"2,500"`, `"$2500"`. */
  lemma UnreadableAmountIsNull(s: string, i: nat)
    requires '-' !in s && i < |s| && !IsNumeralChar(s[i])
    ensures CalcAvgSalary(Some(s)) == None
  {
    ParseFloatAlphabet(s);
  }

  /** Without a `-`, a cell with a sign after the front, two decimal points or no digit is not
      a float and parses to null: `"1.2.3"`, `"+"`, `"."`. */
  lemma MalformedAmountIsNull(s: string)
    requires '-' !in s && !(SignOnlyInFront(s) && AtMostOnePoint(s) && HasDigit(s))
    ensures CalcAvgSalary(Some(s)) == None
  {
    ParseFloatShape(s);
  }

  /** Without a `-`, a cell holding `$` is not a float and parses to null: the sign is not stripped on this branch. */
  lemma DollarAmountIsNull(s: string)
    requires '-' !in s && '$' in s
    ensures CalcAvgSalary(Some(s)) == None
  {
    var i :| 0 <= i < |s| && s[i] == '$';
    UnreadableAmountIsNull(s, i);
  }

  /** Without a `-`, a plain natural numeral parses to its value. */
  lemma PlainAmount(n: nat)
    ensures CalcAvgSalary(Some(NatToString(n))) == Some(n as real)
  {
    NumeralHasNoSign(n, '-');
    ParseFloatOfNat(n);
  }

  /** Without a `-`, an optional `+`, digits, one decimal point and digits parse to their
      exact decimal value, leading zeros included. */
  lemma DecimalAmount(sign: string, whole: string, fraction: string)
    requires sign == "" || sign == "+"
    requires AllDigits(whole) && AllDigits(fraction) && |whole| + |fraction| > 0
    ensures CalcAvgSalary(Some(sign + whole + "." + fraction)) == Some(DecimalValue(whole, fraction))
  {
    DigitsExclude(whole, '-');
    DigitsExclude(fraction, '-');
    ParseFloatAccepts(sign, whole, fraction);
  }

  /** Without a `-`, an optional `+` and a run of digits parse to their value: `"+2500"` and
      `"02500"` both give 2500. */
  lemma WholeAmount(sign: string, whole: string)
    requires sign == "" || sign == "+"
    requires |whole| > 0 && AllDigits(whole)
    ensures CalcAvgSalary(Some(sign + whole)) == Some(DigitsValue(whole) as real)
  {
    DigitsExclude(whole, '-');
    ParseFloatAcceptsWhole(sign, whole);
  }

  /** Examples: `$2500` is null, and so is `-5`, whose first piece is empty. */
  lemma SalaryExamples()
    ensures CalcAvgSalary(Some("$2500")) == None
    ensures CalcAvgSalary(Some("-5")) == None
  {
    assert "$2500"[0] == '$';
    DollarAmountIsNull("$2500");
    assert "-5"[0] == '-';
    assert RemoveChar("-5", '$') == Join(["", "5"], '-');
    HyphenRangeUnparsable("-5", ["", "5"]);
  }
}
