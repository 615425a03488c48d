/**
 * The --width option of asciiart.js: parseInt(options.width, 10), then two
 * checks in order. NaN or a value <= 0 is rejected first with "Width must be
 * a positive number"; any other value outside [150, 500] is rejected with
 * "Width must be between 150 and 500 characters".
 */
module Width {
  import opened Wrappers
  import opened JsText

  const MinWidth: int := 150
  const MaxWidth: int := 500

  /** The option's default value when -w is not given. */
  const DefaultWidth: string := "500"

  datatype WidthError =
    | NotPositive  // "Error: Width must be a positive number"
    | OutOfRange   // "Error: Width must be between 150 and 500 characters"

  /** The column count the script goes on with, or the error it exits with. */
  function ValidateWidth(arg: string): (r: Result<int, WidthError>)
    ensures r.Ok? <==> ParseInt(arg).Some? && MinWidth <= ParseInt(arg).value <= MaxWidth
    ensures r.Ok? ==> r.value == ParseInt(arg).value
    ensures r == Err(NotPositive) <==> ParseInt(arg).None? || ParseInt(arg).value <= 0
  {
    match ParseInt(arg)
    case None => Err(NotPositive)
    case Some(cols) =>
      if cols <= 0 then Err(NotPositive)
      else if cols < MinWidth || cols > MaxWidth then Err(OutOfRange)
      else Ok(cols)
  }

  /** The numeral of every n in [150, 500] is accepted as n columns, whatever non-digit text trails it. */
  lemma AcceptsInRange(n: nat, rest: string)
    requires MinWidth <= n <= MaxWidth
    requires rest == [] || !IsDigit(rest[0])
    ensures ValidateWidth(Decimal(n) + rest) == Ok(n)
  {
    ParseDecimal(n, rest);
  }

  /** A positive numeral outside [150, 500] fails with the range error. */
  lemma RejectsOutOfRange(n: nat, rest: string)
    requires 0 < n < MinWidth || n > MaxWidth
    requires rest == [] || !IsDigit(rest[0])
    ensures ValidateWidth(Decimal(n) + rest) == Err(OutOfRange)
  {
    ParseDecimal(n, rest);
  }

  /** Zero and negative numerals fail with the first error, before any range check. */
  lemma RejectsNonPositive(n: nat, rest: string)
    requires rest == [] || !IsDigit(rest[0])
    ensures ValidateWidth(Decimal(0) + rest) == Err(NotPositive)
    ensures ValidateWidth("-" + Decimal(n) + rest) == Err(NotPositive)
  {
    ParseDecimal(0, rest);
    ParseNegativeDecimal(n, rest);
  }

  /** Text without any digit (such as "abc") fails with the first error. */
  lemma RejectsNoDigits(arg: string)
    requires forall i :: 0 <= i < |arg| ==> !IsDigit(arg[i])
    ensures ValidateWidth(arg) == Err(NotPositive)
  {
    NoDigitsIsNaN(arg);
  }

  /** "149", one below the range, fails the range check. */
  lemma Rejects149()
    ensures ValidateWidth("149") == Err(OutOfRange)
  {
    assert Decimal(149) + "" == "149";
    RejectsOutOfRange(149, "");
  }

  /** "501", one above the range, fails the range check. */
  lemma Rejects501()
    ensures ValidateWidth("501") == Err(OutOfRange)
  {
    assert Decimal(501) + "" == "501";
    RejectsOutOfRange(501, "");
  }

  /** "150", the lower end, is accepted. */
  lemma Accepts150()
    ensures ValidateWidth("150") == Ok(150)
  {
    assert Decimal(150) + "" == "150";
    AcceptsInRange(150, "");
  }

  /** The default "500" is accepted. */
  lemma AcceptsDefault()
    ensures ValidateWidth(DefaultWidth) == Ok(500)
  {
    assert Decimal(500) + "" == DefaultWidth;
    AcceptsInRange(500, "");
  }

  /** A digit prefix is enough: "200px" is 200 columns. */
  lemma Accepts200px()
    ensures ValidateWidth("200px") == Ok(200)
  {
    assert Decimal(200) + "px" == "200px";
    AcceptsInRange(200, "px");
  }

  /** "abc", "0" and "-10" fail with the first error. */
  lemma NotPositiveExamples()
    ensures ValidateWidth("abc") == Err(NotPositive)
    ensures ValidateWidth("0") == Err(NotPositive)
    ensures ValidateWidth("-10") == Err(NotPositive)
  {
    RejectsNoDigits("abc");
    assert Decimal(0) + "" == "0";
    assert "-" + Decimal(10) + "" == "-10";
    RejectsNonPositive(10, "");
  }
}
