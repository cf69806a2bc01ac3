/** Result processing of the string-backed Hive types (`HiveDate`,
    `HiveTimestamp`, `HiveDecimal`): which values pass through, which are parsed,
    and the refusal to bind any value for writing. The date/time and decimal
    parsers are parameters (`dateutil.parser.parse`, `decimal.Decimal`). */
module Coercion {
  import opened Wrappers

  datatype Date = Date(year: int, month: int, day: int)
  datatype Time = Time(hour: int, minute: int, second: int, microsecond: int)
  datatype Decimal = Decimal(coefficient: int, exponent: int)

  /** The values a cursor can hand to a result processor. */
  datatype Value =
    | NoneValue
    | Text(text: string)
    | DateValue(date: Date)
    | DateTimeValue(date: Date, time: Time)
    | DecimalValue(decimal: Decimal)

  /** A parser either produces its value or rejects the text with a `FormatError`. */
  ghost predicate ParserContract<T>(parse: string -> Result<T>) {
    forall s :: parse(s).Err? ==> parse(s).error.FormatError?
  }

  /** `HiveDate.result_processor`: a date comes out, or `None`; dates pass through,
      datetimes keep their date part, text is parsed, anything else is a
      `TypeError` from the parser. */
  function DateResult(value: Value, parse: string -> Result<(Date, Time)>): (r: Result<Value>)
    ensures r.Ok? ==> r.value.NoneValue? || r.value.DateValue?
    ensures value.NoneValue? || value.DateValue? ==> r == Ok(value)
    ensures value.DateTimeValue? ==> r == Ok(DateValue(value.date))
    ensures value.Text? ==> (r.Ok? <==> parse(value.text).Ok?)
    ensures value.Text? && parse(value.text).Ok? ==> r == Ok(DateValue(parse(value.text).value.0))
    ensures value.Text? && parse(value.text).Err? ==> r == Err(parse(value.text).error)
    ensures value.DecimalValue? ==> r == Err(TypeError)
  {
    match value
    case DateTimeValue(d, _) => Ok(DateValue(d))
    case DateValue(_) => Ok(value)
    case NoneValue => Ok(NoneValue)
    case Text(s) =>
      (match parse(s)
       case Ok(dt) => Ok(DateValue(dt.0))
       case Err(e) => Err(e))
    case DecimalValue(_) => Err(TypeError)
  }

  /** `HiveTimestamp.result_processor`: a datetime comes out, or `None`. */
  function TimestampResult(value: Value, parse: string -> Result<(Date, Time)>): (r: Result<Value>)
    ensures r.Ok? ==> r.value.NoneValue? || r.value.DateTimeValue?
    ensures value.NoneValue? || value.DateTimeValue? ==> r == Ok(value)
    ensures value.Text? ==> (r.Ok? <==> parse(value.text).Ok?)
    ensures value.Text? && parse(value.text).Ok? ==> r == Ok(DateTimeValue(parse(value.text).value.0, parse(value.text).value.1))
    ensures value.Text? && parse(value.text).Err? ==> r == Err(parse(value.text).error)
    ensures value.DateValue? || value.DecimalValue? ==> r == Err(TypeError)
  {
    match value
    case DateTimeValue(_, _) => Ok(value)
    case NoneValue => Ok(NoneValue)
    case Text(s) =>
      (match parse(s)
       case Ok(dt) => Ok(DateTimeValue(dt.0, dt.1))
       case Err(e) => Err(e))
    case _ => Err(TypeError)
  }

  /** `HiveDecimal.result_processor`: a decimal comes out, or `None`. */
  function DecimalResult(value: Value, parse: string -> Result<Decimal>): (r: Result<Value>)
    ensures r.Ok? ==> r.value.NoneValue? || r.value.DecimalValue?
    ensures value.NoneValue? || value.DecimalValue? ==> r == Ok(value)
    ensures value.Text? ==> (r.Ok? <==> parse(value.text).Ok?)
    ensures value.Text? && parse(value.text).Ok? ==> r == Ok(DecimalValue(parse(value.text).value))
    ensures value.Text? && parse(value.text).Err? ==> r == Err(parse(value.text).error)
    ensures value.DateValue? || value.DateTimeValue? ==> r == Err(TypeError)
  {
    match value
    case DecimalValue(_) => Ok(value)
    case NoneValue => Ok(NoneValue)
    case Text(s) =>
      (match parse(s)
       case Ok(d) => Ok(DecimalValue(d))
       case Err(e) => Err(e))
    case _ => Err(TypeError)
  }

  /** The three processors are idempotent: what they return, they return unchanged. */
  lemma ResultProcessorsIdempotent(value: Value, parseDt: string -> Result<(Date, Time)>, parseDec: string -> Result<Decimal>)
    ensures DateResult(value, parseDt).Ok? ==> DateResult(DateResult(value, parseDt).value, parseDt) == DateResult(value, parseDt)
    ensures TimestampResult(value, parseDt).Ok? ==> TimestampResult(TimestampResult(value, parseDt).value, parseDt) == TimestampResult(value, parseDt)
    ensures DecimalResult(value, parseDec).Ok? ==> DecimalResult(DecimalResult(value, parseDec).value, parseDec) == DecimalResult(value, parseDec)
  {
  }

  /** Errors come only from the parser: with a parser that rejects text only by
      `FormatError`, a text value fails with `FormatError` or not at all. */
  lemma TextFailsOnlyByFormat(s: string, parseDt: string -> Result<(Date, Time)>, parseDec: string -> Result<Decimal>)
    requires ParserContract(parseDt) && ParserContract(parseDec)
    ensures DateResult(Text(s), parseDt).Err? ==> DateResult(Text(s), parseDt).error.FormatError?
    ensures TimestampResult(Text(s), parseDt).Err? ==> TimestampResult(Text(s), parseDt).error.FormatError?
    ensures DecimalResult(Text(s), parseDec).Err? ==> DecimalResult(Text(s), parseDec).error.FormatError?
  {
    assert parseDt(s).Err? ==> parseDt(s).error.FormatError?;
    assert parseDec(s).Err? ==> parseDec(s).error.FormatError?;
  }

  /** The round-trip law: text that the parser reads back as `x` comes out as `x`. */
  lemma ResultRoundTrip(render: ((Date, Time)) -> string, parse: string -> Result<(Date, Time)>, x: (Date, Time))
    requires parse(render(x)) == Ok(x)
    ensures TimestampResult(Text(render(x)), parse) == Ok(DateTimeValue(x.0, x.1))
    ensures DateResult(Text(render(x)), parse) == Ok(DateValue(x.0))
  {
  }

  /** The same law for decimals: text that `Decimal` reads back as `x` comes out as `x`. */
  lemma DecimalRoundTrip(render: Decimal -> string, parse: string -> Result<Decimal>, x: Decimal)
    requires parse(render(x)) == Ok(x)
    ensures DecimalResult(Text(render(x)), parse) == Ok(DecimalValue(x))
  {
  }

  /** `HiveStringTypeBase.process_bind_param`: writing these types is refused. */
  function BindParam(value: Value): (r: Result<Value>)
    ensures r == Err(NotImplementedError)
  {
    Err(NotImplementedError)
  }
}
