/**
 * The time model over one string-typed field holding a formatted date
 * (StringDatetimeTimeModel).  Rows are ordered by parsing that field into a
 * millisecond instant with the configured date pattern.
 *
 * The date library (java.text.SimpleDateFormat) is not modelled: a
 * DateLibrary says which patterns it accepts and how a pattern parses and
 * formats, and the only thing assumed of it is, where a lemma says so,
 * that parsing the text written for a given instant gives that instant
 * back (RoundTrips).
 */
module StringDatetime {
  import opened Results
  import opened Rows
  import opened TimeCommon

  /** The configuration key of the date pattern. */
  const FormatOption: string := "format"

  /** The pattern used when the configuration has none. */
  const DefaultPattern: string := "yyyy-MM-dd HH:mm:ss.SSS"

  /** SimpleDateFormat as seen from this model. */
  datatype DateLibrary = DateLibrary(
    accepts: string -> bool,                  // the constructor does not throw for this pattern
    parse: (string, string) -> Option<int>,   // pattern, text -> milliseconds, None for a ParseException
    format: (string, int) -> string)          // pattern, milliseconds -> text

  /** A SimpleDateFormat built from one pattern. */
  datatype DateFormat = DateFormat(pattern: string, lib: DateLibrary) {
    function Parse(text: string): Option<int> {
      lib.parse(pattern, text)
    }

    function Format(millis: int): string {
      lib.format(pattern, millis)
    }
  }

  /**
   * Parsing the text the pattern writes for `t` gives `t` back.  A
   * millisecond pattern such as the default does so for most instants, but
   * not for those before year 1 (`yyyy` has no era) nor for the two passes
   * through a repeated hour when the clocks go back (it has no zone).
   */
  predicate RoundTrips(df: DateFormat, t: int) {
    df.Parse(df.Format(t)) == Some(t)
  }

  /** The pattern `configure` builds its DateFormat from: the `format` option wins, else the millisecond default. */
  function PatternFor(config: map<string, string>): (pattern: string)
    ensures FormatOption in config ==> pattern == config[FormatOption]
    ensures FormatOption !in config ==> pattern == "yyyy-MM-dd HH:mm:ss.SSS"
  {
    if FormatOption in config then config[FormatOption] else DefaultPattern
  }

  /**
   * The instant held by the field `name` of `row` (Row.getAs, then
   * DateFormat.parse): a missing field, a value that is not a string and a
   * text the pattern cannot parse are each their own error.
   */
  function InstantOf(df: DateFormat, name: string, row: Row): (r: Result<int, Error>)
    ensures Get(row, name).Err? ==> r == Err(FieldNotFound(name))
    ensures Get(row, name).Ok? && !Get(row, name).value.Str? ==> r == Err(NotAString(name))
    ensures Get(row, name).Ok? && Get(row, name).value.Str? && df.Parse(Get(row, name).value.text).None? ==>
      r == Err(Unparsable(Get(row, name).value.text))
    ensures r.Ok? ==> Get(row, name).Ok? && Get(row, name).value.Str? && df.Parse(Get(row, name).value.text) == Some(r.value)
  {
    var v :- Get(row, name);
    if !v.Str? then Err(NotAString(name))
    else match df.Parse(v.text)
      case None => Err(Unparsable(v.text))
      case Some(t) => Ok(t)
  }

  class StringDatetimeTimeModel {
    var format: Option<DateFormat>
    var field: Option<Field>
    var current: Option<int>
    var farFuture: Option<int>

    /** A fresh model: every field is still null. */
    constructor ()
      ensures format == None && field == None && current == None && farFuture == None
    {
      format, field, current, farFuture := None, None, None, None;
    }

    /** `configure` has completed. */
    ghost predicate Valid()
      reads this
    {
      && format.Some? && field.Some? && farFuture == Some(FarFutureMillis)
      && field.value.dataType == StringType && field.value.nullable
    }

    function Fmt(): DateFormat
      reads this
      requires Valid()
    {
      format.value
    }

    function Name(): string
      reads this
      requires Valid()
    {
      field.value.name
    }

    /** The bound field's instant in `row`. */
    function Instant(row: Row): (r: Result<int, Error>)
      reads this
      requires Valid()
      ensures r.Ok? <==> Get(row, Name()).Ok? && Get(row, Name()).value.Str? && Fmt().Parse(Get(row, Name()).value.text).Some?
      ensures r.Ok? ==> Fmt().Parse(Get(row, Name()).value.text) == Some(r.value)
    {
      InstantOf(Fmt(), Name(), row)
    }

    /**
     * configure: the pattern is the `format` option, or the default; only the
     * first field name is bound, as a nullable string field; the far future is
     * fixed.  A pattern the library refuses throws before anything is
     * assigned; an empty name list throws after the format is assigned.
     */
    method Configure(config: map<string, string>, fieldNames: seq<string>, lib: DateLibrary)
      returns (outcome: Outcome<ConfigError>)
      modifies this
      ensures current == old(current)
      ensures !lib.accepts(PatternFor(config)) ==>
        && outcome == Fail(InvalidPattern(PatternFor(config)))
        && format == old(format) && field == old(field) && farFuture == old(farFuture)
      ensures lib.accepts(PatternFor(config)) ==> format == Some(DateFormat(PatternFor(config), lib))
      ensures lib.accepts(PatternFor(config)) && fieldNames == [] ==>
        outcome == Fail(NoFieldName) && field == old(field) && farFuture == old(farFuture)
      ensures lib.accepts(PatternFor(config)) && fieldNames != [] ==>
        && outcome == Pass && Valid()
        && field == Some(Field(fieldNames[0], StringType, true))
        && farFuture == Some(FarFutureMillis)
    {
      var pattern := if FormatOption in config then config[FormatOption] else DefaultPattern;
      if !lib.accepts(pattern) {
        return Fail(InvalidPattern(pattern));
      }
      format := Some(DateFormat(pattern, lib));
      if fieldNames == [] {
        return Fail(NoFieldName);
      }
      field := Some(Field(fieldNames[0], StringType, true));
      farFuture := Some(FarFutureMillis);
      outcome := Pass;
    }

    /** configureCurrentSystemTime: caches "now" for the batch. */
    method ConfigureCurrentSystemTime(currentSystemTimeMillis: int)
      modifies this`current
      ensures current == Some(currentSystemTimeMillis)
    {
      current := Some(currentSystemTimeMillis);
    }

    /**
     * compare: both rows' fields are parsed, the first one first, and the
     * instants compared; a missing, non-string or unparsable value is an
     * error, never a coerced instant.
     */
    function Compare(first: Row, second: Row): (r: Result<int, Error>)
      reads this
      requires Valid()
      ensures Instant(first).Err? ==> r == Err(Instant(first).error)
      ensures Instant(first).Ok? && Instant(second).Err? ==> r == Err(Instant(second).error)
      ensures r.Ok? <==> Instant(first).Ok? && Instant(second).Ok?
      ensures r.Ok? ==> r.value == CompareTo(Instant(first).value, Instant(second).value)
    {
      var a :- Instant(first);
      var b :- Instant(second);
      Ok(CompareTo(a, b))
    }

    /** getSchema: exactly the bound field, a nullable string. */
    function GetSchema(): (s: seq<Field>)
      reads this
      requires Valid()
      ensures |s| == 1 && s[0].name == Name() && s[0].dataType == StringType && s[0].nullable
    {
      [field.value]
    }

    /** setFarFutureTime: the bound field, and nothing else, becomes the formatted far future. */
    function SetFarFutureTime(row: Row): (r: Result<Row, Error>)
      reads this
      requires Valid()
      ensures r.Ok? <==> IndexOf(row, Name()).Some?
      ensures r.Err? ==> r.error == FieldNotFound(Name())
      ensures r.Ok? ==> Replaced(row, r.value, Name(), Str(Fmt().Format(FarFutureMillis)))
    {
      Set(row, field.value.name, Str(format.value.Format(farFuture.value)))
    }

    /** setCurrentSystemTime: the bound field, and nothing else, becomes the formatted cached "now". */
    function SetCurrentSystemTime(row: Row): (r: Result<Row, Error>)
      reads this
      requires Valid() && current.Some?
      ensures r.Ok? <==> IndexOf(row, Name()).Some?
      ensures r.Err? ==> r.error == FieldNotFound(Name())
      ensures r.Ok? ==> Replaced(row, r.value, Name(), Str(Fmt().Format(current.value)))
    {
      Set(row, field.value.name, Str(format.value.Format(current.value)))
    }

    /** setPrecedingSystemTime: the bound field, and nothing else, becomes the formatted "now - 1 ms". */
    function SetPrecedingSystemTime(row: Row): (r: Result<Row, Error>)
      reads this
      requires Valid() && current.Some?
      ensures r.Ok? <==> IndexOf(row, Name()).Some?
      ensures r.Err? ==> r.error == FieldNotFound(Name())
      ensures r.Ok? ==> Replaced(row, r.value, Name(), Str(Fmt().Format(current.value - 1)))
    {
      Set(row, field.value.name, Str(format.value.Format(current.value - 1)))
    }

    /** appendFields: the row widened at the end by the model's schema, with a null value. */
    function AppendFields(row: Row): (r: Row)
      reads this
      requires Valid()
      ensures Schema(r) == Schema(row) + GetSchema()
      ensures Values(r) == Values(row) + [Null]
    {
      Append(row, field.value.name, field.value.dataType, Null)
    }

    /** getTime: a one-field row of the model's schema holding the field's value unchanged. */
    function GetTime(row: Row): (r: Result<Row, Error>)
      reads this
      requires Valid()
      ensures r.Ok? <==> IndexOf(row, Name()).Some?
      ensures r.Err? ==> r.error == FieldNotFound(Name())
      ensures r.Ok? ==> Schema(r.value) == GetSchema() && Values(r.value) == [Get(row, Name()).value]
    {
      var v :- Get(row, field.value.name);
      Ok([Cell(field.value, v)])
    }

    /**
     * getPrecedingTime: a one-field row of the model's schema holding the
     * formatted instant one millisecond before the row's own; fails as
     * `compare` does when the value cannot be parsed.
     */
    function GetPrecedingTime(row: Row): (r: Result<Row, Error>)
      reads this
      requires Valid()
      ensures r.Ok? <==> Instant(row).Ok?
      ensures r.Err? ==> r.error == Instant(row).error
      ensures r.Ok? ==> Schema(r.value) == GetSchema() && Values(r.value) == [Str(Fmt().Format(Instant(row).value - 1))]
    {
      var t :- Instant(row);
      Ok([Cell(field.value, Str(format.value.Format(t - 1)))])
    }
  }

  /** A field holding a formatted instant parses back to it. */
  lemma InstantOfFormatted(m: StringDatetimeTimeModel, row: Row, t: int)
    requires m.Valid() && RoundTrips(m.Fmt(), t)
    requires Get(row, m.Name()) == Ok(Str(m.Fmt().Format(t)))
    ensures m.Instant(row) == Ok(t)
  {
  }

  /** Rows holding formatted instants compare as the instants do. */
  lemma CompareFormatted(m: StringDatetimeTimeModel, a: Row, b: Row, s: int, t: int)
    requires m.Valid() && RoundTrips(m.Fmt(), s) && RoundTrips(m.Fmt(), t)
    requires Get(a, m.Name()) == Ok(Str(m.Fmt().Format(s)))
    requires Get(b, m.Name()) == Ok(Str(m.Fmt().Format(t)))
    ensures m.Compare(a, b) == Ok(CompareTo(s, t))
  {
    InstantOfFormatted(m, a, s);
    InstantOfFormatted(m, b, t);
  }

  /** An unparsable value makes `compare` fail on either side. */
  lemma CompareRejectsUnparsable(m: StringDatetimeTimeModel, bad: Row, other: Row, text: string)
    requires m.Valid()
    requires Get(bad, m.Name()) == Ok(Str(text)) && m.Fmt().Parse(text) == None
    ensures m.Compare(bad, other) == Err(Unparsable(text))
    ensures m.Compare(other, bad).Err?
    ensures m.Instant(other).Ok? ==> m.Compare(other, bad) == Err(Unparsable(text))
  {
  }

  /** `compare` is an order: reflexive, antisymmetric and transitive on parsable rows. */
  lemma CompareIsOrder(m: StringDatetimeTimeModel, a: Row, b: Row, c: Row)
    requires m.Valid()
    ensures m.Instant(a).Ok? ==> m.Compare(a, a) == Ok(0)
    ensures m.Compare(a, b).Ok? ==> m.Compare(b, a) == Ok(-m.Compare(a, b).value)
    ensures m.Compare(a, b) == Ok(-1) && m.Compare(b, c) == Ok(-1) ==> m.Compare(a, c) == Ok(-1)
  {
  }

  /** The far future compares after every row whose instant is earlier. */
  lemma FarFutureIsLatest(m: StringDatetimeTimeModel, row: Row, other: Row)
    requires m.Valid() && RoundTrips(m.Fmt(), FarFutureMillis)
    requires m.SetFarFutureTime(row).Ok?
    requires m.Instant(other).Ok? && m.Instant(other).value < FarFutureMillis
    ensures m.Compare(m.SetFarFutureTime(row).value, other) == Ok(1)
    ensures m.Compare(other, m.SetFarFutureTime(row).value) == Ok(-1)
  {
    InstantOfFormatted(m, m.SetFarFutureTime(row).value, FarFutureMillis);
  }

  /**
   * Where the pattern reads both "now" and "now - 1 ms" back, the preceding
   * time is one millisecond before "now" and compares strictly before it.
   */
  lemma PrecedingBeforeCurrent(m: StringDatetimeTimeModel, r1: Row, r2: Row)
    requires m.Valid() && m.current.Some?
    requires RoundTrips(m.Fmt(), m.current.value - 1) && RoundTrips(m.Fmt(), m.current.value)
    requires m.SetPrecedingSystemTime(r1).Ok? && m.SetCurrentSystemTime(r2).Ok?
    ensures m.Instant(m.SetPrecedingSystemTime(r1).value) == Ok(m.current.value - 1)
    ensures m.Instant(m.SetCurrentSystemTime(r2).value) == Ok(m.current.value)
    ensures m.Compare(m.SetPrecedingSystemTime(r1).value, m.SetCurrentSystemTime(r2).value) == Ok(-1)
  {
    InstantOfFormatted(m, m.SetPrecedingSystemTime(r1).value, m.current.value - 1);
    InstantOfFormatted(m, m.SetCurrentSystemTime(r2).value, m.current.value);
  }

  /**
   * Projecting the time out of a stamped row gives the stamp of a row built
   * from the model's schema alone.
   */
  lemma GetTimeOfCurrent(m: StringDatetimeTimeModel, row: Row)
    requires m.Valid() && m.current.Some?
    requires m.SetCurrentSystemTime(row).Ok?
    ensures m.GetTime(m.SetCurrentSystemTime(row).value) == m.SetCurrentSystemTime(m.AppendFields([]))
  {
    var blank := m.AppendFields([]);
    assert Schema(blank) == m.GetSchema() && Values(blank) == [Null];
    assert blank == [Cell(m.field.value, Null)];
    assert IndexOf(blank, m.Name()) == Some(0);
    var stamp := Str(m.Fmt().Format(m.current.value));
    assert blank[0 := Cell(blank[0].field, stamp)] == [Cell(m.field.value, stamp)];
    assert Set(blank, m.Name(), stamp) == Ok([Cell(m.field.value, stamp)]);
    assert Get(m.SetCurrentSystemTime(row).value, m.Name()) == Ok(stamp);
  }

  /**
   * Where the pattern reads "now" back, the preceding time of a row stamped
   * with "now" is the time `setPrecedingSystemTime` would have stamped.
   */
  lemma PrecedingTimeOfCurrent(m: StringDatetimeTimeModel, row: Row)
    requires m.Valid() && m.current.Some? && RoundTrips(m.Fmt(), m.current.value)
    requires m.SetCurrentSystemTime(row).Ok?
    ensures m.GetPrecedingTime(m.SetCurrentSystemTime(row).value) == m.GetTime(m.SetPrecedingSystemTime(row).value)
  {
    InstantOfFormatted(m, m.SetCurrentSystemTime(row).value, m.current.value);
  }

  /**
   * When the clocks go back, "now" and "now - 1 ms" can fall on either side
   * of the repeated hour: if the texts written for them read back in the
   * opposite order, as a zone-less pattern does just after the change, the
   * preceding stamp compares after the current one.
   */
  lemma PrecedingAfterCurrentAcrossFallBack(m: StringDatetimeTimeModel, r1: Row, r2: Row, early: int, late: int)
    requires m.Valid() && m.current.Some?
    requires m.SetPrecedingSystemTime(r1).Ok? && m.SetCurrentSystemTime(r2).Ok?
    requires m.Fmt().Parse(m.Fmt().Format(m.current.value)) == Some(early)
    requires m.Fmt().Parse(m.Fmt().Format(m.current.value - 1)) == Some(late)
    requires early < late
    ensures m.Compare(m.SetPrecedingSystemTime(r1).value, m.SetCurrentSystemTime(r2).value) == Ok(1)
  {
    assert Get(m.SetPrecedingSystemTime(r1).value, m.Name()) == Ok(Str(m.Fmt().Format(m.current.value - 1)));
    assert Get(m.SetCurrentSystemTime(r2).value, m.Name()) == Ok(Str(m.Fmt().Format(m.current.value)));
  }

  /**
   * Appending the time field to a row that already has one shadows it: the
   * field is then read from the appended null, which is not a string.
   */
  lemma AppendedFieldShadows(m: StringDatetimeTimeModel, row: Row)
    requires m.Valid()
    ensures IndexOf(m.AppendFields(row), m.Name()) == Some(|row|)
    ensures m.Instant(m.AppendFields(row)) == Err(NotAString(m.Name()))
  {
    var r := m.AppendFields(row);
    assert r[|row|] == Cell(m.field.value, Null);
  }
}
