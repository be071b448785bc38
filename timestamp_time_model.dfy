/**
 * The time model over one native timestamp field (TimestampTimeModel), as
 * its tests pin it.  A java.sql.Timestamp is modelled as the number of
 * nanoseconds since the epoch it denotes, so it keeps sub-millisecond
 * precision and "preceding" is one nanosecond earlier.
 */
module TimestampTime {
  import opened Results
  import opened Rows
  import opened TimeCommon

  const NanosPerMilli: int := 1_000_000
  const NanosPerSecond: int := 1_000_000_000

  /** new Timestamp(millis): a whole number of milliseconds, which reads back as `millis`. */
  function FromMillis(millis: int): (t: int)
    ensures t % NanosPerMilli == 0 && t / NanosPerMilli == millis
  {
    millis * NanosPerMilli
  }

  /** Timestamp.getNanos: the sub-second part, in nanoseconds. */
  function GetNanos(t: int): (n: int)
    ensures 0 <= n < NanosPerSecond
  {
    t % NanosPerSecond
  }

  /** Timestamp.setNanos: replaces the sub-second part; a value outside 0..999999999 is refused. */
  function SetNanos(t: int, n: int): (r: Option<int>)
    ensures r.Some? <==> 0 <= n < NanosPerSecond
    ensures r.Some? ==> GetNanos(r.value) == n && r.value / NanosPerSecond == t / NanosPerSecond
  {
    if 0 <= n < NanosPerSecond then
      var whole := t - t % NanosPerSecond;
      assert whole == (t / NanosPerSecond) * NanosPerSecond;
      Some(whole + n)
    else
      None
  }

  /** The sub-second part of a whole number of milliseconds is at most 999 ms. */
  lemma {:induction false} NanosOfMillis(millis: int)
    ensures GetNanos(FromMillis(millis)) == (millis % 1000) * NanosPerMilli
  {
    var q, r := millis / 1000, millis % 1000;
    assert millis == q * 1000 + r;
    assert FromMillis(millis) == q * NanosPerSecond + r * NanosPerMilli;
    assert 0 <= r * NanosPerMilli < NanosPerSecond;
  }

  /**
   * The instant the test expects from setPrecedingSystemTime, built as
   * Timestamp(c - 1) with 999999 ns added to its nanos, is one nanosecond
   * before Timestamp(c).
   */
  lemma PrecedingTestExpectation(c: int)
    ensures SetNanos(FromMillis(c - 1), GetNanos(FromMillis(c - 1)) + 999999) == Some(FromMillis(c) - 1)
  {
    NanosOfMillis(c - 1);
  }

  class TimestampTimeModel {
    var field: Option<Field>
    var current: Option<int>

    /** A fresh model: nothing is bound yet. */
    constructor ()
      ensures field == None && current == None
    {
      field, current := None, None;
    }

    /** `configure` has completed. */
    ghost predicate Valid()
      reads this
    {
      field.Some? && field.value.dataType == TimestampType && field.value.nullable
    }

    function Name(): string
      reads this
      requires Valid()
    {
      field.value.name
    }

    /** configure: binds the first field name as a nullable timestamp field; no option is read. */
    method Configure(config: map<string, string>, fieldNames: seq<string>) returns (outcome: Outcome<ConfigError>)
      modifies this`field
      ensures fieldNames == [] ==> outcome == Fail(NoFieldName) && field == old(field)
      ensures fieldNames != [] ==>
        outcome == Pass && Valid() && field == Some(Field(fieldNames[0], TimestampType, true))
    {
      if fieldNames == [] {
        return Fail(NoFieldName);
      }
      field := Some(Field(fieldNames[0], TimestampType, true));
      outcome := Pass;
    }

    /** configureCurrentSystemTime: caches "now", in milliseconds. */
    method ConfigureCurrentSystemTime(currentSystemTimeMillis: int)
      modifies this`current
      ensures current == Some(currentSystemTimeMillis)
    {
      current := Some(currentSystemTimeMillis);
    }

    /** The bound field's instant in `row`; a missing or non-timestamp value is an error. */
    function Instant(row: Row): (r: Result<int, Error>)
      reads this
      requires Valid()
      ensures r.Ok? <==> exists k :: Get(row, Name()) == Ok(Ts(k))
      ensures r.Ok? ==> Get(row, Name()) == Ok(Ts(r.value))
    {
      var v :- Get(row, field.value.name);
      if v.Ts? then Ok(v.nanos) else Err(NotATimestamp(field.value.name))
    }

    /** compare: the instants of the two rows, compared to the nanosecond. */
    function Compare(first: Row, second: Row): (r: Result<int, Error>)
      reads this
      requires Valid()
      ensures Instant(first).Err? ==> r == Err(Instant(first).error)
      ensures Instant(first).Ok? && Instant(second).Err? ==> r == Err(Instant(second).error)
      ensures r.Ok? <==> Instant(first).Ok? && Instant(second).Ok?
      ensures r.Ok? ==> r.value == CompareTo(Instant(first).value, Instant(second).value)
    {
      var a :- Instant(first);
      var b :- Instant(second);
      Ok(CompareTo(a, b))
    }

    /** getSchema: exactly the bound field, a nullable timestamp. */
    function GetSchema(): (s: seq<Field>)
      reads this
      requires Valid()
      ensures s == [Field(Name(), TimestampType, true)]
    {
      [field.value]
    }

    /** setFarFutureTime: the bound field, and nothing else, becomes an instant after 2100-01-01. */
    function SetFarFutureTime(row: Row): (r: Result<Row, Error>)
      reads this
      requires Valid()
      ensures r.Ok? <==> IndexOf(row, Name()).Some?
      ensures r.Err? ==> r.error == FieldNotFound(Name())
      ensures r.Ok? ==> Replaced(row, r.value, Name(), Ts(FromMillis(FarFutureMillis)))
      ensures FromMillis(FarFutureMillis) > FromMillis(Year2100Millis)
    {
      Set(row, field.value.name, Ts(FromMillis(FarFutureMillis)))
    }

    /** setCurrentSystemTime: the bound field, and nothing else, becomes Timestamp(now). */
    function SetCurrentSystemTime(row: Row): (r: Result<Row, Error>)
      reads this
      requires Valid() && current.Some?
      ensures r.Ok? <==> IndexOf(row, Name()).Some?
      ensures r.Err? ==> r.error == FieldNotFound(Name())
      ensures r.Ok? ==> Replaced(row, r.value, Name(), Ts(FromMillis(current.value)))
    {
      Set(row, field.value.name, Ts(FromMillis(current.value)))
    }

    /** setPrecedingSystemTime: the bound field, and nothing else, becomes one nanosecond before now. */
    function SetPrecedingSystemTime(row: Row): (r: Result<Row, Error>)
      reads this
      requires Valid() && current.Some?
      ensures r.Ok? <==> IndexOf(row, Name()).Some?
      ensures r.Err? ==> r.error == FieldNotFound(Name())
      ensures r.Ok? ==> Replaced(row, r.value, Name(), Ts(FromMillis(current.value) - 1))
    {
      Set(row, field.value.name, Ts(FromMillis(current.value) - 1))
    }

    /** appendFields: the row widened at the end by the model's schema, with a null value. */
    function AppendFields(row: Row): (r: Row)
      reads this
      requires Valid()
      ensures Schema(r) == Schema(row) + GetSchema()
      ensures Values(r) == Values(row) + [Null]
    {
      Append(row, field.value.name, field.value.dataType, Null)
    }
  }

  /**
   * The preceding time is exactly one nanosecond before the current time:
   * it compares before it, and no instant lies strictly between the two.
   */
  lemma PrecedingIsOneNanosecondBefore(m: TimestampTimeModel, r1: Row, r2: Row)
    requires m.Valid() && m.current.Some?
    requires m.SetPrecedingSystemTime(r1).Ok? && m.SetCurrentSystemTime(r2).Ok?
    ensures m.Instant(m.SetPrecedingSystemTime(r1).value).Ok?
    ensures m.Instant(m.SetCurrentSystemTime(r2).value) == Ok(FromMillis(m.current.value))
    ensures m.Instant(m.SetPrecedingSystemTime(r1).value).value + 1 == FromMillis(m.current.value)
    ensures m.Compare(m.SetPrecedingSystemTime(r1).value, m.SetCurrentSystemTime(r2).value) == Ok(-1)
  {
    assert Get(m.SetPrecedingSystemTime(r1).value, m.Name()) == Ok(Ts(FromMillis(m.current.value) - 1));
    assert Get(m.SetCurrentSystemTime(r2).value, m.Name()) == Ok(Ts(FromMillis(m.current.value)));
  }

  /** The far future compares after every row holding an instant up to 2100-01-01. */
  lemma FarFutureIsLatest(m: TimestampTimeModel, row: Row, other: Row)
    requires m.Valid() && m.SetFarFutureTime(row).Ok?
    requires m.Instant(other).Ok? && m.Instant(other).value <= FromMillis(Year2100Millis)
    ensures m.Compare(m.SetFarFutureTime(row).value, other) == Ok(1)
  {
    assert Get(m.SetFarFutureTime(row).value, m.Name()) == Ok(Ts(FromMillis(FarFutureMillis)));
  }

  /**
   * Appending the time field to a row that already has one shadows it: the
   * field is then read from the appended null, which is not a timestamp.
   */
  lemma AppendedFieldShadows(m: TimestampTimeModel, row: Row)
    requires m.Valid()
    ensures IndexOf(m.AppendFields(row), m.Name()) == Some(|row|)
    ensures m.Instant(m.AppendFields(row)) == Err(NotATimestamp(m.Name()))
  {
    var r := m.AppendFields(row);
    assert r[|row|] == Cell(m.field.value, Null);
  }
}
