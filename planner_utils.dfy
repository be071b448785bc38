/**
 * The ordering helpers the planners use (PlannerUtils.before, after,
 * simultaneous), over either time model.  The time model is a closed
 * variant of the two implementations in place of the Java interface.
 */
module PlannerUtils {
  import opened Results
  import opened Rows
  import opened TimeCommon
  import StringDatetime
  import TimestampTime

  datatype TimeModel =
    | StringDatetime(s: StringDatetime.StringDatetimeTimeModel)
    | Timestamp(t: TimestampTime.TimestampTimeModel)
  {
    function Obj(): object {
      if StringDatetime? then s else t
    }

    ghost predicate Valid()
      reads Obj()
    {
      match this
      case StringDatetime(s) => s.Valid()
      case Timestamp(t) => t.Valid()
    }

    /** The instant the model reads from a row. */
    function Instant(row: Row): Result<int, Error>
      reads Obj()
      requires Valid()
    {
      match this
      case StringDatetime(s) => s.Instant(row)
      case Timestamp(t) => t.Instant(row)
    }

    /** TimeModel.compare, which both models define as the comparison of the rows' instants. */
    function Compare(a: Row, b: Row): (r: Result<int, Error>)
      reads Obj()
      requires Valid()
      ensures r.Ok? <==> Instant(a).Ok? && Instant(b).Ok?
      ensures r.Ok? ==> r.value == CompareTo(Instant(a).value, Instant(b).value)
    {
      match this
      case StringDatetime(s) => s.Compare(a, b)
      case Timestamp(t) => t.Compare(a, b)
    }
  }

  /** `a` is strictly earlier than `b`; an error of `compare` propagates. */
  function Before(tm: TimeModel, a: Row, b: Row): (r: Result<bool, Error>)
    reads tm.Obj()
    requires tm.Valid()
    ensures r.Ok? <==> tm.Instant(a).Ok? && tm.Instant(b).Ok?
    ensures r.Ok? ==> (r.value <==> tm.Instant(a).value < tm.Instant(b).value)
  {
    var c :- tm.Compare(a, b);
    Ok(c < 0)
  }

  /** `a` is strictly later than `b`. */
  function After(tm: TimeModel, a: Row, b: Row): (r: Result<bool, Error>)
    reads tm.Obj()
    requires tm.Valid()
    ensures r.Ok? <==> tm.Instant(a).Ok? && tm.Instant(b).Ok?
    ensures r.Ok? ==> (r.value <==> tm.Instant(a).value > tm.Instant(b).value)
  {
    var c :- tm.Compare(a, b);
    Ok(c > 0)
  }

  /** `a` and `b` are at the same instant. */
  function Simultaneous(tm: TimeModel, a: Row, b: Row): (r: Result<bool, Error>)
    reads tm.Obj()
    requires tm.Valid()
    ensures r.Ok? <==> tm.Instant(a).Ok? && tm.Instant(b).Ok?
    ensures r.Ok? ==> (r.value <==> tm.Instant(a).value == tm.Instant(b).value)
  {
    var c :- tm.Compare(a, b);
    Ok(c == 0)
  }

  /** Exactly one of before, simultaneous and after holds of two rows the model can read. */
  lemma Trichotomy(tm: TimeModel, a: Row, b: Row)
    requires tm.Valid() && tm.Compare(a, b).Ok?
    ensures Before(tm, a, b).Ok? && Simultaneous(tm, a, b).Ok? && After(tm, a, b).Ok?
    ensures Before(tm, a, b).value || Simultaneous(tm, a, b).value || After(tm, a, b).value
    ensures !(Before(tm, a, b).value && Simultaneous(tm, a, b).value)
    ensures !(Before(tm, a, b).value && After(tm, a, b).value)
    ensures !(Simultaneous(tm, a, b).value && After(tm, a, b).value)
  {
  }

  /** after(a, b) is before(b, a). */
  lemma AfterIsConverseOfBefore(tm: TimeModel, a: Row, b: Row)
    requires tm.Valid()
    ensures After(tm, a, b).Ok? <==> Before(tm, b, a).Ok?
    ensures After(tm, a, b).Ok? ==> After(tm, a, b).value == Before(tm, b, a).value
  {
  }

  /** Every readable row is simultaneous with itself, and never before itself. */
  lemma SimultaneousIsReflexive(tm: TimeModel, a: Row)
    requires tm.Valid() && tm.Instant(a).Ok?
    ensures Simultaneous(tm, a, a) == Ok(true)
    ensures Before(tm, a, a) == Ok(false)
  {
  }

  /** before is transitive. */
  lemma BeforeIsTransitive(tm: TimeModel, a: Row, b: Row, c: Row)
    requires tm.Valid()
    requires Before(tm, a, b) == Ok(true) && Before(tm, b, c) == Ok(true)
    ensures Before(tm, a, c) == Ok(true)
  {
  }

  /** A one-field row of the timestamp test fixture: Timestamp(millis) with its nanos set. */
  function FixtureRow(millis: int, nanos: int): Row
    requires 0 <= nanos < TimestampTime.NanosPerSecond
  {
    [Cell(Field("time", TimestampType, true), Ts(TimestampTime.SetNanos(TimestampTime.FromMillis(millis), nanos).value))]
  }

  /**
   * The timestamp test's three rows, 1 s + 1000 ns, 2 s + 100 ns and
   * 2 s + 101 ns, are strictly ordered in that order, to the nanosecond.
   */
  lemma TimestampFixtureOrder(m: TimestampTime.TimestampTimeModel)
    requires m.Valid() && m.Name() == "time"
    ensures var tm, first, second, third := Timestamp(m), FixtureRow(1000, 1000), FixtureRow(2000, 100), FixtureRow(2000, 101);
      && Before(tm, first, second) == Ok(true) && Before(tm, first, third) == Ok(true)
      && Before(tm, second, third) == Ok(true)
      && Before(tm, second, first) == Ok(false) && Before(tm, third, second) == Ok(false)
      && Before(tm, third, first) == Ok(false)
      && Simultaneous(tm, first, first) == Ok(true) && Simultaneous(tm, first, second) == Ok(false)
      && Simultaneous(tm, first, third) == Ok(false) && Simultaneous(tm, second, third) == Ok(false)
      && After(tm, second, first) == Ok(true) && After(tm, third, second) == Ok(true)
      && After(tm, third, first) == Ok(true) && After(tm, first, second) == Ok(false)
      && After(tm, first, third) == Ok(false) && After(tm, second, third) == Ok(false)
  {
    var first, second, third := FixtureRow(1000, 1000), FixtureRow(2000, 100), FixtureRow(2000, 101);
    assert first[0].value == Ts(1_000_001_000);
    assert second[0].value == Ts(2_000_000_100);
    assert third[0].value == Ts(2_000_000_101);
    assert m.Instant(first) == Ok(1_000_001_000);
    assert m.Instant(second) == Ok(2_000_000_100);
    assert m.Instant(third) == Ok(2_000_000_101);
  }
}
