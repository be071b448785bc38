/**
 * Spark rows as the time models see them: an ordered list of cells, each a
 * schema field (name, type, nullable) with its value.  The helpers at the end
 * give the meaning of the row utilities the time models call
 * (`RowUtils.get`, `RowUtils.set`, `RowUtils.append`).
 */
module Rows {
  import opened Results

  datatype DataType = StringType | IntegerType | BooleanType | TimestampType

  /** A StructField. */
  datatype Field = Field(name: string, dataType: DataType, nullable: bool)

  /** A cell value; a timestamp is held as nanoseconds since the epoch. */
  datatype Value = Null | Str(text: string) | Int(n: int) | Bool(b: bool) | Ts(nanos: int)

  datatype Cell = Cell(field: Field, value: Value)

  /** A RowWithSchema: the schema is the sequence of the cells' fields. */
  type Row = seq<Cell>

  /** The runtime errors a time model raises while reading a row. */
  datatype Error =
    | FieldNotFound(name: string)
    | NotAString(name: string)
    | NotATimestamp(name: string)
    | Unparsable(text: string)

  function Schema(row: Row): (s: seq<Field>)
    ensures |s| == |row|
    ensures forall i :: 0 <= i < |row| ==> s[i] == row[i].field
  {
    seq(|row|, i requires 0 <= i < |row| => row[i].field)
  }

  function Values(row: Row): (vs: seq<Value>)
    ensures |vs| == |row|
    ensures forall i :: 0 <= i < |row| ==> vs[i] == row[i].value
  {
    seq(|row|, i requires 0 <= i < |row| => row[i].value)
  }

  /**
   * The position StructType.fieldIndex gives `name`: its index map is built
   * from the field names in order, so a repeated name keeps its last position.
   */
  function IndexOf(row: Row, name: string): (r: Option<nat>)
    ensures r.Some? ==> r.value < |row| && row[r.value].field.name == name
    ensures r.Some? ==> forall j :: r.value < j < |row| ==> row[j].field.name != name
    ensures r.None? ==> forall j :: 0 <= j < |row| ==> row[j].field.name != name
  {
    if row == [] then None
    else if row[|row| - 1].field.name == name then Some(|row| - 1)
    else IndexOf(row[..|row| - 1], name)
  }

  /** Looking a field up depends on the schema only. */
  lemma {:induction false} IndexOfSchema(a: Row, b: Row, name: string)
    requires Schema(a) == Schema(b)
    ensures IndexOf(a, name) == IndexOf(b, name)
  {
    if a != [] {
      var n := |a| - 1;
      assert a[n].field == Schema(a)[n] == Schema(b)[n] == b[n].field;
      assert Schema(a[..n]) == Schema(a)[..n];
      assert Schema(b[..n]) == Schema(b)[..n];
      IndexOfSchema(a[..n], b[..n], name);
    }
  }

  /** RowUtils.get: the value of the field called `name`. */
  function Get(row: Row, name: string): (r: Result<Value, Error>)
    ensures r.Ok? <==> IndexOf(row, name).Some?
    ensures r.Ok? ==> r.value == row[IndexOf(row, name).value].value
    ensures r.Err? ==> r.error == FieldNotFound(name)
  {
    match IndexOf(row, name)
    case None => Err(FieldNotFound(name))
    case Some(k) => Ok(row[k].value)
  }

  /**
   * `after` is `before` with the field called `name` holding `v`: same schema,
   * and every other cell unchanged.
   */
  ghost predicate Replaced(before: Row, after: Row, name: string, v: Value) {
    && IndexOf(before, name).Some?
    && Schema(after) == Schema(before)
    && Get(after, name) == Ok(v)
    && forall j :: 0 <= j < |before| && j != IndexOf(before, name).value ==> after[j] == before[j]
  }

  /** RowUtils.set: a new row in which the field called `name` holds `v`. */
  function Set(row: Row, name: string, v: Value): (r: Result<Row, Error>)
    ensures r.Ok? <==> IndexOf(row, name).Some?
    ensures r.Err? ==> r.error == FieldNotFound(name)
    ensures r.Ok? ==> Replaced(row, r.value, name, v)
  {
    match IndexOf(row, name)
    case None => Err(FieldNotFound(name))
    case Some(k) =>
      var s := row[k := Cell(row[k].field, v)];
      assert Schema(s) == Schema(row);
      IndexOfSchema(s, row, name);
      Ok(s)
  }

  /** RowUtils.append: the row widened by one nullable field holding `v`. */
  function Append(row: Row, name: string, dataType: DataType, v: Value): (r: Row)
    ensures Schema(r) == Schema(row) + [Field(name, dataType, true)]
    ensures Values(r) == Values(row) + [v]
  {
    row + [Cell(Field(name, dataType, true), v)]
  }
}
