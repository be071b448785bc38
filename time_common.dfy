/** What the two time models share: the far-future sentinel, three-way comparison, configuration errors. */
module TimeCommon {

  /** 9999-12-31T00:00:00Z as milliseconds since the epoch. */
  const FarFutureMillis: int := 253402214400000

  /** 2100-01-01T00:00:00Z as milliseconds since the epoch. */
  const Year2100Millis: int := 4102444800000

  /** The errors `configure` raises. */
  datatype ConfigError =
    | InvalidPattern(pattern: string)  // SimpleDateFormat refuses the pattern
    | NoFieldName                      // `fieldNames.get(0)` on an empty list

  /** Date.compareTo and Timestamp.compareTo on the instants they hold. */
  function CompareTo(a: int, b: int): (r: int)
    ensures r == -1 || r == 0 || r == 1
    ensures r < 0 <==> a < b
    ensures r == 0 <==> a == b
    ensures r > 0 <==> a > b
  {
    if a < b then -1 else if a == b then 0 else 1
  }
}
