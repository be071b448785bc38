# Envelope time models, delete planner and Kafka delimiter — a Dafny model

This project models, in Dafny, the parts of the Envelope pipeline that order records in time and write them out:

- **StringDatetimeTimeModel** puts a time on a record from one string field, which holds a formatted date. It:
  - parses that field to order two records;
  - stamps records with a fixed far-future instant, with the cached "now" of the batch, or with one millisecond before it;
  - widens a record by the time field;
  - projects the time, or the time before it, out of a record.
- **TimestampTimeModel** does the same on a native timestamp field, to the nanosecond, as its tests pin it.
- **PlannerUtils.before / after / simultaneous** are the three orderings the planners derive from a time model's `compare`.
- **DeletePlanner.planMutationsForSet** turns an arriving batch into a one-entry DELETE plan, as its test pins it.
- **KafkaOutput**:
  - the field delimiter (`field.delimiter`, which is either a literal or `chars:<code point>,...`);
  - the message each row becomes (its values in field order, joined by the delimiter);
  - the filter that writes only the INSERT entries of a plan;
  - the set of mutation types it supports.

Modules and files:

| file | module | what it holds |
|---|---|---|
| `results.dfy` | `Results` | `Option`, `Result` and `Outcome` |
| `rows.dfy` | `Rows` | rows as sequences of (field, value) cells; the `RowUtils` get, set and append they are used with |
| `time_common.dfy` | `TimeCommon` | the far-future and year-2100 constants, `compareTo`, configuration errors |
| `string_datetime_time_model.dfy` | `StringDatetime` | the class `StringDatetimeTimeModel` and lemmas about it |
| `timestamp_time_model.dfy` | `TimestampTime` | `java.sql.Timestamp` as nanoseconds, the class `TimestampTimeModel`, lemmas |
| `planner_utils.dfy` | `PlannerUtils` | `before`, `after`, `simultaneous` over either time model; the ordering laws |
| `mutations.dfy` | `Mutations` | mutation types, datasets, plans |
| `delete_planner.dfy` | `DeletePlanner` | the delete planner |
| `java_text.dfy` | `JavaText` | Java strings as UTF-16 code units: `Character.toChars`, `String.codePoints`, `String.split`, `Integer.parseInt`, Guava `Joiner.join` |
| `kafka_output.dfy` | `KafkaOutput` | the delimiter, the message join, `applyMutations`, the supported types |

Modelling choices:

- **Time models.** Each time model is a class whose fields start out `None`, standing for Java's nulls.
  - `Configure` and `ConfigureCurrentSystemTime` are methods that assign those fields.
  - Every other operation is a function that reads them, under `Valid()` (configure has completed).
- **Errors.** Each exception the Java code can raise is an error value of a `Result` or `Outcome`:
  - `RuntimeException` around a `ParseException`;
  - `IllegalArgumentException` from `SimpleDateFormat`;
  - `IndexOutOfBoundsException` from `fieldNames.get(0)`;
  - `NumberFormatException` from `Integer.parseInt`;
  - `IllegalArgumentException` from `Character.toChars`;
  - the `NullPointerException` from `Joiner.join` on a null value.
- **Date library.** `SimpleDateFormat` is abstract. A `DateLibrary` gives:
  - the patterns it accepts;
  - how a pattern parses a text (`None` for a `ParseException`);
  - how a pattern formats milliseconds.

  `RoundTrips(df, t)` says that parsing the text written for `t` gives `t` back. For the default pattern `yyyy-MM-dd HH:mm:ss.SSS` this holds for most instants, but not for all:
  - it fails before year 1, because `yyyy` writes no era;
  - it fails in the repeated hour when clocks go back, because the pattern writes no zone.

  Each lemma that needs the law requires it only at the instants it uses.
- **Timestamps.** A `java.sql.Timestamp` is the integer number of nanoseconds it denotes:
  - `new Timestamp(ms)` is `ms * 1_000_000`;
  - `getNanos` is the remainder modulo 10^9;
  - `setNanos` replaces that remainder, and refuses a value outside 0..999999999.
- **Java strings.** Java strings are sequences of 16-bit code units (`JString`), because a delimiter can hold surrogate pairs. `Utf16` encodes a Dafny string as one.

## Model

| member | source | states |
|---|---|---|
| `StringDatetime.PatternFor` | lib/src/main/java/com/cloudera/labs/envelope/plan/time/StringDatetimeTimeModel.java:48-53 | the pattern is the `format` option when present, otherwise `yyyy-MM-dd HH:mm:ss.SSS` |
| `StringDatetime.InstantOf` | lib/src/main/java/com/cloudera/labs/envelope/plan/time/StringDatetimeTimeModel.java:69-70 | a missing field is FieldNotFound, a non-string value NotAString, an unparsable text Unparsable(text); a success is the parsed instant of the field's text |
| `StringDatetime.StringDatetimeTimeModel.Instant` | lib/src/main/java/com/cloudera/labs/envelope/plan/time/StringDatetimeTimeModel.java:112 | succeeds exactly when the bound field holds a string the pattern parses, and is then the parsed instant |
| `StringDatetime.StringDatetimeTimeModel.Configure` | lib/src/main/java/com/cloudera/labs/envelope/plan/time/StringDatetimeTimeModel.java:47-57 | a refused pattern fails before any field is assigned; with no field names it fails after the format is assigned; otherwise only the first name is bound, as a nullable string field, and the far future is 253402214400000 ms; `current` is untouched |
| `StringDatetime.StringDatetimeTimeModel.ConfigureCurrentSystemTime` | lib/src/main/java/com/cloudera/labs/envelope/plan/time/StringDatetimeTimeModel.java:60-62 | the given milliseconds become the cached "now" |
| `StringDatetime.StringDatetimeTimeModel.Compare` | lib/src/main/java/com/cloudera/labs/envelope/plan/time/StringDatetimeTimeModel.java:65-76 | succeeds exactly when both rows' fields parse, and is then the sign of the instants' difference; a failure reading the first row wins over one reading the second |
| `StringDatetime.StringDatetimeTimeModel.GetSchema` | lib/src/main/java/com/cloudera/labs/envelope/plan/time/StringDatetimeTimeModel.java:79-81 | exactly one field: the bound name, a nullable string |
| `StringDatetime.StringDatetimeTimeModel.SetFarFutureTime` | lib/src/main/java/com/cloudera/labs/envelope/plan/time/StringDatetimeTimeModel.java:84-86 | when the row has the field, only that cell changes, to the formatted far future, and the schema is kept; otherwise FieldNotFound |
| `StringDatetime.StringDatetimeTimeModel.SetCurrentSystemTime` | lib/src/main/java/com/cloudera/labs/envelope/plan/time/StringDatetimeTimeModel.java:89-91 | only the bound cell changes, to the formatted cached "now" |
| `StringDatetime.StringDatetimeTimeModel.SetPrecedingSystemTime` | lib/src/main/java/com/cloudera/labs/envelope/plan/time/StringDatetimeTimeModel.java:94-96 | only the bound cell changes, to the formatted "now − 1 ms" |
| `StringDatetime.StringDatetimeTimeModel.AppendFields` | lib/src/main/java/com/cloudera/labs/envelope/plan/time/StringDatetimeTimeModel.java:99-101 | the schema gains the model's schema at the end; the values gain a null at the end |
| `StringDatetime.StringDatetimeTimeModel.GetTime` | lib/src/main/java/com/cloudera/labs/envelope/plan/time/StringDatetimeTimeModel.java:104-106 | a row of the model's schema holding the field's value unchanged; FieldNotFound when it is absent |
| `StringDatetime.StringDatetimeTimeModel.GetPrecedingTime` | lib/src/main/java/com/cloudera/labs/envelope/plan/time/StringDatetimeTimeModel.java:109-119 | a row of the model's schema holding the formatted instant 1 ms before the field's; fails exactly when the field cannot be read, with the same error |
| `StringDatetime.InstantOfFormatted` | lib/src/main/java/com/cloudera/labs/envelope/plan/time/StringDatetimeTimeModel.java:69-70 | at an instant where the pattern round-trips, a field holding that instant's text is read back as that instant |
| `StringDatetime.CompareFormatted` | lib/src/main/java/com/cloudera/labs/envelope/plan/time/StringDatetimeTimeModel.java:65-76 | rows holding the texts of two instants where the pattern round-trips compare as the instants do |
| `StringDatetime.CompareRejectsUnparsable` | lib/src/main/java/com/cloudera/labs/envelope/plan/time/StringDatetimeTimeModel.java:68-73 | an unparsable value is an Unparsable error on either side of `compare`, never a coerced instant; in second place it is that error whenever the first row reads |
| `StringDatetime.CompareIsOrder` | lib/src/main/java/com/cloudera/labs/envelope/plan/time/StringDatetimeTimeModel.java:75 | `compare` is reflexive, antisymmetric and transitive |
| `StringDatetime.FarFutureIsLatest` | lib/src/main/java/com/cloudera/labs/envelope/plan/time/StringDatetimeTimeModel.java:56-86 | where the pattern round-trips at the far future, a row stamped with it compares after every row with an earlier instant, from both sides |
| `StringDatetime.PrecedingBeforeCurrent` | lib/src/main/java/com/cloudera/labs/envelope/plan/time/StringDatetimeTimeModel.java:89-96 | where the pattern round-trips at now − 1 and at now, the preceding stamp reads as now − 1, the current one as now, and the first compares strictly before the second |
| `StringDatetime.GetTimeOfCurrent` | lib/src/main/java/com/cloudera/labs/envelope/plan/time/StringDatetimeTimeModel.java:89-106 | projecting the time out of a row stamped with "now" equals stamping the model's blank one-field row |
| `StringDatetime.PrecedingTimeOfCurrent` | lib/src/main/java/com/cloudera/labs/envelope/plan/time/StringDatetimeTimeModel.java:89-119 | where the pattern round-trips at now, the preceding time of a row stamped with "now" equals the time `setPrecedingSystemTime` stamps |
| `StringDatetime.PrecedingAfterCurrentAcrossFallBack` | lib/src/main/java/com/cloudera/labs/envelope/plan/time/StringDatetimeTimeModel.java:89-96 | when the texts for now and now − 1 read back in the opposite order, as in a repeated hour, the preceding stamp compares after the current one |
| `StringDatetime.AppendedFieldShadows` | lib/src/main/java/com/cloudera/labs/envelope/plan/time/StringDatetimeTimeModel.java:99-101 | appending the time field to a row that already has it makes the name resolve to the appended null, so reading the instant is NotAString |
| `TimestampTime.FromMillis` | lib/src/test/java/com/cloudera/labs/envelope/plan/time/TestTimestampTimeModel.java:53-57 | `new Timestamp(ms)` is a whole number of milliseconds that reads back as ms |
| `TimestampTime.GetNanos` | lib/src/test/java/com/cloudera/labs/envelope/plan/time/TestTimestampTimeModel.java:122 | `getNanos` lies in 0..999999999 |
| `TimestampTime.SetNanos` | lib/src/test/java/com/cloudera/labs/envelope/plan/time/TestTimestampTimeModel.java:53-58 | `setNanos` succeeds exactly for 0..999999999; the result has those nanos and the same whole second |
| `TimestampTime.NanosOfMillis` | lib/src/test/java/com/cloudera/labs/envelope/plan/time/TestTimestampTimeModel.java:121-122 | the nanos of `Timestamp(ms)` are `(ms mod 1000) * 10^6` |
| `TimestampTime.PrecedingTestExpectation` | lib/src/test/java/com/cloudera/labs/envelope/plan/time/TestTimestampTimeModel.java:116-125 | `Timestamp(c − 1)` with 999999 ns added is exactly one nanosecond before `Timestamp(c)` |
| `TimestampTime.TimestampTimeModel.Configure` | lib/src/test/java/com/cloudera/labs/envelope/plan/time/TestTimestampTimeModel.java:47-51 | binds the first field name as a nullable timestamp field; with no names it fails and binds nothing |
| `TimestampTime.TimestampTimeModel.ConfigureCurrentSystemTime` | lib/src/test/java/com/cloudera/labs/envelope/plan/time/TestTimestampTimeModel.java:108-109 | the given milliseconds become the cached "now" |
| `TimestampTime.TimestampTimeModel.Instant` | lib/src/test/java/com/cloudera/labs/envelope/plan/time/TestTimestampTimeModel.java:60-62 | succeeds exactly when the field holds a timestamp, and is that timestamp |
| `TimestampTime.TimestampTimeModel.Compare` | lib/src/test/java/com/cloudera/labs/envelope/plan/time/TestTimestampTimeModel.java:71-96 | succeeds exactly when both rows hold timestamps; it is then the sign of their nanosecond difference; the first row's error wins |
| `TimestampTime.TimestampTimeModel.GetSchema` | lib/src/test/java/com/cloudera/labs/envelope/plan/time/TestTimestampTimeModel.java:47-68 | exactly one field: the configured name, a nullable timestamp |
| `TimestampTime.TimestampTimeModel.SetFarFutureTime` | lib/src/test/java/com/cloudera/labs/envelope/plan/time/TestTimestampTimeModel.java:99-104 | only the bound cell changes, to a timestamp strictly after 2100-01-01 (4102444800000 ms) |
| `TimestampTime.TimestampTimeModel.SetCurrentSystemTime` | lib/src/test/java/com/cloudera/labs/envelope/plan/time/TestTimestampTimeModel.java:107-113 | only the bound cell changes, to exactly `Timestamp(c)` |
| `TimestampTime.TimestampTimeModel.SetPrecedingSystemTime` | lib/src/test/java/com/cloudera/labs/envelope/plan/time/TestTimestampTimeModel.java:116-125 | only the bound cell changes, to one nanosecond before `Timestamp(c)` |
| `TimestampTime.TimestampTimeModel.AppendFields` | lib/src/test/java/com/cloudera/labs/envelope/plan/time/TestTimestampTimeModel.java:128-137 | the input schema with the time field appended last; the values gain a null at the end |
| `TimestampTime.PrecedingIsOneNanosecondBefore` | lib/src/test/java/com/cloudera/labs/envelope/plan/time/TestTimestampTimeModel.java:107-125 | the preceding stamp is the current one minus one nanosecond, and compares strictly before it |
| `TimestampTime.AppendedFieldShadows` | lib/src/test/java/com/cloudera/labs/envelope/plan/time/TestTimestampTimeModel.java:128-137 | appending the time field to a row that already has it makes the name resolve to the appended null, so reading the instant is NotATimestamp |
| `TimestampTime.FarFutureIsLatest` | lib/src/test/java/com/cloudera/labs/envelope/plan/time/TestTimestampTimeModel.java:99-104 | the far-future stamp compares after every row holding an instant up to 2100-01-01 |
| `TimeCommon.CompareTo` | lib/src/main/java/com/cloudera/labs/envelope/plan/time/StringDatetimeTimeModel.java:75 | `compareTo` is −1, 0 or 1, negative exactly when a < b, zero exactly when a = b, positive exactly when a > b |
| `PlannerUtils.TimeModel.Compare` | lib/src/test/java/com/cloudera/labs/envelope/plan/time/TestTimestampTimeModel.java:71-96 | for either time model, succeeds exactly when both instants can be read, and is their comparison |
| `PlannerUtils.Before` | lib/src/test/java/com/cloudera/labs/envelope/plan/time/TestTimestampTimeModel.java:71-78 | true exactly when the first instant is strictly earlier; an unreadable row is an error |
| `PlannerUtils.After` | lib/src/test/java/com/cloudera/labs/envelope/plan/time/TestTimestampTimeModel.java:89-96 | true exactly when the first instant is strictly later |
| `PlannerUtils.Simultaneous` | lib/src/test/java/com/cloudera/labs/envelope/plan/time/TestTimestampTimeModel.java:81-86 | true exactly when the instants are equal |
| `PlannerUtils.Trichotomy` | lib/src/test/java/com/cloudera/labs/envelope/plan/time/TestTimestampTimeModel.java:71-96 | exactly one of before, simultaneous and after holds |
| `PlannerUtils.AfterIsConverseOfBefore` | lib/src/test/java/com/cloudera/labs/envelope/plan/time/TestTimestampTimeModel.java:89-96 | after(a, b) is before(b, a), errors included |
| `PlannerUtils.SimultaneousIsReflexive` | lib/src/test/java/com/cloudera/labs/envelope/plan/time/TestTimestampTimeModel.java:82 | a readable row is simultaneous with itself and not before itself |
| `PlannerUtils.BeforeIsTransitive` | lib/src/test/java/com/cloudera/labs/envelope/plan/time/TestTimestampTimeModel.java:72-74 | before is transitive |
| `PlannerUtils.TimestampFixtureOrder` | lib/src/test/java/com/cloudera/labs/envelope/plan/time/TestTimestampTimeModel.java:53-96 | every assertion of the before, simultaneous and after tests holds on the three fixture rows 1 s + 1000 ns, 2 s + 100 ns and 2 s + 101 ns, including that neither earlier row is after the third |
| `Rows.IndexOf` | lib/src/main/java/com/cloudera/labs/envelope/plan/time/StringDatetimeTimeModel.java:69 | as in Spark's `fieldIndex`, the last position whose field has the name, or none when no field has it |
| `Rows.IndexOfSchema` | lib/src/main/java/com/cloudera/labs/envelope/plan/time/StringDatetimeTimeModel.java:85 | two rows with the same schema find a name at the same position |
| `Rows.Get` | lib/src/main/java/com/cloudera/labs/envelope/plan/time/StringDatetimeTimeModel.java:105 | the named field's value; FieldNotFound exactly when the name is absent |
| `Rows.Set` | lib/src/main/java/com/cloudera/labs/envelope/plan/time/StringDatetimeTimeModel.java:85-95 | the named cell holds the new value, the schema and every other cell are kept; FieldNotFound exactly when the name is absent |
| `Rows.Append` | lib/src/main/java/com/cloudera/labs/envelope/plan/time/StringDatetimeTimeModel.java:100 | the schema gains one nullable field at the end, and the values gain the given value |
| `DeletePlanner.Configure` | lib/src/test/java/com/cloudera/labs/envelope/plan/TestDeletePlanner.java:51-52 | an empty configuration is accepted |
| `DeletePlanner.PlanMutationsForSet` | lib/src/test/java/com/cloudera/labs/envelope/plan/TestDeletePlanner.java:54-58 | exactly one entry, tagged DELETE, carrying the arriving dataset unchanged |
| `JavaText.ToChars` | src/main/java/com/cloudera/labs/envelope/output/bulk/KafkaOutput.java:98 | `Character.toChars` succeeds exactly on 0..0x10FFFF, with one code unit below 0x10000 and two above |
| `JavaText.CodePoints` | src/main/java/com/cloudera/labs/envelope/output/bulk/KafkaOutput.java:98 | `codePoints` yields at least half as many, and at most as many, code points as there are code units; this is a size bound only, and what the code points are is stated by `CodePointsOfToChars`, `Utf16CodePoints` and `EntriesTextCodePoints` |
| `JavaText.CodePointsOfToChars` | src/main/java/com/cloudera/labs/envelope/output/bulk/KafkaOutput.java:98 | reading code points back from `toChars` of a scalar value gives that value |
| `JavaText.Utf16CodePoints` | src/main/java/com/cloudera/labs/envelope/output/bulk/KafkaOutput.java:89 | the code points of an encoded string are its characters |
| `JavaText.Utf16Basic` | src/main/java/com/cloudera/labs/envelope/output/bulk/KafkaOutput.java:89 | text below U+10000 is encoded one code unit per character |
| `JavaText.Utf16Concat` | src/main/java/com/cloudera/labs/envelope/output/bulk/KafkaOutput.java:89 | encoding distributes over concatenation |
| `JavaText.Join` | src/main/java/com/cloudera/labs/envelope/output/bulk/KafkaOutput.java:58 | the join of a non-empty list begins with its first part |
| `JavaText.Split` | src/main/java/com/cloudera/labs/envelope/output/bulk/KafkaOutput.java:94 | a text without the separator splits to itself alone; no piece of a split contains the separator |
| `JavaText.PiecesAvoidSeparator` | src/main/java/com/cloudera/labs/envelope/output/bulk/KafkaOutput.java:94 | no piece around the separator contains it |
| `JavaText.PiecesOfFree` | src/main/java/com/cloudera/labs/envelope/output/bulk/KafkaOutput.java:94 | a text without the separator is one piece |
| `JavaText.Pieces` | src/main/java/com/cloudera/labs/envelope/output/bulk/KafkaOutput.java:94 | splitting always yields at least one piece |
| `JavaText.DropTrailingEmpty` | src/main/java/com/cloudera/labs/envelope/output/bulk/KafkaOutput.java:94 | `split` drops the trailing empty pieces and keeps the rest |
| `JavaText.JoinPieces` | src/main/java/com/cloudera/labs/envelope/output/bulk/KafkaOutput.java:94 | no piece contains the separator, and joining the pieces on it rebuilds the text |
| `JavaText.PiecesOfJoin` | src/main/java/com/cloudera/labs/envelope/output/bulk/KafkaOutput.java:94 | splitting a join of parts free of the separator gives the parts back |
| `JavaText.SplitSmall` | src/main/java/com/cloudera/labs/envelope/output/bulk/KafkaOutput.java:94 | `split` of a text without the separator is that text alone; split of `a,b` with b non-empty is `[a, b]` |
| `JavaText.ParseInt` | src/main/java/com/cloudera/labs/envelope/output/bulk/KafkaOutput.java:98 | every number `Integer.parseInt` accepts is a 32-bit int |
| `JavaText.ParseDigits` | src/main/java/com/cloudera/labs/envelope/output/bulk/KafkaOutput.java:98 | an unsigned run of digits within the int range parses to the number it denotes |
| `JavaText.ParseDecimal` | src/main/java/com/cloudera/labs/envelope/output/bulk/KafkaOutput.java:98 | `parseInt` reads back every non-negative int written in decimal |
| `JavaText.DecimalDigits` | src/main/java/com/cloudera/labs/envelope/output/bulk/KafkaOutput.java:98 | a number written in decimal is all digits, and denotes that number |
| `KafkaOutput.GetSupportedMutationTypes` | src/main/java/com/cloudera/labs/envelope/output/bulk/KafkaOutput.java:84-86 | the supported types are INSERT and nothing else |
| `KafkaOutput.Delimiter` | src/main/java/com/cloudera/labs/envelope/output/bulk/KafkaOutput.java:88-106 | with no option the delimiter is `,`; it can fail only on a configured `chars:` value |
| `KafkaOutput.CharsPrefixSpelling` | src/main/java/com/cloudera/labs/envelope/output/bulk/KafkaOutput.java:93-94 | the prefix checked is the text `chars:` |
| `KafkaOutput.GetDelimiter` | src/main/java/com/cloudera/labs/envelope/output/bulk/KafkaOutput.java:88-106 | the delimiter is the `Delimiter` of the configuration, computed branch by branch |
| `KafkaOutput.EntryText` | src/main/java/com/cloudera/labs/envelope/output/bulk/KafkaOutput.java:98 | `Character.toChars(Integer.parseInt(entry))`: an entry that does not parse is NotANumber; an entry succeeds exactly when it parses to 0..0x10FFFF |
| `KafkaOutput.EntriesText` | src/main/java/com/cloudera/labs/envelope/output/bulk/KafkaOutput.java:96-101 | the reference the builder loop is proved equal to: the characters of every entry in order, or the first bad entry's error (its meaning is stated by `EntriesTextMeaning`, `EntriesTextOk`, `EntriesTextCodePoints` and `EntriesTextFirstError`) |
| `KafkaOutput.AppendCodePoints` | src/main/java/com/cloudera/labs/envelope/output/bulk/KafkaOutput.java:96-101 | the builder loop yields the characters of every listed code point in order, or stops at the first bad entry with its error |
| `KafkaOutput.EntriesTextStep` | src/main/java/com/cloudera/labs/envelope/output/bulk/KafkaOutput.java:97-99 | one loop step appends the entry's characters, or ends with that entry's error |
| `KafkaOutput.EntriesTextMeaning` | src/main/java/com/cloudera/labs/envelope/output/bulk/KafkaOutput.java:94-101 | the list is accepted exactly when every entry is an int in 0..0x10FFFF; its text then reads back as the listed code points, in order; otherwise the error is the first bad entry's |
| `KafkaOutput.EntriesTextOk` | src/main/java/com/cloudera/labs/envelope/output/bulk/KafkaOutput.java:97-99 | the list is accepted exactly when every entry is |
| `KafkaOutput.EntriesTextCodePoints` | src/main/java/com/cloudera/labs/envelope/output/bulk/KafkaOutput.java:97-101 | an accepted list of scalar values reads back as those code points, in order |
| `KafkaOutput.CodePointListCons` | src/main/java/com/cloudera/labs/envelope/output/bulk/KafkaOutput.java:97-99 | the listed code points are the first entry's followed by the rest's |
| `KafkaOutput.EntriesTextFirstError` | src/main/java/com/cloudera/labs/envelope/output/bulk/KafkaOutput.java:97-99 | a refused list fails with the error of its first bad entry, all earlier entries being good |
| `KafkaOutput.DelimiterLiteral` | src/main/java/com/cloudera/labs/envelope/output/bulk/KafkaOutput.java:89-105 | with no option the delimiter is `,`; a value not starting with `chars:` is used verbatim, wherever else it may contain `chars:` |
| `KafkaOutput.DelimiterOfChars` | src/main/java/com/cloudera/labs/envelope/output/bulk/KafkaOutput.java:93-94 | a `chars:` value is read as the comma-split list after the prefix |
| `KafkaOutput.NoCommaInDecimal` | src/main/java/com/cloudera/labs/envelope/output/bulk/KafkaOutput.java:94 | a number in decimal contains no comma, so it is one piece of the split |
| `KafkaOutput.EntryOfDecimal` | src/main/java/com/cloudera/labs/envelope/output/bulk/KafkaOutput.java:98 | an entry written in decimal gives that code point's characters, or NotACodePoint above 0x10FFFF |
| `KafkaOutput.DelimiterOfDecimal` | src/main/java/com/cloudera/labs/envelope/output/bulk/KafkaOutput.java:93-101 | `chars:n` is the characters of n for n up to 0x10FFFF, and NotACodePoint(n) above |
| `KafkaOutput.EntriesTextPair` | src/main/java/com/cloudera/labs/envelope/output/bulk/KafkaOutput.java:96-101 | two good entries give the first one's characters followed by the second one's |
| `KafkaOutput.DelimiterOfTwoDecimals` | src/main/java/com/cloudera/labs/envelope/output/bulk/KafkaOutput.java:93-101 | `chars:a,b` is the characters of a followed by those of b |
| `KafkaOutput.Utf16Four` | src/main/java/com/cloudera/labs/envelope/output/bulk/KafkaOutput.java:93-94 | encoding four texts in a row is encoding each in turn |
| `KafkaOutput.CommaSpacePieces` | src/main/java/com/cloudera/labs/envelope/output/bulk/KafkaOutput.java:94 | the texts `44`, `,` and `32` are 44 in decimal, a comma and 32 in decimal |
| `KafkaOutput.CommaSpaceSpelling` | src/main/java/com/cloudera/labs/envelope/output/bulk/KafkaOutput.java:93-94 | the text `chars:44,32` is the prefix, 44 and 32 in decimal, and a comma between them |
| `KafkaOutput.CommaSpaceText` | src/main/java/com/cloudera/labs/envelope/output/bulk/KafkaOutput.java:101 | the text `, ` is the code units comma and space |
| `KafkaOutput.DelimiterOfCommaSpaceEntries` | src/main/java/com/cloudera/labs/envelope/output/bulk/KafkaOutput.java:93-101 | the prefix followed by the entries 44 and 32 is the delimiter comma, space |
| `KafkaOutput.DelimiterCommaSpace` | src/main/java/com/cloudera/labs/envelope/output/bulk/KafkaOutput.java:93-101 | the configured text `chars:44,32` is the delimiter `, ` |
| `KafkaOutput.DelimiterEmptyEntry` | src/main/java/com/cloudera/labs/envelope/output/bulk/KafkaOutput.java:94-98 | `chars:` with an empty list is a NotANumber error |
| `KafkaOutput.DelimiterBeyondUnicode` | src/main/java/com/cloudera/labs/envelope/output/bulk/KafkaOutput.java:98 | `chars:1114112` is refused with NotACodePoint(0x110000) |
| `KafkaOutput.Texts` | src/main/java/com/cloudera/labs/envelope/output/bulk/KafkaOutput.java:52-58 | a failure is a null value's; a success has one text per value |
| `KafkaOutput.Message` | src/main/java/com/cloudera/labs/envelope/output/bulk/KafkaOutput.java:52-58 | a failure is a null value's; a one-value row's message is that value's text alone |
| `KafkaOutput.RowMessage` | src/main/java/com/cloudera/labs/envelope/output/bulk/KafkaOutput.java:52-58 | the index loop gathers all the row's values in field order; the message is their join |
| `KafkaOutput.MessageMeaning` | src/main/java/com/cloudera/labs/envelope/output/bulk/KafkaOutput.java:52-58 | a message is refused exactly when a value is null; splitting a message on a one-character delimiter found in no value gives every value's text back, in field order |
| `KafkaOutput.TextsMeaning` | src/main/java/com/cloudera/labs/envelope/output/bulk/KafkaOutput.java:58 | the joined texts are every value's text in order, and exist exactly when no value is null |
| `KafkaOutput.WriterDelimiter` | src/main/java/com/cloudera/labs/envelope/output/bulk/KafkaOutput.java:75 | the `getDelimiter()` call of `initialize()`: the delimiter, or its error as BadDelimiter; the writer is proved to send `RowMessages` with it |
| `KafkaOutput.RowMessages` | src/main/java/com/cloudera/labs/envelope/output/bulk/KafkaOutput.java:41-61 | the reference `WriteRows` is proved equal to: one INSERT entry's rows, each row's message in order, or the first error (its counts are stated by `RowMessagesCount`) |
| `KafkaOutput.RowMessagesStep` | src/main/java/com/cloudera/labs/envelope/output/bulk/KafkaOutput.java:47-60 | with a good delimiter, a row writer's next row fails with its null-value error or prepends its message to the rest |
| `KafkaOutput.WriteRows` | src/main/java/com/cloudera/labs/envelope/output/bulk/KafkaOutput.java:41-78 | the row writer reads the delimiter on its first row and sends exactly `RowMessages`: every row's message in order, or the first error |
| `KafkaOutput.ApplyMutations` | src/main/java/com/cloudera/labs/envelope/output/bulk/KafkaOutput.java:35-81 | the messages sent are `Published`: the INSERT entries' rows in plan order, each entry written by `WriteRows` |
| `KafkaOutput.Published` | src/main/java/com/cloudera/labs/envelope/output/bulk/KafkaOutput.java:36-40 | a plan with no inserted row writes nothing |
| `KafkaOutput.SupportedEntries` | src/main/java/com/cloudera/labs/envelope/output/bulk/KafkaOutput.java:36-40 | keeps no more entries than the plan has, only supported ones, and every INSERT entry |
| `KafkaOutput.OnlyInsertsArePublished` | src/main/java/com/cloudera/labs/envelope/output/bulk/KafkaOutput.java:36-86 | the supported types are exactly {INSERT}, and dropping every unsupported entry from a plan leaves what is written unchanged |
| `KafkaOutput.RowMessagesCount` | src/main/java/com/cloudera/labs/envelope/output/bulk/KafkaOutput.java:41-61 | one message per row; a bad delimiter fails any non-empty entry |
| `KafkaOutput.PublishedCount` | src/main/java/com/cloudera/labs/envelope/output/bulk/KafkaOutput.java:36-77 | a successful write sends one message per inserted row; with no inserted row nothing is sent; a bad delimiter fails a write that has an inserted row |
| `KafkaOutput.DeletePlanPublishesNothing` | src/main/java/com/cloudera/labs/envelope/output/bulk/KafkaOutput.java:40 | the delete planner's plan writes nothing to Kafka |

## Left out

- The Kafka producer, the brokers and topic lookup, and sending a record: network I/O. The model stops at the sequence of message strings.
- Spark's `javaRDD().foreach`: the model treats the rows of an entry as written in order by one writer. The per-partition writers, and the order in which partitions run, are not modelled.
- `KafkaOutput.ApplyMutations`: when a row fails, the messages already sent are not reported; the whole call is the error.
- `SimpleDateFormat` internals and the JVM's default time zone. Parsing and formatting are parameters.
- The round-trip law `RoundTrips` does not hold for every instant: it fails before year 1 and across zone transitions. The lemmas that need it require it at the instants they use. `StringDatetime.PrecedingAfterCurrentAcrossFallBack` records what happens when it fails in the repeated hour.
- `Value.toString`, which the joiner applies to each value: a parameter `toText`.
- `JavaText.ParseInt`: digits are the ASCII digits only; other Unicode decimal digits, which `Integer.parseInt` also accepts, are not modelled.
- `TimestampTime.TimestampTimeModel.SetFarFutureTime`: the TimestampTimeModel source is not part of this model. The far future is taken to be the same 253402214400000 ms as the string model's; its tests only pin "after 2100-01-01".
- The TimestampTimeModel's `getTime` and `getPrecedingTime`, and its handling of options: its tests do not exercise them.
- `StringDatetime.StringDatetimeTimeModel.SetPrecedingSystemTime` and `GetPrecedingTime`, and `TimestampTime.TimestampTimeModel.SetPrecedingSystemTime`: instants are unbounded integers, so the `long` overflow of `current − 1` at `Long.MIN_VALUE` is not modelled.
- Calling an operation before `configure` or `configureCurrentSystemTime`, which throws in Java (NullPointerException, or IllegalArgumentException from the schema of `getSchema` and `getTime`): excluded by `requires Valid()` and `requires current.Some?`.
- `Rows.Get` and `Rows.Set`: RowUtils is not part of this model. Its behaviour on a missing field is taken to be an error (FieldNotFound).
- `DeletePlanner.Configure`: the DeletePlanner source is not part of this model. The only case its test pins is that an empty configuration is accepted.
- PlannerFactory (reflective loading of a planner by its `type`) and the Input interface: no logic worth a model.
- The history (temporal-merge) planner, and other callers of the time models: their sources are not part of this model.
