/**
 * The Kafka bulk output (KafkaOutput): which plan entries it writes, how a
 * row becomes a message, and how the field delimiter is read from the
 * configuration.  The producer, the topic and the brokers are not
 * modelled; a row value's text (Object.toString) is a parameter.
 */
module KafkaOutput {
  import opened Results
  import opened Rows
  import opened Mutations
  import opened JavaText
  import DeletePlanner

  /** The configuration key of the field delimiter. */
  const FieldDelimiterOption: string := "field.delimiter"

  /** The delimiter when the configuration has none: a comma. */
  const DefaultDelimiter: JString := [Comma]

  /** The prefix that introduces a list of code points: "chars:". */
  const CharsPrefix: JString := [99, 104, 97, 114, 115, 58]

  lemma CharsPrefixSpelling()
    ensures CharsPrefix == Utf16("chars:")
  {
    var front, back := "cha", "rs:";
    assert "chars:" == front + back;
    Utf16Concat(front, back);
    var f: JString, b: JString := [99, 104, 97], [114, 115, 58];
    assert Utf16(front) == f && Utf16(back) == b;
    assert CharsPrefix == f + b;
  }

  datatype DelimiterError =
    | NotANumber(entry: JString)    // Integer.parseInt throws NumberFormatException
    | NotACodePoint(codePoint: int) // Character.toChars throws IllegalArgumentException

  datatype PublishError =
    | BadDelimiter(cause: DelimiterError)
    | NullValue                     // Joiner.join throws NullPointerException

  /** getSupportedMutationTypes. */
  function GetSupportedMutationTypes(): (types: set<MutationType>)
    ensures forall t: MutationType :: t in types <==> t == Insert
  {
    {Insert}
  }

  /** The characters one entry of a `chars:` list stands for. */
  function EntryText(entry: JString): (r: Result<JString, DelimiterError>)
    ensures ParseInt(entry).None? ==> r == Err(NotANumber(entry))
    ensures r.Ok? <==> ParseInt(entry).Some? && 0 <= ParseInt(entry).value <= MaxCodePoint
  {
    match ParseInt(entry)
    case None => Err(NotANumber(entry))
    case Some(cp) =>
      match ToChars(cp)
      case None => Err(NotACodePoint(cp))
      case Some(units) => Ok(units)
  }

  /** The characters of every entry in order; the first bad entry is the error. */
  function EntriesText(entries: seq<JString>): Result<JString, DelimiterError> {
    if entries == [] then Ok([])
    else
      var head :- EntryText(entries[0]);
      var tail :- EntriesText(entries[1..]);
      Ok(head + tail)
  }

  /** The delimiter getDelimiter resolves. */
  function Delimiter(config: map<string, JString>): (r: Result<JString, DelimiterError>)
    ensures FieldDelimiterOption !in config ==> r == Ok(DefaultDelimiter)
    ensures r.Err? ==> FieldDelimiterOption in config && StartsWith(config[FieldDelimiterOption], CharsPrefix)
  {
    if FieldDelimiterOption !in config then Ok(DefaultDelimiter)
    else
      var delimiter := config[FieldDelimiterOption];
      if StartsWith(delimiter, CharsPrefix) then EntriesText(Split(delimiter[|CharsPrefix|..], Comma))
      else Ok(delimiter)
  }

  /** `prefix` in front of a successful result; an error is kept. */
  function Prefixed<T, E>(prefix: seq<T>, r: Result<seq<T>, E>): Result<seq<T>, E> {
    match r
    case Ok(s) => Ok(prefix + s)
    case Err(e) => Err(e)
  }

  /** One step of the StringBuilder loop: a good entry moves into the builder, a bad one is the error. */
  lemma EntriesTextStep(entries: seq<JString>, i: nat, builder: JString)
    requires i < |entries|
    ensures EntryText(entries[i]).Ok? ==>
      Prefixed(builder, EntriesText(entries[i..])) == Prefixed(builder + EntryText(entries[i]).value, EntriesText(entries[i + 1..]))
    ensures EntryText(entries[i]).Err? ==> Prefixed(builder, EntriesText(entries[i..])) == Err(EntryText(entries[i]).error)
  {
    assert entries[i..][0] == entries[i];
    assert entries[i..][1..] == entries[i + 1..];
    if EntryText(entries[i]).Ok? {
      PrefixedConcat(builder, EntryText(entries[i]).value, EntriesText(entries[i + 1..]));
    }
  }

  /** getDelimiter: the default, the literal value, or the characters of the listed code points. */
  method GetDelimiter(config: map<string, JString>) returns (r: Result<JString, DelimiterError>)
    ensures r == Delimiter(config)
  {
    if FieldDelimiterOption !in config {
      return Ok(DefaultDelimiter);
    }
    var delimiter := config[FieldDelimiterOption];
    if !StartsWith(delimiter, CharsPrefix) {
      return Ok(delimiter);
    }
    r := AppendCodePoints(Split(delimiter[|CharsPrefix|..], Comma));
  }

  /** The StringBuilder loop of getDelimiter over the listed code points. */
  method AppendCodePoints(codePoints: seq<JString>) returns (r: Result<JString, DelimiterError>)
    ensures r == EntriesText(codePoints)
  {
    ghost var spec := EntriesText(codePoints);
    var builder: JString := [];
    var i := 0;
    assert codePoints[i..] == codePoints;
    PrefixedEmpty(spec);
    while i < |codePoints|
      invariant 0 <= i <= |codePoints|
      invariant spec == Prefixed(builder, EntriesText(codePoints[i..]))
    {
      EntriesTextStep(codePoints, i, builder);
      var cp := ParseInt(codePoints[i]);
      if cp.None? {
        return Err(NotANumber(codePoints[i]));
      }
      var chars := ToChars(cp.value);
      if chars.None? {
        return Err(NotACodePoint(cp.value));
      }
      builder := builder + chars.value;
      i := i + 1;
    }
    assert codePoints[i..] == [];
    assert builder + [] == builder;
    return Ok(builder);
  }

  /** The code point an entry denotes, or -1 when it is not a number. */
  function CodePointOf(entry: JString): int {
    match ParseInt(entry)
    case Some(cp) => cp
    case None => -1
  }

  /**
   * A `chars:` list is accepted exactly when every entry is an int in
   * 0..0x10FFFF; its text then reads back as the listed code points, in
   * order, when they are scalar values; otherwise the error is that of the
   * first bad entry.
   */
  lemma {:induction false} EntriesTextMeaning(entries: seq<JString>)
    ensures EntriesText(entries).Ok? <==> forall i :: 0 <= i < |entries| ==> EntryText(entries[i]).Ok?
    ensures EntriesText(entries).Ok? && (forall i :: 0 <= i < |entries| ==> IsScalar(CodePointOf(entries[i]))) ==>
      CodePoints(EntriesText(entries).value) == seq(|entries|, i requires 0 <= i < |entries| => CodePointOf(entries[i]))
    ensures EntriesText(entries).Err? ==> exists k ::
      0 <= k < |entries| && EntryText(entries[k]) == Err(EntriesText(entries).error) &&
      forall j :: 0 <= j < k ==> EntryText(entries[j]).Ok?
  {
    EntriesTextOk(entries);
    if EntriesText(entries).Ok? && forall i :: 0 <= i < |entries| ==> IsScalar(CodePointOf(entries[i])) {
      EntriesTextCodePoints(entries);
    }
    if EntriesText(entries).Err? {
      EntriesTextFirstError(entries);
    }
  }

  lemma {:induction false} EntriesTextOk(entries: seq<JString>)
    ensures EntriesText(entries).Ok? <==> forall i :: 0 <= i < |entries| ==> EntryText(entries[i]).Ok?
  {
    if entries != [] {
      var tail := entries[1..];
      EntriesTextOk(tail);
      assert forall i :: 1 <= i < |entries| ==> entries[i] == tail[i - 1];
    }
  }

  lemma {:induction false} EntriesTextCodePoints(entries: seq<JString>)
    requires EntriesText(entries).Ok?
    requires forall i :: 0 <= i < |entries| ==> IsScalar(CodePointOf(entries[i]))
    ensures CodePoints(EntriesText(entries).value) == seq(|entries|, i requires 0 <= i < |entries| => CodePointOf(entries[i]))
  {
    if entries != [] {
      var tail := entries[1..];
      assert forall i :: 0 <= i < |tail| ==> IsScalar(CodePointOf(tail[i])) by {
        assert forall i :: 0 <= i < |tail| ==> tail[i] == entries[i + 1];
      }
      EntriesTextCodePoints(tail);
      var cp := CodePointOf(entries[0]);
      var rest := EntriesText(tail).value;
      assert EntriesText(entries).value == ToChars(cp).value + rest;
      CodePointsOfToChars(cp, rest);
      CodePointListCons(entries);
    }
  }

  /** The listed code points are the first entry's, then the rest's. */
  lemma CodePointListCons(entries: seq<JString>)
    requires entries != []
    ensures seq(|entries|, i requires 0 <= i < |entries| => CodePointOf(entries[i])) ==
      [CodePointOf(entries[0])] + seq(|entries| - 1, i requires 0 <= i < |entries| - 1 => CodePointOf(entries[1..][i]))
  {
  }

  lemma {:induction false} EntriesTextFirstError(entries: seq<JString>)
    requires EntriesText(entries).Err?
    ensures exists k ::
      0 <= k < |entries| && EntryText(entries[k]) == Err(EntriesText(entries).error) &&
      forall j :: 0 <= j < k ==> EntryText(entries[j]).Ok?
  {
    var tail := entries[1..];
    if EntryText(entries[0]).Ok? {
      assert EntriesText(tail).Err? && EntriesText(entries).error == EntriesText(tail).error;
      EntriesTextFirstError(tail);
      var k :| 0 <= k < |tail| && EntryText(tail[k]) == Err(EntriesText(tail).error)
        && forall j :: 0 <= j < k ==> EntryText(tail[j]).Ok?;
      assert entries[k + 1] == tail[k];
      forall j | 0 <= j < k + 1
        ensures EntryText(entries[j]).Ok?
      {
        if j > 0 {
          assert entries[j] == tail[j - 1];
        }
      }
    } else {
      assert EntryText(entries[0]) == Err(EntriesText(entries).error);
    }
  }

  /** With no `field.delimiter` option the delimiter is a comma; a value not starting with `chars:` is used as it is. */
  lemma DelimiterLiteral(config: map<string, JString>)
    ensures FieldDelimiterOption !in config ==> Delimiter(config) == Ok(Utf16(","))
    ensures FieldDelimiterOption in config && !StartsWith(config[FieldDelimiterOption], CharsPrefix) ==>
      Delimiter(config) == Ok(config[FieldDelimiterOption])
  {
    assert Utf16(",") == [Comma];
  }

  /** A `chars:` value is read as the comma-separated list after the prefix. */
  lemma DelimiterOfChars(value: JString, listed: JString)
    requires value == CharsPrefix + listed
    ensures Delimiter(map[FieldDelimiterOption := value]) == EntriesText(Split(listed, Comma))
  {
    assert value[..|CharsPrefix|] == CharsPrefix;
    assert value[|CharsPrefix|..] == listed;
  }

  /** The digits a decimal number is written with contain no comma. */
  lemma NoCommaInDecimal(n: nat)
    ensures Comma !in Decimal(n)
  {
    var digits := Decimal(n);
    DecimalDigits(n);
    forall i | 0 <= i < |digits| ensures digits[i] != Comma {
      assert IsDigit(digits[i]);
    }
  }

  /** One entry written in decimal: the characters of that code point, or NotACodePoint. */
  lemma EntryOfDecimal(n: nat)
    requires n <= MaxInt
    ensures EntryText(Decimal(n)) == if n <= MaxCodePoint then Ok(ToChars(n).value) else Err(NotACodePoint(n))
  {
    ParseDecimal(n);
  }

  /** `chars:a,b` with two code points written in decimal is their characters, in order. */
  lemma DelimiterOfTwoDecimals(a: nat, b: nat)
    requires a <= MaxCodePoint && b <= MaxCodePoint
    ensures Delimiter(map[FieldDelimiterOption := CharsPrefix + Decimal(a) + [Comma] + Decimal(b)]) ==
      Ok(ToChars(a).value + ToChars(b).value)
  {
    var first, second := Decimal(a), Decimal(b);
    var listed := first + [Comma] + second;
    assert CharsPrefix + first + [Comma] + second == CharsPrefix + listed;
    DelimiterOfChars(CharsPrefix + listed, listed);
    NoCommaInDecimal(a);
    NoCommaInDecimal(b);
    SplitSmall(first, second, Comma);
    EntryOfDecimal(a);
    EntryOfDecimal(b);
    EntriesTextPair(first, second);
  }

  /** Two good entries give the first one's characters, then the second one's. */
  lemma EntriesTextPair(x: JString, y: JString)
    requires EntryText(x).Ok? && EntryText(y).Ok?
    ensures EntriesText([x, y]) == Ok(EntryText(x).value + EntryText(y).value)
  {
    var entries := [x, y];
    var last: seq<JString> := [y];
    assert entries[0] == x && entries[1..] == last && last[0] == y && last[1..] == [];
    var tail := EntryText(y).value;
    assert tail + [] == tail;
    assert EntriesText(last) == Ok(tail);
  }

  /** Encoding four texts one after another. */
  lemma Utf16Four(a: string, b: string, c: string, d: string)
    ensures Utf16(a + b + c + d) == Utf16(a) + Utf16(b) + Utf16(c) + Utf16(d)
  {
    Utf16Concat(a + b + c, d);
    Utf16Concat(a + b, c);
    Utf16Concat(a, b);
  }

  /** The short texts `44`, `,` and `32`. */
  lemma CommaSpacePieces()
    ensures Utf16("44") == Decimal(44) && Utf16(",") == [Comma] && Utf16("32") == Decimal(32)
  {
    var d44: JString, d32: JString := [52, 52], [51, 50];
    assert Utf16("44") == d44 == Decimal(44);
    assert Utf16("32") == d32 == Decimal(32);
  }

  /** The text `chars:44,32` is the prefix, then 44 and 32 in decimal around a comma. */
  lemma CommaSpaceSpelling()
    ensures Utf16("chars:44,32") == CharsPrefix + Decimal(44) + [Comma] + Decimal(32)
  {
    assert "chars:44,32" == "chars:" + "44" + "," + "32";
    Utf16Four("chars:", "44", ",", "32");
    CharsPrefixSpelling();
    CommaSpacePieces();
  }

  /** The entries 44 and 32 are comma, space. */
  lemma DelimiterOfCommaSpaceEntries()
    ensures Delimiter(map[FieldDelimiterOption := CharsPrefix + Decimal(44) + [Comma] + Decimal(32)]) == Ok([Comma, Space])
  {
    DelimiterOfTwoDecimals(44, 32);
    var comma: JString, space: JString := [Comma], [Space];
    assert ToChars(44) == Some(comma) && ToChars(32) == Some(space);
    assert comma + space == [Comma, Space];
  }

  /** `chars:44,32` is comma, space. */
  lemma DelimiterCommaSpace(value: JString)
    requires value == Utf16("chars:44,32")
    ensures Delimiter(map[FieldDelimiterOption := value]) == Ok(Utf16(", "))
  {
    CommaSpaceSpelling();
    CommaSpaceText();
    DelimiterOfCommaSpaceEntries();
  }

  /** The text `, ` is the code units of comma and space. */
  lemma CommaSpaceText()
    ensures Utf16(", ") == [Comma, Space]
  {
    var first, second := ",", " ";
    assert ", " == first + second;
    Utf16Concat(first, second);
    var comma: JString, space: JString := [Comma], [Space];
    assert Utf16(first) == comma && Utf16(second) == space;
  }

  /** `chars:` with nothing after it is an empty entry, which is not a number. */
  lemma DelimiterEmptyEntry()
    ensures Delimiter(map[FieldDelimiterOption := Utf16("chars:")]) == Err(NotANumber([]))
  {
    assert Utf16("chars:") == CharsPrefix + [];
    DelimiterOfChars(Utf16("chars:"), []);
    assert Split([], Comma) == [[]];
  }

  /**
   * `chars:` followed by one number written in decimal: the characters of that
   * code point, or NotACodePoint when it lies outside 0..0x10FFFF.
   */
  lemma DelimiterOfDecimal(n: nat)
    requires n <= MaxInt
    ensures Delimiter(map[FieldDelimiterOption := CharsPrefix + Decimal(n)]) ==
      if n <= MaxCodePoint then Ok(ToChars(n).value) else Err(NotACodePoint(n))
  {
    var digits := Decimal(n);
    DelimiterOfChars(CharsPrefix + digits, digits);
    NoCommaInDecimal(n);
    SplitSmall(digits, [], Comma);
    EntryOfDecimal(n);
    var only: seq<JString> := [digits];
    assert only[0] == digits && only[1..] == [];
    if n <= MaxCodePoint {
      var units := ToChars(n).value;
      assert units + [] == units;
      assert EntriesText([digits]) == Ok(units);
    }
  }

  /** A code point above 0x10FFFF, such as 1114112, is refused. */
  lemma DelimiterBeyondUnicode()
    ensures Delimiter(map[FieldDelimiterOption := CharsPrefix + Decimal(0x110000)]) == Err(NotACodePoint(0x110000))
  {
    DelimiterOfDecimal(0x110000);
  }

  /** The text of every value, in order; a null value has none. */
  function Texts(values: seq<Value>, toText: Value -> JString): (r: Result<seq<JString>, PublishError>)
    ensures r.Err? ==> r.error == NullValue && Null in values
    ensures r.Ok? ==> |r.value| == |values|
  {
    if values == [] then Ok([])
    else if values[0] == Null then Err(NullValue)
    else
      var tail :- Texts(values[1..], toText);
      Ok([toText(values[0])] + tail)
  }

  /** A row's message: its values' texts, in index order, joined by the delimiter. */
  function Message(values: seq<Value>, delimiter: JString, toText: Value -> JString): (r: Result<JString, PublishError>)
    ensures r.Err? ==> r.error == NullValue && Null in values
    ensures |values| == 1 && r.Ok? ==> r.value == toText(values[0])
  {
    var texts :- Texts(values, toText);
    Ok(Join(texts, delimiter))
  }

  /**
   * A message is refused exactly when a value is null; otherwise, for a
   * one-character delimiter in none of the values' texts, splitting the
   * message on it gives every value's text back, in index order.
   */
  lemma {:induction false} MessageMeaning(values: seq<Value>, sep: CodeUnit, toText: Value -> JString)
    ensures Message(values, [sep], toText).Ok? <==> Null !in values
    ensures Texts(values, toText).Ok? ==> Texts(values, toText).value == seq(|values|, i requires 0 <= i < |values| => toText(values[i]))
    ensures Message(values, [sep], toText).Ok? && values != [] && (forall i :: 0 <= i < |values| ==> sep !in toText(values[i])) ==>
      Pieces(Message(values, [sep], toText).value, sep) == seq(|values|, i requires 0 <= i < |values| => toText(values[i]))
  {
    if values != [] {
      TextsMeaning(values, toText);
      if Message(values, [sep], toText).Ok? && forall i :: 0 <= i < |values| ==> sep !in toText(values[i]) {
        PiecesOfJoin(Texts(values, toText).value, sep);
      }
    }
  }

  lemma {:induction false} TextsMeaning(values: seq<Value>, toText: Value -> JString)
    ensures Texts(values, toText).Ok? <==> Null !in values
    ensures Texts(values, toText).Ok? ==> Texts(values, toText).value == seq(|values|, i requires 0 <= i < |values| => toText(values[i]))
  {
    if values != [] {
      TextsMeaning(values[1..], toText);
      assert values == [values[0]] + values[1..];
    }
  }

  /** call: the row's values gathered in index order, then joined. */
  method RowMessage(row: Row, delimiter: JString, toText: Value -> JString) returns (message: Result<JString, PublishError>)
    ensures message == Message(Values(row), delimiter, toText)
  {
    var values: seq<Value> := [];
    var fieldIndex := 0;
    while fieldIndex < |row|
      invariant 0 <= fieldIndex <= |row|
      invariant values == Values(row)[..fieldIndex]
    {
      values := values + [row[fieldIndex].value];
      fieldIndex := fieldIndex + 1;
    }
    assert values == Values(row);
    message := Message(values, delimiter, toText);
  }

  /** getDelimiter as the row writer sees it. */
  function WriterDelimiter(config: map<string, JString>): Result<JString, PublishError> {
    match Delimiter(config)
    case Ok(d) => Ok(d)
    case Err(e) => Err(BadDelimiter(e))
  }

  /** The messages of one INSERT entry's rows, in order. */
  function RowMessages(rows: seq<Row>, config: map<string, JString>, toText: Value -> JString): Result<seq<JString>, PublishError> {
    if rows == [] then Ok([])
    else
      var delimiter :- WriterDelimiter(config);
      var message :- Message(Values(rows[0]), delimiter, toText);
      var tail :- RowMessages(rows[1..], config, toText);
      Ok([message] + tail)
  }

  /** The messages applyMutations writes for a plan: those of its INSERT entries' rows, in plan order. */
  function Published(plan: Plan, config: map<string, JString>, toText: Value -> JString): (r: Result<seq<JString>, PublishError>)
    ensures InsertedRows(plan) == 0 ==> r == Ok([])
  {
    if plan == [] then Ok([])
    else
      var here :- if plan[0].mutationType == Insert then RowMessages(plan[0].data.rows, config, toText) else Ok([]);
      var tail :- Published(plan[1..], config, toText);
      assert InsertedRows(plan) == 0 ==> here == [] && here + tail == tail;
      Ok(here + tail)
  }

  lemma PrefixedEmpty<T, E>(r: Result<seq<T>, E>)
    ensures Prefixed([], r) == r
  {
    if r.Ok? {
      assert [] + r.value == r.value;
    }
  }

  lemma PrefixedConcat<T, E>(a: seq<T>, b: seq<T>, r: Result<seq<T>, E>)
    ensures Prefixed(a, Prefixed(b, r)) == Prefixed(a + b, r)
  {
    if r.Ok? {
      assert a + (b + r.value) == (a + b) + r.value;
    }
  }

  /** One row of a writer's loop: a bad delimiter or a null value is the error, else the row's message comes first. */
  lemma RowMessagesStep(rows: seq<Row>, j: nat, config: map<string, JString>, toText: Value -> JString, d: JString)
    requires j < |rows| && WriterDelimiter(config) == Ok(d)
    ensures Message(Values(rows[j]), d, toText).Err? ==>
      RowMessages(rows[j..], config, toText) == Err(Message(Values(rows[j]), d, toText).error)
    ensures Message(Values(rows[j]), d, toText).Ok? ==>
      RowMessages(rows[j..], config, toText) == Prefixed([Message(Values(rows[j]), d, toText).value], RowMessages(rows[j + 1..], config, toText))
  {
    assert rows[j..][0] == rows[j] && rows[j..][1..] == rows[j + 1..];
  }

  /**
   * The row writer of one INSERT entry: it reads the delimiter on its first
   * row, then sends each row's message in turn.
   */
  method WriteRows(rows: seq<Row>, config: map<string, JString>, toText: Value -> JString)
    returns (sent: Result<seq<JString>, PublishError>)
    ensures sent == RowMessages(rows, config, toText)
  {
    var joiner: Option<JString> := None;
    var batch: seq<JString> := [];
    var j := 0;
    assert rows[j..] == rows;
    PrefixedEmpty(RowMessages(rows, config, toText));
    while j < |rows|
      invariant 0 <= j <= |rows|
      invariant RowMessages(rows, config, toText) == Prefixed(batch, RowMessages(rows[j..], config, toText))
      invariant joiner.Some? ==> WriterDelimiter(config) == Ok(joiner.value)
    {
      if joiner.None? {
        var d := GetDelimiter(config);
        if d.Err? {
          assert rows[j..][1..] == rows[j + 1..];
          return Err(BadDelimiter(d.error));
        }
        joiner := Some(d.value);
      }
      RowMessagesStep(rows, j, config, toText, joiner.value);
      var m := RowMessage(rows[j], joiner.value, toText);
      if m.Err? {
        return Err(m.error);
      }
      PrefixedConcat(batch, [m.value], RowMessages(rows[j + 1..], config, toText));
      batch := batch + [m.value];
      j := j + 1;
    }
    assert rows[j..] == [];
    assert batch + [] == batch;
    return Ok(batch);
  }

  /** applyMutations: every entry of the plan in turn; only an INSERT entry's rows are written. */
  method ApplyMutations(plan: Plan, config: map<string, JString>, toText: Value -> JString)
    returns (sent: Result<seq<JString>, PublishError>)
    ensures sent == Published(plan, config, toText)
  {
    var messages: seq<JString> := [];
    var i := 0;
    assert plan[i..] == plan;
    PrefixedEmpty(Published(plan, config, toText));
    while i < |plan|
      invariant 0 <= i <= |plan|
      invariant Published(plan, config, toText) == Prefixed(messages, Published(plan[i..], config, toText))
    {
      assert plan[i..][1..] == plan[i + 1..];
      var rest := Published(plan[i + 1..], config, toText);
      if plan[i].mutationType == Insert {
        var written := WriteRows(plan[i].data.rows, config, toText);
        if written.Err? {
          return Err(written.error);
        }
        var batch := written.value;
        assert Published(plan[i..], config, toText) == Prefixed(batch, rest);
        PrefixedConcat(messages, batch, rest);
        messages := messages + batch;
      } else {
        assert Published(plan[i..], config, toText) == Prefixed([], rest);
        PrefixedEmpty(rest);
      }
      i := i + 1;
    }
    assert plan[i..] == [];
    assert messages + [] == messages;
    return Ok(messages);
  }

  /** The entries of a plan whose type this output supports. */
  function SupportedEntries(plan: Plan): (kept: Plan)
    ensures |kept| <= |plan|
    ensures forall i :: 0 <= i < |kept| ==> kept[i].mutationType in GetSupportedMutationTypes()
    ensures forall e :: e in plan && e.mutationType == Insert ==> e in kept
  {
    if plan == [] then []
    else if plan[0].mutationType in GetSupportedMutationTypes() then [plan[0]] + SupportedEntries(plan[1..])
    else SupportedEntries(plan[1..])
  }

  /** The number of rows in a plan's INSERT entries. */
  function InsertedRows(plan: Plan): nat {
    if plan == [] then 0
    else (if plan[0].mutationType == Insert then |plan[0].data.rows| else 0) + InsertedRows(plan[1..])
  }

  /** Only INSERT entries are written: dropping the others, or every entry of another type, changes nothing. */
  lemma {:induction false} OnlyInsertsArePublished(plan: Plan, config: map<string, JString>, toText: Value -> JString)
    ensures GetSupportedMutationTypes() == {Insert}
    ensures Published(SupportedEntries(plan), config, toText) == Published(plan, config, toText)
  {
    if plan != [] {
      OnlyInsertsArePublished(plan[1..], config, toText);
      var s := SupportedEntries(plan);
      if plan[0].mutationType == Insert {
        assert s[0] == plan[0] && s[1..] == SupportedEntries(plan[1..]);
      } else {
        assert s == SupportedEntries(plan[1..]);
        match Published(plan[1..], config, toText) {
          case Ok(t) => assert [] + t == t;
          case Err(_) =>
        }
      }
    }
  }

  lemma {:induction false} RowMessagesCount(rows: seq<Row>, config: map<string, JString>, toText: Value -> JString)
    ensures RowMessages(rows, config, toText).Ok? ==> |RowMessages(rows, config, toText).value| == |rows|
    ensures rows != [] && Delimiter(config).Err? ==> RowMessages(rows, config, toText) == Err(BadDelimiter(Delimiter(config).error))
  {
    if rows != [] {
      RowMessagesCount(rows[1..], config, toText);
    }
  }

  /**
   * A successful write sends one message per inserted row; a bad delimiter
   * fails the write exactly when there is an inserted row to write.
   */
  lemma {:induction false} PublishedCount(plan: Plan, config: map<string, JString>, toText: Value -> JString)
    ensures Published(plan, config, toText).Ok? ==> |Published(plan, config, toText).value| == InsertedRows(plan)
    ensures InsertedRows(plan) == 0 ==> Published(plan, config, toText) == Ok([])
    ensures InsertedRows(plan) > 0 && Delimiter(config).Err? ==> Published(plan, config, toText).Err?
  {
    if plan != [] {
      PublishedCount(plan[1..], config, toText);
      if plan[0].mutationType == Insert {
        RowMessagesCount(plan[0].data.rows, config, toText);
      }
    }
  }

  /** A delete plan writes nothing to Kafka, whatever the delimiter option says. */
  lemma DeletePlanPublishesNothing(arriving: Dataset, config: map<string, JString>, toText: Value -> JString)
    ensures Published(DeletePlanner.PlanMutationsForSet(arriving), config, toText) == Ok([])
  {
    PublishedCount(DeletePlanner.PlanMutationsForSet(arriving), config, toText);
  }
}
