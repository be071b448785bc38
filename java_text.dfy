/**
 * The parts of java.lang that the Kafka output's text handling rests on.
 * A Java String is a sequence of UTF-16 code units, not of Unicode scalar
 * values, so it is modelled as such (Dafny's `char` cannot hold the lone
 * surrogate that Character.toChars may produce).
 */
module JavaText {
  import opened Results

  /** A Java char: one UTF-16 code unit. */
  type CodeUnit = x: int | 0 <= x < 0x1_0000

  /** A java.lang.String. */
  type JString = seq<CodeUnit>

  const MaxCodePoint: int := 0x10FFFF
  const MinSupplementary: int := 0x1_0000
  const MinHighSurrogate: int := 0xD800
  const MinLowSurrogate: int := 0xDC00
  const SurrogateEnd: int := 0xE000

  const MinInt: int := -0x8000_0000
  const MaxInt: int := 0x7FFF_FFFF

  const Space: CodeUnit := 32  // ' '
  const Plus: CodeUnit := 43   // '+'
  const Comma: CodeUnit := 44  // ','
  const Minus: CodeUnit := 45  // '-'
  const Zero: CodeUnit := 48   // '0'

  predicate IsHighSurrogate(u: CodeUnit) {
    MinHighSurrogate <= u < MinLowSurrogate
  }

  predicate IsLowSurrogate(u: CodeUnit) {
    MinLowSurrogate <= u < SurrogateEnd
  }

  /** A Unicode scalar value: a code point that is not a surrogate. */
  predicate IsScalar(cp: int) {
    0 <= cp <= MaxCodePoint && !(MinHighSurrogate <= cp < SurrogateEnd)
  }

  /**
   * Character.toChars: a code point below 0x10000 is one unit, a larger one a
   * surrogate pair; outside 0..0x10FFFF it throws (None).
   */
  function ToChars(cp: int): (r: Option<JString>)
    ensures r.Some? <==> 0 <= cp <= MaxCodePoint
    ensures r.Some? ==> |r.value| == (if cp < MinSupplementary then 1 else 2)
  {
    if cp < 0 || cp > MaxCodePoint then None
    else if cp < MinSupplementary then Some([cp])
    else
      var v := cp - MinSupplementary;
      Some([MinHighSurrogate + v / 0x400, MinLowSurrogate + v % 0x400])
  }

  /**
   * String.codePoints: a high surrogate followed by a low one reads as one
   * code point; every other unit stands for itself.
   */
  function CodePoints(s: JString): (r: seq<int>)
    ensures |r| <= |s| <= 2 * |r|
  {
    if s == [] then []
    else if |s| >= 2 && IsHighSurrogate(s[0]) && IsLowSurrogate(s[1]) then
      [MinSupplementary + (s[0] - MinHighSurrogate) * 0x400 + (s[1] - MinLowSurrogate)] + CodePoints(s[2..])
    else
      [s[0] as int] + CodePoints(s[1..])
  }

  /** Reading the code points back undoes Character.toChars of a scalar value. */
  lemma CodePointsOfToChars(cp: int, rest: JString)
    requires IsScalar(cp)
    ensures CodePoints(ToChars(cp).value + rest) == [cp] + CodePoints(rest)
  {
    var s := ToChars(cp).value + rest;
    if cp < MinSupplementary {
      assert s[1..] == rest;
    } else {
      var v := cp - MinSupplementary;
      assert v == (v / 0x400) * 0x400 + v % 0x400;
      assert IsHighSurrogate(s[0]) && IsLowSurrogate(s[1]);
      assert s[2..] == rest;
    }
  }

  /** The UTF-16 encoding of a Dafny string, as Java holds its literals. */
  function Utf16(s: string): JString {
    if s == [] then [] else ToChars(s[0] as int).value + Utf16(s[1..])
  }

  /** Reading the code points of an encoded string gives its characters back. */
  lemma {:induction false} Utf16CodePoints(s: string)
    ensures CodePoints(Utf16(s)) == seq(|s|, i requires 0 <= i < |s| => s[i] as int)
  {
    if s != [] {
      Utf16CodePoints(s[1..]);
      CodePointsOfToChars(s[0] as int, Utf16(s[1..]));
    }
  }

  /** Text in the basic multilingual plane is encoded one unit per character. */
  lemma {:induction false} Utf16Basic(s: string)
    requires forall i :: 0 <= i < |s| ==> s[i] as int < MinSupplementary
    ensures Utf16(s) == seq(|s|, i requires 0 <= i < |s| => s[i] as int)
  {
    if s != [] {
      Utf16Basic(s[1..]);
    }
  }

  /** Encoding distributes over concatenation. */
  lemma {:induction false} Utf16Concat(a: string, b: string)
    ensures Utf16(a + b) == Utf16(a) + Utf16(b)
  {
    if a != [] {
      Utf16Concat(a[1..], b);
      assert (a + b)[1..] == a[1..] + b;
    } else {
      assert a + b == b;
    }
  }

  /** Joiner.on(delimiter).join(parts): the parts in order, the delimiter between neighbours. */
  function Join(parts: seq<JString>, delimiter: JString): (r: JString)
    ensures parts != [] ==> |parts[0]| <= |r| && r[..|parts[0]|] == parts[0]
  {
    if parts == [] then []
    else if |parts| == 1 then parts[0]
    else parts[0] + delimiter + Join(parts[1..], delimiter)
  }

  /** The pieces of `s` around every occurrence of `sep`, empty pieces included. */
  function Pieces(s: JString, sep: CodeUnit): (r: seq<JString>)
    ensures |r| >= 1
  {
    if s == [] then [[]]
    else
      var rest := Pieces(s[1..], sep);
      if s[0] == sep then [[]] + rest
      else [[s[0]] + rest[0]] + rest[1..]
  }

  /** The longest prefix of `p` that does not end in an empty string. */
  function DropTrailingEmpty(p: seq<JString>): (r: seq<JString>)
    ensures |r| <= |p| && r == p[..|r|]
    ensures r != [] ==> r[|r| - 1] != []
    ensures forall i :: |r| <= i < |p| ==> p[i] == []
  {
    if p != [] && p[|p| - 1] == [] then DropTrailingEmpty(p[..|p| - 1]) else p
  }

  /**
   * String.split on a one-character separator: the whole string when the
   * separator does not occur, else the pieces without the trailing empty ones.
   */
  function Split(s: JString, sep: CodeUnit): (r: seq<JString>)
    ensures sep !in s ==> r == [s]
    ensures forall i :: 0 <= i < |r| ==> sep !in r[i]
  {
    PiecesAvoidSeparator(s, sep);
    PiecesOfFree(s, sep);
    var p := Pieces(s, sep);
    var r := if |p| == 1 then p else DropTrailingEmpty(p);
    assert r == p[..|r|];
    assert forall i :: 0 <= i < |r| ==> r[i] == p[i];
    r
  }

  /** Pieces is exact: no piece holds the separator, and joining them back gives `s`. */
  lemma {:induction false} JoinPieces(s: JString, sep: CodeUnit)
    ensures forall i :: 0 <= i < |Pieces(s, sep)| ==> sep !in Pieces(s, sep)[i]
    ensures Join(Pieces(s, sep), [sep]) == s
  {
    if s != [] {
      JoinPieces(s[1..], sep);
      var rest := Pieces(s[1..], sep);
      if s[0] == sep {
        assert Pieces(s, sep)[1..] == rest;
      } else {
        var p := Pieces(s, sep);
        assert p[1..] == rest[1..];
        if |rest| > 1 {
          assert Join(rest, [sep]) == rest[0] + [sep] + Join(rest[1..], [sep]);
          assert Join(p, [sep]) == [s[0]] + rest[0] + [sep] + Join(rest[1..], [sep]);
        }
        assert s == [s[0]] + s[1..];
      }
    }
  }

  /** No piece holds the separator. */
  lemma {:induction false} PiecesAvoidSeparator(s: JString, sep: CodeUnit)
    ensures forall i :: 0 <= i < |Pieces(s, sep)| ==> sep !in Pieces(s, sep)[i]
  {
    if s != [] {
      PiecesAvoidSeparator(s[1..], sep);
      var rest := Pieces(s[1..], sep);
      if s[0] != sep {
        assert Pieces(s, sep)[0] == [s[0]] + rest[0];
        assert forall i :: 1 <= i < |Pieces(s, sep)| ==> Pieces(s, sep)[i] == rest[i];
      }
    }
  }

  /** A text without the separator is one piece. */
  lemma PiecesOfFree(s: JString, sep: CodeUnit)
    ensures sep !in s ==> Pieces(s, sep) == [s]
  {
    if sep !in s {
      PiecesOfJoined(s, sep, None);
    }
  }

  /** Text without the separator is a single piece, and a separator opens a new piece. */
  lemma {:induction false} PiecesOfJoined(a: JString, sep: CodeUnit, tail: Option<JString>)
    requires sep !in a
    ensures tail.None? ==> Pieces(a, sep) == [a]
    ensures tail.Some? ==> Pieces(a + [sep] + tail.value, sep) == [a] + Pieces(tail.value, sep)
  {
    if a == [] {
      if tail.Some? {
        assert a + [sep] + tail.value == [sep] + tail.value;
        assert ([sep] + tail.value)[1..] == tail.value;
      }
    } else {
      PiecesOfJoined(a[1..], sep, tail);
      if tail.Some? {
        assert (a + [sep] + tail.value)[1..] == a[1..] + [sep] + tail.value;
      }
      assert [a[0]] + a[1..] == a;
    }
  }

  /**
   * Splitting a joined text on a one-character delimiter that no part holds
   * gives the parts back.
   */
  lemma {:induction false} PiecesOfJoin(parts: seq<JString>, sep: CodeUnit)
    requires parts != []
    requires forall i :: 0 <= i < |parts| ==> sep !in parts[i]
    ensures Pieces(Join(parts, [sep]), sep) == parts
  {
    if |parts| == 1 {
      PiecesOfJoined(parts[0], sep, None);
    } else {
      PiecesOfJoin(parts[1..], sep);
      assert Join(parts, [sep]) == parts[0] + [sep] + Join(parts[1..], [sep]);
      PiecesOfJoined(parts[0], sep, Some(Join(parts[1..], [sep])));
      assert parts == [parts[0]] + parts[1..];
    }
  }

  predicate IsDigit(u: CodeUnit) {
    Zero <= u <= Zero + 9
  }

  predicate AllDigits(s: JString) {
    forall i :: 0 <= i < |s| ==> IsDigit(s[i])
  }

  /** The number a string of decimal digits denotes. */
  function DigitsValue(s: JString): nat
    requires AllDigits(s)
  {
    if s == [] then 0 else DigitsValue(s[..|s| - 1]) * 10 + (s[|s| - 1] - Zero)
  }

  /**
   * Integer.parseInt(s): an optional sign, then at least one decimal digit,
   * denoting a 32-bit int; anything else throws NumberFormatException (None).
   */
  function ParseInt(s: JString): (r: Option<int>)
    ensures r.Some? ==> MinInt <= r.value <= MaxInt
  {
    if s == [] then None
    else
      var digits := if s[0] == Minus || s[0] == Plus then s[1..] else s;
      if digits == [] || !AllDigits(digits) then None
      else
        var magnitude: int := DigitsValue(digits);
        var v: int := if s[0] == Minus then -magnitude else magnitude;
        if MinInt <= v <= MaxInt then Some(v) else None
  }

  /** An unsigned string of digits parses to the number it denotes, when that is an int. */
  lemma ParseDigits(s: JString)
    requires s != [] && AllDigits(s) && DigitsValue(s) <= MaxInt
    ensures ParseInt(s) == Some(DigitsValue(s))
  {
  }

  /** String.split of a text without the separator, and of two non-empty pieces around one separator. */
  lemma SplitSmall(a: JString, b: JString, sep: CodeUnit)
    requires sep !in a && sep !in b
    ensures Split(a, sep) == [a]
    ensures b != [] ==> Split(a + [sep] + b, sep) == [a, b]
  {
    PiecesOfJoined(a, sep, None);
    PiecesOfJoined(b, sep, None);
    PiecesOfJoined(a, sep, Some(b));
    if b != [] {
      assert DropTrailingEmpty([a, b]) == [a, b];
    }
  }

  /** Integer.toString of a non-negative number. */
  function Decimal(n: nat): (r: JString)
    ensures r != []
  {
    if n < 10 then [Zero + n] else Decimal(n / 10) + [Zero + n % 10]
  }

  lemma {:induction false} DecimalDigits(n: nat)
    ensures AllDigits(Decimal(n)) && DigitsValue(Decimal(n)) == n
  {
    if n >= 10 {
      DecimalDigits(n / 10);
      var s := Decimal(n);
      assert s[..|s| - 1] == Decimal(n / 10);
    }
  }

  /** parseInt reads back every int that toString writes out. */
  lemma ParseDecimal(n: nat)
    requires n <= MaxInt
    ensures ParseInt(Decimal(n)) == Some(n)
  {
    DecimalDigits(n);
  }

  /** s starts with prefix (String.startsWith). */
  predicate StartsWith(s: JString, prefix: JString) {
    |prefix| <= |s| && s[..|prefix|] == prefix
  }
}
