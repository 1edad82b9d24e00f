/** Byte offsets to and from (line, UTF-16 character) positions. */
module Positions {
  // `byte_to_position` of `lsp/src/index.rs` and `position_to_byte` of `lsp/src/hover.rs`, on texts
  // whose only line break is LF (LSP 3.17, "Position"; section 3 of RFC 3629; section 2.1 of RFC 2781).
  //
  // Everything is measured by prefix sums over the characters of the text.

  datatype Position = Position(line: nat, character: nat)

  predicate AtMost(p: Position, q: Position) {
    p.line < q.line || (p.line == q.line && p.character <= q.character)
  }

  /** `char::len_utf8` */
  function Utf8(c: char): nat {
    if c < '\U{80}' then 1 else if c < '\U{800}' then 2 else if c < '\U{10000}' then 3 else 4
  }

  /** `char::len_utf16` */
  function Utf16(c: char): nat {
    if c < '\U{10000}' then 1 else 2
  }

  /** UTF-8 bytes in the first `i` characters. */
  function Bytes(text: string, i: nat): nat
    requires i <= |text|
  {
    if i == 0 then 0 else Bytes(text, i - 1) + Utf8(text[i - 1])
  }

  /** UTF-16 units in the first `i` characters. */
  function Units(text: string, i: nat): nat
    requires i <= |text|
  {
    if i == 0 then 0 else Units(text, i - 1) + Utf16(text[i - 1])
  }

  /** Line feeds in the first `i` characters: the line of character `i`. */
  function Line(text: string, i: nat): nat
    requires i <= |text|
  {
    if i == 0 then 0 else Line(text, i - 1) + (if text[i - 1] == '\n' then 1 else 0)
  }

  lemma {:induction false} SumsGrow(text: string, i: nat, j: nat)
    requires i <= j <= |text|
    ensures Bytes(text, i) + (j - i) <= Bytes(text, j)
    ensures Units(text, i) + (j - i) <= Units(text, j)
    ensures Line(text, i) <= Line(text, j)
  {
    if i < j {
      SumsGrow(text, i, j - 1);
    }
  }

  // ----- The rope ---------------------------------------------------------------

  function LenBytes(text: string): nat {
    Bytes(text, |text|)
  }

  function LenLines(text: string): nat {
    Line(text, |text|) + 1
  }

  /** `Rope::byte_to_char`: the character that holds the byte; the end of the text is past the last one. */
  function ByteToChar(text: string, byte: nat, i: nat := |text|): (k: nat)
    requires i <= |text|
    ensures k <= i && Bytes(text, k) <= byte
    ensures k < i ==> byte < Bytes(text, k + 1)
  {
    if Bytes(text, i) <= byte then i else ByteToChar(text, byte, i - 1)
  }

  /** `Rope::line_to_char`: where a line starts. */
  function LineToChar(text: string, line: nat, i: nat := 0): (k: nat)
    requires i <= |text| && Line(text, i) <= line < LenLines(text)
    requires i == 0 || Line(text, i - 1) < line
    ensures i <= k <= |text| && Line(text, k) == line
    ensures k == 0 || Line(text, k - 1) < line
    decreases |text| - i
  {
    if Line(text, i) == line then i else LineToChar(text, line, i + 1)
  }

  /** Where the slice of a line ends: after its line feed, or at the end of the text. */
  function LineEnd(text: string, line: nat): (k: nat)
    requires line < LenLines(text)
    ensures k <= |text|
  {
    if line + 1 < LenLines(text) then LineToChar(text, line + 1) else |text|
  }

  lemma LineHolds(text: string, line: nat, i: nat)
    requires i <= |text| && line < LenLines(text)
    ensures Line(text, i) == line ==> LineToChar(text, line) <= i
    ensures Line(text, i) == line ==> i < LineEnd(text, line) || i == |text|
    ensures line < Line(text, i) ==> LineEnd(text, line) <= i
  {
    var start := LineToChar(text, line);
    if i < start {
      SumsGrow(text, i, start - 1);
    }
    if line + 1 < LenLines(text) {
      var end := LineToChar(text, line + 1);
      if i < end {
        SumsGrow(text, i, end - 1);
      } else {
        SumsGrow(text, end, i);
      }
    } else {
      SumsGrow(text, i, |text|);
    }
  }

  // ----- byte_to_position -------------------------------------------------------

  /** `byte_to_position` */
  function ByteToPosition(text: string, byte: nat): Position {
    var b := if byte < LenBytes(text) then byte else LenBytes(text);
    var charIdx := ByteToChar(text, b);
    var line := Line(text, charIdx);
    LineIsThere(text, charIdx);
    var lineStart := LineToChar(text, line);
    LineHolds(text, line, charIdx);
    SumsGrow(text, lineStart, charIdx);
    Position(line, Units(text, charIdx) - Units(text, lineStart))
  }

  lemma LineIsThere(text: string, i: nat)
    requires i <= |text|
    ensures Line(text, i) < LenLines(text)
  {
    SumsGrow(text, i, |text|);
  }

  lemma ByteToCharAt(text: string, byte: nat, i: nat)
    requires i <= |text| && Bytes(text, i) <= byte && (i < |text| ==> byte < Bytes(text, i + 1))
    ensures ByteToChar(text, byte) == i
  {
    var k := ByteToChar(text, byte);
    if k < i {
      SumsGrow(text, k + 1, i);
    } else if i < k {
      SumsGrow(text, i + 1, k);
    }
  }

  // ----- position_to_byte -------------------------------------------------------

  /** Walks forward from `k` while whole characters fit into `remaining` units. */
  function Walk(text: string, k: nat, end: nat, remaining: nat): (j: nat)
    requires k <= end <= |text|
    ensures k <= j <= end && Units(text, j) <= Units(text, k) + remaining
    ensures j < end ==> Units(text, k) + remaining < Units(text, j + 1)
    decreases end - k
  {
    if k == end || remaining == 0 || Utf16(text[k]) > remaining then k
    else Walk(text, k + 1, end, remaining - Utf16(text[k]))
  }

  function PositionToByte(text: string, position: Position): nat {
    if position.line >= LenLines(text) then LenBytes(text)
    else
      var start := LineToChar(text, position.line);
      StartBeforeEnd(text, position.line);
      Bytes(text, Walk(text, start, LineEnd(text, position.line), position.character))
  }

  lemma StartBeforeEnd(text: string, line: nat)
    requires line < LenLines(text)
    ensures LineToChar(text, line) <= LineEnd(text, line)
  {
    LineHolds(text, line, LineToChar(text, line));
  }

  /** `position_to_byte`.  Every position has an answer: the code never returns `None`. */
  method FindByte(text: string, position: Position) returns (byte: nat)
    ensures byte == PositionToByte(text, position)
  {
    if position.line >= LenLines(text) {
      return LenBytes(text);
    }
    StartBeforeEnd(text, position.line);
    var start, end := LineToChar(text, position.line), LineEnd(text, position.line);
    var remaining := position.character;
    var byteWithinLine := 0;
    var k := start;
    while k < end
      invariant start <= k <= end
      invariant Bytes(text, start) + byteWithinLine == Bytes(text, k)
      invariant Walk(text, start, end, position.character) == Walk(text, k, end, remaining)
    {
      if remaining == 0 {
        break;
      }
      var units := Utf16(text[k]);
      if units > remaining {
        break;
      }
      remaining := remaining - units;
      byteWithinLine := byteWithinLine + Utf8(text[k]);
      k := k + 1;
    }
    byte := Bytes(text, start) + byteWithinLine;
  }

  // ----- Round trips and order --------------------------------------------------

  /** The start of the character that holds a byte; the end of the text for a byte past it. */
  function CharStart(text: string, byte: nat): nat {
    Bytes(text, ByteToChar(text, byte))
  }

  /** A byte comes back as the start of its character. */
  lemma ByteRoundTrip(text: string, byte: nat)
    ensures PositionToByte(text, ByteToPosition(text, byte)) == CharStart(text, byte)
  {
    var b := if byte < LenBytes(text) then byte else LenBytes(text);
    var i := ByteToChar(text, b);
    assert ByteToChar(text, byte) == i by {
      if byte >= LenBytes(text) {
        ByteToCharAt(text, byte, |text|);
        ByteToCharAt(text, b, |text|);
      }
    }
    var line := Line(text, i);
    LineIsThere(text, i);
    LineHolds(text, line, i);
    var start, end := LineToChar(text, line), LineEnd(text, line);
    SumsGrow(text, start, i);
    WalkArrives(text, start, end, i);
  }

  lemma WalkArrives(text: string, k: nat, end: nat, i: nat)
    requires k <= i <= end <= |text|
    requires Units(text, k) <= Units(text, i)
    ensures Walk(text, k, end, Units(text, i) - Units(text, k)) == i
  {
    var j := Walk(text, k, end, Units(text, i) - Units(text, k));
    if j < i {
      SumsGrow(text, j + 1, i);
    } else if i < j {
      SumsGrow(text, i, j);
    }
  }

  /** At every character boundary, the end of the text included, the byte itself comes back. */
  lemma BoundaryRoundTrip(text: string, i: nat)
    requires i <= |text|
    ensures PositionToByte(text, ByteToPosition(text, Bytes(text, i))) == Bytes(text, i)
  {
    ByteRoundTrip(text, Bytes(text, i));
    ByteToCharAt(text, Bytes(text, i), i);
  }

  /** Past the end of the text, the length comes back. */
  lemma PastEndRoundTrip(text: string, byte: nat)
    requires LenBytes(text) <= byte
    ensures PositionToByte(text, ByteToPosition(text, byte)) == LenBytes(text)
  {
    ByteRoundTrip(text, byte);
    ByteToCharAt(text, byte, |text|);
  }

  lemma ByteToPositionIsMonotone(text: string, a: nat, b: nat)
    requires a <= b
    ensures AtMost(ByteToPosition(text, a), ByteToPosition(text, b))
  {
    var x, y := if a < LenBytes(text) then a else LenBytes(text), if b < LenBytes(text) then b else LenBytes(text);
    var i, j := ByteToChar(text, x), ByteToChar(text, y);
    if j < i {
      SumsGrow(text, j + 1, i);
    }
    SumsGrow(text, i, j);
  }

  lemma PositionToByteIsMonotone(text: string, p: Position, q: Position)
    requires AtMost(p, q)
    ensures PositionToByte(text, p) <= PositionToByte(text, q)
  {
    if p.line < LenLines(text) {
      StartBeforeEnd(text, p.line);
      var start, end := LineToChar(text, p.line), LineEnd(text, p.line);
      var i := Walk(text, start, end, p.character);
      if q.line >= LenLines(text) {
        SumsGrow(text, i, |text|);
      } else {
        StartBeforeEnd(text, q.line);
        var from, to := LineToChar(text, q.line), LineEnd(text, q.line);
        var j := Walk(text, from, to, q.character);
        if p.line < q.line {
          LineHolds(text, p.line, from);
          SumsGrow(text, i, j);
        } else if j < i {
          SumsGrow(text, j + 1, i);
        } else {
          SumsGrow(text, i, j);
        }
      }
    }
  }

  // ----- What the units are ---------------------------------------------------------

  /** The UTF-16 form of a character: itself, or a surrogate pair (section 2.1 of RFC 2781). */
  function EncodeUtf16(c: char): seq<nat> {
    var n := c as int;
    if n < 0x10000 then [n] else [0xD800 + (n - 0x10000) / 0x400, 0xDC00 + (n - 0x10000) % 0x400]
  }

  /** Section 2.2 of RFC 2781. */
  function DecodeUtf16(units: seq<nat>): int
    requires units != []
  {
    if 0xD800 <= units[0] < 0xDC00 && |units| > 1 && 0xDC00 <= units[1] then
      0x10000 + (units[0] - 0xD800) * 0x400 + (units[1] - 0xDC00)
    else units[0]
  }

  /** A character takes as many units as its UTF-16 form has, each of 16 bits, and decodes from them. */
  lemma Utf16IsTheForm(c: char)
    ensures var units := EncodeUtf16(c);
            && |units| == Utf16(c) && (forall u :: u in units ==> u < 0x10000)
            && DecodeUtf16(units) == c as int
            && (|units| == 2 ==> 0xD800 <= units[0] < 0xDC00 <= units[1] < 0xE000)
  {
    if c as int >= 0x10000 {
      var n := c as int - 0x10000;
      assert n == n / 0x400 * 0x400 + n % 0x400;
    }
  }

  function Utf16Text(text: string): seq<nat> {
    if text == "" then [] else EncodeUtf16(text[0]) + Utf16Text(text[1..])
  }

  function LineFeeds(text: string): nat {
    if text == "" then 0 else (if text[0] == '\n' then 1 else 0) + LineFeeds(text[1..])
  }

  /** The sums up to a later character are those of the text in front and those of the part between. */
  lemma {:induction false} SumsOfPart(text: string, i: nat, j: nat)
    requires i <= j <= |text|
    ensures Units(text, j) == Units(text, i) + |Utf16Text(text[i..j])|
    ensures Line(text, j) == Line(text, i) + LineFeeds(text[i..j])
    ensures Bytes(text, j) == Bytes(text, i) + LenBytes(text[i..j])
    decreases j - i
  {
    if i == j {
      assert text[i..j] == "";
    } else {
      SumsOfPart(text, i + 1, j);
      assert text[i..j][1..] == text[i + 1..j] && text[i..j][0] == text[i];
      Utf16IsTheForm(text[i]);
      BytesOfCons(text[i..j]);
    }
  }

  lemma {:induction false} BytesOfCons(text: string)
    requires text != ""
    ensures LenBytes(text) == Utf8(text[0]) + LenBytes(text[1..])
  {
    if |text| == 1 {
      assert Bytes(text, 0) == 0 && LenBytes(text[1..]) == 0;
    } else {
      BytesOfTail(text, |text|);
    }
  }

  lemma {:induction false} BytesOfTail(text: string, i: nat)
    requires 1 <= i <= |text|
    ensures Bytes(text, i) == Utf8(text[0]) + Bytes(text[1..], i - 1)
  {
    if i == 1 {
      assert Bytes(text, 1) == Bytes(text, 0) + Utf8(text[0]);
    } else {
      BytesOfTail(text, i - 1);
      assert text[1..][i - 2] == text[i - 1];
    }
  }

  /**
   The position of a byte, told from the text: the line feeds in front of its line, and the UTF-16
   units of the part of the line in front of it.
   */
  lemma PositionIs(text: string, start: nat, i: nat)
    requires start <= i <= |text| && (start == 0 || text[start - 1] == '\n')
    requires forall k :: start <= k < i ==> text[k] != '\n'
    ensures ByteToPosition(text, LenBytes(text[0..i]))
            == Position(LineFeeds(text[0..start]), |Utf16Text(text[start..i])|)
  {
    FrontIs(text, start);
    FrontIs(text, i);
    UnitsAre(text, start, i);
    SameLine(text, start, i);
    PositionOnLine(text, start, i);
  }

  lemma PositionOnLine(text: string, start: nat, i: nat)
    requires start <= i <= |text| && Line(text, start) == Line(text, i)
    requires start == 0 || text[start - 1] == '\n'
    ensures Units(text, start) <= Units(text, i)
    ensures ByteToPosition(text, Bytes(text, i)) == Position(Line(text, i), Units(text, i) - Units(text, start))
  {
    LineIsThere(text, i);
    LineStartsAt(text, start, Line(text, i));
    SumsGrow(text, start, i);
    CharAtBoundary(text, i);
    PositionFrom(text, Bytes(text, i), start, i);
  }

  lemma PositionFrom(text: string, byte: nat, start: nat, i: nat)
    requires start <= i <= |text| && byte <= LenBytes(text) && ByteToChar(text, byte) == i
    requires Line(text, i) < LenLines(text) && LineToChar(text, Line(text, i)) == start
    requires Units(text, start) <= Units(text, i)
    ensures ByteToPosition(text, byte) == Position(Line(text, i), Units(text, i) - Units(text, start))
  {
  }

  lemma CharAtBoundary(text: string, i: nat)
    requires i <= |text|
    ensures Bytes(text, i) <= LenBytes(text) && ByteToChar(text, Bytes(text, i)) == i
  {
    SumsGrow(text, i, |text|);
    ByteToCharAt(text, Bytes(text, i), i);
  }

  lemma LineStartsAt(text: string, start: nat, line: nat)
    requires start <= |text| && Line(text, start) == line < LenLines(text)
    requires start == 0 || text[start - 1] == '\n'
    ensures LineToChar(text, line) == start
  {
    StartIsUnique(text, LineToChar(text, line), start);
  }

  /** A line has one start: before it the count of line feeds is smaller. */
  lemma StartIsUnique(text: string, k: nat, start: nat)
    requires k <= |text| && start <= |text| && Line(text, k) == Line(text, start)
    requires k == 0 || Line(text, k - 1) < Line(text, k)
    requires start == 0 || Line(text, start - 1) < Line(text, start)
    ensures k == start
  {
    if k < start {
      SumsGrow(text, k, start - 1);
    } else if start < k {
      SumsGrow(text, start, k - 1);
    }
  }

  /**
   The byte of a position, told from the text: on its line, in front of the first character that its
   units do not reach past, or behind the line feed of the line, or at the end of the text.
   */
  lemma ByteIs(text: string, start: nat, j: nat, character: nat)
    requires start <= j <= |text| && (start == 0 || text[start - 1] == '\n')
    requires forall k :: start <= k < j - 1 ==> text[k] != '\n'
    requires |Utf16Text(text[start..j])| <= character
    requires || j == |text| || (j > start && text[j - 1] == '\n')
             || character < |Utf16Text(text[start..j + 1])|
    ensures PositionToByte(text, Position(LineFeeds(text[0..start]), character)) == LenBytes(text[0..j])
  {
    FrontIs(text, start);
    FrontIs(text, j);
    UnitsAre(text, start, j);
    if j < |text| {
      UnitsAre(text, start, j + 1);
    }
    ByteOnLine(text, start, j, Line(text, start), character);
  }

  lemma FrontIs(text: string, i: nat)
    requires i <= |text|
    ensures Line(text, i) == LineFeeds(text[0..i]) && Bytes(text, i) == LenBytes(text[0..i])
  {
    SumsOfPart(text, 0, i);
  }

  lemma UnitsAre(text: string, i: nat, j: nat)
    requires i <= j <= |text|
    ensures Units(text, j) == Units(text, i) + |Utf16Text(text[i..j])|
  {
    SumsOfPart(text, i, j);
  }

  lemma ByteOnLine(text: string, start: nat, j: nat, line: nat, character: nat)
    requires start <= j <= |text| && (start == 0 || text[start - 1] == '\n') && Line(text, start) == line
    requires forall k :: start <= k < j - 1 ==> text[k] != '\n'
    requires Units(text, j) <= Units(text, start) + character
    requires || j == |text| || (j > start && text[j - 1] == '\n')
             || Units(text, start) + character < Units(text, j + 1)
    ensures PositionToByte(text, Position(line, character)) == Bytes(text, j)
  {
    LineIsThere(text, start);
    LineStartsAt(text, start, line);
    StartBeforeEnd(text, line);
    LineReaches(text, start, j, line);
    if j > start && text[j - 1] == '\n' {
      LineFeedEnds(text, start, j, line);
    }
    WalkStops(text, start, j, LineEnd(text, line), character);
    ByteFrom(text, start, j, line, character);
  }

  lemma ByteFrom(text: string, start: nat, j: nat, line: nat, character: nat)
    requires start <= j <= |text| && line < LenLines(text) && LineToChar(text, line) == start
    requires start <= LineEnd(text, line) && Walk(text, start, LineEnd(text, line), character) == j
    ensures PositionToByte(text, Position(line, character)) == Bytes(text, j)
  {
  }

  /** The line goes on to `j`. */
  lemma LineReaches(text: string, start: nat, j: nat, line: nat)
    requires start <= j <= |text| && Line(text, start) == line < LenLines(text) && start <= LineEnd(text, line)
    requires forall k :: start <= k < j - 1 ==> text[k] != '\n'
    ensures j <= LineEnd(text, line)
  {
    if start < j {
      SameLine(text, start, j - 1);
      LineHolds(text, line, j - 1);
    }
  }

  /** And ends there if a line feed comes before it. */
  lemma LineFeedEnds(text: string, start: nat, j: nat, line: nat)
    requires start < j <= |text| && Line(text, start) == line < LenLines(text) && j <= LineEnd(text, line)
    requires text[j - 1] == '\n'
    ensures LineEnd(text, line) == j
  {
    SumsGrow(text, start, j - 1);
    assert Line(text, j) == Line(text, j - 1) + 1;
    LineHolds(text, line, j);
  }

  lemma {:induction false} SameLine(text: string, start: nat, j: nat)
    requires start <= j <= |text| && forall k :: start <= k < j ==> text[k] != '\n'
    ensures Line(text, j) == Line(text, start)
  {
    if start < j {
      SameLine(text, start, j - 1);
    }
  }

  /** The walk goes on while characters fit. */
  lemma WalkStops(text: string, start: nat, j: nat, end: nat, character: nat)
    requires start <= j <= end <= |text| && Units(text, j) <= Units(text, start) + character
    requires j == end || Units(text, start) + character < Units(text, j + 1)
    ensures Walk(text, start, end, character) == j
  {
    var w := Walk(text, start, end, character);
    if w < j {
      SumsGrow(text, w + 1, j);
    } else if j < w {
      SumsGrow(text, j + 1, w);
    }
  }

  /** A line behind the last one stands for the end of the text. */
  lemma BytePastLines(text: string, position: Position)
    requires position.line > LineFeeds(text)
    ensures PositionToByte(text, position) == LenBytes(text)
  {
    SumsOfPart(text, 0, |text|);
    assert text[0..|text|] == text;
  }
}
