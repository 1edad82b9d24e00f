/** `apply_edits` of `lsp/src/rename.rs`. */
module TextEdits {
  // A file's text edits are resolved to UTF-8 byte ranges and spliced from right to left (LSP 3.17,
  // "TextEdit[]").
  //
  // `Simultaneous` is what the edits mean: the untouched gaps and the new texts, from left to right.

  import opened Order
  import opened Positions

  type Byte = n: nat | n < 256

  /** The UTF-8 form of a text (section 3 of RFC 3629). */
  function EncodeChar(c: char): (r: seq<Byte>)
    ensures |r| == Utf8(c)
  {
    var n := c as int;
    if n < 0x80 then [n]
    else if n < 0x800 then [0xC0 + n / 64, 0x80 + n % 64]
    else if n < 0x10000 then [0xE0 + n / 4096, 0x80 + n / 64 % 64, 0x80 + n % 64]
    else [0xF0 + n / 262144, 0x80 + n / 4096 % 64, 0x80 + n / 64 % 64, 0x80 + n % 64]
  }

  function Encode(text: string): (r: seq<Byte>)
    ensures |r| == LenBytes(text)
  {
    if text == "" then []
    else
      var front := text[..|text| - 1];
      SamePrefixSums(front, text, |front|);
      Encode(front) + EncodeChar(text[|text| - 1])
  }

  lemma {:induction false} SamePrefixSums(s: string, t: string, i: nat)
    requires i <= |s| && i <= |t| && s[..i] == t[..i]
    ensures Bytes(s, i) == Bytes(t, i)
  {
    if i <= 0 {
    } else {
      assert s[i - 1] == s[..i][i - 1] == t[i - 1];
      assert s[..i - 1] == s[..i][..i - 1] == t[..i - 1];
      SamePrefixSums(s, t, i - 1);
    }
  }

  /** How long a form is, by its first byte (section 3 of RFC 3629). */
  function FormLength(first: Byte): nat {
    if first < 0x80 then 1 else if first < 0xE0 then 2 else if first < 0xF0 then 3 else 4
  }

  /** What a form stands for: the free bits of the first byte, then six of each that follows. */
  function DecodeForm(b: seq<Byte>): int
    requires b != [] && |b| == FormLength(b[0])
  {
    if |b| == 1 then b[0]
    else if |b| == 2 then (b[0] as int - 0xC0) * 64 + Six(b[1])
    else if |b| == 3 then ((b[0] as int - 0xE0) * 64 + Six(b[1])) * 64 + Six(b[2])
    else (((b[0] as int - 0xF0) * 64 + Six(b[1])) * 64 + Six(b[2])) * 64 + Six(b[3])
  }

  function Six(b: Byte): int {
    b as int - 0x80
  }

  lemma EncodedCharDecodes(c: char)
    ensures var b := EncodeChar(c);
            && |b| == FormLength(b[0]) && DecodeForm(b) == c as int
            && forall i :: 1 <= i < |b| ==> 0x80 <= b[i] < 0xC0
  {
    SixBits(c as int);
    SixBits(c as int / 64);
    SixBits(c as int / 4096);
  }

  lemma SixBits(n: nat)
    ensures n == n / 64 * 64 + n % 64 && n / 64 / 64 == n / 4096 && n / 4096 / 64 == n / 262144
  {
  }

  function CodePoints(text: string): seq<int> {
    if text == "" then [] else [text[0] as int] + CodePoints(text[1..])
  }

  /** Reads the forms from left to right; a form that is cut off is left out. */
  function Decode(b: seq<Byte>): seq<int>
    decreases |b|
  {
    if b == [] || |b| < FormLength(b[0]) then []
    else [DecodeForm(b[..FormLength(b[0])])] + Decode(b[FormLength(b[0])..])
  }

  lemma {:induction false} EncodeTwo(text: string, front: string, back: string)
    requires text == front + back
    ensures Encode(text) == Encode(front) + Encode(back)
  {
    if back == "" {
      assert text == front;
    } else {
      var n, m := |text| - 1, |back| - 1;
      EncodeTwo(text[..n], front, back[..m]);
      Associates(Encode(front), Encode(back[..m]), EncodeChar(back[m]));
    }
  }

  lemma Associates<T>(a: seq<T>, b: seq<T>, c: seq<T>)
    ensures (a + b) + c == a + (b + c)
  {
  }

  lemma EncodeCons(text: string, rest: string)
    requires text != "" && rest == text[1..]
    ensures Encode(text) == EncodeChar(text[0]) + Encode(rest)
  {
    EncodeTwo(text, [text[0]], rest);
    EncodeOne([text[0]], text[0]);
  }

  lemma EncodeOne(text: string, c: char)
    requires text == [c]
    ensures Encode(text) == EncodeChar(c)
  {
    assert text[..0] == "" && Encode("") == [];
  }

  /** The UTF-8 form of a text decodes to the text. */
  lemma {:induction false} EncodedTextDecodes(text: string)
    ensures Decode(Encode(text)) == CodePoints(text)
  {
    if text == "" {
    } else {
      var one, rest := EncodeChar(text[0]), Encode(text[1..]);
      EncodeCons(text, text[1..]);
      EncodedCharDecodes(text[0]);
      assert (one + rest)[..|one|] == one && (one + rest)[|one|..] == rest;
      EncodedTextDecodes(text[1..]);
    }
  }

  datatype TextEdit = TextEdit(start: Position, end: Position, newText: string)
  datatype Splice = Splice(start: nat, end: nat, bytes: seq<Byte>)

  function ResolveOne(text: string, e: TextEdit): Splice {
    Splice(PositionToByte(text, e.start), PositionToByte(text, e.end), Encode(e.newText))
  }

  /** The byte ranges of the edits; an edit whose end comes before its start is dropped. */
  function Resolve(text: string, edits: seq<TextEdit>): (r: seq<Splice>)
    ensures forall s :: s in r ==> s.start <= s.end
  {
    if edits == [] then []
    else
      var s := ResolveOne(text, edits[|edits| - 1]);
      Resolve(text, edits[..|edits| - 1]) + if s.start <= s.end then [s] else []
  }

  // ----- sort_by_key(Reverse(start)) ----------------------------------------------

  predicate StartsLater(a: Splice, b: Splice) {
    a.start > b.start
  }

  /** A stable sort, largest start first. */
  function SortByStart(splices: seq<Splice>): seq<Splice> {
    SortBy(splices, StartsLater)
  }

  ghost predicate Descending(splices: seq<Splice>) {
    forall i, j :: 0 <= i < j < |splices| ==> splices[i].start > splices[j].start
  }

  ghost predicate DistinctStarts(splices: seq<Splice>) {
    forall i, j :: 0 <= i < j < |splices| ==> splices[i].start != splices[j].start
  }

  lemma DescendingSnoc(sorted: seq<Splice>, s: Splice)
    requires Descending(sorted) && forall x :: x in sorted ==> x.start > s.start
    ensures Descending(sorted + [s])
  {
  }

  lemma {:induction false} InsertKeepsDescending(sorted: seq<Splice>, s: Splice)
    requires Descending(sorted) && forall x :: x in sorted ==> x.start != s.start
    ensures Descending(InsertBy(sorted, s, StartsLater))
  {
    if sorted == [] {
    } else {
      var front, last := sorted[..|sorted| - 1], sorted[|sorted| - 1];
      if StartsLater(s, last) {
        InsertKeepsDescending(front, s);
        forall x | x in InsertBy(front, s, StartsLater)
          ensures x.start > last.start
        {
          InsertByHolds(front, s, StartsLater, x);
        }
        DescendingSnoc(InsertBy(front, s, StartsLater), last);
      } else {
        DescendingSnoc(sorted, s);
      }
    }
  }

  lemma SortHolds(splices: seq<Splice>)
    ensures Elements(SortByStart(splices)) == Elements(splices)
  {
    forall s
      ensures s in SortByStart(splices) <==> s in splices
    {
      SortByHolds(splices, StartsLater, s);
    }
  }

  lemma {:induction false} SortSortsStarts(splices: seq<Splice>)
    requires DistinctStarts(splices)
    ensures Descending(SortByStart(splices))
  {
    if splices == [] {
    } else {
      var front, last := splices[..|splices| - 1], splices[|splices| - 1];
      SortSortsStarts(front);
      SortHolds(front);
      forall x | x in SortByStart(front)
        ensures x.start != last.start
      {
        assert x in Elements(SortByStart(front));
        var i :| 0 <= i < |front| && front[i] == x;
        assert splices[i] == x;
      }
      InsertKeepsDescending(SortByStart(front), last);
    }
  }

  /** A set of splices has one descending listing. */
  lemma {:induction false} DescendingIsUnique(a: seq<Splice>, b: seq<Splice>)
    requires Descending(a) && Descending(b) && Elements(a) == Elements(b)
    ensures a == b
  {
    assert b != [] ==> b[0] in Elements(b);
    if a == [] {
    } else {
      assert a[0] in Elements(b) && a[0] in b;
      assert b[0] in Elements(a) && b[0] in a;
      assert a[0] == b[0];
      assert Elements(a[1..]) == Elements(a) - {a[0]};
      assert Elements(b[1..]) == Elements(b) - {b[0]};
      DescendingIsUnique(a[1..], b[1..]);
    }
  }

  // ----- Splicing -----------------------------------------------------------------

  /** The splices in the order given, each skipped when it ends past the text. */
  function SpliceAll(text: seq<Byte>, splices: seq<Splice>): seq<Byte> {
    if splices == [] then text
    else
      var last := splices[|splices| - 1];
      var before := SpliceAll(text, splices[..|splices| - 1]);
      if last.start <= last.end <= |before| then before[..last.start] + last.bytes + before[last.end..]
      else before
  }

  /** `apply_edits`, as the bytes of the post-edit text. */
  method ApplyEdits(text: string, edits: seq<TextEdit>) returns (out: seq<Byte>)
    ensures out == SpliceAll(Encode(text), SortByStart(Resolve(text, edits)))
  {
    var resolved: seq<Splice> := [];
    for i := 0 to |edits|
      invariant resolved == Resolve(text, edits[..i])
    {
      assert edits[..i + 1][..i] == edits[..i];
      var start := FindByte(text, edits[i].start);
      var end := FindByte(text, edits[i].end);
      assert ResolveOne(text, edits[i]) == Splice(start, end, Encode(edits[i].newText));
      if start <= end {
        resolved := resolved + [Splice(start, end, Encode(edits[i].newText))];
      }
    }
    assert edits[..|edits|] == edits;
    SortHolds(resolved);
    var sorted := SortByStart(resolved);
    forall s | s in sorted
      ensures s.start <= s.end
    {
      assert s in Elements(sorted);
    }
    out := SpliceInPlace(Encode(text), sorted);
  }

  /** The splice loop. */
  method SpliceInPlace(text: seq<Byte>, sorted: seq<Splice>) returns (out: seq<Byte>)
    requires forall s :: s in sorted ==> s.start <= s.end
    ensures out == SpliceAll(text, sorted)
  {
    out := text;
    for i := 0 to |sorted|
      invariant out == SpliceAll(text, sorted[..i])
    {
      assert sorted[..i + 1][..i] == sorted[..i];
      var s := sorted[i];
      assert s in sorted;
      if s.end <= |out| {
        out := out[..s.start] + s.bytes + out[s.end..];
      }
    }
    assert sorted[..|sorted|] == sorted;
  }

  // ----- What the edits mean --------------------------------------------------------

  /** From right to left, each splice ends where or before the one to its right starts. */
  ghost predicate Apart(text: seq<Byte>, splices: seq<Splice>) {
    && (forall i :: 0 <= i < |splices| ==> splices[i].start <= splices[i].end <= |text|)
    && (forall i, j :: 0 <= i < j < |splices| ==> splices[j].end <= splices[i].start)
  }

  /** The text from `from` on, with the splices (rightmost first) replaced all at once. */
  function Simultaneous(text: seq<Byte>, from: nat, splices: seq<Splice>): seq<Byte>
    requires Apart(text, splices) && from <= |text|
    requires splices != [] ==> from <= splices[|splices| - 1].start
    decreases |splices|
  {
    if splices == [] then text[from..]
    else
      var first := splices[|splices| - 1];
      text[from..first.start] + first.bytes + Simultaneous(text, first.end, splices[..|splices| - 1])
  }

  lemma ConcatAssociates(a: seq<Byte>, b: seq<Byte>, c: seq<Byte>, d: seq<Byte>)
    ensures a + b + c + d == a + (b + c + d)
  {
  }

  /** Starting earlier only puts more of the untouched text in front. */
  lemma SimultaneousFromEarlier(text: seq<Byte>, from: nat, to: nat, splices: seq<Splice>)
    requires Apart(text, splices) && from <= to <= |text|
    requires splices != [] ==> to <= splices[|splices| - 1].start
    ensures Simultaneous(text, from, splices) == text[from..to] + Simultaneous(text, to, splices)
  {
    if splices == [] {
      assert text[from..] == text[from..to] + text[to..];
    } else {
      var first := splices[|splices| - 1];
      var rest := Simultaneous(text, first.end, splices[..|splices| - 1]);
      assert text[from..first.start] == text[from..to] + text[to..first.start];
      ConcatAssociates(text[from..to], text[to..first.start], first.bytes, rest);
    }
  }

  /** Right-to-left splicing of separate edits is the simultaneous replacement; no edit is skipped. */
  lemma {:induction false} SpliceAllIsSimultaneous(text: seq<Byte>, splices: seq<Splice>)
    requires Apart(text, splices)
    ensures SpliceAll(text, splices) == Simultaneous(text, 0, splices)
    ensures splices != [] ==> splices[|splices| - 1].end <= |SpliceAll(text, splices[..|splices| - 1])|
  {
    if splices == [] {
      assert text[0..] == text;
    } else {
      var last, right := splices[|splices| - 1], splices[..|splices| - 1];
      SpliceAllIsSimultaneous(text, right);
      SimultaneousFromEarlier(text, 0, last.end, right);
      var tail := Simultaneous(text, last.end, right);
      var before := text[0..last.end] + tail;
      assert before[..last.start] == text[0..last.start];
      assert before[last.end..] == tail;
    }
  }

  /** No two edits share a start or overlap. */
  ghost predicate Separate(splices: seq<Splice>) {
    && DistinctStarts(splices)
    && forall i, j :: 0 <= i < j < |splices| ==>
         splices[i].end <= splices[j].start || splices[j].end <= splices[i].start
  }

  /** Sorting separate edits puts them in splicing order. */
  lemma SortedIsApart(text: seq<Byte>, splices: seq<Splice>)
    requires Separate(splices)
    requires forall x :: x in splices ==> x.start <= x.end <= |text|
    ensures Apart(text, SortByStart(splices))
  {
    var sorted := SortByStart(splices);
    SortHolds(splices);
    SortSortsStarts(splices);
    forall i | 0 <= i < |sorted|
      ensures sorted[i] in splices
    {
      assert sorted[i] in Elements(sorted);
    }
    forall i, j | 0 <= i < j < |sorted|
      ensures sorted[j].end <= sorted[i].start
    {
      var k :| 0 <= k < |splices| && splices[k] == sorted[i];
      var l :| 0 <= l < |splices| && splices[l] == sorted[j];
      assert k != l;
    }
  }

  lemma PositionInText(text: string, p: Position)
    ensures PositionToByte(text, p) <= LenBytes(text)
  {
    if p.line < LenLines(text) {
      StartBeforeEnd(text, p.line);
      SumsGrow(text, Walk(text, LineToChar(text, p.line), LineEnd(text, p.line), p.character), |text|);
    }
  }

  lemma {:induction false} ResolvedInText(text: string, edits: seq<TextEdit>)
    ensures forall x :: x in Resolve(text, edits) ==> x.start <= x.end <= LenBytes(text)
  {
    if edits == [] {
    } else {
      ResolvedInText(text, edits[..|edits| - 1]);
      PositionInText(text, edits[|edits| - 1].end);
    }
  }

  /** On separate edits, what `apply_edits` returns is the simultaneous replacement. */
  lemma EditsMeanSimultaneousReplacement(text: string, edits: seq<TextEdit>)
    requires Separate(Resolve(text, edits))
    ensures var sorted := SortByStart(Resolve(text, edits));
            && Apart(Encode(text), sorted)
            && SpliceAll(Encode(text), sorted) == Simultaneous(Encode(text), 0, sorted)
  {
    ResolvedInText(text, edits);
    SortedIsApart(Encode(text), Resolve(text, edits));
    SpliceAllIsSimultaneous(Encode(text), SortByStart(Resolve(text, edits)));
  }

  /** An edit whose range does not run backwards is resolved, so none of them is dropped. */
  lemma {:induction false} ForwardEditsAreKept(text: string, edits: seq<TextEdit>)
    requires forall e :: e in edits ==> AtMost(e.start, e.end)
    ensures |Resolve(text, edits)| == |edits|
    ensures forall e :: e in edits ==> ResolveOne(text, e) in Resolve(text, edits)
  {
    if edits == [] {
    } else {
      var e := edits[|edits| - 1];
      assert e in edits;
      ForwardEditsAreKept(text, edits[..|edits| - 1]);
      PositionToByteIsMonotone(text, e.start, e.end);
    }
    forall e | e in edits
      ensures ResolveOne(text, e) in Resolve(text, edits)
    {
      PositionToByteIsMonotone(text, e.start, e.end);
      ResolveHolds(text, edits, ResolveOne(text, e));
    }
  }

  // ----- The order of the edit list does not matter -----------------------------------

  lemma {:induction false} ResolveHolds(text: string, edits: seq<TextEdit>, s: Splice)
    ensures s in Resolve(text, edits)
            <==> s.start <= s.end && exists e :: e in edits && ResolveOne(text, e) == s
  {
    if edits == [] {
    } else {
      var front, e := edits[..|edits| - 1], edits[|edits| - 1];
      ResolveHolds(text, front, s);
      assert edits == front + [e];
    }
  }

  /** Two lists of the same separate edits, in whatever order, are spliced in the same order. */
  lemma EditOrderDoesNotMatter(text: string, a: seq<TextEdit>, b: seq<TextEdit>)
    requires Elements(a) == Elements(b)
    requires Separate(Resolve(text, a)) && Separate(Resolve(text, b))
    ensures SortByStart(Resolve(text, a)) == SortByStart(Resolve(text, b))
  {
    var r, q := Resolve(text, a), Resolve(text, b);
    assert forall e :: e in a <==> e in Elements(a);
    assert forall e :: e in b <==> e in Elements(b);
    forall s
      ensures s in r <==> s in q
    {
      ResolveHolds(text, a, s);
      ResolveHolds(text, b, s);
    }
    assert Elements(r) == Elements(q);
    SortHolds(r);
    SortHolds(q);
    SortSortsStarts(r);
    SortSortsStarts(q);
    DescendingIsUnique(SortByStart(r), SortByStart(q));
  }

  // ----- One edit, told from the texts --------------------------------------------------

  lemma EncodePrefix(text: string, front: string, back: string, i: nat)
    requires i <= |text| && front == text[..i] && back == text[i..]
    ensures |Encode(front)| == Bytes(text, i)
    ensures Encode(text) == Encode(front) + Encode(back)
  {
    PrefixBytes(front, text, i);
    EncodeTwo(text, front, back);
  }

  lemma PrefixBytes(front: string, text: string, i: nat)
    requires i <= |text| && front == text[..i]
    ensures LenBytes(front) == Bytes(text, i)
  {
    SamePrefixSums(front, text, i);
  }

  /** Replacing the characters from `i` to `j`. */
  function Replacing(text: string, i: nat, j: nat, newText: string): TextEdit
    requires i <= j <= |text|
  {
    TextEdit(ByteToPosition(text, Bytes(text, i)), ByteToPosition(text, Bytes(text, j)), newText)
  }

  lemma ReplacingResolves(text: string, i: nat, j: nat, newText: string)
    requires i <= j <= |text|
    ensures SortByStart(Resolve(text, [Replacing(text, i, j, newText)]))
            == [Splice(Bytes(text, i), Bytes(text, j), Encode(newText))]
  {
    var e := Replacing(text, i, j, newText);
    var s := Splice(Bytes(text, i), Bytes(text, j), Encode(newText));
    BoundaryRoundTrip(text, i);
    BoundaryRoundTrip(text, j);
    SumsGrow(text, i, j);
    assert [e][..0] == [] && Resolve(text, []) == [];
    assert Resolve(text, [e]) == [s];
    assert [s][..0] == [] && SortBy([], StartsLater) == [];
    assert SortByStart([s]) == InsertBy([], s, StartsLater);
  }

  /** The bytes after an edit of some characters are those of the text with the characters replaced. */
  lemma OneEditReplaces(text: string, i: nat, j: nat, newText: string)
    requires i <= j <= |text|
    ensures SpliceAll(Encode(text), SortByStart(Resolve(text, [Replacing(text, i, j, newText)])))
            == Encode(text[..i] + newText + text[j..])
  {
    var s := Splice(Bytes(text, i), Bytes(text, j), Encode(newText));
    ReplacingResolves(text, i, j, newText);
    EncodePrefix(text, text[..i], text[i..], i);
    EncodePrefix(text, text[..j], text[j..], j);
    SumsGrow(text, i, j);
    SpliceOne(Encode(text), s);
    CutAround(Encode(text), Encode(text[..i]), Encode(text[i..]), Encode(text[..j]), Encode(text[j..]));
    EncodeTwo(text[..i] + newText, text[..i], newText);
    EncodeTwo(text[..i] + newText + text[j..], text[..i] + newText, text[j..]);
  }

  lemma CutAround(all: seq<Byte>, a: seq<Byte>, b: seq<Byte>, c: seq<Byte>, d: seq<Byte>)
    requires all == a + b && all == c + d
    ensures all[..|a|] == a && all[|c|..] == d
  {
    assert (a + b)[..|a|] == a && (c + d)[|c|..] == d;
  }

  lemma SpliceOne(bytes: seq<Byte>, s: Splice)
    requires s.start <= s.end <= |bytes|
    ensures SpliceAll(bytes, [s]) == bytes[..s.start] + s.bytes + bytes[s.end..]
  {
    assert [s][..0] == [] && SpliceAll(bytes, []) == bytes;
  }
}
