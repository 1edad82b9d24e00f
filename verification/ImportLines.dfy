/** The import lines of a source text, as `cli/src/fix_imports.rs` reads and writes them. */
module ImportLines {
  // What `fix-imports` writes reads back as it was meant.

  import opened Outcome
  import opened Chars
  import opened ImportEdges
  import Dotted

  // ----- Lines of a text ------------------------------------------------------------

  function IndexOf(s: string, c: char): (k: nat)
    ensures k <= |s|
    ensures forall i :: 0 <= i < k ==> s[i] != c
    ensures k < |s| ==> s[k] == c
  {
    if s == "" || s[0] == c then 0 else 1 + IndexOf(s[1..], c)
  }

  function StripCr(line: string): string {
    if Dotted.EndsWith(line, "\r") then line[..|line| - 1] else line
  }

  /** `str::lines`: an unterminated last line counts, and keeps its carriage return. */
  function Lines(text: string): seq<string>
    decreases |text|
  {
    if text == "" then []
    else
      var k := IndexOf(text, '\n');
      if k == |text| then [text] else [StripCr(text[..k])] + Lines(text[k + 1..])
  }

  /** `lines.join("\n")`, then a newline if the old text ended in one. */
  function Text(lines: seq<string>, terminated: bool): string {
    if lines == [] then (if terminated then "\n" else "")
    else if |lines| == 1 then lines[0] + (if terminated then "\n" else "")
    else lines[0] + "\n" + Text(lines[1..], terminated)
  }

  predicate OneLine(line: string) {
    '\n' !in line
  }

  /** Line lists that a text can be split into. */
  predicate Splittable(lines: seq<string>, terminated: bool) {
    && (forall i :: 0 <= i < |lines| ==> OneLine(lines[i]))
    && (if terminated then lines != [] else lines != [] ==> lines[|lines| - 1] != "")
  }

  lemma FirstLineIsOneLine(text: string)
    ensures OneLine(text[..IndexOf(text, '\n')])
    ensures OneLine(StripCr(text[..IndexOf(text, '\n')]))
  {
  }

  lemma EndOfTail(text: string, k: nat)
    requires k < |text| && text[k] == '\n'
    ensures Dotted.EndsWith(text, "\n") <==> k + 1 == |text| || Dotted.EndsWith(text[k + 1..], "\n")
  {
  }

  lemma SplittableCons(line: string, rest: seq<string>, terminated: bool)
    requires OneLine(line) && if rest == [] then terminated else Splittable(rest, terminated)
    ensures Splittable([line] + rest, terminated)
  {
  }

  lemma {:induction false} LinesAreSplittable(text: string)
    ensures Splittable(Lines(text), Dotted.EndsWith(text, "\n"))
    ensures text != "" ==> Lines(text) != []
    decreases |text|
  {
    if text == "" {
    } else {
      var k := IndexOf(text, '\n');
      FirstLineIsOneLine(text);
      if k < |text| {
        LinesAreSplittable(text[k + 1..]);
        EndOfTail(text, k);
        SplittableCons(StripCr(text[..k]), Lines(text[k + 1..]), Dotted.EndsWith(text, "\n"));
      } else {
        assert text[..k] == text;
      }
    }
  }

  predicate SameButCr(a: string, b: string) {
    a == b || a == StripCr(b)
  }

  lemma LinesOfFirst(line: string, rest: string)
    requires OneLine(line)
    ensures Lines(line + "\n" + rest) == [StripCr(line)] + Lines(rest)
  {
    var text := line + "\n" + rest;
    assert text[|line|] == '\n';
    assert forall i :: 0 <= i < |line| ==> text[i] == line[i] && text[i] != '\n';
    assert IndexOf(text, '\n') == |line|;
    assert text[..|line|] == line && text[|line| + 1..] == rest;
  }

  ghost predicate SameButCrs(a: seq<string>, b: seq<string>) {
    |a| == |b| && forall i :: 0 <= i < |b| ==> SameButCr(a[i], b[i])
  }

  lemma SameButCrsCons(x: string, a: seq<string>, y: string, b: seq<string>)
    requires SameButCr(x, y) && SameButCrs(a, b)
    ensures SameButCrs([x] + a, [y] + b)
  {
  }

  /** Joined lines split into the same lines, but for a carriage return at an end. */
  lemma {:induction false} LinesOfText(lines: seq<string>, terminated: bool)
    requires Splittable(lines, terminated)
    ensures SameButCrs(Lines(Text(lines, terminated)), lines)
  {
    if |lines| == 1 {
      if terminated {
        LinesOfFirst(lines[0], "");
        assert lines[0] + "\n" + "" == lines[0] + "\n";
      } else {
        assert lines[0] + "" == lines[0];
        assert OneLine(lines[0]);
      }
    } else if lines != [] {
      assert Splittable(lines[1..], terminated);
      LinesOfText(lines[1..], terminated);
      LinesOfFirst(lines[0], Text(lines[1..], terminated));
      SameButCrsCons(StripCr(lines[0]), Lines(Text(lines[1..], terminated)), lines[0], lines[1..]);
      assert lines == [lines[0]] + lines[1..];
    }
  }

  /** A line ends at a line feed, together with a carriage return in front of it, or at the end of the text. */
  lemma LineEndings(line: string, rest: string)
    requires OneLine(line)
    ensures Lines(line + "\r\n" + rest) == [line] + Lines(rest)
    ensures !Dotted.EndsWith(line, "\r") ==> Lines(line + "\n" + rest) == [line] + Lines(rest)
    ensures line != "" ==> Lines(line) == [line]
  {
    LinesOfFirst(line, rest);
    CrIsStripped(line);
    LinesOfFirst(line + "\r", rest);
    CrLfSplits(line, rest);
  }

  lemma CrIsStripped(line: string)
    ensures StripCr(line + "\r") == line && (OneLine(line) ==> OneLine(line + "\r"))
  {
    assert (line + "\r")[|line|..] == "\r";
  }

  lemma CrLfSplits(line: string, rest: string)
    ensures line + "\r" + "\n" + rest == line + "\r\n" + rest
  {
    assert line + "\r" + "\n" == line + "\r\n";
  }

  /** A carriage return at the end of a line is trimmed with the rest. */
  lemma TrimForgetsCr(a: string, b: string)
    requires SameButCr(a, b)
    ensures Trim(a) == Trim(b)
  {
    if a != b {
      assert b == a + ['\r'];
      TrimStartSnoc(a, '\r');
    }
  }

  // ----- Reading an import line ----------------------------------------------------

  function Keep(item: string): seq<string> {
    if item == "" then [] else [item]
  }

  /** `split(',')`, each part trimmed, empty parts dropped. */
  function ItemsOf(s: string): seq<string>
    decreases |s|
  {
    var k := IndexOf(s, ',');
    if k == |s| then Keep(Trim(s)) else Keep(Trim(s[..k])) + ItemsOf(s[k + 1..])
  }

  /** `find(".{")`; the length when there is none. */
  function FindOpen(s: string): (k: nat)
    ensures k <= |s|
    ensures k < |s| ==> k + 1 < |s|
  {
    if |s| < 2 then |s|
    else if s[0] == '.' && s[1] == '{' then 0
    else 1 + FindOpen(s[1..])
  }

  /** The part in front of the semicolon. */
  function ParseBody(body: string): Option<ImportEdge> {
    var open := FindOpen(body);
    if open == |body| || !Dotted.EndsWith(body[open + 2..], "}") then None
    else Some(ImportEdge(Trim(body[..open]), false, ItemsOf(body[open + 2..|body| - 1])))
  }

  /** The part after the keyword. */
  function ParseRest(rest: string): Option<ImportEdge> {
    if Dotted.EndsWith(rest, ".*;") then Some(ImportEdge(Trim(rest[..|rest| - 3]), true, []))
    else if !Dotted.EndsWith(rest, ";") then None
    else ParseBody(Trim(rest[..|rest| - 1]))
  }

  function ParseStatement(stmt: string): Option<ImportEdge> {
    if "import " <= stmt then ParseRest(Trim(stmt[7..])) else None
  }

  /** `parse_import_line` */
  function ParseImportLine(line: string): Option<ImportEdge> {
    ParseStatement(Trim(line))
  }

  // ----- Writing one ----------------------------------------------------------------

  function JoinItems(items: seq<string>): string {
    if items == [] then ""
    else if |items| == 1 then items[0]
    else items[0] + ", " + JoinItems(items[1..])
  }

  function ImportBody(pkg: string, items: seq<string>): string {
    pkg + ".{" + JoinItems(items) + "}"
  }

  function ImportText(pkg: string, items: seq<string>): string {
    "import " + (ImportBody(pkg, items) + ";")
  }

  /** A package or type name as the compiler issues them. */
  predicate PlainName(s: string) {
    s != "" && forall i :: 0 <= i < |s| ==> !IsWhitespace(s[i]) && s[i] != '{' && s[i] != ','
  }

  /** What any item read from a line looks like. */
  predicate CleanItem(item: string) {
    item != "" && ',' !in item && '\n' !in item && Trimmed(item)
  }

  ghost predicate CleanItems(items: seq<string>) {
    forall x :: x in items ==> CleanItem(x)
  }

  lemma PlainNameIsCleanItem(s: string)
    requires PlainName(s)
    ensures CleanItem(s)
  {
  }

  lemma {:induction false} ItemsOfAreClean(s: string)
    requires OneLine(s)
    ensures CleanItems(ItemsOf(s))
    decreases |s|
  {
    var k := IndexOf(s, ',');
    TrimTrims(s[..k]);
    if k == |s| {
      assert s[..k] == s;
    } else {
      ItemsOfAreClean(s[k + 1..]);
    }
  }

  lemma ItemsOfSpace(s: string)
    ensures ItemsOf(" " + s) == ItemsOf(s)
  {
    var t := " " + s;
    var k := IndexOf(s, ',');
    assert t[1..] == s && IndexOf(t, ',') == 1 + k;
    assert t[..1 + k] == " " + s[..k];
    TrimStartSkips(" ", s[..k]);
    if k == |s| {
      assert s[..k] == s;
    } else {
      assert t[1 + k + 1..] == s[k + 1..];
    }
  }

  lemma ItemsOfFirst(item: string, rest: string)
    requires CleanItem(item)
    ensures ItemsOf(item + "," + rest) == [item] + ItemsOf(rest)
  {
    var s := item + "," + rest;
    assert s[|item|] == ',';
    assert forall i :: 0 <= i < |item| ==> s[i] == item[i] && s[i] != ',';
    assert IndexOf(s, ',') == |item|;
    assert s[..|item|] == item && s[|item| + 1..] == rest;
    TrimOfTrimmed("", item);
    assert "" + item == item;
  }

  lemma CommaSpace(a: string, b: string)
    ensures a + ", " + b == a + "," + (" " + b)
  {
  }

  lemma {:induction false} ItemsOfJoinItems(items: seq<string>)
    requires CleanItems(items)
    ensures ItemsOf(JoinItems(items)) == items
  {
    if |items| == 1 {
      assert CleanItem(items[0]);
      assert IndexOf(items[0], ',') == |items[0]|;
      TrimOfTrimmed("", items[0]);
      assert "" + items[0] == items[0];
    } else if items != [] {
      ItemsOfJoinItems(items[1..]);
      var rest := JoinItems(items[1..]);
      CommaSpace(items[0], rest);
      ItemsOfFirst(items[0], " " + rest);
      ItemsOfSpace(rest);
    }
  }

  lemma {:induction false} FindOpenAfter(pkg: string, rest: string)
    requires forall i :: 0 <= i < |pkg| ==> pkg[i] != '{'
    ensures FindOpen(pkg + ".{" + rest) == |pkg|
  {
    var s := pkg + ".{" + rest;
    if pkg == "" {
      assert s[0] == '.' && s[1] == '{';
    } else {
      assert s[0] == pkg[0];
      assert s[1..] == pkg[1..] + ".{" + rest;
      assert s[1] == if |pkg| == 1 then '.' else pkg[1];
      FindOpenAfter(pkg[1..], rest);
    }
  }

  lemma SliceBody(pkg: string, joined: string)
    ensures var body := pkg + ".{" + joined + "}";
            && body == pkg + ".{" + (joined + "}")
            && body[..|pkg|] == pkg
            && body[|pkg| + 2..] == joined + "}"
            && body[|pkg| + 2..|body| - 1] == joined
  {
  }

  lemma BodyReadsBack(pkg: string, items: seq<string>)
    requires PlainName(pkg) && CleanItems(items)
    ensures ParseBody(ImportBody(pkg, items)) == Some(ImportEdge(pkg, false, items))
  {
    var joined := JoinItems(items);
    SliceBody(pkg, joined);
    FindOpenAfter(pkg, joined + "}");
    ItemsOfJoinItems(items);
    TrimOfTrimmed("", pkg);
    assert "" + pkg == pkg;
  }

  lemma BodyIsTrimmed(pkg: string, items: seq<string>)
    requires PlainName(pkg)
    ensures var body := ImportBody(pkg, items);
            body != "" && Trimmed(body) && body[|body| - 1] == '}'
  {
    assert ImportBody(pkg, items)[0] == pkg[0];
  }

  lemma SecondToLast(s: string, suffix: string)
    requires Dotted.EndsWith(s, suffix) && |suffix| >= 2
    ensures s[|s| - 2] == suffix[|suffix| - 2]
  {
    assert s[|s| - |suffix|..][|suffix| - 2] == s[|s| - 2];
  }

  lemma ParseOfSemicolon(body: string)
    requires body != "" && Trimmed(body) && body[|body| - 1] == '}'
    ensures ParseRest(body + ";") == ParseBody(body)
  {
    var rest := body + ";";
    if Dotted.EndsWith(rest, ".*;") {
      SecondToLast(rest, ".*;");
    }
    assert rest[..|rest| - 1] == body && rest[|rest| - 1..] == ";";
    TrimOfTrimmed("", body);
    assert "" + body == body;
  }

  lemma ParseOfKeyword(indent: string, rest: string)
    requires Blank(indent) && rest != "" && Trimmed(rest)
    ensures ParseImportLine(indent + ("import " + rest)) == ParseRest(rest)
  {
    var stmt := "import " + rest;
    assert stmt[0] == 'i' && stmt[|stmt| - 1] == rest[|rest| - 1];
    TrimOfTrimmed(indent, stmt);
    assert stmt[7..] == rest;
    TrimOfTrimmed("", rest);
    assert "" + rest == rest;
  }

  lemma RestReadsBack(pkg: string, items: seq<string>)
    requires PlainName(pkg) && CleanItems(items)
    ensures ParseRest(ImportBody(pkg, items) + ";") == Some(ImportEdge(pkg, false, items))
    ensures Trimmed(ImportBody(pkg, items) + ";")
  {
    BodyIsTrimmed(pkg, items);
    BodyReadsBack(pkg, items);
    ParseOfSemicolon(ImportBody(pkg, items));
  }

  /** A printed import line parses back to the same package and items, whatever its indent. */
  lemma ImportTextReadsBack(indent: string, pkg: string, items: seq<string>)
    requires Blank(indent) && PlainName(pkg) && CleanItems(items)
    ensures ParseImportLine(indent + ImportText(pkg, items)) == Some(ImportEdge(pkg, false, items))
  {
    RestReadsBack(pkg, items);
    ParseOfKeyword(indent, ImportBody(pkg, items) + ";");
  }

  /** So does a wildcard import. */
  lemma WildcardReadsBack(indent: string, pkg: string)
    requires Blank(indent) && PlainName(pkg)
    ensures ParseImportLine(indent + ("import " + (pkg + ".*;"))) == Some(ImportEdge(pkg, true, []))
  {
    var rest := pkg + ".*;";
    assert rest[0] == pkg[0] && rest[|rest| - 3..] == ".*;" && rest[..|rest| - 3] == pkg;
    ParseOfKeyword(indent, rest);
    TrimOfTrimmed("", pkg);
    assert "" + pkg == pkg;
  }

  /** How an import of two items looks. */
  lemma ImportOfTwo(pkg: string, a: string, b: string)
    ensures ImportText(pkg, [a, b]) == "import " + (pkg + ".{" + (a + ", " + b) + "}" + ";")
  {
    assert [a, b][1..] == [b];
    assert JoinItems([a, b]) == a + ", " + b;
  }

  lemma ParseForgetsCr(a: string, b: string)
    requires SameButCr(a, b)
    ensures ParseImportLine(a) == ParseImportLine(b)
  {
    TrimForgetsCr(a, b);
  }

  lemma CharsOfTrim(s: string)
    requires OneLine(s)
    ensures OneLine(Trim(s))
  {
    TrimTrims(s);
  }

  lemma BodyItemsAreClean(body: string)
    requires OneLine(body) && ParseBody(body).Some?
    ensures CleanItems(ParseBody(body).value.items)
  {
    ItemsOfAreClean(body[FindOpen(body) + 2..|body| - 1]);
  }

  /** The items of a parsed line are clean. */
  lemma ParsedItemsAreClean(line: string)
    requires OneLine(line) && ParseImportLine(line).Some?
    ensures CleanItems(ParseImportLine(line).value.items)
  {
    var stmt := Trim(line);
    CharsOfTrim(line);
    CharsOfTrim(stmt[7..]);
    var rest := Trim(stmt[7..]);
    if !Dotted.EndsWith(rest, ".*;") {
      CharsOfTrim(rest[..|rest| - 1]);
      BodyItemsAreClean(Trim(rest[..|rest| - 1]));
    }
  }

  lemma {:induction false} JoinItemsIsOneLine(items: seq<string>)
    requires CleanItems(items)
    ensures OneLine(JoinItems(items))
  {
    if |items| > 1 {
      JoinItemsIsOneLine(items[1..]);
      assert CleanItem(items[0]);
    } else if |items| == 1 {
      assert CleanItem(items[0]);
    }
  }

  lemma ImportTextIsOneLine(pkg: string, items: seq<string>)
    requires PlainName(pkg) && CleanItems(items)
    ensures OneLine(ImportText(pkg, items)) && ImportText(pkg, items) != ""
  {
    JoinItemsIsOneLine(items);
    assert OneLine(ImportBody(pkg, items));
  }
}
