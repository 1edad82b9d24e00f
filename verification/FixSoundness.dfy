/** What the rewrite of `deal fix-imports`, in `cli/src/fix_imports.rs`, guarantees to its users. */
module FixSoundness {
  // It adds to the imports of a text exactly what is needed, keeps every other line, and leaves
  // nothing for a second pass.
  //
  // Imports are here what `parse_import_line` reads from the text.

  import opened Outcome
  import opened Chars
  import opened Order
  import opened ImportEdges
  import opened ImportLines
  import opened FixImports
  import Dotted

  /** A question about imports, as scoping asks it. */
  datatype Use = Item(item: string) | All(pkg: string) | Package(pkg: string)

  predicate Gives(edge: Option<ImportEdge>, use: Use) {
    edge.Some? &&
    match use
    case Item(item) => !edge.value.isWildcard && item in edge.value.items
    case All(pkg) => edge.value.isWildcard && edge.value.importPath == pkg
    case Package(pkg) => edge.value.importPath == pkg
  }

  predicate GivesAt(lines: seq<string>, i: int, use: Use) {
    0 <= i < |lines| && Gives(ParseImportLine(lines[i]), use)
  }

  ghost predicate LinesGive(lines: seq<string>, use: Use) {
    exists i :: GivesAt(lines, i, use)
  }

  ghost predicate Asked(needed: Needed, use: Use) {
    match use
    case Item(item) => exists pkg :: Needs(needed, pkg, item)
    case All(pkg) => false
    case Package(pkg) => pkg in needed
  }

  /** Names as the compiler issues them, and no package without a name to import. */
  ghost predicate PlainNeeded(needed: Needed) {
    forall p :: p in needed ==> PlainName(p) && needed[p] != {} && forall x :: x in needed[p] ==> PlainName(x)
  }

  // ----- One line -------------------------------------------------------------------

  ghost predicate Extends(a: ImportEdge, b: ImportEdge, needed: Needed) {
    && !a.isWildcard && !b.isWildcard && a.importPath == b.importPath && a.importPath in needed
    && Elements(b.items) == Elements(a.items) + needed[a.importPath]
  }

  /** The blanks that a line begins with. */
  function Lead(s: string): string {
    if s != "" && IsWhitespace(s[0]) then [s[0]] + Lead(s[1..]) else ""
  }

  lemma {:induction false} LeadOfBlanks(blank: string, s: string)
    requires Blank(blank) && (s != "" ==> !IsWhitespace(s[0]))
    ensures Lead(blank + s) == blank
  {
    if blank == "" {
      assert blank + s == s;
    } else {
      assert (blank + s)[1..] == blank[1..] + s;
      LeadOfBlanks(blank[1..], s);
      assert blank == [blank[0]] + blank[1..];
    }
  }

  /** Line `b` stands where line `a` stood: the same, or its import extended by what is needed, indented alike. */
  ghost predicate LineKept(a: string, b: string, needed: Needed) {
    || a == b
    || (b != "" && Lead(a) == Lead(b) && ParseImportLine(a).Some? && ParseImportLine(b).Some?
        && Extends(ParseImportLine(a).value, ParseImportLine(b).value, needed))
  }

  lemma ExtendedGives(a: ImportEdge, b: ImportEdge, needed: Needed, use: Use)
    requires Extends(a, b, needed)
    ensures Gives(Some(a), use) ==> Gives(Some(b), use)
    ensures Gives(Some(b), use) ==> Gives(Some(a), use) || Asked(needed, use)
  {
    if use.Item? {
      assert use.item in a.items <==> use.item in Elements(a.items);
      assert use.item in b.items <==> use.item in Elements(b.items);
      assert use.item in needed[a.importPath] ==> Needs(needed, a.importPath, use.item);
    }
  }

  lemma KeptGives(a: string, b: string, needed: Needed, use: Use)
    requires LineKept(a, b, needed)
    ensures Gives(ParseImportLine(a), use) ==> Gives(ParseImportLine(b), use)
    ensures Gives(ParseImportLine(b), use) ==> Gives(ParseImportLine(a), use) || Asked(needed, use)
  {
    if a != b {
      ExtendedGives(ParseImportLine(a).value, ParseImportLine(b).value, needed, use);
    }
  }

  lemma ListingIsClean(names: set<string>)
    requires forall x :: x in names ==> CleanItem(x)
    ensures CleanItems(Listing(names))
  {
    assert forall x :: x in Listing(names) ==> x in Elements(Listing(names));
  }

  lemma IndentIsBlank(line: string)
    requires OneLine(line)
    ensures Blank(Indent(line)) && OneLine(Indent(line))
  {
  }

  lemma LeadIsIndent(line: string)
    ensures Lead(line) == Indent(line) && Blank(Indent(line))
  {
    var n := RunLength(line, IsWhitespace);
    LeadOfBlanks(line[..n], line[n..]);
    assert line == line[..n] + line[n..];
  }

  lemma LeadOfImport(indent: string, pkg: string, items: seq<string>)
    requires Blank(indent)
    ensures Lead(indent + ImportText(pkg, items)) == indent
  {
    assert ImportText(pkg, items)[0] == 'i';
    LeadOfBlanks(indent, ImportText(pkg, items));
  }

  lemma MergedLineIsIndented(line: string, pkg: string, names: set<string>)
    requires Imports(line, pkg)
    ensures Lead(MergedLine(line, pkg, names)) == Lead(line)
  {
    LeadIsIndent(line);
    LeadOfImport(Indent(line), pkg, Listing(Elements(ParseImportLine(line).value.items) + names));
  }

  /** A merged line reads back as the old import with the new names, in ascending order. */
  lemma MergedLineReadsBack(line: string, pkg: string, names: set<string>)
    requires OneLine(line) && Imports(line, pkg) && PlainName(pkg)
    requires forall x :: x in names ==> PlainName(x)
    ensures var all := Elements(ParseImportLine(line).value.items) + names;
            ParseImportLine(MergedLine(line, pkg, names)) == Some(ImportEdge(pkg, false, Listing(all)))
    ensures OneLine(MergedLine(line, pkg, names)) && MergedLine(line, pkg, names) != ""
    ensures Lead(MergedLine(line, pkg, names)) == Lead(line)
  {
    MergedLineIsIndented(line, pkg, names);
    var items := ParseImportLine(line).value.items;
    ParsedItemsAreClean(line);
    forall x | x in Elements(items) + names
      ensures CleanItem(x)
    {
      if x in names {
        PlainNameIsCleanItem(x);
      }
    }
    ListingIsClean(Elements(items) + names);
    IndentIsBlank(line);
    ImportTextReadsBack(Indent(line), pkg, Listing(Elements(items) + names));
    ImportTextIsOneLine(pkg, Listing(Elements(items) + names));
  }

  lemma NewLineReadsBack(pkg: string, names: set<string>)
    requires PlainName(pkg) && forall x :: x in names ==> PlainName(x)
    ensures ParseImportLine(ImportText(pkg, Listing(names))) == Some(ImportEdge(pkg, false, Listing(names)))
    ensures OneLine(ImportText(pkg, Listing(names))) && ImportText(pkg, Listing(names)) != ""
  {
    forall x | x in names
      ensures CleanItem(x)
    {
      PlainNameIsCleanItem(x);
    }
    ListingIsClean(names);
    ImportTextReadsBack("", pkg, Listing(names));
    assert "" + ImportText(pkg, Listing(names)) == ImportText(pkg, Listing(names));
    ImportTextIsOneLine(pkg, Listing(names));
  }

  // ----- All lines ------------------------------------------------------------------

  ghost predicate OneLines(lines: seq<string>) {
    forall i :: 0 <= i < |lines| ==> OneLine(lines[i])
  }

  ghost predicate LinesKept(a: seq<string>, b: seq<string>, needed: Needed) {
    |a| == |b| && forall i :: 0 <= i < |a| ==> LineKept(a[i], b[i], needed)
  }

  /** Some line imports all of `names` from the package. */
  ghost predicate Supplies(line: string, pkg: string, names: set<string>) {
    Imports(line, pkg) && names <= Elements(ParseImportLine(line).value.items)
  }

  ghost predicate Supplied(lines: seq<string>, pkg: string, needed: Needed) {
    pkg in needed && exists i :: 0 <= i < |lines| && Supplies(lines[i], pkg, needed[pkg])
  }

  lemma MergeKeepsLine(a: string, b: string, pkg: string, needed: Needed)
    requires PlainNeeded(needed) && pkg in needed && OneLine(b) && Imports(b, pkg) && LineKept(a, b, needed)
    ensures LineKept(a, MergedLine(b, pkg, needed[pkg]), needed)
    ensures OneLine(MergedLine(b, pkg, needed[pkg]))
    ensures forall p :: p in needed && Supplies(b, p, needed[p]) ==>
              Supplies(MergedLine(b, pkg, needed[pkg]), p, needed[p])
    ensures Supplies(MergedLine(b, pkg, needed[pkg]), pkg, needed[pkg])
  {
    MergedLineReadsBack(b, pkg, needed[pkg]);
  }

  lemma MergeOneKeeps(lines: seq<string>, ls: seq<string>, pkg: string, needed: Needed)
    requires PlainNeeded(needed) && pkg in needed && OneLines(ls) && LinesKept(lines, ls, needed)
    ensures var ms := MergeOne(ls, pkg, needed[pkg]);
            && OneLines(ms) && LinesKept(lines, ms, needed)
            && (HasImport(ls, pkg) ==> Supplied(ms, pkg, needed))
            && forall p :: Supplied(ls, p, needed) ==> Supplied(ms, p, needed)
  {
    var k := FindImport(ls, pkg);
    if k < |ls| {
      var ms := MergeOne(ls, pkg, needed[pkg]);
      MergeKeepsLine(lines[k], ls[k], pkg, needed);
      assert Supplies(ms[k], pkg, needed[pkg]);
      forall p | Supplied(ls, p, needed)
        ensures Supplied(ms, p, needed)
      {
        var i :| 0 <= i < |ls| && Supplies(ls[i], p, needed[p]);
        if i != k {
          assert ms[i] == ls[i];
        }
        assert Supplies(ms[i], p, needed[p]);
      }
    }
  }

  /** What merging for `pkgs` leaves: the lines kept, and each package supplied or put aside. */
  ghost predicate Merges(lines: seq<string>, pkgs: seq<string>, ms: seq<string>, rest: seq<string>, needed: Needed) {
    && OneLines(ms) && LinesKept(lines, ms, needed)
    && forall p :: p in pkgs ==> p in rest || Supplied(ms, p, needed)
  }

  lemma MergesSnoc(lines: seq<string>, pkgs: seq<string>, ms: seq<string>, rest: seq<string>, pkg: string,
                   needed: Needed)
    requires PlainNeeded(needed) && pkg in needed && Merges(lines, pkgs, ms, rest, needed)
    ensures Merges(lines, pkgs + [pkg], MergeOne(ms, pkg, needed[pkg]),
                   if HasImport(ms, pkg) then rest else rest + [pkg], needed)
  {
    MergeOneKeeps(lines, ms, pkg, needed);
  }

  lemma {:induction false} MergeAllKeeps(lines: seq<string>, pkgs: seq<string>, needed: Needed)
    requires PlainNeeded(needed) && OneLines(lines) && forall p :: p in pkgs ==> p in needed
    ensures Merges(lines, pkgs, MergeAll(lines, pkgs, needed).0, MergeAll(lines, pkgs, needed).1, needed)
  {
    if pkgs == [] {
    } else {
      var front, pkg := pkgs[..|pkgs| - 1], pkgs[|pkgs| - 1];
      assert pkgs == front + [pkg];
      MergeAllKeeps(lines, front, needed);
      MergeAllSnoc(lines, front, pkg, needed);
      var r := MergeAll(lines, front, needed);
      MergesSnoc(lines, front, r.0, r.1, pkg, needed);
    }
  }

  // ----- The fixed lines ------------------------------------------------------------

  /** The new lines are the printed imports of the packages put aside. */
  lemma NewLinesHold(rest: seq<string>, needed: Needed, line: string)
    requires forall p :: p in rest ==> p in needed
    ensures line in Sort(NewLines(rest, needed))
            <==> exists p :: p in rest && line == ImportText(p, Listing(needed[p]))
  {
    var printed := NewLines(rest, needed);
    SortSortsAll(printed);
    assert line in Sort(printed) <==> line in Elements(Sort(printed));
    assert line in printed <==> line in Elements(printed);
    if line in printed {
      var i :| 0 <= i < |printed| && printed[i] == line;
      assert rest[i] in rest;
    }
    if p :| p in rest && line == ImportText(p, Listing(needed[p])) {
      var i :| 0 <= i < |rest| && rest[i] == p;
      assert printed[i] == line;
    }
  }

  ghost predicate Member(lines: seq<string>, line: string) {
    line in lines
  }

  lemma WithNewHolds(lines: seq<string>, newLines: seq<string>, line: string)
    ensures Member(WithNew(lines, newLines), line) <==> Member(lines, line) || Member(newLines, line)
  {
    var k := InsertAt(lines);
    assert lines == lines[..k] + lines[k..];
  }

  lemma LinesGiveBy(lines: seq<string>, line: string, use: Use)
    requires Member(lines, line) && Gives(ParseImportLine(line), use)
    ensures LinesGive(lines, use)
  {
    var i :| 0 <= i < |lines| && lines[i] == line;
    assert GivesAt(lines, i, use);
  }

  lemma SupplierGives(line: string, pkg: string, names: set<string>, use: Use)
    requires Supplies(line, pkg, names)
    requires match use { case Item(item) => item in names case All(_) => false case Package(p) => p == pkg }
    ensures Gives(ParseImportLine(line), use)
  {
    if use.Item? {
      assert use.item in Elements(ParseImportLine(line).value.items);
    }
  }

  lemma NewLineSupplies(pkg: string, needed: Needed)
    requires PlainNeeded(needed) && pkg in needed
    ensures Supplies(ImportText(pkg, Listing(needed[pkg])), pkg, needed[pkg])
  {
    NewLineReadsBack(pkg, needed[pkg]);
  }

  /** Some line of the fixed text imports all that is needed of a package. */
  lemma FixedLinesSupply(lines: seq<string>, needed: Needed, pkg: string)
    requires PlainNeeded(needed) && OneLines(lines) && pkg in needed
    ensures exists line :: Member(FixedLines(lines, needed), line) && Supplies(line, pkg, needed[pkg])
  {
    var keys := Listing(needed.Keys);
    assert forall p :: p in keys <==> p in Elements(keys);
    var r := MergeAll(lines, keys, needed);
    MergeAllKeeps(lines, keys, needed);
    if pkg in r.1 {
      var line := ImportText(pkg, Listing(needed[pkg]));
      NewLinesHold(r.1, needed, line);
      WithNewHolds(r.0, Sort(NewLines(r.1, needed)), line);
      NewLineSupplies(pkg, needed);
    } else {
      assert Supplied(r.0, pkg, needed);
      var i :| 0 <= i < |r.0| && Supplies(r.0[i], pkg, needed[pkg]);
      WithNewHolds(r.0, Sort(NewLines(r.1, needed)), r.0[i]);
    }
  }

  /** A line of the fixed text is an old one that was kept, or the printed import of a needed package. */
  lemma FixedLineIs(lines: seq<string>, needed: Needed, line: string)
    requires PlainNeeded(needed) && OneLines(lines) && Member(FixedLines(lines, needed), line)
    ensures || (exists i :: 0 <= i < |lines| && LineKept(lines[i], line, needed))
            || (exists p :: p in needed && line == ImportText(p, Listing(needed[p])))
    ensures OneLine(line)
  {
    var keys := Listing(needed.Keys);
    assert forall p :: p in keys <==> p in Elements(keys);
    var r := MergeAll(lines, keys, needed);
    MergeAllKeeps(lines, keys, needed);
    WithNewHolds(r.0, Sort(NewLines(r.1, needed)), line);
    if Member(r.0, line) {
      var i :| 0 <= i < |r.0| && r.0[i] == line;
      assert LineKept(lines[i], line, needed);
    } else {
      NewLinesHold(r.1, needed, line);
      var p :| p in r.1 && line == ImportText(p, Listing(needed[p]));
      NewLineReadsBack(p, needed[p]);
    }
  }

  /** Every old line is still there, kept. */
  lemma OldLineIsKept(lines: seq<string>, needed: Needed, i: nat)
    requires PlainNeeded(needed) && OneLines(lines) && i < |lines|
    ensures exists line :: Member(FixedLines(lines, needed), line) && LineKept(lines[i], line, needed)
  {
    var keys := Listing(needed.Keys);
    assert forall p :: p in keys <==> p in Elements(keys);
    var r := MergeAll(lines, keys, needed);
    MergeAllKeeps(lines, keys, needed);
    WithNewHolds(r.0, Sort(NewLines(r.1, needed)), r.0[i]);
    assert LineKept(lines[i], r.0[i], needed);
  }

  lemma NewLineGives(pkg: string, needed: Needed, use: Use)
    requires PlainNeeded(needed) && pkg in needed
    requires Gives(ParseImportLine(ImportText(pkg, Listing(needed[pkg]))), use)
    ensures Asked(needed, use)
  {
    NewLineReadsBack(pkg, needed[pkg]);
    if use.Item? {
      assert use.item in Elements(Listing(needed[pkg]));
      assert Needs(needed, pkg, use.item);
    }
  }

  /** The fixed lines import what the old ones do and what is needed, and nothing else. */
  lemma FixedLinesGive(lines: seq<string>, needed: Needed, use: Use)
    requires PlainNeeded(needed) && OneLines(lines)
    ensures LinesGive(FixedLines(lines, needed), use) <==> LinesGive(lines, use) || Asked(needed, use)
  {
    var fixed := FixedLines(lines, needed);
    if LinesGive(lines, use) {
      var i :| GivesAt(lines, i, use);
      OldLineIsKept(lines, needed, i);
      var line :| Member(fixed, line) && LineKept(lines[i], line, needed);
      KeptGives(lines[i], line, needed, use);
      LinesGiveBy(fixed, line, use);
    }
    if Asked(needed, use) {
      var pkg := if use.Item? then var p :| Needs(needed, p, use.item); p else use.pkg;
      FixedLinesSupply(lines, needed, pkg);
      var line :| Member(fixed, line) && Supplies(line, pkg, needed[pkg]);
      SupplierGives(line, pkg, needed[pkg], use);
      LinesGiveBy(fixed, line, use);
    }
    if LinesGive(fixed, use) {
      var j :| GivesAt(fixed, j, use);
      FixedLineIs(lines, needed, fixed[j]);
      if i :| 0 <= i < |lines| && LineKept(lines[i], fixed[j], needed) {
        KeptGives(lines[i], fixed[j], needed, use);
        if Gives(ParseImportLine(lines[i]), use) {
          assert GivesAt(lines, i, use);
        }
      } else {
        var p :| p in needed && fixed[j] == ImportText(p, Listing(needed[p]));
        NewLineGives(p, needed, use);
      }
    }
  }

  // ----- The fixed text -------------------------------------------------------------

  function Somes(edges: seq<Option<ImportEdge>>): seq<ImportEdge> {
    if edges == [] then []
    else
      var last := edges[|edges| - 1];
      Somes(edges[..|edges| - 1]) + if last.Some? then [last.value] else []
  }

  function Parsed(lines: seq<string>): seq<Option<ImportEdge>> {
    seq(|lines|, i requires 0 <= i < |lines| => ParseImportLine(lines[i]))
  }

  /** The imports that `parse_import_line` reads from the lines of a text. */
  function EdgesOf(lines: seq<string>): seq<ImportEdge> {
    Somes(Parsed(lines))
  }

  predicate EdgesGive(edges: seq<ImportEdge>, use: Use) {
    match use
    case Item(item) => ImportsItem(edges, item)
    case All(pkg) => ImportsAll(edges, pkg)
    case Package(pkg) => ImportsPath(edges, pkg)
  }

  lemma {:induction false} SomesHold(edges: seq<Option<ImportEdge>>, edge: ImportEdge)
    ensures edge in Somes(edges) <==> Some(edge) in edges
  {
    if edges == [] {
    } else {
      SomesHold(edges[..|edges| - 1], edge);
      assert edges == edges[..|edges| - 1] + [edges[|edges| - 1]];
    }
  }

  ghost predicate ReadsAs(lines: seq<string>, i: int, edge: ImportEdge) {
    0 <= i < |lines| && ParseImportLine(lines[i]) == Some(edge)
  }

  lemma EdgesOfHold(lines: seq<string>, edge: ImportEdge)
    ensures edge in EdgesOf(lines) <==> exists i :: ReadsAs(lines, i, edge)
  {
    SomesHold(Parsed(lines), edge);
    if Some(edge) in Parsed(lines) {
      var i :| 0 <= i < |lines| && Parsed(lines)[i] == Some(edge);
      assert ReadsAs(lines, i, edge);
    }
    if i :| ReadsAs(lines, i, edge) {
      assert Parsed(lines)[i] == Some(edge);
    }
  }

  lemma EdgesOfGive(lines: seq<string>, use: Use)
    ensures EdgesGive(EdgesOf(lines), use) <==> LinesGive(lines, use)
  {
    if LinesGive(lines, use) {
      var i :| GivesAt(lines, i, use);
      var edge := ParseImportLine(lines[i]).value;
      assert ReadsAs(lines, i, edge);
      EdgesOfHold(lines, edge);
    }
    if EdgesGive(EdgesOf(lines), use) {
      var edge :| edge in EdgesOf(lines) && Gives(Some(edge), use);
      EdgesOfHold(lines, edge);
      var i :| ReadsAs(lines, i, edge);
      assert GivesAt(lines, i, use);
    }
  }

  lemma EdgesForgetCrs(a: seq<string>, b: seq<string>)
    requires SameButCrs(a, b)
    ensures EdgesOf(a) == EdgesOf(b)
  {
    forall i | 0 <= i < |a|
      ensures Parsed(a)[i] == Parsed(b)[i]
    {
      ParseForgetsCr(a[i], b[i]);
    }
    assert Parsed(a) == Parsed(b);
  }

  lemma WithNewShape(lines: seq<string>, newLines: seq<string>)
    ensures var all, k := WithNew(lines, newLines), InsertAt(lines);
            && |all| == |lines| + |newLines|
            && all[..k] + all[|newLines| + k..] == lines && all[k..|newLines| + k] == newLines
            && (all != [] ==> all[|all| - 1] == if k == |lines| && newLines != [] then newLines[|newLines| - 1]
                                                else lines[|lines| - 1])
  {
  }

  lemma FixedLinesAreOneLines(lines: seq<string>, needed: Needed)
    requires PlainNeeded(needed) && OneLines(lines)
    ensures OneLines(FixedLines(lines, needed))
  {
    var fixed := FixedLines(lines, needed);
    forall i | 0 <= i < |fixed|
      ensures OneLine(fixed[i])
    {
      FixedLineIs(lines, needed, fixed[i]);
    }
  }

  lemma PrintedIsNotEmpty(rest: seq<string>, needed: Needed, line: string)
    requires PlainNeeded(needed) && (forall p :: p in rest ==> p in needed)
    requires line in Sort(NewLines(rest, needed))
    ensures line != ""
  {
    NewLinesHold(rest, needed, line);
    var p :| p in rest && line == ImportText(p, Listing(needed[p]));
    NewLineReadsBack(p, needed[p]);
  }

  lemma SplittableAfter(lines: seq<string>, ms: seq<string>, printed: seq<string>, needed: Needed, terminated: bool)
    requires Splittable(lines, terminated) && LinesKept(lines, ms, needed)
    requires OneLines(WithNew(ms, printed)) && forall line :: line in printed ==> line != ""
    ensures Splittable(WithNew(ms, printed), terminated)
  {
    WithNewShape(ms, printed);
    if lines != [] {
      assert LineKept(lines[|lines| - 1], ms[|ms| - 1], needed);
    }
    if printed != [] {
      assert printed[|printed| - 1] in printed;
    }
  }

  lemma FixedLinesSplittable(lines: seq<string>, needed: Needed, terminated: bool)
    requires PlainNeeded(needed) && Splittable(lines, terminated)
    ensures Splittable(FixedLines(lines, needed), terminated)
  {
    var keys := Listing(needed.Keys);
    assert forall p :: p in keys <==> p in Elements(keys);
    var r := MergeAll(lines, keys, needed);
    MergeAllKeeps(lines, keys, needed);
    FixedLinesAreOneLines(lines, needed);
    var printed := Sort(NewLines(r.1, needed));
    forall line | line in printed
      ensures line != ""
    {
      PrintedIsNotEmpty(r.1, needed, line);
    }
    SplittableAfter(lines, r.0, printed, needed, terminated);
  }

  /**
   Read back, the fixed text imports exactly what the source imports and what is needed: no import
   is lost, none is widened, none is invented.
   */
  lemma FixAddsExactly(source: string, needed: Needed, use: Use)
    requires PlainNeeded(needed)
    ensures EdgesGive(EdgesOf(Lines(FixedText(source, needed))), use)
            <==> EdgesGive(EdgesOf(Lines(source)), use) || Asked(needed, use)
  {
    var lines, terminated := Lines(source), Dotted.EndsWith(source, "\n");
    LinesAreSplittable(source);
    FixedLinesSplittable(lines, needed, terminated);
    var fixed := FixedLines(lines, needed);
    LinesOfText(fixed, terminated);
    EdgesForgetCrs(Lines(FixedText(source, needed)), fixed);
    EdgesOfGive(fixed, use);
    EdgesOfGive(lines, use);
    FixedLinesGive(lines, needed, use);
  }

  /** A sorted block at `k`, and around it the old lines in order, kept. */
  ghost predicate KeptAround(lines: seq<string>, fixed: seq<string>, k: nat, needed: Needed) {
    && k <= |lines| <= |fixed|
    && LinesKept(lines, fixed[..k] + fixed[|fixed| - |lines| + k..], needed)
    && NonDescending(fixed[k..|fixed| - |lines| + k])
  }

  /** Apart from a sorted block of new imports, the lines are the old ones in order, kept. */
  lemma FixKeepsLines(source: string, needed: Needed) returns (k: nat)
    requires PlainNeeded(needed)
    ensures KeptAround(Lines(source), FixedLines(Lines(source), needed), k, needed)
  {
    var lines := Lines(source);
    LinesAreSplittable(source);
    var keys := Listing(needed.Keys);
    assert forall p :: p in keys <==> p in Elements(keys);
    var r := MergeAll(lines, keys, needed);
    MergeAllKeeps(lines, keys, needed);
    SortSortsAll(NewLines(r.1, needed));
    k := InsertAt(r.0);
    BlockIsSorted(lines, r.0, Sort(NewLines(r.1, needed)), needed);
  }

  lemma BlockIsSorted(lines: seq<string>, ms: seq<string>, printed: seq<string>, needed: Needed)
    requires LinesKept(lines, ms, needed) && NonDescending(printed)
    ensures KeptAround(lines, WithNew(ms, printed), InsertAt(ms), needed)
  {
    WithNewShape(ms, printed);
    var fixed, k := WithNew(ms, printed), InsertAt(ms);
    assert |fixed| - |lines| + k == |printed| + k;
  }

  // ----- A second pass --------------------------------------------------------------

  ghost predicate PlainGlobal(global: Global) {
    forall item :: item in global ==> PlainName(item) && forall p :: p in global[item] ==> PlainName(p)
  }

  lemma MissingIsDeclared(r: seq<string>, own: string, edges: seq<ImportEdge>, global: Global)
    requires Classify(r, own, edges, global).Missing?
    ensures r != [] && Declares(global, Classify(r, own, edges, global).pkg, r[|r| - 1])
  {
    var finding := Classify(r, own, edges, global);
    if |r| == 1 {
      assert Single(global[r[0]] - {own}, finding.pkg);
      assert finding.pkg in global[r[0]] - {own};
    }
  }

  lemma NeededIsDeclared(needed: Needed, refs: seq<seq<string>>, own: string, edges: seq<ImportEdge>,
                         global: Global, pkg: string, item: string)
    requires NeededIs(needed, refs, own, edges, global) && Needs(needed, pkg, item)
    ensures Declares(global, pkg, item)
  {
    assert Lacks(refs, own, edges, global, pkg, item);
    var r :| r in refs && LacksFor(r, own, edges, global, pkg, item);
    MissingIsDeclared(r, own, edges, global);
  }

  lemma NeededIsPlain(needed: Needed, refs: seq<seq<string>>, own: string, edges: seq<ImportEdge>,
                      global: Global)
    requires NeededIs(needed, refs, own, edges, global) && PlainGlobal(global)
    ensures PlainNeeded(needed)
  {
    forall p, x | p in needed && x in needed[p]
      ensures PlainName(p) && PlainName(x)
    {
      assert Needs(needed, p, x);
      NeededIsDeclared(needed, refs, own, edges, global, p, x);
    }
    forall p | p in needed
      ensures PlainName(p)
    {
      var x :| x in needed[p];
      assert Needs(needed, p, x);
      NeededIsDeclared(needed, refs, own, edges, global, p, x);
    }
  }

  /** `now` gives what `before` gave and what is needed. */
  ghost predicate Supplements(now: seq<ImportEdge>, before: seq<ImportEdge>, needed: Needed) {
    forall use :: EdgesGive(now, use) <==> EdgesGive(before, use) || Asked(needed, use)
  }

  lemma QualifiedAfterFix(q: string, item: string, own: string, before: seq<ImportEdge>, now: seq<ImportEdge>,
                          global: Global, needed: Needed)
    requires Supplements(now, before, needed)
    requires ClassifyQualified(q, item, own, before, global) == Missing(q) ==> q in needed
    ensures ClassifyQualified(q, item, own, now, global)
            == if ClassifyQualified(q, item, own, before, global).Missing? then Settled
               else ClassifyQualified(q, item, own, before, global)
  {
    assert EdgesGive(now, Package(q)) <==> EdgesGive(before, Package(q)) || Asked(needed, Package(q));
  }

  lemma BareAfterFix(item: string, own: string, before: seq<ImportEdge>, now: seq<ImportEdge>,
                     global: Global, needed: Needed)
    requires Supplements(now, before, needed)
    requires forall p :: Needs(needed, p, item) ==> Declares(global, p, item)
    requires ClassifyBare(item, own, before, global).Missing? ==>
               Needs(needed, ClassifyBare(item, own, before, global).pkg, item)
    ensures var f, g := ClassifyBare(item, own, before, global), ClassifyBare(item, own, now, global);
            && (f.Settled? || f.Missing? ==> g.Settled?)
            && (f.Unresolved? ==> g.Unresolved?)
            && (f.Ambiguous? ==> g == f || g.Settled?)
  {
    assert EdgesGive(now, Item(item)) <==> EdgesGive(before, Item(item)) || Asked(needed, Item(item));
    if Asked(needed, Item(item)) {
      var p :| Needs(needed, p, item);
      assert Declares(global, p, item);
      assert p == own || p in global[item] - {own};
    }
    forall p
      ensures ImportsAll(now, p) <==> ImportsAll(before, p)
    {
      assert EdgesGive(now, All(p)) <==> EdgesGive(before, All(p)) || Asked(needed, All(p));
    }
  }

  /**
   What the fix does to a reference: one that was settled or missing is settled afterwards, an
   unresolved one stays so, an ambiguous one stays so unless another reference imported its name.
   */
  lemma ReferenceAfterFix(r: seq<string>, refs: seq<seq<string>>, own: string, before: seq<ImportEdge>,
                          now: seq<ImportEdge>, global: Global, needed: Needed)
    requires r in refs && NeededIs(needed, refs, own, before, global) && Supplements(now, before, needed)
    ensures var f, g := Classify(r, own, before, global), Classify(r, own, now, global);
            && (f.Settled? || f.Missing? ==> g.Settled?)
            && (f.Unresolved? ==> g.Unresolved?)
            && (f.Ambiguous? ==> g == f || g.Settled?)
  {
    if r != [] {
      var f, item := Classify(r, own, before, global), r[|r| - 1];
      if f.Missing? {
        assert LacksFor(r, own, before, global, f.pkg, item);
        assert Lacks(refs, own, before, global, f.pkg, item);
        assert Needs(needed, f.pkg, item);
      }
      if |r| >= 2 {
        QualifiedAfterFix(Dotted.Join(r[..|r| - 1]), item, own, before, now, global, needed);
      } else {
        forall p | Needs(needed, p, item)
          ensures Declares(global, p, item)
        {
          NeededIsDeclared(needed, refs, own, before, global, p, item);
        }
        BareAfterFix(item, own, before, now, global, needed);
      }
    }
  }

  /**
   Fixing is idempotent: planning again on the fixed text, with the imports it now shows, needs
   nothing and leaves the text as it is.
   */
  lemma FixIsIdempotent(source: string, refs: seq<seq<string>>, own: string, global: Global,
                        needed: Needed, again: Needed)
    requires PlainGlobal(global)
    requires NeededIs(needed, refs, own, EdgesOf(Lines(source)), global)
    requires NeededIs(again, refs, own, EdgesOf(Lines(PlannedText(source, needed))), global)
    ensures again == map[]
    ensures PlannedText(PlannedText(source, needed), again) == PlannedText(source, needed)
  {
    var before, now := EdgesOf(Lines(source)), EdgesOf(Lines(PlannedText(source, needed)));
    NeededIsPlain(needed, refs, own, before, global);
    forall use
      ensures EdgesGive(now, use) <==> EdgesGive(before, use) || Asked(needed, use)
    {
      if needed != map[] {
        FixAddsExactly(source, needed, use);
      }
    }
    forall pkg | pkg in again
      ensures false
    {
      var item :| item in again[pkg];
      assert Needs(again, pkg, item);
      var r :| r in refs && LacksFor(r, own, now, global, pkg, item);
      ReferenceAfterFix(r, refs, own, before, now, global, needed);
    }
  }
}
