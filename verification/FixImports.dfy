/** `deal fix-imports` of `cli/src/fix_imports.rs`: the plan for a file, and its rewrite. */
module FixImports {
  // `FixSoundness` proves that the rewrite adds exactly what was asked for and loses nothing, so that
  // a second pass over its own output finds nothing to do.

  import opened Outcome
  import opened Chars
  import opened Order
  import opened ImportEdges
  import opened ImportLines
  import Dotted

  type Global = map<string, set<string>>
  type Needed = map<string, set<string>>

  const PRIMITIVES: set<string> := {
    "Real", "Integer", "String", "Boolean", "Rational", "Number", "Complex", "Natural", "ScalarValue"
  }

  // ----- What is in scope -----------------------------------------------------------

  predicate ImportsItem(edges: seq<ImportEdge>, item: string) {
    exists e :: e in edges && !e.isWildcard && item in e.items
  }

  predicate ImportsAll(edges: seq<ImportEdge>, pkg: string) {
    exists e :: e in edges && e.isWildcard && e.importPath == pkg
  }

  predicate ImportsPath(edges: seq<ImportEdge>, pkg: string) {
    exists e :: e in edges && e.importPath == pkg
  }

  predicate Declares(global: Global, pkg: string, item: string) {
    item in global && pkg in global[item]
  }

  /** What becomes of one reference. */
  datatype Finding = Settled | Missing(pkg: string) | Unresolved | Ambiguous(candidates: set<string>)

  function ClassifyQualified(qualifier: string, item: string, own: string, edges: seq<ImportEdge>,
                             global: Global): Finding {
    if !Declares(global, qualifier, item) then Unresolved
    else if qualifier == own || ImportsPath(edges, qualifier) then Settled
    else Missing(qualifier)
  }

  ghost predicate Single(names: set<string>, name: string) {
    names == {name}
  }

  ghost function ClassifyBare(item: string, own: string, edges: seq<ImportEdge>, global: Global): Finding {
    if item in PRIMITIVES || Declares(global, own, item) || ImportsItem(edges, item) then Settled
    else if exists p :: Declares(global, p, item) && ImportsAll(edges, p) then Settled
    else if item !in global then Unresolved
    else
      var candidates := global[item] - {own};
      if candidates == {} then Unresolved
      else if p :| Single(candidates, p) then Missing(p)
      else Ambiguous(candidates)
  }

  /** The segments of a reference; a reference without segments is passed over. */
  ghost function Classify(segs: seq<string>, own: string, edges: seq<ImportEdge>, global: Global): Finding {
    if segs == [] then Settled
    else
      var item := segs[|segs| - 1];
      if |segs| >= 2
      then ClassifyQualified(Dotted.Join(segs[..|segs| - 1]), item, own, edges, global)
      else ClassifyBare(item, own, edges, global)
  }

  /** With nothing imported and nothing declared beside it, a bare name is settled if it is one of these. */
  lemma PrimitivesAre(item: string, own: string, global: Global)
    requires !Declares(global, own, item)
    ensures Classify([item], own, [], global) == Settled <==>
              || item == "Real" || item == "Integer" || item == "String" || item == "Boolean"
              || item == "Rational" || item == "Number" || item == "Complex" || item == "Natural"
              || item == "ScalarValue"
  {
  }

  /** The reference can mean what the package declares. */
  ghost predicate Means(segs: seq<string>, global: Global, pkg: string)
    requires segs != []
  {
    Declares(global, pkg, segs[|segs| - 1]) && (|segs| >= 2 ==> pkg == Dotted.Join(segs[..|segs| - 1]))
  }

  /** Nothing has to be imported for the reference. */
  ghost predicate Available(segs: seq<string>, own: string, edges: seq<ImportEdge>, global: Global)
    requires segs != []
  {
    || (|segs| == 1 && (segs[0] in PRIMITIVES || ImportsItem(edges, segs[0])))
    || exists p :: Means(segs, global, p)
                   && (p == own || if |segs| == 1 then ImportsAll(edges, p) else ImportsPath(edges, p))
  }

  /** Each finding, told from the packages that declare what the reference can mean. */
  ghost predicate Explains(finding: Finding, segs: seq<string>, own: string, edges: seq<ImportEdge>, global: Global)
    requires segs != []
  {
    && (finding == Settled <==> Available(segs, own, edges, global))
    && (finding == Unresolved <==>
        !Available(segs, own, edges, global) && forall p :: !Means(segs, global, p))
    && (forall p :: finding == Missing(p) <==>
          && !Available(segs, own, edges, global)
          && Means(segs, global, p) && forall q :: Means(segs, global, q) ==> q == p)
    && (finding.Ambiguous? <==>
        && !Available(segs, own, edges, global)
        && exists p, q :: Means(segs, global, p) && Means(segs, global, q) && p != q)
    && (finding.Ambiguous? ==> forall p :: p in finding.candidates <==> Means(segs, global, p))
  }

  /**
   A reference is settled if nothing has to be imported for it; else it is unresolved, missing or
   ambiguous as no package, one package or more than one declares what it can mean.
   */
  lemma ClassifyMeans(segs: seq<string>, own: string, edges: seq<ImportEdge>, global: Global)
    requires segs != []
    ensures Explains(Classify(segs, own, edges, global), segs, own, edges, global)
  {
    if |segs| == 1 {
      BareMeans(segs, own, edges, global);
    } else {
      QualifiedMeans(segs, own, edges, global);
    }
  }

  lemma QualifiedMeans(segs: seq<string>, own: string, edges: seq<ImportEdge>, global: Global)
    requires |segs| >= 2
    ensures var pkg := Dotted.Join(segs[..|segs| - 1]);
            && (forall p :: Means(segs, global, p) <==> p == pkg && Declares(global, pkg, segs[|segs| - 1]))
            && (Available(segs, own, edges, global) <==>
                Means(segs, global, pkg) && (pkg == own || ImportsPath(edges, pkg)))
  {
  }

  lemma BareMeans(segs: seq<string>, own: string, edges: seq<ImportEdge>, global: Global)
    requires |segs| == 1
    ensures var finding := ClassifyBare(segs[0], own, edges, global);
            && (finding == Settled <==> Available(segs, own, edges, global))
            && (finding != Settled ==> match finding
                case Unresolved => forall p :: !Means(segs, global, p)
                case Missing(p) => Means(segs, global, p) && forall q :: Means(segs, global, q) ==> q == p
                case Ambiguous(candidates) =>
                  && (forall p :: p in candidates <==> Means(segs, global, p))
                  && exists p, q :: Means(segs, global, p) && Means(segs, global, q) && p != q
                case Settled => true)
  {
    var item := segs[0];
    assert forall p :: Means(segs, global, p) <==> Declares(global, p, item);
    if !Available(segs, own, edges, global) && item in global {
      var candidates := global[item] - {own};
      assert !Means(segs, global, own);
      assert forall p :: p in candidates <==> Means(segs, global, p);
      SingleOrMore(candidates);
    }
  }

  lemma SingleOrMore(names: set<string>)
    ensures forall p :: Single(names, p) ==> p in names && forall q :: q in names ==> q == p
    ensures names == {} || (exists p :: Single(names, p)) || exists p, q :: p in names && q in names && p != q
  {
    if p :| p in names {
      if names != {p} {
        var q :| q in names && q != p;
      } else {
        assert Single(names, p);
      }
    }
  }

  /** The reference needs `item` imported from `pkg`. */
  ghost predicate LacksFor(r: seq<string>, own: string, edges: seq<ImportEdge>, global: Global,
                           pkg: string, item: string) {
    r != [] && r[|r| - 1] == item && Classify(r, own, edges, global) == Missing(pkg)
  }

  ghost predicate Lacks(refs: seq<seq<string>>, own: string, edges: seq<ImportEdge>, global: Global,
                        pkg: string, item: string) {
    exists r :: r in refs && LacksFor(r, own, edges, global, pkg, item)
  }

  predicate Needs(needed: Needed, pkg: string, item: string) {
    pkg in needed && item in needed[pkg]
  }

  /** `needed` holds exactly what the references lack. */
  ghost predicate NeededIs(needed: Needed, refs: seq<seq<string>>, own: string, edges: seq<ImportEdge>,
                           global: Global) {
    && (forall pkg :: pkg in needed ==> needed[pkg] != {})
    && (forall pkg, item :: Needs(needed, pkg, item) <==> Lacks(refs, own, edges, global, pkg, item))
  }

  ghost function UnresolvedOf(refs: seq<seq<string>>, own: string, edges: seq<ImportEdge>, global: Global)
    : seq<string>
  {
    if refs == [] then []
    else
      var last := refs[|refs| - 1];
      UnresolvedOf(refs[..|refs| - 1], own, edges, global)
      + if Classify(last, own, edges, global).Unresolved? then [Dotted.Join(last)] else []
  }

  ghost function AmbiguousOf(refs: seq<seq<string>>, own: string, edges: seq<ImportEdge>, global: Global)
    : seq<(string, set<string>)>
  {
    if refs == [] then []
    else
      var last := refs[|refs| - 1];
      AmbiguousOf(refs[..|refs| - 1], own, edges, global)
      + match Classify(last, own, edges, global)
        case Ambiguous(candidates) => [(last[|last| - 1], candidates)]
        case _ => []
  }

  // ----- The rewrite ----------------------------------------------------------------

  /** The line is a named import of the package. */
  predicate Imports(line: string, pkg: string) {
    var edge := ParseImportLine(line);
    edge.Some? && edge.value.importPath == pkg && !edge.value.isWildcard
  }

  /** `position`: the first line the test accepts; the number of lines when there is none. */
  function FirstWhere(lines: seq<string>, test: string -> bool): (k: nat)
    ensures k <= |lines|
    ensures k < |lines| ==> test(lines[k])
    ensures forall i :: 0 <= i < k ==> !test(lines[i])
  {
    if lines == [] || test(lines[0]) then 0 else 1 + FirstWhere(lines[1..], test)
  }

  function FindImport(lines: seq<string>, pkg: string): nat {
    FirstWhere(lines, line => Imports(line, pkg))
  }

  function Indent(line: string): string {
    line[..RunLength(line, IsWhitespace)]
  }

  ghost function MergedLine(line: string, pkg: string, names: set<string>): string
    requires Imports(line, pkg)
  {
    Indent(line) + ImportText(pkg, Listing(Elements(ParseImportLine(line).value.items) + names))
  }

  predicate HasImport(lines: seq<string>, pkg: string) {
    FindImport(lines, pkg) < |lines|
  }

  /** The first named import of the package, if any, is extended. */
  ghost function MergeOne(lines: seq<string>, pkg: string, names: set<string>): (r: seq<string>)
    ensures |r| == |lines|
  {
    var k := FindImport(lines, pkg);
    if k < |lines| then lines[k := MergedLine(lines[k], pkg, names)] else lines
  }

  /** The lines after merging for each package in turn, and the packages that had no line. */
  ghost function MergeAll(lines: seq<string>, pkgs: seq<string>, needed: Needed)
    : (r: (seq<string>, seq<string>))
    requires forall p :: p in pkgs ==> p in needed
    ensures |r.0| == |lines| && forall p :: p in r.1 ==> p in pkgs
  {
    if pkgs == [] then (lines, [])
    else
      var (merged, rest) := MergeAll(lines, pkgs[..|pkgs| - 1], needed);
      var pkg := pkgs[|pkgs| - 1];
      (MergeOne(merged, pkg, needed[pkg]), if HasImport(merged, pkg) then rest else rest + [pkg])
  }

  ghost function NewLines(pkgs: seq<string>, needed: Needed): (r: seq<string>)
    requires forall p :: p in pkgs ==> p in needed
    ensures |r| == |pkgs| && forall i :: 0 <= i < |pkgs| ==> r[i] == ImportText(pkgs[i], Listing(needed[pkgs[i]]))
  {
    seq(|pkgs|, i requires 0 <= i < |pkgs| => ImportText(pkgs[i], Listing(needed[pkgs[i]])))
  }

  predicate StartsImport(line: string) {
    "import " <= TrimStart(line)
  }

  predicate StartsPackage(line: string) {
    "package " <= TrimStart(line)
  }

  lemma NotBothStarts(line: string)
    ensures !StartsImport(line) || !StartsPackage(line)
  {
    if StartsImport(line) {
      assert TrimStart(line)[0] == 'i';
    }
  }

  /** An indented keyword is what begins such a line. */
  lemma KeywordsBegin(indent: string, rest: string)
    requires Blank(indent)
    ensures StartsImport(indent + ("import " + rest)) && StartsPackage(indent + ("package " + rest))
  {
    TrimStartSkips(indent, "import " + rest);
    TrimStartSkips(indent, "package " + rest);
  }

  /** `k` is one past the last line that begins an import; 0 when there is none. */
  predicate IsAfterLastImport(lines: seq<string>, k: nat) {
    && k <= |lines|
    && (k > 0 ==> StartsImport(lines[k - 1]))
    && forall i :: k <= i < |lines| ==> !StartsImport(lines[i])
  }

  function AfterLastImport(lines: seq<string>): (k: nat)
    ensures k <= |lines|
  {
    if lines == [] then 0
    else if StartsImport(lines[|lines| - 1]) then |lines|
    else AfterLastImport(lines[..|lines| - 1])
  }

  /** `k` is one past the first line that begins a package clause; 0 when there is none. */
  predicate IsAfterPackage(lines: seq<string>, k: nat) {
    && k <= |lines|
    && (k > 0 ==> StartsPackage(lines[k - 1]))
    && forall i :: 0 <= i < (if k == 0 then |lines| else k - 1) ==> !StartsPackage(lines[i])
  }

  function AfterPackage(lines: seq<string>): (k: nat)
    ensures k <= |lines|
  {
    if lines == [] then 0
    else if AfterPackage(lines[..|lines| - 1]) > 0 then AfterPackage(lines[..|lines| - 1])
    else if StartsPackage(lines[|lines| - 1]) then |lines|
    else 0
  }

  /** `insert_index` */
  function InsertAt(lines: seq<string>): (k: nat)
    ensures k <= |lines|
  {
    if AfterLastImport(lines) > 0 then AfterLastImport(lines) else AfterPackage(lines)
  }

  lemma {:induction false} AfterLastImportIs(lines: seq<string>)
    ensures IsAfterLastImport(lines, AfterLastImport(lines))
  {
    if lines != [] && !StartsImport(lines[|lines| - 1]) {
      AfterLastImportIs(lines[..|lines| - 1]);
    }
  }

  lemma {:induction false} AfterPackageIs(lines: seq<string>)
    ensures IsAfterPackage(lines, AfterPackage(lines))
  {
    if lines == [] {
    } else {
      AfterPackageIs(lines[..|lines| - 1]);
    }
  }

  /**
   New imports go below the last import; in a file without imports below the first package clause;
   else to the top.
   */
  lemma InsertAtIsBelowTheHeader(lines: seq<string>)
    ensures var k := InsertAt(lines);
            || (k > 0 && IsAfterLastImport(lines, k))
            || (IsAfterLastImport(lines, 0) && IsAfterPackage(lines, k))
  {
    AfterLastImportIs(lines);
    AfterPackageIs(lines);
  }

  function WithNew(lines: seq<string>, newLines: seq<string>): seq<string> {
    lines[..InsertAt(lines)] + newLines + lines[InsertAt(lines)..]
  }

  ghost function FixedLines(lines: seq<string>, needed: Needed): seq<string> {
    var keys := Listing(needed.Keys);
    assert forall p :: p in keys ==> p in Elements(keys);
    var (merged, rest) := MergeAll(lines, keys, needed);
    WithNew(merged, Sort(NewLines(rest, needed)))
  }

  /** `apply_imports` */
  ghost function FixedText(source: string, needed: Needed): string {
    Text(FixedLines(Lines(source), needed), Dotted.EndsWith(source, "\n"))
  }

  // ----- The code -------------------------------------------------------------------

  lemma AfterOneMore(lines: seq<string>, line: string)
    ensures AfterLastImport(lines + [line])
            == if StartsImport(line) then |lines| + 1 else AfterLastImport(lines)
    ensures AfterPackage(lines + [line])
            == if AfterPackage(lines) > 0 then AfterPackage(lines)
               else if StartsPackage(line) then |lines| + 1 else 0
  {
    assert (lines + [line])[..|lines|] == lines;
  }

  function Next(line: Option<nat>): nat {
    if line.Some? then line.value + 1 else 0
  }

  method InsertIndex(lines: seq<string>) returns (at: nat)
    ensures at == InsertAt(lines)
  {
    var lastImport: Option<nat>, packageLine: Option<nat> := None, None;
    ghost var seen := [];
    for i := 0 to |lines|
      invariant seen == lines[..i]
      invariant Next(lastImport) == AfterLastImport(seen) && Next(packageLine) == AfterPackage(seen)
    {
      NotBothStarts(lines[i]);
      AfterOneMore(seen, lines[i]);
      if StartsImport(lines[i]) {
        lastImport := Some(i);
      } else if packageLine.None? && StartsPackage(lines[i]) {
        packageLine := Some(i);
      }
      seen := seen + [lines[i]];
    }
    assert seen == lines;
    at := if lastImport.Some? then lastImport.value + 1
          else if packageLine.Some? then packageLine.value + 1
          else 0;
  }

  /** The names that are not in the set. */
  function Without(names: seq<string>, gone: set<string>): seq<string> {
    if names == [] then []
    else
      var last := names[|names| - 1];
      Without(names[..|names| - 1], gone) + if last in gone then [] else [last]
  }

  lemma {:induction false} WithoutMore(names: seq<string>, gone: set<string>, x: string)
    requires x !in names
    ensures Without(names, gone + {x}) == Without(names, gone)
  {
    if names == [] {
    } else {
      WithoutMore(names[..|names| - 1], gone, x);
      assert names[|names| - 1] in names;
    }
  }

  method MergeImport(lines: seq<string>, pkg: string, names: set<string>)
    returns (out: seq<string>, found: bool)
    ensures out == MergeOne(lines, pkg, names) && found == HasImport(lines, pkg)
  {
    var idx := FindImport(lines, pkg);
    out, found := lines, idx < |lines|;
    if found {
      var edge := ParseImportLine(lines[idx]).value;
      var all := SortedNames((set x | x in edge.items) + names);
      out := lines[idx := Indent(lines[idx]) + ImportText(pkg, all)];
    }
  }

  lemma MergeAllSnoc(lines: seq<string>, pkgs: seq<string>, pkg: string, needed: Needed)
    requires pkg in needed && forall p :: p in pkgs ==> p in needed
    ensures var r := MergeAll(lines, pkgs, needed);
            MergeAll(lines, pkgs + [pkg], needed)
            == (MergeOne(r.0, pkg, needed[pkg]), if HasImport(r.0, pkg) then r.1 else r.1 + [pkg])
  {
    assert (pkgs + [pkg])[..|pkgs|] == pkgs;
  }

  lemma WithoutSnoc(names: seq<string>, gone: set<string>, x: string)
    requires x !in names && x !in gone
    ensures Without(names + [x], gone) == Without(names, gone) + [x]
    ensures Without(names + [x], gone + {x}) == Without(names, gone)
  {
    assert (names + [x])[..|names|] == names;
    WithoutMore(names, gone, x);
    assert Without(names, gone) + [] == Without(names, gone);
  }

  lemma NotYetMet(keys: seq<string>, i: nat)
    requires Distinct(keys) && i < |keys|
    ensures keys[i] !in keys[..i] && keys[..i] + [keys[i]] == keys[..i + 1]
  {
  }

  method MergeImports(source: seq<string>, keys: seq<string>, needed: Needed)
    returns (lines: seq<string>, merged: set<string>)
    requires Distinct(keys) && forall p :: p in keys ==> p in needed
    ensures MergeAll(source, keys, needed) == (lines, Without(keys, merged))
  {
    lines, merged := source, {};
    ghost var seen := [];
    for i := 0 to |keys|
      invariant seen == keys[..i] && forall p :: p in merged ==> p in seen
      invariant MergeAll(source, seen, needed) == (lines, Without(seen, merged))
    {
      var pkg := keys[i];
      NotYetMet(keys, i);
      MergeAllSnoc(source, seen, pkg, needed);
      WithoutSnoc(seen, merged, pkg);
      var found;
      lines, found := MergeImport(lines, pkg, needed[pkg]);
      if found {
        merged := merged + {pkg};
      }
      seen := seen + [pkg];
    }
    assert keys[..|keys|] == keys;
  }

  method PrintImports(pkgs: seq<string>, needed: Needed) returns (lines: seq<string>)
    requires forall p :: p in pkgs ==> p in needed
    ensures lines == NewLines(pkgs, needed)
  {
    lines := [];
    for i := 0 to |pkgs|
      invariant |lines| == i
      invariant forall k :: 0 <= k < i ==> lines[k] == ImportText(pkgs[k], Listing(needed[pkgs[k]]))
    {
      var names := SortedNames(needed[pkgs[i]]);
      lines := lines + [ImportText(pkgs[i], names)];
    }
  }

  method InsertLines(lines: seq<string>, at: nat, newLines: seq<string>) returns (out: seq<string>)
    requires at <= |lines|
    ensures out == lines[..at] + newLines + lines[at..]
  {
    out := lines;
    for i := 0 to |newLines|
      invariant |out| == |lines| + i
      invariant out == lines[..at] + newLines[..i] + lines[at..]
    {
      out := out[..at + i] + [newLines[i]] + out[at + i..];
    }
  }

  method InsertNew(lines: seq<string>, newLines: seq<string>) returns (out: seq<string>)
    ensures out == WithNew(lines, newLines)
  {
    out := lines;
    if newLines != [] {
      var at := InsertIndex(lines);
      out := InsertLines(lines, at, newLines);
    }
  }

  method ApplyImports(source: string, needed: Needed) returns (out: string)
    ensures out == FixedText(source, needed)
  {
    var keys := SortedNames(needed.Keys);
    assert forall p :: p in keys ==> p in Elements(keys);
    AscendingIsDistinct(keys);
    var lines, merged := MergeImports(Lines(source), keys, needed);
    var newLines := PrintImports(Without(keys, merged), needed);
    newLines := Sort(newLines);
    lines := InsertNew(lines, newLines);
    out := Text(lines, Dotted.EndsWith(source, "\n"));
  }

  datatype FileFix = FileFix(newText: string, added: Needed, unresolved: seq<string>,
                             ambiguous: seq<(string, set<string>)>)

  lemma LacksSnoc(refs: seq<seq<string>>, r: seq<string>, own: string, edges: seq<ImportEdge>,
                  global: Global, pkg: string, item: string)
    ensures Lacks(refs + [r], own, edges, global, pkg, item)
            <==> Lacks(refs, own, edges, global, pkg, item) || LacksFor(r, own, edges, global, pkg, item)
  {
    var all := refs + [r];
    if Lacks(refs, own, edges, global, pkg, item) {
      var q :| q in refs && LacksFor(q, own, edges, global, pkg, item);
      assert q in all;
    }
    assert r in all;
  }

  /** `needed.entry(pkg).or_default().insert(item)` */
  function Enter(needed: Needed, pkg: string, item: string): Needed {
    needed[pkg := (if pkg in needed then needed[pkg] else {}) + {item}]
  }

  lemma EnterKeepsNeeded(needed: Needed, refs: seq<seq<string>>, r: seq<string>, own: string,
                         edges: seq<ImportEdge>, global: Global, finding: Finding)
    requires NeededIs(needed, refs, own, edges, global) && finding == Classify(r, own, edges, global)
    ensures finding.Missing? ==> r != []
    ensures NeededIs(if finding.Missing? then Enter(needed, finding.pkg, r[|r| - 1]) else needed,
                     refs + [r], own, edges, global)
  {
    forall pkg, item
      ensures Lacks(refs + [r], own, edges, global, pkg, item)
              <==> || Lacks(refs, own, edges, global, pkg, item)
                   || (r != [] && r[|r| - 1] == item && finding == Missing(pkg))
    {
      LacksSnoc(refs, r, own, edges, global, pkg, item);
    }
  }

  lemma ReportsSnoc(refs: seq<seq<string>>, r: seq<string>, own: string, edges: seq<ImportEdge>,
                    global: Global, finding: Finding)
    requires finding == Classify(r, own, edges, global)
    ensures finding.Ambiguous? ==> r != []
    ensures UnresolvedOf(refs + [r], own, edges, global)
            == UnresolvedOf(refs, own, edges, global) + if finding.Unresolved? then [Dotted.Join(r)] else []
    ensures AmbiguousOf(refs + [r], own, edges, global)
            == AmbiguousOf(refs, own, edges, global)
               + if finding.Ambiguous? then [(r[|r| - 1], finding.candidates)] else []
  {
    assert (refs + [r])[..|refs|] == refs;
  }

  /** The per-reference body of `plan_file_fix`. */
  method Find(segs: seq<string>, own: string, edges: seq<ImportEdge>, global: Global)
    returns (finding: Finding)
    ensures finding == Classify(segs, own, edges, global)
    ensures segs == [] ==> finding == Settled
    ensures segs != [] ==> Explains(finding, segs, own, edges, global)
  {
    if segs == [] {
      return Settled;
    }
    ClassifyMeans(segs, own, edges, global);
    var item := segs[|segs| - 1];
    if |segs| >= 2 {
      return ClassifyQualified(Dotted.Join(segs[..|segs| - 1]), item, own, edges, global);
    }
    if item in PRIMITIVES || Declares(global, own, item) || ImportsItem(edges, item) {
      return Settled;
    }
    if item !in global {
      return Unresolved;
    }
    if exists p :: p in global[item] && ImportsAll(edges, p) {
      return Settled;
    }
    var candidates := global[item] - {own};
    if candidates == {} {
      return Unresolved;
    }
    var p :| p in candidates;
    if candidates == {p} {
      assert Single(candidates, p);
      return Missing(p);
    }
    return Ambiguous(candidates);
  }

  /** The text after a plan: untouched when nothing is needed. */
  ghost function PlannedText(source: string, needed: Needed): string {
    if needed == map[] then source else FixedText(source, needed)
  }

  method PlanFileFix(source: string, refs: seq<seq<string>>, own: string, edges: seq<ImportEdge>,
                     global: Global)
    returns (fix: FileFix)
    ensures NeededIs(fix.added, refs, own, edges, global)
    ensures fix.newText == PlannedText(source, fix.added)
    ensures fix.unresolved == UnresolvedOf(refs, own, edges, global)
    ensures fix.ambiguous == AmbiguousOf(refs, own, edges, global)
  {
    var needed: Needed, unresolved, ambiguous := map[], [], [];
    for i := 0 to |refs|
      invariant NeededIs(needed, refs[..i], own, edges, global)
      invariant unresolved == UnresolvedOf(refs[..i], own, edges, global)
      invariant ambiguous == AmbiguousOf(refs[..i], own, edges, global)
    {
      assert refs[..i + 1] == refs[..i] + [refs[i]] && refs[..i + 1][..i] == refs[..i];
      var finding := Find(refs[i], own, edges, global);
      EnterKeepsNeeded(needed, refs[..i], refs[i], own, edges, global, finding);
      ReportsSnoc(refs[..i], refs[i], own, edges, global, finding);
      match finding
      case Settled =>
      case Missing(pkg) => needed := Enter(needed, pkg, refs[i][|refs[i]| - 1]);
      case Unresolved => unresolved := unresolved + [Dotted.Join(refs[i])];
      case Ambiguous(candidates) =>
        ambiguous := ambiguous + [(refs[i][|refs[i]| - 1], candidates)];
    }
    assert refs[..|refs|] == refs;
    var text := source;
    if needed != map[] {
      text := ApplyImports(source, needed);
    }
    fix := FileFix(text, needed, unresolved, ambiguous);
  }
}
