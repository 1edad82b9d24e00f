/** What the symbol index of `lsp/src/index.rs` answers. */
module SymbolQueries {
  // Every query is settled by the latest parse of each file: two
  // indexes that agree with the same files answer alike, in whatever order the files were refreshed.

  import opened Outcome
  import opened Order
  import opened Positions
  import opened SymbolIndex

  // ----- The queries --------------------------------------------------------------------

  /** `declaration_location` */
  function DeclarationOf(s: State, path: Path): Option<Location> {
    if path in s.declNames then Some(Location(s.declNames[path].0, s.declNames[path].1))
    else if path in s.symbols then Some(Location(s.symbols[path].0, s.symbols[path].1))
    else None
  }

  /** `declaration_in_file` */
  function DeclarationIn(s: State, uri: Uri, path: Path): Option<Range> {
    if path in s.declNames && s.declNames[path].0 == uri then Some(s.declNames[path].1)
    else if path in s.symbols && s.symbols[path].0 == uri then Some(s.symbols[path].1)
    else None
  }

  function RangesOf(sites: seq<Location>): seq<Range> {
    seq(|sites|, i requires 0 <= i < |sites| => sites[i].range)
  }

  /** `usages_in_file` */
  function UsageRanges(s: State, uri: Uri, path: Path): seq<Range> {
    RangesOf(InFile(Sites(s.usages, path), uri))
  }

  function Follow(s: State, links: seq<(Range, Path)>): seq<(Range, Location)> {
    if links == [] then []
    else
      var (range, path) := links[|links| - 1];
      var target := DeclarationOf(s, path);
      Follow(s, links[..|links| - 1]) + if target.Some? then [(range, target.value)] else []
  }

  /** `import_links_in_file` */
  function ImportTargets(s: State, uri: Uri): seq<(Range, Location)> {
    Follow(s, Links(s.importLinks, uri))
  }

  /** The list that `references_of` gathers before it sorts. */
  function Mentions(s: State, path: Path, includeDecl: bool): seq<Location> {
    var declaration := DeclarationOf(s, path);
    (if includeDecl && declaration.Some? then [declaration.value] else []) + Sites(s.usages, path)
  }

  predicate Before(a: Location, b: Location) {
    || Less(a.uri, b.uri)
    || (a.uri == b.uri
        && (a.range.start.line < b.range.start.line
            || (a.range.start.line == b.range.start.line
                && a.range.start.character < b.range.start.character)))
  }

  /** `sort_by` on (uri, line, character); the standard library's sort is stable. */
  function SortSites(s: seq<Location>): seq<Location> {
    SortBy(s, Before)
  }

  /** `dedup_by`: drops a site equal to the one just before it. */
  function DropRepeats(s: seq<Location>): seq<Location> {
    if |s| < 2 then s
    else
      var last := s[|s| - 1];
      DropRepeats(s[..|s| - 1]) + if s[|s| - 2] == last then [] else [last]
  }

  /** `references_of` */
  function References(s: State, path: Path, includeDecl: bool): seq<Location> {
    DropRepeats(SortSites(Mentions(s, path, includeDecl)))
  }

  // ----- Sorting settles the order --------------------------------------------------

  predicate SameStart(a: Location, b: Location) {
    a.uri == b.uri && a.range.start == b.range.start
  }

  ghost predicate Ordered(s: seq<Location>) {
    Sorted(s, Before)
  }

  lemma SameStartOrBefore(a: Location, b: Location)
    ensures SameStart(a, b) <==> !Before(a, b) && !Before(b, a)
  {
    LessIsTotal(a.uri, b.uri);
    if Less(a.uri, b.uri) {
      LessIsAsymmetric(a.uri, b.uri);
    } else if Less(b.uri, a.uri) {
      LessIsAsymmetric(b.uri, a.uri);
    }
  }

  lemma NotBeforeIsTransitive(a: Location, b: Location, c: Location)
    requires !Before(b, a) && !Before(c, b)
    ensures !Before(c, a)
  {
    LessIsTotal(a.uri, b.uri);
    LessIsTotal(b.uri, c.uri);
    if Less(a.uri, b.uri) && Less(b.uri, c.uri) {
      LessIsTransitive(a.uri, b.uri, c.uri);
    }
    if Less(c.uri, a.uri) {
      LessIsAsymmetric(c.uri, a.uri);
    }
  }

  /** The sites that start where `k` starts, in order. */
  function StartingAt(s: seq<Location>, k: Location): seq<Location> {
    if s == [] then []
    else
      var last := s[|s| - 1];
      StartingAt(s[..|s| - 1], k) + if SameStart(last, k) then [last] else []
  }

  lemma StartingAtSnoc(s: seq<Location>, x: Location, k: Location)
    ensures StartingAt(s + [x], k) == StartingAt(s, k) + if SameStart(x, k) then [x] else []
  {
    assert (s + [x])[..|s|] == s;
  }

  lemma {:induction false} StartingAtHolds(s: seq<Location>, k: Location, l: Location)
    ensures l in StartingAt(s, k) <==> l in s && SameStart(l, k)
  {
    if s == [] {
    } else {
      StartingAtHolds(s[..|s| - 1], k, l);
      assert s == s[..|s| - 1] + [s[|s| - 1]];
    }
  }

  lemma SwapKeepsStarts(front: seq<Location>, x: Location, y: Location, k: Location)
    requires !SameStart(x, y)
    ensures StartingAt(front + [x] + [y], k) == StartingAt(front + [y] + [x], k)
  {
    StartingAtSnoc(front, x, k);
    StartingAtSnoc(front, y, k);
    StartingAtSnoc(front + [x], y, k);
    StartingAtSnoc(front + [y], x, k);
  }

  lemma BehindLast(front: seq<Location>, inserted: seq<Location>, last: Location, x: Location, k: Location)
    requires StartingAt(inserted, k) == StartingAt(front + [x], k) && !SameStart(x, last)
    ensures StartingAt(inserted + [last], k) == StartingAt(front + [last] + [x], k)
  {
    StartingAtSnoc(inserted, last, k);
    StartingAtSnoc(front + [x], last, k);
    SwapKeepsStarts(front, x, last, k);
  }

  lemma BeforeStartsElsewhere(a: Location, b: Location)
    requires Before(a, b)
    ensures !SameStart(a, b)
  {
    SameStartOrBefore(a, b);
  }

  lemma InsertBehind(s: seq<Location>, x: Location)
    requires s != [] && Before(x, s[|s| - 1])
    ensures InsertBy(s, x, Before) == InsertBy(s[..|s| - 1], x, Before) + [s[|s| - 1]]
  {
  }

  lemma {:induction false} InsertKeepsStarts(s: seq<Location>, x: Location, k: Location)
    ensures StartingAt(InsertBy(s, x, Before), k) == StartingAt(s + [x], k)
  {
    if s == [] {
    } else if Before(x, s[|s| - 1]) {
      var front, last := s[..|s| - 1], s[|s| - 1];
      InsertKeepsStarts(front, x, k);
      BeforeStartsElsewhere(x, last);
      BehindLast(front, InsertBy(front, x, Before), last, x, k);
      InsertBehind(s, x);
      assert front + [last] == s;
    }
  }

  /** Sites with one start stay in their order. */
  lemma {:induction false} SortKeepsStarts(s: seq<Location>, k: Location)
    ensures StartingAt(SortSites(s), k) == StartingAt(s, k)
  {
    if s == [] {
    } else {
      var front, last := s[..|s| - 1], s[|s| - 1];
      SortKeepsStarts(front, k);
      InsertKeepsStarts(SortSites(front), last, k);
      StartingAtSnoc(SortSites(front), last, k);
    }
  }

  lemma BeforeIsAsymmetric(a: Location, b: Location)
    requires Before(a, b)
    ensures !Before(b, a)
  {
    if Less(a.uri, b.uri) {
      LessIsAsymmetric(a.uri, b.uri);
    } else if Less(b.uri, a.uri) {
      LessIsAsymmetric(b.uri, a.uri);
    }
  }

  lemma SortOrders(s: seq<Location>)
    ensures Ordered(SortSites(s))
  {
    forall a, b | Before(a, b)
      ensures !Before(b, a)
    {
      BeforeIsAsymmetric(a, b);
    }
    forall a, b, c | !Before(b, a) && !Before(c, b)
      ensures !Before(c, a)
    {
      NotBeforeIsTransitive(a, b, c);
    }
    SortBySorts(s, Before);
  }

  ghost predicate SameStarts(a: seq<Location>, b: seq<Location>) {
    forall k :: StartingAt(a, k) == StartingAt(b, k)
  }

  /** In an ordered list the last site is not before any other. */
  lemma NoneAfterLast(s: seq<Location>, k: Location)
    requires Ordered(s) && StartingAt(s, k) != []
    ensures s != [] && !Before(s[|s| - 1], k)
  {
    var l := StartingAt(s, k)[0];
    StartingAtHolds(s, k, l);
    SameStartOrBefore(l, k);
    SameStartOrBefore(s[|s| - 1], s[|s| - 1]);
    NotBeforeIsTransitive(k, l, s[|s| - 1]);
  }

  lemma OrderedLast(a: seq<Location>, b: seq<Location>)
    requires Ordered(a) && Ordered(b) && SameStarts(a, b) && a != []
    ensures b != [] && a[|a| - 1] == b[|b| - 1]
  {
    var x := a[|a| - 1];
    SameStartOrBefore(x, x);
    assert StartingAt(a, x) == StartingAt(b, x);
    NoneAfterLast(b, x);
    var y := b[|b| - 1];
    SameStartOrBefore(y, y);
    assert StartingAt(a, y) == StartingAt(b, y);
    NoneAfterLast(a, y);
    SameStartOrBefore(x, y);
    assert StartingAt(a, x)[|StartingAt(a, x)| - 1] == x;
    assert StartingAt(b, x)[|StartingAt(b, x)| - 1] == y;
  }

  lemma StartingAtCancels(a: seq<Location>, b: seq<Location>, x: Location, k: Location)
    requires StartingAt(a + [x], k) == StartingAt(b + [x], k)
    ensures StartingAt(a, k) == StartingAt(b, k)
  {
    var tail := if SameStart(x, k) then [x] else [];
    StartingAtSnoc(a, x, k);
    StartingAtSnoc(b, x, k);
    assert (StartingAt(a, k) + tail)[..|StartingAt(a, k)|] == StartingAt(a, k);
    assert (StartingAt(b, k) + tail)[..|StartingAt(b, k)|] == StartingAt(b, k);
  }

  /** An ordered list is settled by its sites at each start. */
  lemma {:induction false} OrderedIsSettled(a: seq<Location>, b: seq<Location>)
    requires Ordered(a) && Ordered(b) && SameStarts(a, b)
    ensures a == b
    decreases |a|
  {
    if a == [] {
      if b != [] {
        OrderedLast(b, a);
      }
    } else {
      OrderedLast(a, b);
      var fa, fb, last := a[..|a| - 1], b[..|b| - 1], a[|a| - 1];
      forall k
        ensures StartingAt(fa, k) == StartingAt(fb, k)
      {
        assert StartingAt(a, k) == StartingAt(b, k);
        assert fa + [last] == a && fb + [last] == b;
        StartingAtCancels(fa, fb, last, k);
      }
      OrderedIsSettled(fa, fb);
    }
  }

  lemma {:induction false} StartingAtIsInFile(s: seq<Location>, k: Location)
    ensures StartingAt(s, k) == StartingAt(InFile(s, k.uri), k)
  {
    if s == [] {
    } else {
      var front, last := s[..|s| - 1], s[|s| - 1];
      StartingAtIsInFile(front, k);
      StartingAtSnoc(InFile(front, k.uri), last, k);
      assert InFile(front, k.uri) + [] == InFile(front, k.uri);
    }
  }

  ghost predicate SameInFiles(a: seq<Location>, b: seq<Location>) {
    forall u :: InFile(a, u) == InFile(b, u)
  }

  /** Lists with the same sites in each file sort alike, however the files are interleaved. */
  lemma SortForgetsFileOrder(a: seq<Location>, b: seq<Location>)
    requires SameInFiles(a, b)
    ensures SortSites(a) == SortSites(b)
  {
    SortOrders(a);
    SortOrders(b);
    forall k
      ensures StartingAt(SortSites(a), k) == StartingAt(SortSites(b), k)
    {
      SortKeepsStarts(a, k);
      SortKeepsStarts(b, k);
      StartingAtIsInFile(a, k);
      StartingAtIsInFile(b, k);
      assert InFile(a, k.uri) == InFile(b, k.uri);
    }
    OrderedIsSettled(SortSites(a), SortSites(b));
  }

  // ----- Repeats ------------------------------------------------------------------------

  /** `x` was met before, and another site with its start has come since. */
  predicate ComesBack(group: seq<Location>, x: Location) {
    x in group && group[|group| - 1] != x
  }

  /** No site comes back after another site with the same start. */
  predicate Together(s: seq<Location>) {
    s == [] || (Together(s[..|s| - 1]) && !ComesBack(StartingAt(s[..|s| - 1], s[|s| - 1]), s[|s| - 1]))
  }

  lemma TogetherSnoc(s: seq<Location>, x: Location)
    ensures Together(s + [x]) <==> Together(s) && !ComesBack(StartingAt(s, x), x)
  {
    assert (s + [x])[..|s|] == s;
  }

  lemma {:induction false} InsertKeepsTogether(s: seq<Location>, x: Location)
    ensures Together(InsertBy(s, x, Before)) <==> Together(s + [x])
  {
    if s == [] || !Before(x, s[|s| - 1]) {
    } else {
      var front, last := s[..|s| - 1], s[|s| - 1];
      InsertKeepsTogether(front, x);
      TogetherSnoc(front, x);
      TogetherSnoc(s, x);
      TogetherSnoc(InsertBy(front, x, Before), last);
      InsertKeepsStarts(front, x, last);
      SameStartOrBefore(x, last);
      StartingAtSnoc(front, x, last);
      assert StartingAt(front, last) + [] == StartingAt(front, last);
      assert StartingAt(s, x) == StartingAt(front, x) + [];
      assert StartingAt(front, x) + [] == StartingAt(front, x);
    }
  }

  lemma {:induction false} SortKeepsTogether(s: seq<Location>)
    ensures Together(SortSites(s)) <==> Together(s)
  {
    if s == [] {
    } else {
      var front, last := s[..|s| - 1], s[|s| - 1];
      SortKeepsTogether(front);
      InsertKeepsTogether(SortSites(front), last);
      TogetherSnoc(SortSites(front), last);
      SortKeepsStarts(front, last);
    }
  }

  lemma {:induction false} DropRepeatsHolds(s: seq<Location>, l: Location)
    ensures l in DropRepeats(s) <==> l in s
  {
    if |s| < 2 {
    } else {
      DropRepeatsHolds(s[..|s| - 1], l);
      assert s == s[..|s| - 1] + [s[|s| - 1]];
    }
  }

  lemma {:induction false} DropRepeatsKeepsOrder(s: seq<Location>)
    requires Ordered(s)
    ensures Ordered(DropRepeats(s))
  {
    if |s| < 2 {
    } else {
      var front, last := s[..|s| - 1], s[|s| - 1];
      DropRepeatsKeepsOrder(front);
      forall l | l in DropRepeats(front)
        ensures !Before(last, l)
      {
        DropRepeatsHolds(front, l);
      }
      SortedSnoc(DropRepeats(front), last, Before);
    }
  }

  lemma DistinctSnoc(s: seq<Location>, x: Location)
    ensures Distinct(s + [x]) <==> Distinct(s) && x !in s
  {
    var t := s + [x];
    assert forall i :: 0 <= i < |s| ==> t[i] == s[i];
    if Distinct(t) {
      assert t[|s|] == x;
    }
  }

  /** In an ordered list, a site met before shares its start with the site just before it. */
  lemma MetBeforeIsAdjacent(front: seq<Location>, last: Location)
    requires Ordered(front + [last]) && last in front
    ensures SameStart(front[|front| - 1], last)
  {
    var t := front + [last];
    var i :| 0 <= i < |front| && front[i] == last;
    assert t[i] == last && t[|front| - 1] == front[|front| - 1] && t[|front|] == last;
    SameStartOrBefore(front[|front| - 1], last);
    SameStartOrBefore(last, last);
  }

  lemma {:induction false} DropRepeatsIsDistinct(s: seq<Location>)
    requires Ordered(s)
    ensures Distinct(DropRepeats(s)) <==> Together(s)
  {
    if |s| >= 2 {
      var front, last := s[..|s| - 1], s[|s| - 1];
      assert s == front + [last];
      DropRepeatsIsDistinct(front);
      DropRepeatsHolds(front, last);
      DistinctSnoc(DropRepeats(front), last);
      StartingAtHolds(front, last, last);
      if last in front {
        MetBeforeIsAdjacent(front, last);
      }
      assert DropRepeats(front) + [] == DropRepeats(front);
    } else if |s| == 1 {
      assert StartingAt(s[..0], s[0]) == [];
    }
  }

  /**
   The documentation promises a list without repeats.  That holds exactly when no gathered site
   comes back after a different site with the same start: the sort ignores where a site ends.
   */
  lemma ReferencesAreDistinct(s: State, path: Path, includeDecl: bool)
    ensures Distinct(References(s, path, includeDecl)) <==> Together(Mentions(s, path, includeDecl))
  {
    SortOrders(Mentions(s, path, includeDecl));
    SortKeepsTogether(Mentions(s, path, includeDecl));
    DropRepeatsIsDistinct(SortSites(Mentions(s, path, includeDecl)));
  }

  /** The answer holds the gathered sites, ascending by file and start. */
  lemma ReferencesHold(s: State, path: Path, includeDecl: bool)
    ensures forall l :: l in References(s, path, includeDecl) <==>
              l in Sites(s.usages, path) || (includeDecl && DeclarationOf(s, path) == Some(l))
    ensures Ordered(References(s, path, includeDecl))
  {
    var all := Mentions(s, path, includeDecl);
    SortOrders(all);
    DropRepeatsKeepsOrder(SortSites(all));
    forall l
      ensures l in References(s, path, includeDecl) <==> l in all
    {
      DropRepeatsHolds(SortSites(all), l);
      SortByHolds(all, Before, l);
    }
  }

  /** A list with a repeat: three sites that start alike, of which the second ends elsewhere. */
  lemma RepeatSurvives(s: State, path: Path, x: Location, y: Location)
    requires Sites(s.usages, path) == [x, y, x] && SameStart(x, y) && x != y
    ensures !Distinct(References(s, path, false))
  {
    var sites := [x, y, x];
    assert Mentions(s, path, false) == [] + sites == sites;
    assert sites == [x, y] + [x] && [x, y] == [x] + [y] && [x] == [] + [x];
    StartingAtSnoc([x], y, x);
    StartingAtSnoc([], x, x);
    TogetherSnoc([x, y], x);
    ReferencesAreDistinct(s, path, false);
  }

  /** Sites of one file come in the order of the text. */
  lemma SitesFollowTheText(text: string, uri: Uri, a: Span, b: Span)
    requires CharStart(text, a.0) < CharStart(text, b.0)
    ensures Before(Location(uri, RangeOf(text, a)), Location(uri, RangeOf(text, b)))
  {
    var p, q := ByteToPosition(text, a.0), ByteToPosition(text, b.0);
    ByteRoundTrip(text, a.0);
    ByteRoundTrip(text, b.0);
    if AtMost(q, p) {
      PositionToByteIsMonotone(text, q, p);
    }
  }

  /** And files come in the order of their names. */
  lemma SitesFollowTheFiles(a: Location, b: Location, k: nat)
    requires PartsAt(a.uri, b.uri, k)
    ensures Before(a, b)
  {
    LessIsDictionaryOrder(a.uri, b.uri);
  }

  // ----- Answers from the files -------------------------------------------------------

  /** Where a file says that it declares a path: the name when there is one. */
  function DeclaredAt(snap: Snapshot, path: Path): (range: Range)
    requires path in snap.elements
  {
    if snap.elements[path].name.Some? then snap.elements[path].name.value
    else snap.elements[path].range
  }

  /** The file that declares a path gives its declaration. */
  lemma DeclarerAnswers(s: State, files: Files, u: Uri, path: Path)
    requires Agrees(s, files) && Declares(files, u, path)
    ensures DeclarationOf(s, path) == Some(Location(u, DeclaredAt(files[u], path)))
  {
    OwnerOf(s.symbols, AllRanges(files), u, path);
    if path in NameRanges(files[u]) {
      OwnerOf(s.declNames, AllNameRanges(files), u, path);
    } else if path in s.declNames {
      OwnerIs(s.declNames, AllNameRanges(files), path);
      OwnerOf(s.symbols, AllRanges(files), s.declNames[path].0, path);
      assert false;
    }
  }

  lemma OwnerOf<X>(m: map<Path, (Uri, X)>, owners: map<Uri, map<Path, X>>, u: Uri, path: Path)
    requires OwnedBy(m, owners) && u in owners && path in owners[u]
    ensures path in m && m[path] == (u, owners[u][path])
  {
  }

  lemma OwnerIs<X>(m: map<Path, (Uri, X)>, owners: map<Uri, map<Path, X>>, path: Path)
    requires OwnedBy(m, owners) && path in m
    ensures m[path].0 in owners && path in owners[m[path].0] && owners[m[path].0][path] == m[path].1
  {
  }

  /** What has a declaration is declared. */
  lemma DeclaredIsDeclared(s: State, files: Files, path: Path)
    requires Agrees(s, files) && DeclarationOf(s, path).Some?
    ensures exists u :: Declares(files, u, path)
  {
    if path in s.declNames {
      assert path in AllNameRanges(files)[s.declNames[path].0];
      assert Declares(files, s.declNames[path].0, path);
    } else {
      assert path in AllRanges(files)[s.symbols[path].0];
      assert Declares(files, s.symbols[path].0, path);
    }
  }

  lemma DeclarationIsTheFiles(s: State, files: Files, path: Path)
    requires Agrees(s, files)
    ensures DeclarationOf(s, path).Some? <==> exists u :: Declares(files, u, path)
    ensures forall u :: Declares(files, u, path) ==>
              DeclarationOf(s, path) == Some(Location(u, DeclaredAt(files[u], path)))
  {
    forall u | Declares(files, u, path)
      ensures DeclarationOf(s, path) == Some(Location(u, DeclaredAt(files[u], path)))
    {
      DeclarerAnswers(s, files, u, path);
    }
    if DeclarationOf(s, path).Some? {
      DeclaredIsDeclared(s, files, path);
    }
  }

  lemma DeclarationInIsDeclarationOf(s: State, files: Files, uri: Uri, path: Path)
    requires Agrees(s, files)
    ensures DeclarationIn(s, uri, path)
            == if Declares(files, uri, path) then Some(DeclaredAt(files[uri], path)) else None
  {
    if Declares(files, uri, path) {
      DeclarerAnswers(s, files, uri, path);
    } else {
      if path in s.symbols {
        OwnerIs(s.symbols, AllRanges(files), path);
      }
      if path in s.declNames {
        OwnerIs(s.declNames, AllNameRanges(files), path);
      }
    }
  }

  /** A file's usages of a path are its own reference sites, in the order of its envelope. */
  lemma UsagesAreTheFiles(s: State, files: Files, uri: Uri, path: Path)
    requires Agrees(s, files)
    ensures UsageRanges(s, uri, path) == RangesOf(FileSites(files, uri, path))
  {
    assert InFile(Sites(s.usages, path), uri) == FileSites(files, uri, path);
  }

  lemma {:induction false} InFileHolds(sites: seq<Location>, u: Uri, l: Location)
    ensures l in InFile(sites, u) <==> l in sites && l.uri == u
  {
    if sites == [] {
    } else {
      InFileHolds(sites[..|sites| - 1], u, l);
      assert sites == sites[..|sites| - 1] + [sites[|sites| - 1]];
    }
  }

  /** `references_of` lists the sites of every file, and the declaration if asked for, in order. */
  lemma ReferencesAreTheFiles(s: State, files: Files, path: Path, includeDecl: bool)
    requires Agrees(s, files)
    ensures forall l :: l in References(s, path, includeDecl) <==>
              || l in FileSites(files, l.uri, path)
              || (includeDecl && Declares(files, l.uri, path) && l.range == DeclaredAt(files[l.uri], path))
    ensures Ordered(References(s, path, includeDecl))
  {
    ReferencesHold(s, path, includeDecl);
    DeclarationIsTheFiles(s, files, path);
    forall l
      ensures l in Sites(s.usages, path) <==> l in FileSites(files, l.uri, path)
    {
      InFileHolds(Sites(s.usages, path), l.uri, l);
      assert InFile(Sites(s.usages, path), l.uri) == FileSites(files, l.uri, path);
    }
    forall l
      ensures DeclarationOf(s, path) == Some(l) <==>
                Declares(files, l.uri, path) && l.range == DeclaredAt(files[l.uri], path)
    {
      if u :| Declares(files, u, path) {
        assert DeclarationOf(s, path) == Some(Location(u, DeclaredAt(files[u], path)));
      }
    }
  }

  lemma {:induction false} FollowSplits(s: State, front: seq<(Range, Path)>, back: seq<(Range, Path)>)
    ensures Follow(s, front + back) == Follow(s, front) + Follow(s, back)
  {
    if back == [] {
      assert front + back == front;
    } else {
      assert (front + back)[..|front + back| - 1] == front + back[..|back| - 1];
      FollowSplits(s, front, back[..|back| - 1]);
    }
  }

  /** The links of one reference that imports a declared path: one, to where its file declares it. */
  function LinkOf(r: Reference, l: Location): seq<(Range, Location)> {
    if r.resolvedPath != "" && r.refKind == "import" then [(r.range, l)] else []
  }

  /** Import links are those of the file's import references, in order, each to the declaration if there is one. */
  lemma {:induction false} FollowIs(s: State, files: Files, refs: seq<Reference>)
    requires Agrees(s, files)
    ensures refs == [] ==> Follow(s, LinksOf(refs)) == []
    ensures refs != [] ==>
              var front, r := refs[..|refs| - 1], refs[|refs| - 1];
              && (forall u :: Declares(files, u, r.resolvedPath) ==>
                    Follow(s, LinksOf(refs))
                    == Follow(s, LinksOf(front)) + LinkOf(r, Location(u, DeclaredAt(files[u], r.resolvedPath))))
              && ((forall u :: !Declares(files, u, r.resolvedPath)) ==>
                    Follow(s, LinksOf(refs)) == Follow(s, LinksOf(front)))
  {
    if refs == [] {
    } else {
      var front, r := refs[..|refs| - 1], refs[|refs| - 1];
      var one := if r.resolvedPath != "" && r.refKind == "import" then [(r.range, r.resolvedPath)] else [];
      FollowSplits(s, LinksOf(front), one);
      assert LinksOf(refs) == LinksOf(front) + one;
      DeclarationIsTheFiles(s, files, r.resolvedPath);
      assert one != [] ==> one[..0] == [] && Follow(s, []) == [];
    }
  }

  /** The reference imports a path that is declared there. */
  ghost predicate LinksTo(files: Files, r: Reference, range: Range, l: Location) {
    && r.refKind == "import" && r.resolvedPath != "" && r.range == range
    && Declares(files, l.uri, r.resolvedPath) && l.range == DeclaredAt(files[l.uri], r.resolvedPath)
  }

  lemma FollowOneMore(s: State, files: Files, refs: seq<Reference>, range: Range, l: Location)
    requires Agrees(s, files) && refs != []
    ensures var front, last := refs[..|refs| - 1], refs[|refs| - 1];
            (range, l) in Follow(s, LinksOf(refs)) <==>
              (range, l) in Follow(s, LinksOf(front)) || LinksTo(files, last, range, l)
  {
    var front, last := refs[..|refs| - 1], refs[|refs| - 1];
    FollowIs(s, files, refs);
    if u :| Declares(files, u, last.resolvedPath) {
      OnlyDeclarer(s, files, last.resolvedPath, u);
      assert Follow(s, LinksOf(refs))
          == Follow(s, LinksOf(front)) + LinkOf(last, Location(u, DeclaredAt(files[u], last.resolvedPath)));
    }
  }

  lemma OnlyDeclarer(s: State, files: Files, path: Path, u: Uri)
    requires Agrees(s, files) && Declares(files, u, path)
    ensures forall v :: Declares(files, v, path) ==> v == u
  {
    AgreementNeedsDisjointFiles(s, files);
  }

  /** A link is listed exactly when the file imports its path there and the path is declared where it leads. */
  lemma {:induction false} FollowHolds(s: State, files: Files, refs: seq<Reference>, range: Range, l: Location)
    requires Agrees(s, files)
    ensures (range, l) in Follow(s, LinksOf(refs)) <==> exists r :: r in refs && LinksTo(files, r, range, l)
  {
    if refs == [] {
    } else {
      var front, last := refs[..|refs| - 1], refs[|refs| - 1];
      FollowHolds(s, files, front, range, l);
      FollowOneMore(s, files, refs, range, l);
      assert refs == front + [last];
    }
  }

  /** `import_links_in_file`: the file's own imports of declared paths, and where those are declared. */
  lemma ImportTargetsAreTheFiles(s: State, files: Files, uri: Uri, range: Range, l: Location)
    requires Agrees(s, files)
    ensures (range, l) in ImportTargets(s, uri) <==>
              && uri in files
              && exists r :: r in files[uri].references && LinksTo(files, r, range, l)
  {
    assert Links(s.importLinks, uri) == FileLinks(files, uri);
    if uri in files {
      FollowHolds(s, files, files[uri].references, range, l);
    }
  }

  // ----- Answers from the byte spans ------------------------------------------------

  /** The range goes back to the characters in which the span starts and ends. */
  ghost predicate Marks(text: string, range: Range, span: Span) {
    && PositionToByte(text, range.start) == CharStart(text, span.0)
    && PositionToByte(text, range.end) == CharStart(text, span.1)
  }

  lemma RangeMarksItsSpan(text: string, span: Span)
    ensures Marks(text, RangeOf(text, span), span)
  {
    ByteRoundTrip(text, span.0);
    ByteRoundTrip(text, span.1);
  }

  /** Where an element says that it is declared: its name span, unless that is missing or empty. */
  function DeclaredSpan(e: ElementEntry): Span {
    if e.nameSpan.Some? && e.nameSpan.value.0 < e.nameSpan.value.1 then e.nameSpan.value else e.span
  }

  /** After a refresh, the declaration of each path of the envelope marks the span that the envelope gives. */
  lemma RefreshedDeclaration(s: State, files: Files, uri: Uri, text: string, env: Envelope, path: Path)
    requires Agrees(s, files) && Disjoint(files[uri := Convert(text, Some(env))]) && path in env.elements
    ensures var found := DeclarationOf(Refreshed(s, uri, Convert(text, Some(env))), path);
            && found.Some? && found.value.uri == uri
            && Marks(text, found.value.range, DeclaredSpan(env.elements[path]))
  {
    var snap := Convert(text, Some(env));
    var now := files[uri := snap];
    RefreshedAgrees(s, files, uri, snap);
    assert Declares(now, uri, path);
    DeclarationIsTheFiles(Refreshed(s, uri, snap), now, path);
    ConvertsDeclaration(text, env, path);
  }

  lemma ConvertsDeclaration(text: string, env: Envelope, path: Path)
    requires path in env.elements
    ensures path in Convert(text, Some(env)).elements
    ensures Marks(text, DeclaredAt(Convert(text, Some(env)), path), DeclaredSpan(env.elements[path]))
  {
    RangeMarksItsSpan(text, DeclaredSpan(env.elements[path]));
  }

  lemma {:induction false} SitesOfHold(uri: Uri, refs: seq<Reference>, path: Path, l: Location)
    ensures l in SitesOf(uri, refs, path) <==>
              exists r :: r in refs && r.resolvedPath == path && path != "" && l == Location(uri, r.range)
  {
    if refs == [] {
    } else {
      SitesOfHold(uri, refs[..|refs| - 1], path, l);
      assert refs == refs[..|refs| - 1] + [refs[|refs| - 1]];
    }
  }

  /** The reference entry refers to the path and the range is its own. */
  ghost predicate SiteOfEntry(text: string, entry: RefEntry, path: Path, range: Range) {
    && entry.resolvedPath == path && path != ""
    && range == RangeOf(text, entry.fromSpan) && Marks(text, range, entry.fromSpan)
  }

  /** After a refresh, the references in the file are at the spans of the envelope's entries for the path. */
  lemma RefreshedReferences(s: State, files: Files, uri: Uri, text: string, env: Envelope, path: Path, range: Range)
    requires UsagesAgree(s, files) && LinksAgree(s, files)
    ensures Location(uri, range) in References(Refreshed(s, uri, Convert(text, Some(env))), path, false) <==>
              exists entry :: entry in env.references && SiteOfEntry(text, entry, path, range)
  {
    var snap := Convert(text, Some(env));
    var t, now := Refreshed(s, uri, snap), files[uri := snap];
    var l := Location(uri, range);
    RefreshedSitesAgree(s, files, uri, snap);
    ReferencesHold(t, path, false);
    InFileHolds(Sites(t.usages, path), uri, l);
    assert InFile(Sites(t.usages, path), uri) == FileSites(now, uri, path);
    SitesOfHold(uri, snap.references, path, l);
    EntriesConvert(text, env, path, range);
  }

  lemma EntriesConvert(text: string, env: Envelope, path: Path, range: Range)
    ensures (exists r :: r in Convert(text, Some(env)).references && r.resolvedPath == path && path != ""
                         && r.range == range)
            <==> exists entry :: entry in env.references && SiteOfEntry(text, entry, path, range)
  {
    var refs := Convert(text, Some(env)).references;
    if r :| r in refs && r.resolvedPath == path && path != "" && r.range == range {
      var i :| 0 <= i < |refs| && refs[i] == r;
      RangeMarksItsSpan(text, env.references[i].fromSpan);
      assert env.references[i] in env.references && SiteOfEntry(text, env.references[i], path, range);
    }
    if entry :| entry in env.references && SiteOfEntry(text, entry, path, range) {
      var i :| 0 <= i < |env.references| && env.references[i] == entry;
      assert refs[i] in refs;
    }
  }

  lemma SameDeclarations(s: State, t: State, files: Files, path: Path)
    requires Agrees(s, files) && Agrees(t, files)
    ensures DeclarationOf(s, path) == DeclarationOf(t, path)
  {
    DeclarationIsTheFiles(s, files, path);
    DeclarationIsTheFiles(t, files, path);
    if u :| Declares(files, u, path) {
    }
  }

  lemma SameReferences(s: State, t: State, files: Files, path: Path, includeDecl: bool)
    requires Agrees(s, files) && Agrees(t, files)
    ensures References(s, path, includeDecl) == References(t, path, includeDecl)
  {
    SameDeclarations(s, t, files, path);
    var declaration := DeclarationOf(s, path);
    var first := if includeDecl && declaration.Some? then [declaration.value] else [];
    forall u
      ensures InFile(first + Sites(s.usages, path), u) == InFile(first + Sites(t.usages, path), u)
    {
      InFileSplit(first, Sites(s.usages, path), u);
      InFileSplit(first, Sites(t.usages, path), u);
      assert InFile(Sites(s.usages, path), u) == FileSites(files, u, path);
      assert InFile(Sites(t.usages, path), u) == FileSites(files, u, path);
    }
    SortForgetsFileOrder(Mentions(s, path, includeDecl), Mentions(t, path, includeDecl));
  }

  lemma {:induction false} SameFollow(s: State, t: State, files: Files, links: seq<(Range, Path)>)
    requires Agrees(s, files) && Agrees(t, files)
    ensures Follow(s, links) == Follow(t, links)
  {
    if links == [] {
    } else {
      SameFollow(s, t, files, links[..|links| - 1]);
      SameDeclarations(s, t, files, links[|links| - 1].1);
    }
  }

  /**
   Two settled runs of refreshes that end with the same latest parses leave indexes that answer
   every query alike.  One of them may be the rebuild, which refreshes each file once.
   */
  lemma RunsWithTheSameFilesAnswerAlike(r: seq<Refresh>, q: seq<Refresh>,
                                        uri: Uri, path: Path, includeDecl: bool)
    requires Settled(r) && Settled(q) && Latest(r) == Latest(q)
    ensures References(Run(r), path, includeDecl) == References(Run(q), path, includeDecl)
    ensures UsageRanges(Run(r), uri, path) == UsageRanges(Run(q), uri, path)
    ensures DeclarationOf(Run(r), path) == DeclarationOf(Run(q), path)
    ensures DeclarationIn(Run(r), uri, path) == DeclarationIn(Run(q), uri, path)
    ensures ImportTargets(Run(r), uri) == ImportTargets(Run(q), uri)
  {
    var s, t, files := Run(r), Run(q), Latest(r);
    RunAgrees(r);
    RunAgrees(q);
    SameReferences(s, t, files, path, includeDecl);
    UsagesAreTheFiles(s, files, uri, path);
    UsagesAreTheFiles(t, files, uri, path);
    SameDeclarations(s, t, files, path);
    DeclarationInIsDeclarationOf(s, files, uri, path);
    DeclarationInIsDeclarationOf(t, files, uri, path);
    assert Links(s.importLinks, uri) == FileLinks(files, uri) == Links(t.importLinks, uri);
    SameFollow(s, t, files, FileLinks(files, uri));
  }

  /** After a refresh each path of the envelope has the kind that the envelope gives. */
  lemma RefreshedKind(s: State, uri: Uri, text: string, env: Envelope, path: Path)
    requires path in env.elements
    ensures var t := Refreshed(s, uri, Convert(text, Some(env)));
            path in t.kinds && t.kinds[path] == (uri, env.elements[path].kind)
  {
    var snap := Convert(text, Some(env));
    WithReferencesKeepsKinds(WithElements(Removed(s, uri), uri, snap), uri, snap.references);
  }

  lemma {:induction false} WithReferencesKeepsKinds(s: State, uri: Uri, refs: seq<Reference>)
    ensures WithReferences(s, uri, refs).kinds == s.kinds
  {
    if refs == [] {
    } else {
      WithReferencesKeepsKinds(s, uri, refs[..|refs| - 1]);
    }
  }
}
