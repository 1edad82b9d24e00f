/** The maps of the symbol index of `lsp/src/index.rs`. */
module SymbolIndex {
  // Five maps are refreshed one file at a time.  `Agrees` says what they hold, told from the latest
  // parse of each file alone.  Refreshing a file keeps it exactly when no two files declare the same
  // path; after any run of refreshes it holds exactly when the run is `Settled`.

  import opened Outcome
  import opened Order
  import opened Positions

  type Uri = string
  type Path = string

  datatype Range = Range(start: Position, end: Position)
  datatype Location = Location(uri: Uri, range: Range)

  // ----- Envelopes ------------------------------------------------------------------

  type Span = (nat, nat)
  datatype ElementEntry = ElementEntry(span: Span, kind: string, nameSpan: Option<Span>)
  datatype RefEntry = RefEntry(fromSpan: Span, resolvedPath: Path, refKind: string)
  datatype Envelope = Envelope(elements: map<Path, ElementEntry>, references: seq<RefEntry>)

  /** An envelope with its byte spans turned into ranges; `name` is there for a non-empty name span. */
  datatype Element = Element(range: Range, kind: string, name: Option<Range>)
  datatype Reference = Reference(range: Range, resolvedPath: Path, refKind: string)
  datatype Snapshot = Snapshot(elements: map<Path, Element>, references: seq<Reference>)

  function RangeOf(text: string, span: Span): Range {
    Range(ByteToPosition(text, span.0), ByteToPosition(text, span.1))
  }

  function ConvertElement(text: string, e: ElementEntry): Element {
    Element(RangeOf(text, e.span), e.kind,
            if e.nameSpan.Some? && e.nameSpan.value.1 > e.nameSpan.value.0
            then Some(RangeOf(text, e.nameSpan.value)) else None)
  }

  function ConvertReference(text: string, r: RefEntry): Reference {
    Reference(RangeOf(text, r.fromSpan), r.resolvedPath, r.refKind)
  }

  /** What a file's text and envelope say; an envelope that cannot be read says nothing. */
  function Convert(text: string, envelope: Option<Envelope>): Snapshot {
    match envelope
    case None => Snapshot(map[], [])
    case Some(env) =>
      Snapshot(map p | p in env.elements :: ConvertElement(text, env.elements[p]),
               seq(|env.references|, i requires 0 <= i < |env.references| => ConvertReference(text, env.references[i])))
  }

  datatype State = State(
    symbols: map<Path, (Uri, Range)>,
    kinds: map<Path, (Uri, string)>,
    usages: map<Path, seq<Location>>,
    declNames: map<Path, (Uri, Range)>,
    importLinks: map<Uri, seq<(Range, Path)>>)

  const EMPTY: State := State(map[], map[], map[], map[], map[])

  // ----- Maps from a path to the file that owns it ------------------------------------

  /** `retain(|_, v| &v.0 != uri)` */
  function Evict<X>(m: map<Path, (Uri, X)>, uri: Uri): map<Path, (Uri, X)> {
    map p | p in m && m[p].0 != uri :: m[p]
  }

  function Own<X>(m: map<Path, (Uri, X)>, uri: Uri, entries: map<Path, X>): map<Path, (Uri, X)> {
    m + map p | p in entries :: (uri, entries[p])
  }

  /** `m` lists exactly the entries of every file, each under its file. */
  ghost predicate OwnedBy<X>(m: map<Path, (Uri, X)>, own: map<Uri, map<Path, X>>) {
    && (forall p :: p in m ==> m[p].0 in own && p in own[m[p].0])
    && (forall u, p :: u in own && p in own[u] ==> p in m && m[p] == (u, own[u][p]))
  }

  ghost predicate NoSharedPath<X>(own: map<Uri, map<Path, X>>) {
    forall u, v, p :: u in own && v in own && p in own[u] && p in own[v] ==> u == v
  }

  lemma EvictKeepsOwners<X>(m: map<Path, (Uri, X)>, own: map<Uri, map<Path, X>>, uri: Uri)
    requires OwnedBy(m, own)
    ensures OwnedBy(Evict(m, uri), own - {uri})
  {
    assert forall p :: p in Evict(m, uri) ==> p in own[m[p].0];
  }

  lemma PathsOfOthersAreNew<X>(own: map<Uri, map<Path, X>>, uri: Uri, entries: map<Path, X>,
                               u: Uri, p: Path)
    requires NoSharedPath(own[uri := entries]) && u != uri && u in own && p in own[u]
    ensures p !in entries
  {
    var more := own[uri := entries];
    assert p in more[u] && more[uri] == entries;
  }

  lemma OwnKeepsOwners<X>(m: map<Path, (Uri, X)>, own: map<Uri, map<Path, X>>, uri: Uri,
                          entries: map<Path, X>)
    requires OwnedBy(m, own) && uri !in own && NoSharedPath(own[uri := entries])
    ensures OwnedBy(Own(m, uri, entries), own[uri := entries])
  {
    forall u, p | u in own && p in own[u]
      ensures p !in entries
    {
      PathsOfOthersAreNew(own, uri, entries, u, p);
    }
  }

  // ----- What one refresh does to the maps ----------------------------------------

  function Sites(usages: map<Path, seq<Location>>, path: Path): seq<Location> {
    if path in usages then usages[path] else []
  }

  function Links(importLinks: map<Uri, seq<(Range, Path)>>, uri: Uri): seq<(Range, Path)> {
    if uri in importLinks then importLinks[uri] else []
  }

  /** The sites of one file, in order. */
  function InFile(sites: seq<Location>, uri: Uri): seq<Location> {
    if sites == [] then []
    else
      var last := sites[|sites| - 1];
      InFile(sites[..|sites| - 1], uri) + if last.uri == uri then [last] else []
  }

  function NotInFile(sites: seq<Location>, uri: Uri): seq<Location> {
    if sites == [] then []
    else
      var last := sites[|sites| - 1];
      NotInFile(sites[..|sites| - 1], uri) + if last.uri != uri then [last] else []
  }

  function EvictSites(usages: map<Path, seq<Location>>, uri: Uri): map<Path, seq<Location>> {
    map p | p in usages && NotInFile(usages[p], uri) != [] :: NotInFile(usages[p], uri)
  }

  /** `remove_file` */
  function Removed(s: State, uri: Uri): State {
    State(Evict(s.symbols, uri), Evict(s.kinds, uri), EvictSites(s.usages, uri),
          Evict(s.declNames, uri), s.importLinks - {uri})
  }

  function Ranges(snap: Snapshot): map<Path, Range> {
    map p | p in snap.elements :: snap.elements[p].range
  }

  function Kinds(snap: Snapshot): map<Path, string> {
    map p | p in snap.elements :: snap.elements[p].kind
  }

  function NameRanges(snap: Snapshot): map<Path, Range> {
    map p | p in snap.elements && snap.elements[p].name.Some? :: snap.elements[p].name.value
  }

  /** The element loop of `update_from_envelope`. */
  function WithElements(s: State, uri: Uri, snap: Snapshot): State {
    s.(symbols := Own(s.symbols, uri, Ranges(snap)),
       kinds := Own(s.kinds, uri, Kinds(snap)),
       declNames := Own(s.declNames, uri, NameRanges(snap)))
  }

  function WithReference(s: State, uri: Uri, r: Reference): State {
    if r.resolvedPath == "" then s
    else
      s.(importLinks := if r.refKind == "import"
                        then s.importLinks[uri := Links(s.importLinks, uri) + [(r.range, r.resolvedPath)]]
                        else s.importLinks,
         usages := s.usages[r.resolvedPath := Sites(s.usages, r.resolvedPath) + [Location(uri, r.range)]])
  }

  /** Its reference loop. */
  function WithReferences(s: State, uri: Uri, refs: seq<Reference>): State {
    if refs == [] then s
    else WithReference(WithReferences(s, uri, refs[..|refs| - 1]), uri, refs[|refs| - 1])
  }

  /** `refresh_file` */
  function Refreshed(s: State, uri: Uri, snap: Snapshot): State {
    WithReferences(WithElements(Removed(s, uri), uri, snap), uri, snap.references)
  }

  // ----- What the maps ought to hold ------------------------------------------------

  type Files = map<Uri, Snapshot>

  /** The reference sites a file has for a path. */
  function SitesOf(uri: Uri, refs: seq<Reference>, path: Path): seq<Location> {
    if refs == [] then []
    else
      var r := refs[|refs| - 1];
      SitesOf(uri, refs[..|refs| - 1], path)
      + if r.resolvedPath == path && path != "" then [Location(uri, r.range)] else []
  }

  function LinksOf(refs: seq<Reference>): seq<(Range, Path)> {
    if refs == [] then []
    else
      var r := refs[|refs| - 1];
      LinksOf(refs[..|refs| - 1])
      + if r.resolvedPath != "" && r.refKind == "import" then [(r.range, r.resolvedPath)] else []
  }

  predicate Declares(files: Files, uri: Uri, path: Path) {
    uri in files && path in files[uri].elements
  }

  /** Different files declare different paths. */
  ghost predicate Disjoint(files: Files) {
    forall u, v, p :: Declares(files, u, p) && Declares(files, v, p) ==> u == v
  }

  function AllRanges(files: Files): map<Uri, map<Path, Range>> {
    map u | u in files :: Ranges(files[u])
  }

  function AllKinds(files: Files): map<Uri, map<Path, string>> {
    map u | u in files :: Kinds(files[u])
  }

  function AllNameRanges(files: Files): map<Uri, map<Path, Range>> {
    map u | u in files :: NameRanges(files[u])
  }

  function FileSites(files: Files, uri: Uri, path: Path): seq<Location> {
    if uri in files then SitesOf(uri, files[uri].references, path) else []
  }

  ghost predicate NoEmptyBucket(usages: map<Path, seq<Location>>) {
    forall p :: p in usages ==> usages[p] != []
  }

  /** Each bucket holds, file by file, that file's own sites, and no bucket is empty. */
  ghost predicate UsagesAgree(s: State, files: Files) {
    && (forall p, u :: InFile(Sites(s.usages, p), u) == FileSites(files, u, p))
    && NoEmptyBucket(s.usages)
  }

  function FileLinks(files: Files, uri: Uri): seq<(Range, Path)> {
    if uri in files then LinksOf(files[uri].references) else []
  }

  ghost predicate LinksAgree(s: State, files: Files) {
    forall u :: Links(s.importLinks, u) == FileLinks(files, u)
  }

  ghost predicate Agrees(s: State, files: Files) {
    && OwnedBy(s.symbols, AllRanges(files))
    && OwnedBy(s.kinds, AllKinds(files))
    && OwnedBy(s.declNames, AllNameRanges(files))
    && UsagesAgree(s, files)
    && LinksAgree(s, files)
  }

  lemma EmptyAgrees()
    ensures Agrees(EMPTY, map[])
  {
  }

  // ----- Refreshing keeps the agreement ---------------------------------------------

  function Only(site: Location, u: Uri): seq<Location> {
    if site.uri == u then [site] else []
  }

  lemma InFileSnoc(sites: seq<Location>, site: Location, u: Uri)
    ensures InFile(sites + [site], u) == InFile(sites, u) + Only(site, u)
  {
    assert (sites + [site])[..|sites|] == sites;
  }

  lemma {:induction false} FilterOfNotInFile(sites: seq<Location>, uri: Uri, u: Uri)
    ensures InFile(NotInFile(sites, uri), u) == if u == uri then [] else InFile(sites, u)
  {
    if sites == [] {
    } else {
      var front, last := sites[..|sites| - 1], sites[|sites| - 1];
      FilterOfNotInFile(front, uri, u);
      assert InFile(sites, u) == InFile(front, u) + Only(last, u);
      if last.uri != uri {
        InFileSnoc(NotInFile(front, uri), last, u);
      } else {
        assert NotInFile(front, uri) + [] == NotInFile(front, uri);
        assert InFile(front, u) + [] == InFile(front, u);
      }
    }
  }

  lemma {:induction false} InFileSplit(a: seq<Location>, b: seq<Location>, u: Uri)
    ensures InFile(a + b, u) == InFile(a, u) + InFile(b, u)
  {
    if b == [] {
      assert a + b == a;
    } else {
      assert (a + b)[..|a + b| - 1] == a + b[..|b| - 1];
      InFileSplit(a, b[..|b| - 1], u);
    }
  }

  lemma {:induction false} SitesOfAreInFile(uri: Uri, refs: seq<Reference>, path: Path, u: Uri)
    ensures InFile(SitesOf(uri, refs, path), u) == if u == uri then SitesOf(uri, refs, path) else []
  {
    if refs == [] {
    } else {
      var front, r := refs[..|refs| - 1], refs[|refs| - 1];
      var sites := SitesOf(uri, front, path);
      SitesOfAreInFile(uri, front, path, u);
      if r.resolvedPath == path && path != "" {
        InFileSnoc(sites, Location(uri, r.range), u);
      } else {
        assert sites + [] == sites;
      }
    }
  }

  lemma SitesAfterOne(s: State, uri: Uri, r: Reference, p: Path)
    ensures Sites(WithReference(s, uri, r).usages, p)
            == Sites(s.usages, p)
               + if r.resolvedPath == p && p != "" then [Location(uri, r.range)] else []
  {
  }

  lemma LinksAfterOne(s: State, uri: Uri, r: Reference, u: Uri)
    ensures Links(WithReference(s, uri, r).importLinks, u)
            == Links(s.importLinks, u)
               + if u == uri && r.resolvedPath != "" && r.refKind == "import"
                 then [(r.range, r.resolvedPath)] else []
  {
  }

  /** The reference loop appends a file's sites for a path to that path's bucket. */
  lemma {:induction false} ReferencesAppendSites(s: State, uri: Uri, refs: seq<Reference>, p: Path)
    ensures Sites(WithReferences(s, uri, refs).usages, p)
            == Sites(s.usages, p) + SitesOf(uri, refs, p)
  {
    if refs == [] {
    } else {
      var front := refs[..|refs| - 1];
      ReferencesAppendSites(s, uri, front, p);
      SitesAfterOne(WithReferences(s, uri, front), uri, refs[|refs| - 1], p);
    }
  }

  lemma {:induction false} ReferencesAppendLinks(s: State, uri: Uri, refs: seq<Reference>, u: Uri)
    ensures Links(WithReferences(s, uri, refs).importLinks, u)
            == Links(s.importLinks, u) + if u == uri then LinksOf(refs) else []
  {
    if refs == [] {
    } else {
      var front := refs[..|refs| - 1];
      ReferencesAppendLinks(s, uri, front, u);
      LinksAfterOne(WithReferences(s, uri, front), uri, refs[|refs| - 1], u);
    }
  }

  lemma {:induction false} ReferencesLeaveTheRest(s: State, uri: Uri, refs: seq<Reference>)
    ensures var t := WithReferences(s, uri, refs);
            t.symbols == s.symbols && t.kinds == s.kinds && t.declNames == s.declNames
  {
    if refs == [] {
    } else {
      ReferencesLeaveTheRest(s, uri, refs[..|refs| - 1]);
    }
  }

  lemma {:induction false} ReferencesEmptyNoBucket(s: State, uri: Uri, refs: seq<Reference>)
    requires NoEmptyBucket(s.usages)
    ensures NoEmptyBucket(WithReferences(s, uri, refs).usages)
  {
    if refs == [] {
    } else {
      var t := WithReferences(s, uri, refs[..|refs| - 1]);
      ReferencesEmptyNoBucket(s, uri, refs[..|refs| - 1]);
      assert NoEmptyBucket(WithReference(t, uri, refs[|refs| - 1]).usages);
    }
  }

  lemma RemovedUsagesAgree(s: State, files: Files, uri: Uri)
    requires UsagesAgree(s, files)
    ensures UsagesAgree(Removed(s, uri), files - {uri})
  {
    var t := Removed(s, uri);
    forall p, u
      ensures InFile(Sites(t.usages, p), u) == FileSites(files - {uri}, u, p)
    {
      FilterOfNotInFile(Sites(s.usages, p), uri, u);
      assert Sites(t.usages, p) == NotInFile(Sites(s.usages, p), uri);
    }
  }

  lemma RemovedLinksAgree(s: State, files: Files, uri: Uri)
    requires LinksAgree(s, files)
    ensures LinksAgree(Removed(s, uri), files - {uri})
  {
    forall u
      ensures Links(Removed(s, uri).importLinks, u) == FileLinks(files - {uri}, u)
    {
      assert Links(s.importLinks, u) == FileLinks(files, u);
    }
  }

  /** Nothing of the file is left in any of the maps. */
  ghost predicate Forgotten(s: State, uri: Uri) {
    && (forall p :: p in s.symbols ==> s.symbols[p].0 != uri)
    && (forall p :: p in s.kinds ==> s.kinds[p].0 != uri)
    && (forall p :: p in s.declNames ==> s.declNames[p].0 != uri)
    && (forall p :: InFile(Sites(s.usages, p), uri) == [])
    && uri !in s.importLinks
  }

  lemma RemovedIsForgotten(s: State, uri: Uri)
    ensures Forgotten(Removed(s, uri), uri)
  {
    forall p
      ensures InFile(Sites(Removed(s, uri).usages, p), uri) == []
    {
      FilterOfNotInFile(Sites(s.usages, p), uri, uri);
      assert Sites(Removed(s, uri).usages, p) == NotInFile(Sites(s.usages, p), uri);
    }
  }

  /** Removing a file leaves what the other files ask for. */
  lemma RemovedAgrees(s: State, files: Files, uri: Uri)
    requires Agrees(s, files)
    ensures Agrees(Removed(s, uri), files - {uri})
  {
    var rest := files - {uri};
    EvictKeepsOwners(s.symbols, AllRanges(files), uri);
    EvictKeepsOwners(s.kinds, AllKinds(files), uri);
    EvictKeepsOwners(s.declNames, AllNameRanges(files), uri);
    assert AllRanges(rest) == AllRanges(files) - {uri};
    assert AllKinds(rest) == AllKinds(files) - {uri};
    assert AllNameRanges(rest) == AllNameRanges(files) - {uri};
    RemovedUsagesAgree(s, files, uri);
    RemovedLinksAgree(s, files, uri);
  }

  lemma DisjointMapsAreDisjoint(files: Files)
    requires Disjoint(files)
    ensures NoSharedPath(AllRanges(files)) && NoSharedPath(AllKinds(files))
    ensures NoSharedPath(AllNameRanges(files))
  {
    forall u, v, p | u in files && v in files && p in files[u].elements && p in files[v].elements
      ensures u == v
    {
      assert Declares(files, u, p);
      assert Declares(files, v, p);
    }
  }

  lemma AllAfterOne(files: Files, uri: Uri, snap: Snapshot)
    ensures AllRanges(files[uri := snap]) == AllRanges(files)[uri := Ranges(snap)]
    ensures AllKinds(files[uri := snap]) == AllKinds(files)[uri := Kinds(snap)]
    ensures AllNameRanges(files[uri := snap]) == AllNameRanges(files)[uri := NameRanges(snap)]
  {
  }

  /** An index that agrees with the files is possible only if no two declare the same path. */
  lemma AgreementNeedsDisjointFiles(s: State, files: Files)
    requires OwnedBy(s.symbols, AllRanges(files))
    ensures Disjoint(files)
  {
    forall u, v, p | Declares(files, u, p) && Declares(files, v, p)
      ensures u == v
    {
      assert u in AllRanges(files) && p in AllRanges(files)[u];
      assert v in AllRanges(files) && p in AllRanges(files)[v];
      assert s.symbols[p].0 == u;
    }
  }

  lemma AddedElementsAgree(s: State, files: Files, uri: Uri, snap: Snapshot)
    requires Agrees(s, files) && uri !in files && Disjoint(files[uri := snap])
    ensures var t, more := WithElements(s, uri, snap), files[uri := snap];
            && OwnedBy(t.symbols, AllRanges(more))
            && OwnedBy(t.kinds, AllKinds(more))
            && OwnedBy(t.declNames, AllNameRanges(more))
  {
    var more := files[uri := snap];
    DisjointMapsAreDisjoint(more);
    AllAfterOne(files, uri, snap);
    OwnKeepsOwners(s.symbols, AllRanges(files), uri, Ranges(snap));
    OwnKeepsOwners(s.kinds, AllKinds(files), uri, Kinds(snap));
    OwnKeepsOwners(s.declNames, AllNameRanges(files), uri, NameRanges(snap));
  }

  lemma AddedUsagesAgree(s: State, files: Files, uri: Uri, snap: Snapshot)
    requires UsagesAgree(s, files) && uri !in files
    ensures UsagesAgree(WithReferences(s, uri, snap.references), files[uri := snap])
  {
    var t := WithReferences(s, uri, snap.references);
    ReferencesEmptyNoBucket(s, uri, snap.references);
    forall p, u
      ensures InFile(Sites(t.usages, p), u) == FileSites(files[uri := snap], u, p)
    {
      var added := SitesOf(uri, snap.references, p);
      ReferencesAppendSites(s, uri, snap.references, p);
      InFileSplit(Sites(s.usages, p), added, u);
      SitesOfAreInFile(uri, snap.references, p, u);
      assert InFile(Sites(s.usages, p), u) == FileSites(files, u, p);
      assert FileSites(files, u, p) + [] == FileSites(files, u, p);
    }
  }

  lemma AddedLinksAgree(s: State, files: Files, uri: Uri, snap: Snapshot)
    requires LinksAgree(s, files) && uri !in files
    ensures LinksAgree(WithReferences(s, uri, snap.references), files[uri := snap])
  {
    forall u
      ensures Links(WithReferences(s, uri, snap.references).importLinks, u)
              == FileLinks(files[uri := snap], u)
    {
      ReferencesAppendLinks(s, uri, snap.references, u);
      assert FileLinks(files, u) + [] == FileLinks(files, u);
    }
  }

  /**
   Refreshing a file, with whatever parse, makes the maps agree with the latest parses exactly
   when those declare different paths.
   */
  lemma RefreshedAgrees(s: State, files: Files, uri: Uri, snap: Snapshot)
    requires Agrees(s, files)
    ensures Agrees(Refreshed(s, uri, snap), files[uri := snap]) <==> Disjoint(files[uri := snap])
  {
    var rest, more := files - {uri}, files[uri := snap];
    assert rest[uri := snap] == more;
    if Disjoint(more) {
      var t := Removed(s, uri);
      RemovedAgrees(s, files, uri);
      AddedElementsAgree(t, rest, uri, snap);
      var w := WithElements(t, uri, snap);
      assert UsagesAgree(w, rest) && LinksAgree(w, rest);
      AddedUsagesAgree(w, rest, uri, snap);
      AddedLinksAgree(w, rest, uri, snap);
      ReferencesLeaveTheRest(w, uri, snap.references);
    } else if Agrees(Refreshed(s, uri, snap), more) {
      AgreementNeedsDisjointFiles(Refreshed(s, uri, snap), more);
    }
  }

  // ----- Whole runs -------------------------------------------------------------------

  type Refresh = (Uri, Snapshot)

  /** The maps after a run of refreshes on a new index. */
  function Run(refreshes: seq<Refresh>): State {
    if refreshes == [] then EMPTY
    else
      var last := refreshes[|refreshes| - 1];
      Refreshed(Run(refreshes[..|refreshes| - 1]), last.0, last.1)
  }

  /** The latest parse of each file. */
  function Latest(refreshes: seq<Refresh>): Files {
    if refreshes == [] then map[]
    else
      var last := refreshes[|refreshes| - 1];
      Latest(refreshes[..|refreshes| - 1])[last.0 := last.1]
  }

  /** The file whose refresh was the last to declare a path. */
  function LastDeclarer(refreshes: seq<Refresh>, path: Path): Option<Uri> {
    if refreshes == [] then None
    else
      var last := refreshes[|refreshes| - 1];
      if path in last.1.elements then Some(last.0) else LastDeclarer(refreshes[..|refreshes| - 1], path)
  }

  /** The file whose refresh was the last to declare a path with a name range. */
  function LastNamer(refreshes: seq<Refresh>, path: Path): Option<Uri> {
    if refreshes == [] then None
    else
      var last := refreshes[|refreshes| - 1];
      if path in NameRanges(last.1) then Some(last.0) else LastNamer(refreshes[..|refreshes| - 1], path)
  }

  function Declarers(refreshes: seq<Refresh>): Path -> Option<Uri> {
    p => LastDeclarer(refreshes, p)
  }

  function Namers(refreshes: seq<Refresh>): Path -> Option<Uri> {
    p => LastNamer(refreshes, p)
  }

  /** Whatever a file declares now, no other file has declared since. */
  ghost predicate Settled(refreshes: seq<Refresh>) {
    forall u, p :: Declares(Latest(refreshes), u, p) ==> LastDeclarer(refreshes, p) == Some(u)
  }

  /** `m` holds a path for the file that was last to enter it, as long as that file still has it. */
  ghost predicate Tracks<X>(m: map<Path, (Uri, X)>, own: map<Uri, map<Path, X>>, last: Path -> Option<Uri>) {
    && (forall p :: p in m ==> m[p].0 in own && p in own[m[p].0] && m[p].1 == own[m[p].0][p])
    && (forall p, u :: p in m && m[p].0 == u <==> last(p) == Some(u) && u in own && p in own[u])
  }

  lemma TracksOneMore<X>(m: map<Path, (Uri, X)>, own: map<Uri, map<Path, X>>, last: Path -> Option<Uri>,
                         uri: Uri, entries: map<Path, X>, next: Path -> Option<Uri>)
    requires Tracks(m, own, last)
    requires forall p :: next(p) == if p in entries then Some(uri) else last(p)
    ensures Tracks(Own(Evict(m, uri), uri, entries), own[uri := entries], next)
  {
    var after, now := Own(Evict(m, uri), uri, entries), own[uri := entries];
    forall p
      ensures p in after ==> after[p].0 in now && p in now[after[p].0] && after[p].1 == now[after[p].0][p]
      ensures forall u :: p in after && after[p].0 == u <==> next(p) == Some(u) && u in now && p in now[u]
    {
      if p in entries {
        assert after[p] == (uri, entries[p]);
      } else {
        assert p in after <==> p in m && m[p].0 != uri;
        assert forall u :: p in m && m[p].0 == u <==> last(p) == Some(u) && u in own && p in own[u];
      }
    }
  }

  /** Whatever a file has, it was the last to enter. */
  ghost predicate AllLast<X>(own: map<Uri, map<Path, X>>, last: Path -> Option<Uri>) {
    forall u, p :: u in own && p in own[u] ==> last(p) == Some(u)
  }

  lemma TrackedIsOwned<X>(m: map<Path, (Uri, X)>, own: map<Uri, map<Path, X>>, last: Path -> Option<Uri>)
    requires Tracks(m, own, last)
    ensures OwnedBy(m, own) <==> AllLast(own, last)
  {
    if OwnedBy(m, own) {
      forall u, p | u in own && p in own[u]
        ensures last(p) == Some(u)
      {
        assert p in m && m[p].0 == u;
      }
    }
  }

  lemma {:induction false} RunTracks(refreshes: seq<Refresh>)
    ensures var s, files := Run(refreshes), Latest(refreshes);
            && Tracks(s.symbols, AllRanges(files), Declarers(refreshes))
            && Tracks(s.kinds, AllKinds(files), Declarers(refreshes))
            && Tracks(s.declNames, AllNameRanges(files), Namers(refreshes))
  {
    if refreshes == [] {
    } else {
      var front, last := refreshes[..|refreshes| - 1], refreshes[|refreshes| - 1];
      var s, files := Run(front), Latest(front);
      RunTracks(front);
      AllAfterOne(files, last.0, last.1);
      ReferencesLeaveTheRest(WithElements(Removed(s, last.0), last.0, last.1), last.0, last.1.references);
      TracksOneMore(s.symbols, AllRanges(files), Declarers(front), last.0, Ranges(last.1), Declarers(refreshes));
      TracksOneMore(s.kinds, AllKinds(files), Declarers(front), last.0, Kinds(last.1), Declarers(refreshes));
      TracksOneMore(s.declNames, AllNameRanges(files), Namers(front), last.0, NameRanges(last.1), Namers(refreshes));
    }
  }

  /** Sites and links agree after any run at all. */
  lemma {:induction false} RunSitesAgree(refreshes: seq<Refresh>)
    ensures UsagesAgree(Run(refreshes), Latest(refreshes)) && LinksAgree(Run(refreshes), Latest(refreshes))
  {
    if refreshes == [] {
      EmptyAgrees();
    } else {
      var front, last := refreshes[..|refreshes| - 1], refreshes[|refreshes| - 1];
      RunSitesAgree(front);
      RefreshedSitesAgree(Run(front), Latest(front), last.0, last.1);
    }
  }

  lemma RefreshedSitesAgree(s: State, files: Files, uri: Uri, snap: Snapshot)
    requires UsagesAgree(s, files) && LinksAgree(s, files)
    ensures UsagesAgree(Refreshed(s, uri, snap), files[uri := snap])
    ensures LinksAgree(Refreshed(s, uri, snap), files[uri := snap])
  {
    var rest := files - {uri};
    var w := WithElements(Removed(s, uri), uri, snap);
    RemovedUsagesAgree(s, files, uri);
    RemovedLinksAgree(s, files, uri);
    assert UsagesAgree(w, rest) && LinksAgree(w, rest);
    AddedUsagesAgree(w, rest, uri, snap);
    AddedLinksAgree(w, rest, uri, snap);
    assert rest[uri := snap] == files[uri := snap];
  }

  /** Where declarations are settled, so are the names among them. */
  lemma {:induction false} NamesAreSettled(refreshes: seq<Refresh>, u: Uri, p: Path)
    requires LastDeclarer(refreshes, p) == Some(u)
    requires u in Latest(refreshes) && p in NameRanges(Latest(refreshes)[u])
    ensures LastNamer(refreshes, p) == Some(u)
  {
    var front, last := refreshes[..|refreshes| - 1], refreshes[|refreshes| - 1];
    if last.0 != u {
      NamesAreSettled(front, u, p);
    }
  }

  /** After any run of refreshes, the maps agree with the latest parses exactly when the run is settled. */
  lemma RunAgrees(refreshes: seq<Refresh>)
    ensures Agrees(Run(refreshes), Latest(refreshes)) <==> Settled(refreshes)
  {
    var s, files := Run(refreshes), Latest(refreshes);
    RunTracks(refreshes);
    RunSitesAgree(refreshes);
    TrackedIsOwned(s.symbols, AllRanges(files), Declarers(refreshes));
    TrackedIsOwned(s.kinds, AllKinds(files), Declarers(refreshes));
    TrackedIsOwned(s.declNames, AllNameRanges(files), Namers(refreshes));
    SettledMeans(refreshes, AllRanges(files));
    SettledMeans(refreshes, AllKinds(files));
    if Settled(refreshes) {
      SettledNames(refreshes);
    }
  }

  /** Maps with an entry for every declared path tell whether a run is settled. */
  lemma SettledMeans<X>(refreshes: seq<Refresh>, own: map<Uri, map<Path, X>>)
    requires forall u, p :: Declares(Latest(refreshes), u, p) <==> u in own && p in own[u]
    ensures AllLast(own, Declarers(refreshes)) <==> Settled(refreshes)
  {
    if AllLast(own, Declarers(refreshes)) {
      forall u, p | Declares(Latest(refreshes), u, p)
        ensures LastDeclarer(refreshes, p) == Some(u)
      {
        assert Declarers(refreshes)(p) == Some(u);
      }
    }
    if Settled(refreshes) {
      forall u, p | u in own && p in own[u]
        ensures Declarers(refreshes)(p) == Some(u)
      {
        assert Declares(Latest(refreshes), u, p);
      }
    }
  }

  lemma SettledNames(refreshes: seq<Refresh>)
    requires Settled(refreshes)
    ensures AllLast(AllNameRanges(Latest(refreshes)), Namers(refreshes))
  {
    var files := Latest(refreshes);
    forall u, p | u in AllNameRanges(files) && p in AllNameRanges(files)[u]
      ensures Namers(refreshes)(p) == Some(u)
    {
      assert Declares(files, u, p);
      NamesAreSettled(refreshes, u, p);
    }
  }

  /** A run in which live files never share a path is settled. */
  lemma {:induction false} DisjointRunIsSettled(refreshes: seq<Refresh>)
    requires forall n :: 0 <= n <= |refreshes| ==> Disjoint(Latest(refreshes[..n]))
    ensures Settled(refreshes)
  {
    if refreshes == [] {
    } else {
      var front, last := refreshes[..|refreshes| - 1], refreshes[|refreshes| - 1];
      assert forall n :: 0 <= n <= |front| ==> front[..n] == refreshes[..n];
      DisjointRunIsSettled(front);
      assert refreshes[..|refreshes|] == refreshes;
      forall u, p | Declares(Latest(refreshes), u, p)
        ensures LastDeclarer(refreshes, p) == Some(u)
      {
        if p in last.1.elements {
          assert Declares(Latest(refreshes), last.0, p);
        } else {
          assert Declares(Latest(front), u, p);
        }
      }
    }
  }

  /** `again` refreshes every live file, with the parse it has anyway. */
  ghost predicate RefreshesAll(files: Files, again: seq<Refresh>) {
    && (forall r :: r in again ==> r.0 in files && files[r.0] == r.1)
    && (forall u :: u in files ==> (u, files[u]) in again)
  }

  lemma {:induction false} LatestStays(refreshes: seq<Refresh>, again: seq<Refresh>)
    requires forall r :: r in again ==> r.0 in Latest(refreshes) && Latest(refreshes)[r.0] == r.1
    ensures Latest(refreshes + again) == Latest(refreshes)
  {
    if again == [] {
      assert refreshes + again == refreshes;
    } else {
      assert (refreshes + again)[..|refreshes + again| - 1] == refreshes + again[..|again| - 1];
      LatestStays(refreshes, again[..|again| - 1]);
    }
  }

  /** If a refresh among the last ones declares the path, one of those is the last that does. */
  lemma {:induction false} LastDeclarerIsAmong(refreshes: seq<Refresh>, again: seq<Refresh>, r: Refresh, path: Path)
    requires r in again && path in r.1.elements
    ensures exists q :: q in again && path in q.1.elements && LastDeclarer(refreshes + again, path) == Some(q.0)
  {
    var front, last, all := again[..|again| - 1], again[|again| - 1], refreshes + again;
    assert again == front + [last];
    assert all[..|all| - 1] == refreshes + front && all[|all| - 1] == last;
    if path in last.1.elements {
      assert last in again && LastDeclarer(all, path) == Some(last.0);
    } else {
      LastDeclarerIsAmong(refreshes, front, r, path);
      var q :| q in front && path in q.1.elements && LastDeclarer(refreshes + front, path) == Some(q.0);
      assert q in again;
    }
  }

  /** Whatever has happened, refreshing every file once more repairs the maps exactly when files are disjoint. */
  lemma RefreshingAllRepairs(refreshes: seq<Refresh>, again: seq<Refresh>)
    requires RefreshesAll(Latest(refreshes), again)
    ensures Latest(refreshes + again) == Latest(refreshes)
    ensures Agrees(Run(refreshes + again), Latest(refreshes)) <==> Disjoint(Latest(refreshes))
  {
    var files := Latest(refreshes);
    LatestStays(refreshes, again);
    RunAgrees(refreshes + again);
    if Disjoint(files) {
      forall u, p | Declares(files, u, p)
        ensures LastDeclarer(refreshes + again, p) == Some(u)
      {
        LastDeclarerIsAmong(refreshes, again, (u, files[u]), p);
        var q :| q in again && p in q.1.elements && LastDeclarer(refreshes + again, p) == Some(q.0);
        assert Declares(files, q.0, p);
      }
    } else if Agrees(Run(refreshes + again), files) {
      AgreementNeedsDisjointFiles(Run(refreshes + again), files);
    }
  }

  lemma SymbolsAfterOne(s: State, uri: Uri, snap: Snapshot, path: Path)
    ensures var symbols := Refreshed(s, uri, snap).symbols;
            if path in snap.elements then path in symbols && symbols[path].0 == uri
            else path in symbols ==> path in s.symbols && s.symbols[path].0 != uri
  {
    ReferencesLeaveTheRest(WithElements(Removed(s, uri), uri, snap), uri, snap.references);
  }

  /**
   When two files declare the same path and the second to be refreshed then drops it, the index
   has lost the path, which the first file still declares.
   */
  lemma SharedPathIsLost(s: State, files: Files, a: Uri, b: Uri, path: Path, shared: Snapshot, gone: Snapshot)
    requires Declares(files, a, path) && a != b
    requires path in shared.elements && path !in gone.elements
    ensures Declares(files[b := shared][b := gone], a, path)
    ensures path !in Refreshed(Refreshed(s, b, shared), b, gone).symbols
  {
    SymbolsAfterOne(s, b, shared, path);
    SymbolsAfterOne(Refreshed(s, b, shared), b, gone, path);
  }
}
