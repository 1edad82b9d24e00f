/** The cached import closure of the language server. */
module ClosureCache {
  // The rebuild of `lsp/src/workspace.rs`, and the gate in `update` of `lsp/src/documents.rs` that
  // decides when one is due.  The gate is safe for exactly the edits that `Harmless` describes.

  import opened Outcome
  import opened Order
  import opened ImportEdges
  import opened ImportClosure

  /** What a rebuild would read: the parse of each discovered file, live buffers over disk. */
  type Sources = map<File, ParsedModule>

  datatype Cache = Cache(files: set<File>, imports: map<File, seq<string>>)

  function PackagesOf(sources: Sources): set<string> {
    set f | f in sources :: sources[f].package
  }

  function FilesWith(sources: Sources, package: string): set<File> {
    set f | f in sources && sources[f].package == package
  }

  function Filing(sources: Sources): map<string, set<File>> {
    map p | p in PackagesOf(sources) :: FilesWith(sources, p)
  }

  /** The module map of the sources. */
  ghost function ModulesOf(sources: Sources): (m: Modules)
    ensures WellFormed(m) && m.modules == sources
  {
    var m := Modules(Filing(sources), sources);
    assert forall p :: p in m.byPackage ==>
             exists f :: f in sources && sources[f].package == p && f in FilesWith(sources, p);
    m
  }

  ghost function CacheOf(sources: Sources, closure: set<File>): Cache {
    var files := closure * sources.Keys;
    Cache(files, map f | f in files :: Listing(ImportPaths(sources[f])))
  }

  /** The cache a rebuild computes: the closure of the workspace files, and each file's import paths. */
  ghost function Rebuilt(sources: Sources, entries: set<File>): Cache {
    CacheOf(sources, Closure(ModulesOf(sources), map[], entries))
  }

  /** `imports_from_index_json` */
  method ImportsOf(parsed: ParsedModule) returns (imports: seq<string>)
    ensures imports == Listing(ImportPaths(parsed))
  {
    imports := [];
    for j := 0 to |parsed.imports|
      invariant Elements(imports) == set imp | imp in parsed.imports[..j] :: imp.importPath
    {
      assert parsed.imports[..j + 1] == parsed.imports[..j] + [parsed.imports[j]];
      ghost var before := imports;
      imports := imports + [parsed.imports[j].importPath];
      assert Elements(imports) == Elements(before) + {parsed.imports[j].importPath};
    }
    assert parsed.imports[..|parsed.imports|] == parsed.imports;
    assert Elements(imports) == ImportPaths(parsed);
    SortDedupIsListing(imports);
    imports := Dedup(Sort(imports));
  }

  /** `ModuleMap::build_from`: one insertion a file, in whatever order. */
  method BuildFrom(sources: Sources) returns (m: ModuleMap)
    ensures fresh(m) && m.View() == ModulesOf(sources)
  {
    m := new ModuleMap();
    var left := sources.Keys;
    while left != {}
      invariant fresh(m) && left <= sources.Keys && WellFormed(m.View())
      invariant m.modules == map f | f in sources && f !in left :: sources[f]
    {
      var f :| f in left;
      m.Insert(f, sources[f]);
      left := left - {f};
    }
    assert m.modules == sources;
    WellFormedIsDetermined(m.View(), ModulesOf(sources));
  }

  /** `build_closure_cache` */
  method BuildClosureCache(sources: Sources, entries: seq<File>) returns (cache: Cache)
    ensures cache == Rebuilt(sources, Elements(entries))
  {
    var m := BuildFrom(sources);
    var closure := m.ClosureFilesWithAliases(entries, map[]);
    cache := CollectImports(sources, closure * sources.Keys);
  }

  method CollectImports(sources: Sources, files: set<File>) returns (cache: Cache)
    requires files <= sources.Keys
    ensures cache == Cache(files, map f | f in files :: Listing(ImportPaths(sources[f])))
  {
    var imports: map<File, seq<string>> := map[];
    var left := files;
    while left != {}
      invariant left <= files
      invariant imports == map f | f in files && f !in left :: Listing(ImportPaths(sources[f]))
    {
      var f :| f in left;
      var listing := ImportsOf(sources[f]);
      imports := imports[f := listing];
      left := left - {f};
    }
    cache := Cache(files, imports);
  }

  // ----- The gate ---------------------------------------------------------------

  /** The gate: the file is not in the cache, or its sorted import paths changed. */
  ghost predicate GateOpens(cache: Cache, path: File, parsed: ParsedModule) {
    path !in cache.imports || cache.imports[path] != Listing(ImportPaths(parsed))
  }

  lemma ListingIsInjective(s: set<string>, t: set<string>)
    requires Listing(s) == Listing(t)
    ensures s == t
  {
    assert s == Elements(Listing(s));
  }

  lemma SamePackagesSameFiling(sources: Sources, after: Sources)
    requires after.Keys == sources.Keys && forall f :: f in sources ==> after[f].package == sources[f].package
    ensures ModulesOf(after).byPackage == ModulesOf(sources).byPackage
  {
    assert forall p :: FilesWith(after, p) == FilesWith(sources, p);
    assert PackagesOf(after) == PackagesOf(sources);
    assert Filing(after) == Filing(sources);
  }

  // ----- When a shut gate is safe ------------------------------------------------

  /** The packages that exports name with their modules. */
  function SubPackages(parsed: ParsedModule): set<string> {
    set exp | exp in parsed.exports :: SubPackage(exp)
  }

  /** Those named under `package`, but for the file's own: if one is not declared, `package` is the target. */
  function Below(parsed: ParsedModule, package: string): set<string> {
    (set exp | exp in parsed.exports && exp.package == package :: SubPackage(exp)) - {parsed.package}
  }

  /**
   An edit no closure can see: the package stays, and for each name that the file neither bears nor
   imports, the exports go on naming it with a module, or else go on naming the same packages below it.
   */
  ghost predicate Unseen(before: ParsedModule, after: ParsedModule) {
    && before.package == after.package
    && forall t :: t != before.package && t !in ImportPaths(before) ==> SameExportsTo(before, after, t)
  }

  ghost predicate SameExportsTo(before: ParsedModule, after: ParsedModule, t: string) {
    && (t in SubPackages(before) <==> t in SubPackages(after))
    && (t !in SubPackages(before) ==> Below(before, t) == Below(after, t))
  }

  /** An edit that the gate sees, or that no closure can see. */
  ghost predicate Harmless(before: ParsedModule, after: ParsedModule) {
    ImportPaths(before) == ImportPaths(after) ==> Unseen(before, after)
  }

  lemma ModuleTargetsAre(m: Modules, parsed: ParsedModule)
    ensures ModuleTargets(m, map[], parsed) == ImportPaths(parsed) + TargetsUnder(m.byPackage.Keys, parsed)
  {
    AliasedPathsAre(parsed.imports, map[]);
    ExportTargetsAre(m, parsed.exports);
  }

  /** An unseen edit adds no target that is declared and not already met. */
  lemma UnseenTarget(before: ParsedModule, after: ParsedModule, declared: set<string>, t: string)
    requires ImportPaths(before) == ImportPaths(after) && Unseen(before, after)
    requires before.package in declared && t in declared && t in TargetsUnder(declared, after)
    ensures t == before.package || t in ImportPaths(before) || t in TargetsUnder(declared, before)
  {
    if t != before.package && t !in ImportPaths(before) {
      assert SameExportsTo(before, after, t);
      var exp :| exp in after.exports && TargetUnder(declared, exp) == t;
      if t in SubPackages(before) {
        var named :| named in before.exports && SubPackage(named) == t;
        assert TargetUnder(declared, named) == t;
      } else {
        assert SubPackage(exp) in Below(after, t);
        assert SubPackage(exp) in Below(before, t);
        var named :| named in before.exports && named.package == t && SubPackage(named) == SubPackage(exp);
        assert TargetUnder(declared, named) == t;
      }
    }
  }

  /** The sources differ at one path at most, and there by an unseen edit that keeps the import paths. */
  ghost predicate UnseenEdit(sources: Sources, after: Sources, path: File) {
    && after.Keys == sources.Keys && path in sources
    && (forall f :: f in sources && f != path ==> after[f] == sources[f])
    && ImportPaths(sources[path]) == ImportPaths(after[path]) && Unseen(sources[path], after[path])
  }

  /** From a reached package, an unseen edit leads to no declared package that was not reached. */
  lemma TargetsStayReached(sources: Sources, after: Sources, path: File, seeds: set<string>, p: string)
    requires UnseenEdit(sources, after, path) && p in Reach(ModulesOf(sources), map[], seeds)
    ensures Targets(ModulesOf(after), map[], p) * PackagesOf(sources) <= Reach(ModulesOf(sources), map[], seeds)
  {
    var m, n := ModulesOf(sources), ModulesOf(after);
    var reach := Reach(m, map[], seeds);
    SamePackagesSameFiling(sources, after);
    ReachIsLeastClosed(m, map[], seeds);
    forall f, t
      | f in FilesOf(n, p) && f in n.modules && t in ModuleTargets(n, map[], after[f]) && t in PackagesOf(sources)
      ensures t in reach
    {
      FilesOfModules(sources, p);
      ModuleTargetsAre(m, sources[f]);
      ModuleTargetsAre(n, after[f]);
      if f == path && t !in ImportPaths(after[f]) {
        UnseenTarget(sources[f], after[f], PackagesOf(sources), t);
      }
      assert t == p || t in ModuleTargets(m, map[], sources[f]);
      assert t == p || t in Targets(m, map[], p);
    }
  }

  /** Packages that no file declares lead nowhere, so a bound on the declared ones bounds the reach. */
  lemma ReachStaysInside(m: Modules, seeds: set<string>, inside: set<string>)
    requires seeds <= inside
    requires forall p :: p in inside ==> Targets(m, map[], p) * m.byPackage.Keys <= inside
    ensures Reach(m, map[], seeds) * m.byPackage.Keys <= inside
  {
    var bound := inside + (Universe(m, map[], seeds) - m.byPackage.Keys);
    assert forall p :: Targets(m, map[], p) <= Universe(m, map[], seeds);
    assert Closed(m, map[], bound);
    ReachIsLeastClosed(m, map[], seeds);
  }

  lemma UnseenEditReachesNoMore(sources: Sources, after: Sources, path: File, seeds: set<string>)
    requires UnseenEdit(sources, after, path)
    ensures Reach(ModulesOf(after), map[], seeds) * PackagesOf(sources) <= Reach(ModulesOf(sources), map[], seeds)
  {
    var reach := Reach(ModulesOf(sources), map[], seeds);
    SamePackagesSameFiling(sources, after);
    ReachIsLeastClosed(ModulesOf(sources), map[], seeds);
    forall p | p in reach
      ensures Targets(ModulesOf(after), map[], p) * PackagesOf(sources) <= reach
    {
      TargetsStayReached(sources, after, path, seeds, p);
    }
    ReachStaysInside(ModulesOf(after), seeds, reach);
  }

  lemma UnseenIsSymmetric(before: ParsedModule, after: ParsedModule)
    requires ImportPaths(before) == ImportPaths(after) && Unseen(before, after)
    ensures Unseen(after, before)
  {
    forall t | t != after.package && t !in ImportPaths(after)
      ensures SameExportsTo(after, before, t)
    {
      assert SameExportsTo(before, after, t);
    }
  }

  lemma SamePackagesSameSeeds(sources: Sources, after: Sources, entries: set<File>)
    requires after.Keys == sources.Keys && forall f :: f in sources ==> after[f].package == sources[f].package
    ensures Seeds(ModulesOf(after), entries) == Seeds(ModulesOf(sources), entries)
  {
  }

  /** An edit that no closure can see leaves the closure alone. */
  lemma InvisibleEdit(sources: Sources, after: Sources, path: File, entries: set<File>)
    requires UnseenEdit(sources, after, path)
    ensures Closure(ModulesOf(after), map[], entries) == Closure(ModulesOf(sources), map[], entries)
  {
    var m, n := ModulesOf(sources), ModulesOf(after);
    var seeds := Seeds(m, entries);
    SamePackagesSameSeeds(sources, after, entries);
    SamePackagesSameFiling(sources, after);
    UnseenIsSymmetric(sources[path], after[path]);
    UnseenEditReachesNoMore(sources, after, path, seeds);
    UnseenEditReachesNoMore(after, sources, path, seeds);
    SameFilesReached(m, n, Reach(m, map[], seeds), Reach(n, map[], seeds));
  }

  lemma SameFilesReached(m: Modules, n: Modules, some: set<string>, others: set<string>)
    requires m.byPackage == n.byPackage
    requires others * m.byPackage.Keys <= some && some * m.byPackage.Keys <= others
    ensures FilesOfAll(m, some) == FilesOfAll(n, others)
  {
    assert forall p :: FilesOf(m, p) == FilesOf(n, p);
    assert forall p, f :: f in FilesOf(m, p) ==> p in m.byPackage.Keys;
    forall f
      ensures f in FilesOfAll(m, some) <==> f in FilesOfAll(n, others)
    {
      if f in FilesOfAll(m, some) {
        var p :| p in some && f in FilesOf(m, p);
        assert p in others;
      }
      if f in FilesOfAll(n, others) {
        var p :| p in others && f in FilesOf(n, p);
        assert p in some;
      }
    }
  }

  /** While the gate stays shut, a harmless edit cannot change the cache. */
  lemma ShutGateIsSafe(sources: Sources, entries: set<File>, path: File, parsed: ParsedModule)
    requires path in sources ==> Harmless(sources[path], parsed)
    requires !GateOpens(Rebuilt(sources, entries), path, parsed)
    ensures path in sources
    ensures Rebuilt(sources[path := parsed], entries) == Rebuilt(sources, entries)
  {
    assert path in Rebuilt(sources, entries).files;
    ListingIsInjective(ImportPaths(parsed), ImportPaths(sources[path]));
    InvisibleEdit(sources, sources[path := parsed], path, entries);
    SameImportsSameCache(sources, path, parsed, Closure(ModulesOf(sources), map[], entries));
  }

  lemma SameImportsSameCache(sources: Sources, path: File, parsed: ParsedModule, closure: set<File>)
    requires path in sources && ImportPaths(parsed) == ImportPaths(sources[path])
    ensures CacheOf(sources[path := parsed], closure) == CacheOf(sources, closure)
  {
    var after := sources[path := parsed];
    assert after.Keys == sources.Keys;
    var c, d := CacheOf(after, closure), CacheOf(sources, closure);
    forall f | f in c.files
      ensures c.imports[f] == d.imports[f]
    {
      assert ImportPaths(after[f]) == ImportPaths(sources[f]);
    }
  }

  /** Edits in sequence, each of which is harmless for its file. */
  ghost predicate AllHarmless(sources: Sources, discovered: set<File>, edits: seq<(File, ParsedModule)>)
    decreases |edits|
  {
    edits == []
    || (var (path, parsed) := edits[0];
        && (path in sources ==> Harmless(sources[path], parsed))
        && AllHarmless(if path in discovered then sources[path := parsed] else sources, discovered, edits[1..]))
  }

  // ----- And when it is not --------------------------------------------------------

  lemma FilesOfModules(sources: Sources, package: string)
    ensures FilesOf(ModulesOf(sources), package) == FilesWith(sources, package)
  {
    assert FilesWith(sources, package) != {} ==> package in PackagesOf(sources);
  }

  /** A file filed under none of a closed set's packages is not in the closure. */
  lemma OutsideClosedPackages(m: Modules, entries: set<File>, packages: set<string>, f: File)
    requires Closed(m, map[], packages) && Seeds(m, entries) <= packages
    requires f !in entries && forall p :: p in packages ==> f !in FilesOf(m, p)
    ensures f !in Closure(m, map[], entries)
  {
    ReachIsLeastClosed(m, map[], Seeds(m, entries));
  }

  /** A module in a package of its own that imports `package`. */
  function Importer(own: string, package: string): ParsedModule {
    ParsedModule(own, [ImportEdge(package, true, [])], [])
  }

  /**
   An edit that moves a file to another package without touching its imports gets past the gate:
   `a` imports the old package, file `b` leaves it, and the cache goes on listing `b`.
   */
  lemma PackageEditGoesUnnoticed(a: File, b: File, before: ParsedModule, after: ParsedModule)
    requires a != b && before.package != after.package && ImportPaths(before) == ImportPaths(after)
    ensures var own := before.package + after.package + "+";
            var sources := map[a := Importer(own, before.package), b := before];
            && b in Rebuilt(sources, {a}).files
            && !GateOpens(Rebuilt(sources, {a}), b, after)
            && b !in Rebuilt(sources[b := after], {a}).files
  {
    var own := before.package + after.package + "+";
    var sources := map[a := Importer(own, before.package), b := before];
    assert |own| == |before.package| + |after.package| + 1;
    ReachesImported(sources, a, b, own, before.package);
    AloneInClosure(sources[b := after], a, b, own, before.package);
  }

  lemma ImporterTargets(m: Modules, own: string, package: string)
    ensures ModuleTargets(m, map[], Importer(own, package)) == {package}
  {
    ModuleTargetsAre(m, Importer(own, package));
  }

  lemma ReachesImported(sources: Sources, a: File, b: File, own: string, package: string)
    requires a in sources && sources[a] == Importer(own, package)
    requires b in sources && sources[b].package == package
    ensures b in Closure(ModulesOf(sources), map[], {a})
  {
    var m := ModulesOf(sources);
    var seeds := Seeds(m, {a});
    ImporterTargets(m, own, package);
    FilesOfModules(sources, own);
    FilesOfModules(sources, package);
    ReachIsLeastClosed(m, map[], seeds);
    assert own in seeds && a in FilesOf(m, own);
    assert package in Targets(m, map[], own);
    assert package in Reach(m, map[], seeds) && b in FilesOf(m, package);
  }

  lemma AloneInClosure(sources: Sources, a: File, b: File, own: string, package: string)
    requires a != b && sources.Keys == {a, b} && sources[a] == Importer(own, package)
    requires own != package && sources[b].package != own && sources[b].package != package
    ensures b !in Closure(ModulesOf(sources), map[], {a})
  {
    var m := ModulesOf(sources);
    FilesOfModules(sources, own);
    FilesOfModules(sources, package);
    assert FilesOf(m, own) == {a} && FilesOf(m, package) == {};
    assert Closed(m, map[], {own, package}) by {
      ImporterTargets(m, own, package);
    }
    assert Seeds(m, {a}) == {own};
    OutsideClosedPackages(m, {a}, {own, package}, b);
  }

  /** For some declared packages, `lost` is a target of the one parse and not of the other. */
  ghost predicate LosesTarget(had: ParsedModule, has: ParsedModule, lost: string) {
    && lost !in SubPackages(has)
    && (lost in SubPackages(had) || !(Below(had, lost) <= Below(has, lost)))
  }

  /** The packages to declare so that the loss shows. */
  function Witnesses(has: ParsedModule, lost: string): set<string> {
    {has.package, lost} + Below(has, lost)
  }

  lemma LossShows(had: ParsedModule, has: ParsedModule, lost: string)
    requires had.package == has.package && LosesTarget(had, has, lost)
    ensures lost in TargetsUnder(Witnesses(has, lost), had)
    ensures lost !in TargetsUnder(Witnesses(has, lost), has)
  {
    var declared := Witnesses(has, lost);
    if lost in SubPackages(had) {
      var exp :| exp in had.exports && SubPackage(exp) == lost;
      assert TargetUnder(declared, exp) == lost;
    } else {
      var sub :| sub in Below(had, lost) && sub !in Below(has, lost);
      var exp :| exp in had.exports && exp.package == lost && SubPackage(exp) == sub;
      assert |sub| > |lost|;
      assert TargetUnder(declared, exp) == lost;
    }
    forall exp | exp in has.exports
      ensures TargetUnder(declared, exp) != lost
    {
      assert SubPackage(exp) in SubPackages(has);
      if exp.package == lost {
        assert SubPackage(exp) == has.package || SubPackage(exp) in Below(has, lost);
      }
    }
  }

  /** A workspace of one module and an empty file for each other package. */
  function Workspace(own: ParsedModule, declared: set<string>): Sources {
    map f | f in {""} + FilesFor(declared - {own.package}) ::
      if f == "" then own else ParsedModule(f[1..], [], [])
  }

  function FileFor(package: string): File {
    "/" + package
  }

  function FilesFor(packages: set<string>): set<File> {
    set p | p in packages :: FileFor(p)
  }

  lemma WorkspaceHolds(own: ParsedModule, declared: set<string>)
    requires own.package in declared
    ensures var sources := Workspace(own, declared);
            && "" in sources && sources[""] == own
            && (forall f :: f in sources && f != "" ==> sources[f].imports == [] && sources[f].exports == [])
            && FilesWith(sources, own.package) == {""}
            && (forall p :: p in declared && p != own.package ==> FilesWith(sources, p) == {FileFor(p)})
            && PackagesOf(sources) == declared
  {
    var sources := Workspace(own, declared);
    forall p | p in declared && p != own.package
      ensures FileFor(p) in sources && sources[FileFor(p)].package == p
      ensures FilesWith(sources, p) == {FileFor(p)}
    {
      assert FileFor(p) in FilesFor(declared - {own.package});
      assert FileFor(p)[1..] == p;
    }
    forall f | f in sources && f != ""
      ensures sources[f].package in declared && sources[f].package != own.package
    {
      var p :| p in declared && p != own.package && f == FileFor(p);
      assert f[1..] == p;
    }
    assert sources[""].package == own.package;
  }

  /** With such a workspace open at its one module, exactly the targets of that module are met. */
  lemma TargetIsMet(own: ParsedModule, declared: set<string>, t: string)
    requires own.package in declared && t in declared && t != own.package && t in TargetsUnder(declared, own)
    ensures FileFor(t) in Rebuilt(Workspace(own, declared), {""}).files
  {
    var sources := Workspace(own, declared);
    var m := ModulesOf(sources);
    WorkspaceHolds(own, declared);
    ModuleTargetsAre(m, own);
    ReachIsLeastClosed(m, map[], Seeds(m, {""}));
    FilesOfModules(sources, own.package);
    FilesOfModules(sources, t);
    assert sources[""].package == own.package && m.byPackage.Keys == declared;
    assert t in Targets(m, map[], own.package);
    assert FileFor(t) in FilesWith(sources, t);
  }

  lemma OthersAreNotMet(own: ParsedModule, declared: set<string>, t: string)
    requires own.package in declared && t in declared && t != own.package
    requires t !in ImportPaths(own) && t !in TargetsUnder(declared, own)
    ensures FileFor(t) !in Rebuilt(Workspace(own, declared), {""}).files
  {
    var sources := Workspace(own, declared);
    var m := ModulesOf(sources);
    WorkspaceHolds(own, declared);
    ModuleTargetsAre(m, own);
    assert m.byPackage.Keys == declared;
    var bound := {own.package} + ModuleTargets(m, map[], own);
    NothingBeyond(own, declared, bound);
    assert FileFor(t) in FilesWith(sources, t);
    forall p | p in bound
      ensures FileFor(t) !in FilesOf(m, p)
    {
      FilesOfModules(sources, p);
    }
    OutsideClosedPackages(m, {""}, bound, FileFor(t));
  }

  lemma NothingBeyond(own: ParsedModule, declared: set<string>, bound: set<string>)
    requires own.package in declared
    requires bound == {own.package} + ModuleTargets(ModulesOf(Workspace(own, declared)), map[], own)
    ensures Closed(ModulesOf(Workspace(own, declared)), map[], bound)
  {
    var sources := Workspace(own, declared);
    var m := ModulesOf(sources);
    WorkspaceHolds(own, declared);
    forall p, f, t | p in bound && f in FilesOf(m, p) && f in m.modules && t in ModuleTargets(m, map[], m.modules[f])
      ensures t in bound
    {
      ModuleTargetsAre(m, m.modules[f]);
    }
  }

  /** The gate stays shut over an entry whose import paths stay. */
  lemma EntryKeepsGateShut(sources: Sources, entries: set<File>, path: File, parsed: ParsedModule)
    requires path in sources && path in entries && ImportPaths(sources[path]) == ImportPaths(parsed)
    ensures !GateOpens(Rebuilt(sources, entries), path, parsed)
  {
  }

  lemma WorkspaceEdit(own: ParsedModule, edited: ParsedModule, declared: set<string>)
    requires own.package == edited.package
    ensures Workspace(edited, declared) == Workspace(own, declared)["" := edited]
  {
  }

  /** An edit of the exports that loses a target gets past the gate too, and leaves the target's file listed. */
  lemma ExportEditGoesUnnoticed(had: ParsedModule, has: ParsedModule, lost: string)
    requires had.package == has.package && ImportPaths(had) == ImportPaths(has)
    requires lost != had.package && lost !in ImportPaths(had) && LosesTarget(had, has, lost)
    ensures var before := Workspace(had, Witnesses(has, lost));
            && "" in before && before[""] == had
            && FileFor(lost) in Rebuilt(before, {""}).files
            && !GateOpens(Rebuilt(before, {""}), "", has)
            && FileFor(lost) !in Rebuilt(before["" := has], {""}).files
  {
    var declared := Witnesses(has, lost);
    LossShows(had, has, lost);
    TargetIsMet(had, declared, lost);
    OthersAreNotMet(has, declared, lost);
    WorkspaceEdit(had, has, declared);
    EntryKeepsGateShut(Workspace(had, declared), {""}, "", has);
  }

  /** The other way round, the target's file goes missing. */
  lemma ExportGainGoesUnnoticed(had: ParsedModule, has: ParsedModule, gained: string)
    requires had.package == has.package && ImportPaths(had) == ImportPaths(has)
    requires gained != had.package && gained !in ImportPaths(had) && LosesTarget(has, had, gained)
    ensures var before := Workspace(had, Witnesses(had, gained));
            && "" in before && before[""] == had
            && FileFor(gained) !in Rebuilt(before, {""}).files
            && !GateOpens(Rebuilt(before, {""}), "", has)
            && FileFor(gained) in Rebuilt(before["" := has], {""}).files
  {
    var declared := Witnesses(had, gained);
    LossShows(has, had, gained);
    TargetIsMet(has, declared, gained);
    OthersAreNotMet(had, declared, gained);
    WorkspaceEdit(had, has, declared);
    EntryKeepsGateShut(Workspace(had, declared), {""}, "", has);
  }

  // ----- Exactly the harmless edits ---------------------------------------------

  /** In every workspace that holds the file, a shut gate leaves the cache equal to a rebuild. */
  ghost predicate GateIsEnough(before: ParsedModule, after: ParsedModule) {
    forall sources: Sources, path: File, entries: set<File> ::
      path in sources && sources[path] == before && !GateOpens(Rebuilt(sources, entries), path, after) ==>
        Rebuilt(sources[path := after], entries) == Rebuilt(sources, entries)
  }

  /** The gate is enough for exactly the harmless edits. */
  lemma GateIsEnoughExactly(before: ParsedModule, after: ParsedModule)
    ensures GateIsEnough(before, after) <==> Harmless(before, after)
  {
    if Harmless(before, after) {
      forall sources: Sources, path: File, entries: set<File>
        | path in sources && sources[path] == before && !GateOpens(Rebuilt(sources, entries), path, after)
        ensures Rebuilt(sources[path := after], entries) == Rebuilt(sources, entries)
      {
        ShutGateIsSafe(sources, entries, path, after);
      }
    }
    if GateIsEnough(before, after) && ImportPaths(before) == ImportPaths(after) {
      if before.package != after.package {
        PackageEditGoesUnnoticed("a", "b", before, after);
      }
      forall t | t != before.package && t !in ImportPaths(before)
        ensures SameExportsTo(before, after, t)
      {
        if LosesTarget(before, after, t) {
          ExportEditGoesUnnoticed(before, after, t);
        } else if LosesTarget(after, before, t) {
          ExportGainGoesUnnoticed(before, after, t);
        }
      }
    }
  }

  class Documents {
    const discovered: set<File>
    const entries: seq<File>
    var sources: Sources
    var closure: Option<Cache>

    /** The cache, if there is one, is what a rebuild would compute now. */
    ghost predicate Current()
      reads this
    {
      && sources.Keys <= discovered
      && (closure.Some? ==> closure.value == Rebuilt(sources, Elements(entries)))
    }

    constructor (discovered: set<File>, entries: seq<File>, sources: Sources)
      requires sources.Keys <= discovered
      ensures this.discovered == discovered && this.entries == entries && this.sources == sources
      ensures closure.None? && Current()
    {
      this.discovered, this.entries, this.sources := discovered, entries, sources;
      closure := None;
    }

    /** `eager_parse` builds the first cache. */
    method EagerParse()
      requires sources.Keys <= discovered
      modifies this`closure
      ensures closure == Some(Rebuilt(sources, Elements(entries))) && Current()
    {
      var cache := BuildClosureCache(sources, entries);
      closure := Some(cache);
    }

    /** The buffer and the closure slot in `update`; a file outside the workspace has a buffer and no more. */
    method Update(path: File, parsed: ParsedModule)
      requires sources.Keys <= discovered
      modifies this
      ensures sources == if path in discovered then old(sources)[path := parsed] else old(sources)
      ensures sources.Keys <= discovered
      ensures closure == if old(closure).Some? && GateOpens(old(closure).value, path, parsed)
                         then Some(Rebuilt(sources, Elements(entries))) else old(closure)
      ensures old(Current()) && (path in old(sources) ==> Harmless(old(sources)[path], parsed)) ==> Current()
    {
      ghost var before := sources;
      if path in discovered {
        sources := sources[path := parsed];
      }
      if closure.Some? {
        var imports := ImportsOf(parsed);
        if path !in closure.value.imports || closure.value.imports[path] != imports {
          var rebuilt := BuildClosureCache(sources, entries);
          closure := Some(rebuilt);
        } else if closure.value == Rebuilt(before, Elements(entries))
                  && (path in before ==> Harmless(before[path], parsed)) {
          ShutGateIsSafe(before, Elements(entries), path, parsed);
        }
      }
    }

    /** Over a run of harmless edits, the cache stays what a rebuild would give. */
    method Replay(edits: seq<(File, ParsedModule)>)
      requires Current() && AllHarmless(sources, discovered, edits)
      modifies this
      ensures Current() && (closure.Some? <==> old(closure).Some?)
    {
      for i := 0 to |edits|
        invariant Current() && AllHarmless(sources, discovered, edits[i..])
        invariant closure.Some? <==> old(closure).Some?
      {
        assert edits[i..][0] == edits[i] && edits[i..][1..] == edits[i + 1..];
        Update(edits[i].0, edits[i].1);
      }
    }
  }
}
