/** The import closure of `deal-closure/src/lib.rs`. */
module ImportClosure {
  // `Reach` is the least set of packages that holds the entry packages and is closed under imports
  // and export targets.  The worklist is proved to find exactly it, in whatever order it explores.

  import opened Dotted
  import opened ImportEdges
  import opened Order

  type File = string

  datatype ExportEdge = ExportEdge(package: string, mod: string, item: string)
  datatype ParsedModule = ParsedModule(package: string, imports: seq<ImportEdge>, exports: seq<ExportEdge>)

  type Aliases = map<string, string>

  /** What a module map holds, without the order of the file lists. */
  datatype Modules = Modules(byPackage: map<string, set<File>>, modules: map<File, ParsedModule>)

  // ----- Aliases --------------------------------------------------------------

  /** `apply_alias` */
  function ApplyAlias(path: string, aliases: Aliases): string {
    var segments := Split(path);
    if segments[0] !in aliases then path
    else if |segments| == 1 then aliases[segments[0]]
    else aliases[segments[0]] + "." + Join(segments[1..])
  }

  /** Only the leading segment is replaced, and only when it is an alias as a whole. */
  lemma AliasReplacesLeadingSegment(path: string, aliases: Aliases)
    ensures var segments := Split(path);
            Split(ApplyAlias(path, aliases))
            == (if segments[0] in aliases then Split(aliases[segments[0]]) else [segments[0]]) + segments[1..]
  {
    var segments := Split(path);
    JoinInvertsSplit(path);
    if segments[0] in aliases {
      var ns := Split(aliases[segments[0]]);
      JoinInvertsSplit(aliases[segments[0]]);
      if |segments| == 1 {
        assert segments[1..] == [];
      } else {
        JoinConcat(ns, segments[1..]);
        SplitInvertsJoin(ns + segments[1..]);
      }
    } else {
      assert segments == [segments[0]] + segments[1..];
    }
  }

  predicate Leads(q: seq<string>, s: seq<string>) {
    q <= s
  }

  /** `q` leads every non-empty package name, segment by segment. */
  ghost predicate LeadsAll(q: seq<string>, packages: seq<string>) {
    forall p :: p in packages && p != "" ==> Leads(q, Split(p))
  }

  ghost predicate LongestLead(prefix: seq<string>, packages: seq<string>) {
    LeadsAll(prefix, packages) && forall q :: LeadsAll(q, packages) ==> Leads(q, prefix)
  }

  method CommonPrefix(a: seq<string>, b: seq<string>) returns (r: seq<string>)
    ensures Leads(r, a) && Leads(r, b)
    ensures forall q :: Leads(q, a) && Leads(q, b) ==> Leads(q, r)
  {
    var n := 0;
    while n < |a| && n < |b| && a[n] == b[n]
      invariant n <= |a| && n <= |b| && a[..n] == b[..n]
    {
      n := n + 1;
    }
    r := a[..n];
  }

  lemma LeadStep(packages: seq<string>, p: string, prefix: seq<string>, next: seq<string>)
    requires LongestLead(prefix, packages) && p != ""
    requires Leads(next, prefix) && Leads(next, Split(p))
    requires forall q :: Leads(q, prefix) && Leads(q, Split(p)) ==> Leads(q, next)
    ensures LongestLead(next, packages + [p])
  {
    forall q | LeadsAll(q, packages + [p])
      ensures Leads(q, next)
    {
      assert p in packages + [p];
      assert LeadsAll(q, packages);
    }
  }

  /** `longest_common_segment_prefix` */
  method LongestCommonSegmentPrefix(packages: seq<string>) returns (r: string)
    ensures (forall k :: 0 <= k < |packages| ==> packages[k] == "") ==> r == ""
    ensures (exists k :: 0 <= k < |packages| && packages[k] != "") ==>
              exists prefix :: r == Join(prefix) && LongestLead(prefix, packages)
  {
    var prefix: seq<string> := [];
    var started := false;
    for i := 0 to |packages|
      invariant !started ==> prefix == [] && forall k :: 0 <= k < i ==> packages[k] == ""
      invariant started ==> LongestLead(prefix, packages[..i]) && exists k :: 0 <= k < i && packages[k] != ""
    {
      var p := packages[i];
      assert packages[..i + 1] == packages[..i] + [p];
      if p == "" {
        assert started ==> LeadsAll(prefix, packages[..i + 1]);
        assert forall q :: LeadsAll(q, packages[..i + 1]) ==> LeadsAll(q, packages[..i]);
      } else if !started {
        started, prefix := true, Split(p);
        assert p in packages[..i + 1];
      } else {
        ghost var before := prefix;
        prefix := CommonPrefix(prefix, Split(p));
        LeadStep(packages[..i], p, before, prefix);
      }
    }
    assert packages[..|packages|] == packages;
    r := Join(prefix);
  }

  // ----- The closure a caller asks for ----------------------------------------

  /** The package a module of its own name would have under the exporting package. */
  function SubPackage(edge: ExportEdge): string {
    edge.package + "." + edge.mod
  }

  /** The exporting package's segments, then the module's. */
  lemma SubPackageIsBelow(edge: ExportEdge)
    ensures Split(SubPackage(edge)) == Split(edge.package) + Split(edge.mod)
  {
    SplitConcat(edge.package, edge.mod);
  }

  /** The package an export leads to, where `declared` are the packages that files declare. */
  function TargetUnder(declared: set<string>, edge: ExportEdge): string {
    if SubPackage(edge) in declared then SubPackage(edge) else edge.package
  }

  function ExportTarget(m: Modules, edge: ExportEdge): string {
    TargetUnder(m.byPackage.Keys, edge)
  }

  function FilesOf(m: Modules, package: string): set<File> {
    if package in m.byPackage then m.byPackage[package] else {}
  }

  function AliasedPaths(imports: seq<ImportEdge>, aliases: Aliases): set<string> {
    if imports == [] then {}
    else
      var last := |imports| - 1;
      AliasedPaths(imports[..last], aliases) + {ApplyAlias(imports[last].importPath, aliases)}
  }

  function ExportTargets(m: Modules, exports: seq<ExportEdge>): set<string> {
    if exports == [] then {}
    else
      var last := |exports| - 1;
      ExportTargets(m, exports[..last]) + {ExportTarget(m, exports[last])}
  }

  /** The packages one module points to. */
  function ModuleTargets(m: Modules, aliases: Aliases, module_: ParsedModule): set<string> {
    AliasedPaths(module_.imports, aliases) + ExportTargets(m, module_.exports)
  }

  /** The packages that the files of a package point to. */
  ghost function Targets(m: Modules, aliases: Aliases, package: string): set<string> {
    set f, t | f in FilesOf(m, package) && f in m.modules && t in ModuleTargets(m, aliases, m.modules[f]) :: t
  }

  ghost predicate Closed(m: Modules, aliases: Aliases, packages: set<string>) {
    forall p :: p in packages ==> Targets(m, aliases, p) <= packages
  }

  /** Every package a walk from `seeds` can meet. */
  ghost function Universe(m: Modules, aliases: Aliases, seeds: set<string>): set<string> {
    seeds + set f, t | f in m.modules && t in ModuleTargets(m, aliases, m.modules[f]) :: t
  }

  /** The least closed set of packages that holds the seeds. */
  ghost function Reach(m: Modules, aliases: Aliases, seeds: set<string>): set<string> {
    set p | p in Universe(m, aliases, seeds)
            && forall s :: Closed(m, aliases, s) && seeds <= s ==> p in s
  }

  lemma ReachIsLeastClosed(m: Modules, aliases: Aliases, seeds: set<string>)
    ensures seeds <= Reach(m, aliases, seeds) && Closed(m, aliases, Reach(m, aliases, seeds))
    ensures forall s :: Closed(m, aliases, s) && seeds <= s ==> Reach(m, aliases, seeds) <= s
  {
  }

  ghost function Seeds(m: Modules, entries: set<File>): set<string> {
    set e | e in entries && e in m.modules :: m.modules[e].package
  }

  ghost function FilesOfAll(m: Modules, packages: set<string>): set<File> {
    set p, f | p in packages && f in FilesOf(m, p) :: f
  }

  /** Every file of every reachable package, and the entries themselves. */
  ghost function Closure(m: Modules, aliases: Aliases, entries: set<File>): set<File> {
    FilesOfAll(m, Reach(m, aliases, Seeds(m, entries))) + entries
  }

  // ----- Laws of the closure --------------------------------------------------

  /** Each module is filed under its own package, and nothing else is filed. */
  ghost predicate WellFormed(m: Modules) {
    && (forall p, f :: p in m.byPackage && f in m.byPackage[p] ==> f in m.modules && m.modules[f].package == p)
    && (forall f :: f in m.modules ==> f in FilesOf(m, m.modules[f].package))
    && (forall p :: p in m.byPackage ==> m.byPackage[p] != {})
  }

  /** Some module declares the package. */
  ghost predicate Declares(m: Modules, package: string) {
    exists f :: f in m.modules && m.modules[f].package == package
  }

  /** A well-formed map has an entry for exactly the declared packages. */
  lemma WellFormedDeclares(m: Modules, package: string)
    ensures WellFormed(m) ==> (package in m.byPackage <==> Declares(m, package))
  {
    if WellFormed(m) && package in m.byPackage {
      var f :| f in m.byPackage[package];
      assert f in m.modules && m.modules[f].package == package;
    }
  }

  /** Two well-formed maps of the same modules are the same map. */
  lemma WellFormedIsDetermined(m: Modules, n: Modules)
    requires WellFormed(m) && WellFormed(n) && m.modules == n.modules
    ensures m == n
  {
    forall p
      ensures p in m.byPackage <==> p in n.byPackage
    {
      if p in m.byPackage {
        var f :| f in m.byPackage[p];
        assert f in n.modules && n.modules[f].package == p && f in FilesOf(n, n.modules[f].package);
      }
      if p in n.byPackage {
        var f :| f in n.byPackage[p];
        assert f in m.modules && m.modules[f].package == p && f in FilesOf(m, m.modules[f].package);
      }
    }
    forall p | p in m.byPackage
      ensures m.byPackage[p] == n.byPackage[p]
    {
      forall f
        ensures f in m.byPackage[p] <==> f in n.byPackage[p]
      {
        if f in m.modules && m.modules[f].package == p {
          assert f in FilesOf(m, m.modules[f].package) && f in FilesOf(n, n.modules[f].package);
        }
      }
    }
    assert m.byPackage == n.byPackage;
  }

  lemma ReachIsMonotone(m: Modules, aliases: Aliases, seeds: set<string>, more: set<string>)
    requires seeds <= more
    ensures Reach(m, aliases, seeds) <= Reach(m, aliases, more)
  {
    ReachIsLeastClosed(m, aliases, seeds);
    ReachIsLeastClosed(m, aliases, more);
  }

  lemma ClosureIsExtensiveAndMonotone(m: Modules, aliases: Aliases, entries: set<File>, more: set<File>)
    requires entries <= more
    ensures entries <= Closure(m, aliases, entries) <= Closure(m, aliases, more)
  {
    ReachIsMonotone(m, aliases, Seeds(m, entries), Seeds(m, more));
  }

  /** Closing a closure adds nothing. */
  lemma ClosureIsIdempotent(m: Modules, aliases: Aliases, entries: set<File>)
    requires WellFormed(m)
    ensures Closure(m, aliases, Closure(m, aliases, entries)) == Closure(m, aliases, entries)
  {
    var seeds := Seeds(m, entries);
    var reach := Reach(m, aliases, seeds);
    var files := Closure(m, aliases, entries);
    ReachIsLeastClosed(m, aliases, seeds);
    assert Seeds(m, files) <= reach;
    ReachIsLeastClosed(m, aliases, Seeds(m, files));
    assert Reach(m, aliases, Seeds(m, files)) <= reach;
  }

  function ImportPaths(module_: ParsedModule): set<string> {
    set imp | imp in module_.imports :: imp.importPath
  }

  /** The parts of a module that reachability can see. */
  ghost predicate SameReachability(a: ParsedModule, b: ParsedModule) {
    a.package == b.package && Elements(a.exports) == Elements(b.exports) && ImportPaths(a) == ImportPaths(b)
  }

  lemma {:induction false} AliasedPathsAre(imports: seq<ImportEdge>, aliases: Aliases)
    ensures AliasedPaths(imports, aliases) == set imp | imp in imports :: ApplyAlias(imp.importPath, aliases)
  {
    if imports == [] {
    } else {
      var last := |imports| - 1;
      AliasedPathsAre(imports[..last], aliases);
      assert imports == imports[..last] + [imports[last]];
    }
  }

  /** The packages a module's exports lead to, where `declared` are the packages that files declare. */
  function TargetsUnder(declared: set<string>, parsed: ParsedModule): set<string> {
    set exp | exp in parsed.exports :: TargetUnder(declared, exp)
  }

  lemma {:induction false} ExportTargetsAre(m: Modules, exports: seq<ExportEdge>)
    ensures ExportTargets(m, exports) == set exp | exp in exports :: TargetUnder(m.byPackage.Keys, exp)
  {
    if exports == [] {
    } else {
      var last := |exports| - 1;
      ExportTargetsAre(m, exports[..last]);
      assert exports == exports[..last] + [exports[last]];
    }
  }

  lemma AliasedPathsFollow(a: ParsedModule, b: ParsedModule, aliases: Aliases)
    requires ImportPaths(a) == ImportPaths(b)
    ensures AliasedPaths(a.imports, aliases) <= AliasedPaths(b.imports, aliases)
  {
    AliasedPathsAre(a.imports, aliases);
    AliasedPathsAre(b.imports, aliases);
    forall imp | imp in a.imports
      ensures ApplyAlias(imp.importPath, aliases) in AliasedPaths(b.imports, aliases)
    {
      assert imp.importPath in ImportPaths(a);
      var same :| same in b.imports && same.importPath == imp.importPath;
    }
  }

  lemma SameModuleTargets(m: Modules, n: Modules, aliases: Aliases, a: ParsedModule, b: ParsedModule)
    requires SameReachability(a, b) && m.byPackage.Keys == n.byPackage.Keys
    ensures ModuleTargets(m, aliases, a) == ModuleTargets(n, aliases, b)
  {
    AliasedPathsFollow(a, b, aliases);
    AliasedPathsFollow(b, a, aliases);
    ExportTargetsAre(m, a.exports);
    ExportTargetsAre(n, b.exports);
    assert forall exp :: exp in a.exports <==> exp in Elements(a.exports);
    assert forall exp :: exp in b.exports <==> exp in Elements(b.exports);
  }

  /** Where two maps point to the same packages, they reach the same packages. */
  lemma SameTargetsSameReach(m: Modules, n: Modules, aliases: Aliases, seeds: set<string>)
    requires forall p :: Targets(m, aliases, p) == Targets(n, aliases, p)
    ensures Reach(m, aliases, seeds) == Reach(n, aliases, seeds)
  {
    ReachIsLeastClosed(m, aliases, seeds);
    ReachIsLeastClosed(n, aliases, seeds);
    assert forall s :: Closed(m, aliases, s) <==> Closed(n, aliases, s);
  }

  /** The closure sees each file only through its package, its exports and its import paths. */
  lemma ClosureSeesOnlyReachability(m: Modules, n: Modules, aliases: Aliases, entries: set<File>)
    requires m.byPackage == n.byPackage && m.modules.Keys == n.modules.Keys
    requires forall f :: f in m.modules ==> SameReachability(m.modules[f], n.modules[f])
    ensures Closure(m, aliases, entries) == Closure(n, aliases, entries)
  {
    forall p
      ensures Targets(m, aliases, p) == Targets(n, aliases, p)
    {
      forall f | f in m.modules
        ensures ModuleTargets(m, aliases, m.modules[f]) == ModuleTargets(n, aliases, n.modules[f])
      {
        SameModuleTargets(m, n, aliases, m.modules[f], n.modules[f]);
      }
    }
    assert Seeds(m, entries) == Seeds(n, entries);
    SameTargetsSameReach(m, n, aliases, Seeds(m, entries));
    var reach := Reach(m, aliases, Seeds(m, entries));
    assert forall p :: FilesOf(m, p) == FilesOf(n, p);
    assert FilesOfAll(m, reach) == FilesOfAll(n, reach);
  }

  // ----- The closure as a set of files -------------------------------------------

  /** The name has the exporting package's segments and then the module's. */
  predicate IsBelow(edge: ExportEdge, name: string) {
    Split(name) == Split(edge.package) + Split(edge.mod)
  }

  lemma IsBelowMeans(edge: ExportEdge, name: string)
    ensures IsBelow(edge, name) <==> name == SubPackage(edge)
  {
    SubPackageIsBelow(edge);
    JoinInvertsSplit(name);
    JoinInvertsSplit(SubPackage(edge));
  }

  /** An export leads to the package of the module it names if one is declared, else to the package above. */
  ghost predicate ExportLeads(m: Modules, edge: ExportEdge, package: string) {
    || IsBelow(edge, package)
    || (package == edge.package && forall q :: Declares(m, q) ==> !IsBelow(edge, q))
  }

  lemma ExportLeadsToTarget(m: Modules, edge: ExportEdge, package: string)
    requires WellFormed(m) && Declares(m, package)
    ensures ExportLeads(m, edge, package) <==> package == ExportTarget(m, edge)
  {
    IsBelowMeans(edge, package);
    WellFormedDeclares(m, SubPackage(edge));
    IsBelowMeans(edge, SubPackage(edge));
    forall q | Declares(m, q)
      ensures IsBelow(edge, q) <==> q == SubPackage(edge)
    {
      IsBelowMeans(edge, q);
    }
  }

  lemma TargetIsLedTo(m: Modules, edge: ExportEdge)
    ensures WellFormed(m) ==>
              forall p :: Declares(m, p) ==> (ExportLeads(m, edge, p) <==> p == ExportTarget(m, edge))
  {
    forall p | WellFormed(m) && Declares(m, p)
      ensures ExportLeads(m, edge, p) <==> p == ExportTarget(m, edge)
    {
      ExportLeadsToTarget(m, edge, p);
    }
  }

  /** A file leads to the files of its own package and of the packages it imports or exports from. */
  ghost predicate LeadsTo(m: Modules, aliases: Aliases, f: File, g: File)
    requires f in m.modules && g in m.modules
  {
    var package := m.modules[g].package;
    || package == m.modules[f].package
    || (exists imp :: imp in m.modules[f].imports && package == ApplyAlias(imp.importPath, aliases))
    || (exists exp :: exp in m.modules[f].exports && ExportLeads(m, exp, package))
  }

  ghost predicate FollowsEdges(m: Modules, aliases: Aliases, files: set<File>) {
    forall f, g :: f in files && f in m.modules && g in m.modules && LeadsTo(m, aliases, f, g) ==> g in files
  }

  lemma LeadsToTarget(m: Modules, aliases: Aliases, f: File, g: File)
    requires WellFormed(m) && f in m.modules && g in m.modules
    ensures LeadsTo(m, aliases, f, g) <==>
              || m.modules[g].package == m.modules[f].package
              || m.modules[g].package in ModuleTargets(m, aliases, m.modules[f])
  {
    var package := m.modules[g].package;
    AliasedPathsAre(m.modules[f].imports, aliases);
    ExportTargetsAre(m, m.modules[f].exports);
    assert Declares(m, package);
    forall exp | exp in m.modules[f].exports
      ensures ExportLeads(m, exp, package) <==> package == ExportTarget(m, exp)
    {
      ExportLeadsToTarget(m, exp, package);
    }
  }

  lemma ReachedFiles(m: Modules, aliases: Aliases, entries: set<File>, f: File)
    requires WellFormed(m) && f in m.modules
    ensures f in Closure(m, aliases, entries) <==> m.modules[f].package in Reach(m, aliases, Seeds(m, entries))
  {
    ReachIsLeastClosed(m, aliases, Seeds(m, entries));
    assert f in FilesOf(m, m.modules[f].package);
  }

  /** The closure holds the entries and whatever a file in it leads to. */
  lemma ClosureFollowsEdges(m: Modules, aliases: Aliases, entries: set<File>)
    requires WellFormed(m)
    ensures entries <= Closure(m, aliases, entries) && FollowsEdges(m, aliases, Closure(m, aliases, entries))
  {
    var reach := Reach(m, aliases, Seeds(m, entries));
    ReachIsLeastClosed(m, aliases, Seeds(m, entries));
    forall f, g | f in Closure(m, aliases, entries) && f in m.modules && g in m.modules && LeadsTo(m, aliases, f, g)
      ensures g in Closure(m, aliases, entries)
    {
      ReachedFiles(m, aliases, entries, f);
      ReachedFiles(m, aliases, entries, g);
      LeadsToTarget(m, aliases, f, g);
      assert f in FilesOf(m, m.modules[f].package);
      assert Targets(m, aliases, m.modules[f].package) <= reach;
    }
  }

  /** And no more: every set of files that holds the entries and follows the edges holds the closure. */
  lemma ClosureIsLeastFileSet(m: Modules, aliases: Aliases, entries: set<File>, files: set<File>)
    requires WellFormed(m) && entries <= files && FollowsEdges(m, aliases, files)
    ensures Closure(m, aliases, entries) <= files
  {
    var seeds := Seeds(m, entries);
    var whole := set p | p in Universe(m, aliases, seeds) && FilesOf(m, p) <= files;
    assert seeds <= whole by {
      forall e, g | e in entries && e in m.modules && g in FilesOf(m, m.modules[e].package)
        ensures g in files
      {
        assert LeadsTo(m, aliases, e, g);
      }
    }
    forall p | p in whole
      ensures Targets(m, aliases, p) <= whole
    {
      WholePackagesLeadToWhole(m, aliases, files, p);
    }
    ReachIsLeastClosed(m, aliases, seeds);
  }

  lemma ClosureIsLeast(m: Modules, aliases: Aliases, entries: set<File>)
    requires WellFormed(m)
    ensures entries <= Closure(m, aliases, entries) && FollowsEdges(m, aliases, Closure(m, aliases, entries))
    ensures forall other: set<File> :: entries <= other && FollowsEdges(m, aliases, other) ==>
              Closure(m, aliases, entries) <= other
  {
    ClosureFollowsEdges(m, aliases, entries);
    forall other: set<File> | entries <= other && FollowsEdges(m, aliases, other)
      ensures Closure(m, aliases, entries) <= other
    {
      ClosureIsLeastFileSet(m, aliases, entries, other);
    }
  }

  lemma WholePackagesLeadToWhole(m: Modules, aliases: Aliases, files: set<File>, p: string)
    requires WellFormed(m) && FollowsEdges(m, aliases, files) && FilesOf(m, p) <= files
    ensures forall t :: t in Targets(m, aliases, p) ==> FilesOf(m, t) <= files
  {
    forall f, t, g
      | f in FilesOf(m, p) && f in m.modules && t in ModuleTargets(m, aliases, m.modules[f]) && g in FilesOf(m, t)
      ensures g in files
    {
      LeadsToTarget(m, aliases, f, g);
    }
  }

  // ----- The worklist ----------------------------------------------------------

  /** The module map: which files declare a package, and what each file parsed to. */
  class ModuleMap {
    var byPackage: map<string, seq<File>>
    var modules: map<File, ParsedModule>

    ghost function View(): Modules
      reads this
    {
      Modules(map p | p in byPackage :: Elements(byPackage[p]), modules)
    }

    constructor ()
      ensures byPackage == map[] && modules == map[]
      ensures WellFormed(View())
    {
      byPackage, modules := map[], map[];
    }

    /** `ModuleMap::insert` */
    method Insert(path: File, parsed: ParsedModule)
      modifies this
      ensures modules == old(modules)[path := parsed]
      ensures byPackage == old(byPackage)[parsed.package := old(FilesForPackage(parsed.package)) + [path]]
      ensures old(WellFormed(View())) && path !in old(modules) ==> WellFormed(View())
    {
      ghost var before := View();
      var files := FilesForPackage(parsed.package) + [path];
      assert Elements(files) == FilesOf(before, parsed.package) + {path};
      byPackage := byPackage[parsed.package := files];
      modules := modules[path := parsed];
      InsertKeepsWellFormed(before, View(), path, parsed);
    }

    /** `files_for_package` */
    function FilesForPackage(package: string): seq<File>
      reads this
    {
      if package in byPackage then byPackage[package] else []
    }

    /**
     `closure_files_with_aliases`: in a well-formed map, the least set of files that holds the entries
     and all that its files lead to.
     */
    method ClosureFilesWithAliases(entries: seq<File>, aliases: Aliases) returns (files: set<File>)
      ensures files == Closure(View(), aliases, Elements(entries))
      ensures WellFormed(View()) ==> Elements(entries) <= files && FollowsEdges(View(), aliases, files)
      ensures WellFormed(View()) ==>
                forall other: set<File> :: Elements(entries) <= other && FollowsEdges(View(), aliases, other) ==>
                  files <= other
    {
      var visited := ReachablePackages(entries, aliases);
      files := CollectFiles(visited);
      files := files + set e | e in entries;
      if WellFormed(View()) {
        ClosureIsLeast(View(), aliases, Elements(entries));
      }
    }

    /** Its worklist. */
    method ReachablePackages(entries: seq<File>, aliases: Aliases) returns (visited: set<string>)
      ensures visited == Reach(View(), aliases, Seeds(View(), Elements(entries)))
    {
      ghost var m := View();
      ghost var seeds := Seeds(m, Elements(entries));
      ghost var universe := Universe(m, aliases, seeds);
      var queue;
      visited, queue := SeedQueue(entries);
      ExploringStarts(m, aliases, seeds);
      while queue != []
        invariant Exploring(m, aliases, seeds, visited, Elements(queue))
        decreases universe - visited, |queue|
      {
        var package, rest := queue[|queue| - 1], queue[..|queue| - 1];
        LastElement(queue);
        ghost var before := visited;
        visited, queue := Explore(package, aliases, visited, rest, m);
        WorklistTurn(m, aliases, seeds, before, rest, package, visited, queue);
      }
      assert Elements(queue) == {};
      ExploredAll(m, aliases, seeds, visited);
    }

    /** Seed with the entry files' packages. */
    method SeedQueue(entries: seq<File>) returns (visited: set<string>, queue: seq<string>)
      ensures visited == Seeds(View(), Elements(entries)) == Elements(queue)
    {
      visited, queue := {}, [];
      for i := 0 to |entries|
        invariant visited == Seeds(View(), Elements(entries[..i])) && Grown({}, [], visited, queue)
      {
        assert Elements(entries[..i + 1]) == Elements(entries[..i]) + {entries[i]};
        if entries[i] in modules {
          visited, queue := Enqueue(modules[entries[i]].package, visited, queue, {}, []);
        }
      }
      assert entries[..|entries|] == entries;
    }

    /** Visit every file of a package, and enqueue what its imports and exports reach. */
    method Explore(package: string, aliases: Aliases, visited0: set<string>, queue0: seq<string>, ghost m: Modules)
      returns (visited: set<string>, queue: seq<string>)
      requires m == View()
      ensures visited == visited0 + Targets(m, aliases, package)
      ensures Grown(visited0, queue0, visited, queue)
    {
      var paths := FilesForPackage(package);
      assert Elements(paths) == FilesOf(m, package);
      TargetsAlongPackage(m, aliases, paths, package);
      visited, queue := ExploreFiles(paths, aliases, visited0, queue0, m);
    }

    method ExploreFiles(paths: seq<File>, aliases: Aliases, visited0: set<string>, queue0: seq<string>,
                        ghost m: Modules)
      returns (visited: set<string>, queue: seq<string>)
      requires m == View()
      ensures visited == visited0 + TargetsAlong(m, aliases, paths)
      ensures Grown(visited0, queue0, visited, queue)
    {
      visited, queue := visited0, queue0;
      for i := 0 to |paths|
        invariant Grown(visited0, queue0, visited, queue)
        invariant visited == visited0 + TargetsAlong(m, aliases, paths[..i])
      {
        AlongOneMore(m, aliases, paths, i);
        if paths[i] in modules {
          var parsed := modules[paths[i]];
          ghost var before, targets := TargetsAlong(m, aliases, paths[..i]), ModuleTargets(m, aliases, parsed);
          visited, queue := ExploreModule(parsed, aliases, visited, queue, visited0, queue0, m);
          assert visited == visited0 + (before + targets);
        }
      }
      assert paths[..|paths|] == paths;
    }

    method ExploreModule(parsed: ParsedModule, aliases: Aliases, visited1: set<string>, queue1: seq<string>,
                         ghost visited0: set<string>, ghost queue0: seq<string>, ghost m: Modules)
      returns (visited: set<string>, queue: seq<string>)
      requires m == View() && Grown(visited0, queue0, visited1, queue1)
      ensures visited == visited1 + ModuleTargets(m, aliases, parsed)
      ensures Grown(visited0, queue0, visited, queue)
    {
      visited, queue := visited1, queue1;
      for j := 0 to |parsed.imports|
        invariant Grown(visited0, queue0, visited, queue)
        invariant visited == visited1 + AliasedPaths(parsed.imports[..j], aliases)
      {
        OneMoreImport(parsed.imports, j, aliases);
        var resolved := ApplyAlias(parsed.imports[j].importPath, aliases);
        visited, queue := Enqueue(resolved, visited, queue, visited0, queue0);
      }
      assert parsed.imports[..|parsed.imports|] == parsed.imports;
      visited, queue := ExploreExports(parsed.exports, visited, queue, visited0, queue0, m);
    }

    method ExploreExports(exports: seq<ExportEdge>, visited1: set<string>, queue1: seq<string>,
                          ghost visited0: set<string>, ghost queue0: seq<string>, ghost m: Modules)
      returns (visited: set<string>, queue: seq<string>)
      requires m == View() && Grown(visited0, queue0, visited1, queue1)
      ensures visited == visited1 + ExportTargets(m, exports)
      ensures Grown(visited0, queue0, visited, queue)
    {
      visited, queue := visited1, queue1;
      for j := 0 to |exports|
        invariant Grown(visited0, queue0, visited, queue)
        invariant visited == visited1 + ExportTargets(m, exports[..j])
      {
        OneMoreExport(m, exports, j);
        var target := ExportTargetPackage(exports[j]);
        visited, queue := Enqueue(target, visited, queue, visited0, queue0);
      }
      assert exports[..|exports|] == exports;
    }

    /** `export_target_package`: the module's own package if some file declares it, else the one above. */
    function ExportTargetPackage(edge: ExportEdge): (r: string)
      reads this
      ensures r == ExportTarget(View(), edge)
      ensures WellFormed(View()) && Declares(View(), SubPackage(edge)) ==> r == SubPackage(edge)
      ensures WellFormed(View()) && !Declares(View(), SubPackage(edge)) ==> r == edge.package
      ensures WellFormed(View()) ==>
                forall p :: Declares(View(), p) ==> (ExportLeads(View(), edge, p) <==> p == r)
    {
      TargetIsLedTo(View(), edge);
      WellFormedDeclares(View(), SubPackage(edge));
      assert View().byPackage.Keys == byPackage.Keys;
      var sub := edge.package + "." + edge.mod;
      if sub in byPackage then sub else edge.package
    }

    /** Every file of every visited package. */
    method CollectFiles(visited: set<string>) returns (files: set<File>)
      ensures files == FilesOfAll(View(), visited)
    {
      files := {};
      var left := visited;
      while left != {}
        invariant left <= visited && files == FilesOfAll(View(), visited - left)
      {
        var package :| package in left;
        assert visited - (left - {package}) == (visited - left) + {package};
        left := left - {package};
        assert Elements(FilesForPackage(package)) == FilesOf(View(), package);
        files := files + set f | f in FilesForPackage(package);
      }
      assert visited - left == visited;
    }

    /** Insert into `visited`, and push when it was not there. */
    static method Enqueue(package: string, visited: set<string>, queue: seq<string>,
                          ghost visited0: set<string>, ghost queue0: seq<string>)
      returns (nowVisited: set<string>, nowQueue: seq<string>)
      requires Grown(visited0, queue0, visited, queue)
      ensures nowVisited == visited + {package} && Grown(visited0, queue0, nowVisited, nowQueue)
    {
      nowVisited, nowQueue := visited, queue;
      if package !in visited {
        nowVisited := visited + {package};
        nowQueue := queue + [package];
        assert Elements(nowQueue) == Elements(queue) + {package};
        assert nowVisited - visited0 == (visited - visited0) + {package};
      }
    }
  }

  /** What was pushed is exactly what became visited; where nothing did, the queue is as it was. */
  ghost predicate Grown(visited0: set<string>, queue0: seq<string>, visited: set<string>, queue: seq<string>) {
    && visited0 <= visited
    && Elements(queue) == Elements(queue0) + (visited - visited0)
    && (visited == visited0 ==> queue == queue0)
  }

  /** The state of the worklist: all visited packages are reachable, and all but the queued are explored. */
  ghost predicate Exploring(m: Modules, aliases: Aliases, seeds: set<string>, visited: set<string>,
                            queued: set<string>)
  {
    && seeds <= visited <= Reach(m, aliases, seeds)
    && queued <= visited
    && forall p :: p in visited && p !in queued ==> Targets(m, aliases, p) <= visited
  }

  lemma ExploreKeeps(m: Modules, aliases: Aliases, seeds: set<string>, visited: set<string>,
                     rest: set<string>, package: string, more: set<string>)
    requires Exploring(m, aliases, seeds, visited, rest + {package})
    requires more == visited + Targets(m, aliases, package)
    ensures Exploring(m, aliases, seeds, more, rest + (more - visited))
  {
    ReachIsLeastClosed(m, aliases, seeds);
  }

  /** An empty queue leaves exactly the reachable packages. */
  lemma ExploredAll(m: Modules, aliases: Aliases, seeds: set<string>, visited: set<string>)
    requires Exploring(m, aliases, seeds, visited, {})
    ensures visited == Reach(m, aliases, seeds)
  {
    ReachIsLeastClosed(m, aliases, seeds);
  }

  lemma ExploringStarts(m: Modules, aliases: Aliases, seeds: set<string>)
    ensures Exploring(m, aliases, seeds, seeds, seeds)
  {
    ReachIsLeastClosed(m, aliases, seeds);
  }

  lemma LastElement(queue: seq<string>)
    requires queue != []
    ensures Elements(queue) == Elements(queue[..|queue| - 1]) + {queue[|queue| - 1]}
  {
    assert queue == queue[..|queue| - 1] + [queue[|queue| - 1]];
  }

  /** Exploring the last queued package keeps the state, and uses up some of the measure. */
  lemma WorklistTurn(m: Modules, aliases: Aliases, seeds: set<string>, visited: set<string>, rest: seq<string>,
                     package: string, more: set<string>, queue: seq<string>)
    requires Exploring(m, aliases, seeds, visited, Elements(rest) + {package})
    requires more == visited + Targets(m, aliases, package)
    requires Grown(visited, rest, more, queue)
    ensures Exploring(m, aliases, seeds, more, Elements(queue))
    ensures visited <= more <= Universe(m, aliases, seeds)
    ensures more == visited ==> queue == rest
  {
    ExploreKeeps(m, aliases, seeds, visited, Elements(rest), package, more);
  }

  /** The targets of the files in a list, gathered from left to right. */
  ghost function TargetsAlong(m: Modules, aliases: Aliases, paths: seq<File>): set<string> {
    if paths == [] then {}
    else
      var f := paths[|paths| - 1];
      TargetsAlong(m, aliases, paths[..|paths| - 1])
      + if f in m.modules then ModuleTargets(m, aliases, m.modules[f]) else {}
  }

  lemma AlongOneMore(m: Modules, aliases: Aliases, paths: seq<File>, i: nat)
    requires i < |paths|
    ensures TargetsAlong(m, aliases, paths[..i + 1])
            == TargetsAlong(m, aliases, paths[..i])
               + if paths[i] in m.modules then ModuleTargets(m, aliases, m.modules[paths[i]]) else {}
  {
    assert paths[..i + 1][..i] == paths[..i];
  }

  lemma {:induction false} TargetsAlongAre(m: Modules, aliases: Aliases, paths: seq<File>, t: string)
    ensures t in TargetsAlong(m, aliases, paths)
            <==> exists f :: f in paths && f in m.modules && t in ModuleTargets(m, aliases, m.modules[f])
  {
    if paths == [] {
    } else {
      TargetsAlongAre(m, aliases, paths[..|paths| - 1], t);
      assert paths == paths[..|paths| - 1] + [paths[|paths| - 1]];
    }
  }

  lemma TargetsAlongPackage(m: Modules, aliases: Aliases, paths: seq<File>, package: string)
    requires Elements(paths) == FilesOf(m, package)
    ensures TargetsAlong(m, aliases, paths) == Targets(m, aliases, package)
  {
    forall t
      ensures t in TargetsAlong(m, aliases, paths) <==> t in Targets(m, aliases, package)
    {
      TargetsAlongAre(m, aliases, paths, t);
      assert forall f :: f in paths <==> f in Elements(paths);
    }
  }

  lemma OneMoreImport(imports: seq<ImportEdge>, j: nat, aliases: Aliases)
    requires j < |imports|
    ensures AliasedPaths(imports[..j + 1], aliases)
            == AliasedPaths(imports[..j], aliases) + {ApplyAlias(imports[j].importPath, aliases)}
  {
    assert imports[..j + 1][..j] == imports[..j];
  }

  lemma OneMoreExport(m: Modules, exports: seq<ExportEdge>, j: nat)
    requires j < |exports|
    ensures ExportTargets(m, exports[..j + 1]) == ExportTargets(m, exports[..j]) + {ExportTarget(m, exports[j])}
  {
    assert exports[..j + 1][..j] == exports[..j];
  }

  lemma InsertKeepsWellFormed(m: Modules, n: Modules, path: File, parsed: ParsedModule)
    requires n.modules == m.modules[path := parsed]
    requires n.byPackage == m.byPackage[parsed.package := FilesOf(m, parsed.package) + {path}]
    ensures WellFormed(m) && path !in m.modules ==> WellFormed(n)
  {
    if WellFormed(m) && path !in m.modules {
      forall f | f in n.modules
        ensures f in FilesOf(n, n.modules[f].package)
      {
        assert f != path ==> f in FilesOf(m, m.modules[f].package);
      }
    }
  }

}
