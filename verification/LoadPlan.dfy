/** `plan_load_with_aliases` of `deal-closure/src/lib.rs`. */
module LoadPlan {
  // It decides which files a command loads, and which of them it reports on.

  import opened Outcome
  import opened Order
  import opened ImportClosure
  import opened ClosureCache

  datatype Plan = Plan(closure: set<File>, analyze: set<File>)

  /** What the file system and the compiler say of the files. */
  datatype World = World(parsed: map<File, ParsedModule>, tables: set<File>, dealx: set<File>)

  function Discovered(world: World, project: seq<File>, deps: seq<File>): Sources {
    map f | f in world.parsed && (f in project || f in deps) :: world.parsed[f]
  }

  /** A file from which the compiler gets no symbol table. */
  predicate Broken(world: World, f: File) {
    f !in world.parsed || f !in world.tables
  }

  function DealxAmong(world: World, files: seq<File>): seq<File> {
    if files == [] then []
    else
      var last := files[|files| - 1];
      DealxAmong(world, files[..|files| - 1]) + if last in world.dealx then [last] else []
  }

  /** The files named on the command line, else the `.dealx` files, else the whole project. */
  function EntryPoints(world: World, project: seq<File>, named: seq<File>): seq<File> {
    var dealx := DealxAmong(world, project);
    if named != [] then named else if dealx != [] then dealx else project
  }

  /** A file of the project or of a dependency, if it could be parsed. */
  predicate Loaded(world: World, project: seq<File>, deps: seq<File>, f: File) {
    f in world.parsed && (f in project || f in deps)
  }

  /** The other file has the same package, or one that this file imports. */
  ghost predicate Imports(world: World, aliases: Aliases, f: File, g: File)
    requires f in world.parsed && g in world.parsed
  {
    || world.parsed[g].package == world.parsed[f].package
    || exists imp :: imp in world.parsed[f].imports
                     && world.parsed[g].package == ApplyAlias(imp.importPath, aliases)
  }

  /** Whatever loaded file a loaded file of the set imports is in the set. */
  ghost predicate HoldsImports(world: World, project: seq<File>, deps: seq<File>, aliases: Aliases, files: set<File>) {
    forall f, g :: f in files && Loaded(world, project, deps, f) && Loaded(world, project, deps, g) ==>
      Imports(world, aliases, f, g) ==> g in files
  }

  lemma ClosureIsLoaded(world: World, project: seq<File>, deps: seq<File>, aliases: Aliases, entries: set<File>)
    ensures var closure := Closure(ModulesOf(Discovered(world, project, deps)), aliases, entries);
            && (forall f :: f in closure ==> f in entries || Loaded(world, project, deps, f))
            && HoldsImports(world, project, deps, aliases, closure)
  {
    var m := ModulesOf(Discovered(world, project, deps));
    ClosureIsLeast(m, aliases, entries);
    var files := entries + m.modules.Keys;
    assert FollowsEdges(m, aliases, files);
    forall f, g | f in Closure(m, aliases, entries) && Loaded(world, project, deps, f)
      && Loaded(world, project, deps, g) && Imports(world, aliases, f, g)
      ensures g in Closure(m, aliases, entries)
    {
      assert LeadsTo(m, aliases, f, g);
    }
  }

  /**
   `plan_load_with_aliases`, given the derived aliases.  It fails only for an empty project: the
   check for missing entry points behind it can never fire.  What is analyzed are the reachable
   files of the project and the broken ones, whichever files were named: the last loop, which is
   meant to add named files from outside the project, adds nothing at all.
   */
  method PlanLoad(world: World, project: seq<File>, deps: seq<File>, named: seq<File>, aliases: Aliases)
    returns (r: Result<Plan>)
    ensures r.Err? <==> project == []
    ensures r.Ok? ==>
              r.value.closure == Closure(ModulesOf(Discovered(world, project, deps)), aliases,
                                         Elements(EntryPoints(world, project, named)))
    ensures r.Ok? ==> forall f :: f in r.value.analyze <==>
              f in project && (f in r.value.closure || f !in world.parsed || f !in world.tables)
    ensures r.Ok? ==> forall f :: f in r.value.closure ==>
              f in EntryPoints(world, project, named) || Loaded(world, project, deps, f)
    ensures r.Ok? ==> HoldsImports(world, project, deps, aliases, r.value.closure)
  {
    if project == [] {
      return Err;
    }
    var m := BuildFrom(Discovered(world, project, deps));
    var entries := PickEntries(world, project, named);
    if entries == [] {
      return Err;
    }
    var closure := m.ClosureFilesWithAliases(entries, aliases);
    ClosureIsExtensiveAndMonotone(m.View(), aliases, Elements(entries), Elements(entries));
    var analyze := Analyzed(world, project, closure);
    analyze := AddNamed(analyze, project, named);
    assert forall f :: f in project && f in named ==> f in Elements(entries);
    ClosureIsLoaded(world, project, deps, aliases, Elements(entries));
    return Ok(Plan(closure, analyze));
  }

  method Analyzed(world: World, project: seq<File>, closure: set<File>) returns (analyze: set<File>)
    ensures forall f :: f in analyze <==> f in project && (f in closure || Broken(world, f))
  {
    analyze := {};
    for i := 0 to |project|
      invariant forall f :: f in analyze <==> f in project[..i] && (f in closure || Broken(world, f))
    {
      assert project[..i + 1] == project[..i] + [project[i]];
      var f := project[i];
      if f in closure || (if f in world.parsed then f !in world.tables else true) {
        analyze := analyze + {f};
      }
    }
    assert project[..|project|] == project;
  }

  method AddNamed(analyze: set<File>, project: seq<File>, named: seq<File>) returns (more: set<File>)
    ensures forall f :: f in more <==> f in analyze || (f in named && f in project)
  {
    more := analyze;
    for i := 0 to |named|
      invariant forall f :: f in more <==> f in analyze || (f in named[..i] && f in project)
    {
      assert named[..i + 1] == named[..i] + [named[i]];
      if named[i] !in more && named[i] in project {
        more := more + {named[i]};
      }
    }
    assert named[..|named|] == named;
  }

  /** The places of the `.dealx` files, ascending. */
  ghost predicate DealxPlaces(world: World, files: seq<File>, places: seq<nat>) {
    && (forall i :: i in places <==> 0 <= i < |files| && files[i] in world.dealx)
    && (forall j, k :: 0 <= j < k < |places| ==> places[j] < places[k])
  }

  /** `picked` lists the files at the places. */
  ghost predicate At(files: seq<File>, places: seq<nat>, picked: seq<File>) {
    |picked| == |places| && forall k :: 0 <= k < |places| ==> places[k] < |files| && picked[k] == files[places[k]]
  }

  lemma PlacesSnoc(world: World, files: seq<File>, last: File, front: seq<nat>)
    requires DealxPlaces(world, files, front)
    ensures DealxPlaces(world, files + [last], if last in world.dealx then front + [|files|] else front)
  {
    var places := if last in world.dealx then front + [|files|] else front;
    forall i
      ensures i in places <==> 0 <= i < |files| + 1 && (files + [last])[i] in world.dealx
    {
      assert i in places <==> i in front || (last in world.dealx && i == |files|);
    }
    assert forall k :: 0 <= k < |front| ==> front[k] in front;
  }

  lemma AtSnoc(files: seq<File>, last: File, places: seq<nat>, picked: seq<File>)
    requires At(files, places, picked)
    ensures At(files + [last], places, picked) && At(files + [last], places + [|files|], picked + [last])
  {
  }

  lemma DealxAmongSnoc(world: World, files: seq<File>, last: File)
    ensures DealxAmong(world, files + [last])
            == DealxAmong(world, files) + if last in world.dealx then [last] else []
  {
    assert (files + [last])[..|files|] == files;
  }

  lemma PlacedSnoc(world: World, files: seq<File>, last: File, front: seq<nat>)
    requires DealxPlaces(world, files, front) && At(files, front, DealxAmong(world, files))
    ensures var all, places := files + [last], if last in world.dealx then front + [|files|] else front;
            DealxPlaces(world, all, places) && At(all, places, DealxAmong(world, all))
  {
    PlacesSnoc(world, files, last, front);
    AtSnoc(files, last, front, DealxAmong(world, files));
    DealxAmongSnoc(world, files, last);
    assert DealxAmong(world, files) + [] == DealxAmong(world, files);
  }

  lemma {:induction false} DealxAmongIs(world: World, files: seq<File>) returns (places: seq<nat>)
    ensures DealxPlaces(world, files, places) && At(files, places, DealxAmong(world, files))
  {
    if files == [] {
      places := [];
    } else {
      var front, last := files[..|files| - 1], files[|files| - 1];
      places := DealxAmongIs(world, front);
      PlacedSnoc(world, front, last, places);
      assert front + [last] == files;
      places := if last in world.dealx then places + [|front|] else places;
    }
  }

  lemma PlacesTell(world: World, project: seq<File>, places: seq<nat>)
    requires DealxPlaces(world, project, places)
    ensures places != [] <==> exists f :: f in project && f in world.dealx
  {
    if f :| f in project && f in world.dealx {
      var i :| 0 <= i < |project| && project[i] == f;
      assert i in places;
    }
    if places != [] {
      assert places[0] in places && project[places[0]] in project;
    }
  }

  lemma SomeDealx(world: World, project: seq<File>)
    ensures DealxAmong(world, project) != [] <==> exists f :: f in project && f in world.dealx
    ensures exists places :: DealxPlaces(world, project, places) && At(project, places, DealxAmong(world, project))
  {
    var places := DealxAmongIs(world, project);
    PlacesTell(world, project, places);
  }

  /** Entry points: the named files; else the `.dealx` files, in order, if there are any; else all. */
  method PickEntries(world: World, project: seq<File>, named: seq<File>) returns (entries: seq<File>)
    ensures entries == EntryPoints(world, project, named)
    ensures named != [] ==> entries == named
    ensures named == [] && (forall f :: f in project ==> f !in world.dealx) ==> entries == project
    ensures named == [] && (exists f :: f in project && f in world.dealx) ==>
              exists places :: DealxPlaces(world, project, places) && At(project, places, entries)
    ensures project != [] ==> entries != []
  {
    SomeDealx(world, project);
    if named != [] {
      return named;
    }
    var dealx := [];
    for i := 0 to |project|
      invariant dealx == DealxAmong(world, project[..i])
    {
      assert project[..i + 1][..i] == project[..i];
      if project[i] in world.dealx {
        dealx := dealx + [project[i]];
      }
    }
    assert project[..|project|] == project;
    return if dealx == [] then project else dealx;
  }
}
