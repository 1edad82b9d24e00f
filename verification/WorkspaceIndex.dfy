/** The index object of `lsp/src/index.rs`, proved against the maps of `SymbolIndex`. */
module WorkspaceIndex {
  import opened Outcome
  import opened Order
  import opened Positions
  import opened SymbolIndex
  import opened SymbolQueries

  /** `now` is `before` with the entries whose paths are in `done` owned by `uri`. */
  ghost predicate Partly<X>(now: map<Path, (Uri, X)>, before: map<Path, (Uri, X)>, uri: Uri,
                            entries: map<Path, X>, done: set<Path>) {
    forall p ::
      && (p in now <==> p in before || (p in done && p in entries))
      && (p in now ==> now[p] == if p in done && p in entries then (uri, entries[p]) else before[p])
  }

  lemma PartlyOneMore<X>(now: map<Path, (Uri, X)>, before: map<Path, (Uri, X)>, uri: Uri,
                         entries: map<Path, X>, done: set<Path>, path: Path)
    requires Partly(now, before, uri, entries, done)
    ensures Partly(if path in entries then now[path := (uri, entries[path])] else now,
                   before, uri, entries, done + {path})
  {
  }

  lemma PartlyAll<X>(now: map<Path, (Uri, X)>, before: map<Path, (Uri, X)>, uri: Uri,
                     entries: map<Path, X>, done: set<Path>)
    requires Partly(now, before, uri, entries, done) && entries.Keys <= done
    ensures now == Own(before, uri, entries)
  {
    assert forall p :: p in entries ==> p in done;
  }

  function WithElement(s: State, uri: Uri, path: Path, e: Element): State {
    s.(symbols := s.symbols[path := (uri, e.range)],
       kinds := s.kinds[path := (uri, e.kind)],
       declNames := if e.name.Some? then s.declNames[path := (uri, e.name.value)] else s.declNames)
  }

  /** The element loop after the entries in `done`. */
  ghost predicate Underway(s: State, start: State, uri: Uri, snap: Snapshot, done: set<Path>) {
    && Partly(s.symbols, start.symbols, uri, Ranges(snap), done)
    && Partly(s.kinds, start.kinds, uri, Kinds(snap), done)
    && Partly(s.declNames, start.declNames, uri, NameRanges(snap), done)
    && s.usages == start.usages && s.importLinks == start.importLinks
  }

  lemma UnderwayOneMore(s: State, start: State, uri: Uri, snap: Snapshot, done: set<Path>, path: Path)
    requires Underway(s, start, uri, snap, done) && path in snap.elements
    ensures Underway(WithElement(s, uri, path, snap.elements[path]), start, uri, snap, done + {path})
  {
    PartlyOneMore(s.symbols, start.symbols, uri, Ranges(snap), done, path);
    PartlyOneMore(s.kinds, start.kinds, uri, Kinds(snap), done, path);
    PartlyOneMore(s.declNames, start.declNames, uri, NameRanges(snap), done, path);
  }

  lemma UnderwayAll(s: State, start: State, uri: Uri, snap: Snapshot, done: set<Path>)
    requires Underway(s, start, uri, snap, done) && snap.elements.Keys <= done
    ensures s == WithElements(start, uri, snap)
  {
    assert forall p :: p in snap.elements ==> p in done;
    PartlyAll(s.symbols, start.symbols, uri, Ranges(snap), done);
    PartlyAll(s.kinds, start.kinds, uri, Kinds(snap), done);
    PartlyAll(s.declNames, start.declNames, uri, NameRanges(snap), done);
  }

  lemma ConvertsEach(text: string, envelope: Option<Envelope>)
    ensures var env, snap := if envelope.Some? then envelope.value else Envelope(map[], []), Convert(text, envelope);
            && snap.elements.Keys == env.elements.Keys
            && (forall p :: p in env.elements ==> snap.elements[p] == ConvertElement(text, env.elements[p]))
            && |snap.references| == |env.references|
            && forall i :: 0 <= i < |env.references| ==>
                 snap.references[i] == ConvertReference(text, env.references[i])
  {
  }

  class Index {
    var symbols: map<Path, (Uri, Range)>
    var kinds: map<Path, (Uri, string)>
    var usages: map<Path, seq<Location>>
    var declNames: map<Path, (Uri, Range)>
    var importLinks: map<Uri, seq<(Range, Path)>>

    function View(): State
      reads this
    {
      State(symbols, kinds, usages, declNames, importLinks)
    }

    constructor ()
      ensures View() == EMPTY
    {
      symbols, kinds, usages, declNames, importLinks := map[], map[], map[], map[], map[];
    }

    /** Nothing of the file is left, and what the other files ask for stays; `files` are the latest parses. */
    method RemoveFile(uri: Uri, ghost files: Files)
      modifies this
      ensures View() == Removed(old(View()), uri)
      ensures Forgotten(View(), uri)
      ensures old(Agrees(View(), files)) ==> Agrees(View(), files - {uri})
    {
      RemovedIsForgotten(View(), uri);
      if Agrees(View(), files) {
        RemovedAgrees(View(), files, uri);
      }
      symbols := Evict(symbols, uri);
      kinds := Evict(kinds, uri);
      declNames := Evict(declNames, uri);
      usages := EvictSites(usages, uri);
      importLinks := importLinks - {uri};
    }

    method UpdateFromEnvelope(uri: Uri, envelope: Option<Envelope>, text: string)
      modifies this
      ensures var snap := Convert(text, envelope);
              View() == WithReferences(WithElements(old(View()), uri, snap), uri, snap.references)
    {
      var env := if envelope.Some? then envelope.value else Envelope(map[], []);
      ghost var snap := Convert(text, envelope);
      ConvertsEach(text, envelope);
      IngestElements(uri, env.elements, text, snap);
      IngestReferences(uri, env.references, text, snap);
    }

    method IngestReferences(uri: Uri, references: seq<RefEntry>, text: string, ghost snap: Snapshot)
      requires |snap.references| == |references|
      requires forall i :: 0 <= i < |references| ==> snap.references[i] == ConvertReference(text, references[i])
      modifies this
      ensures View() == WithReferences(old(View()), uri, snap.references)
    {
      ghost var before := View();
      for i := 0 to |references|
        invariant View() == WithReferences(before, uri, snap.references[..i])
      {
        assert snap.references[..i + 1][..i] == snap.references[..i];
        IngestReference(uri, ConvertReference(text, references[i]));
      }
      assert snap.references[..|references|] == snap.references;
    }

    method IngestElements(uri: Uri, elements: map<Path, ElementEntry>, text: string, ghost snap: Snapshot)
      requires snap.elements.Keys == elements.Keys
      requires forall p :: p in elements ==> snap.elements[p] == ConvertElement(text, elements[p])
      modifies this
      ensures View() == WithElements(old(View()), uri, snap)
    {
      ghost var start := View();
      ghost var done: set<Path> := {};
      var todo := elements.Keys;
      while todo != {}
        invariant todo + done == elements.Keys
        invariant Underway(View(), start, uri, snap, done)
        decreases todo
      {
        var path :| path in todo;
        UnderwayOneMore(View(), start, uri, snap, done, path);
        IngestElement(uri, path, ConvertElement(text, elements[path]));
        todo, done := todo - {path}, done + {path};
      }
      UnderwayAll(View(), start, uri, snap, done);
    }

    method IngestElement(uri: Uri, path: Path, entry: Element)
      modifies this
      ensures View() == WithElement(old(View()), uri, path, entry)
    {
      kinds := kinds[path := (uri, entry.kind)];
      if entry.name.Some? {
        declNames := declNames[path := (uri, entry.name.value)];
      }
      symbols := symbols[path := (uri, entry.range)];
    }

    method IngestReference(uri: Uri, r: Reference)
      modifies this
      ensures View() == WithReference(old(View()), uri, r)
    {
      if r.resolvedPath == "" {
        return;
      }
      if r.refKind == "import" {
        importLinks := importLinks[uri := Links(importLinks, uri) + [(r.range, r.resolvedPath)]];
      }
      usages := usages[r.resolvedPath := Sites(usages, r.resolvedPath) + [Location(uri, r.range)]];
    }

    /** The new parse takes the place of the old one; `files` are the latest parses so far. */
    method RefreshFile(uri: Uri, envelope: Option<Envelope>, text: string, ghost files: Files)
      modifies this
      ensures View() == Refreshed(old(View()), uri, Convert(text, envelope))
      ensures var now := files[uri := Convert(text, envelope)];
              old(Agrees(View(), files)) ==> (Agrees(View(), now) <==> Disjoint(now))
    {
      if Agrees(View(), files) {
        RefreshedAgrees(View(), files, uri, Convert(text, envelope));
      }
      RemoveFile(uri, files);
      UpdateFromEnvelope(uri, envelope, text);
    }

    method ReferencesOf(path: Path, includeDecl: bool) returns (out: seq<Location>)
      ensures out == References(View(), path, includeDecl)
      ensures forall l :: l in out <==>
                l in Sites(usages, path) || (includeDecl && DeclarationOf(View(), path) == Some(l))
      ensures Ordered(out)
      ensures Distinct(out) <==> Together(Mentions(View(), path, includeDecl))
    {
      out := GatherSites(path, includeDecl);
      out := DropRepeats(SortSites(out));
      ReferencesHold(View(), path, includeDecl);
      ReferencesAreDistinct(View(), path, includeDecl);
    }

    /** The list before it is sorted. */
    method GatherSites(path: Path, includeDecl: bool) returns (out: seq<Location>)
      ensures out == Mentions(View(), path, includeDecl)
    {
      out := [];
      if includeDecl {
        var declaration := DeclarationOf(View(), path);
        if declaration.Some? {
          out := out + [declaration.value];
        }
      }
      if path in usages {
        ghost var first := out;
        for i := 0 to |usages[path]|
          invariant out == first + usages[path][..i]
        {
          out := out + [usages[path][i]];
        }
      }
    }
  }
}
