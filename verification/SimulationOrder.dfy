/** `topological_order` of `cli/src/simulate.rs`. */
module SimulationOrder {
  // `Dependencies` says which simulation must run before which, straight from the registry.
  // `Kahn` is the queue algorithm over that relation, with no counters and no adjacency lists.
  // The method keeps in-degrees and neighbour lists with duplicates and is proved to compute `Kahn`;
  // `Kahn` is proved to list every simulation, dependencies first, unless there is a cycle.

  import opened Outcome
  import opened Order

  /** The fields of a registry entry that the order depends on. */
  datatype SimEntry = SimEntry(
    inputs: seq<Option<string>>, outputs: seq<Option<string>>, dependsOn: Option<seq<string>>)

  type Registry = map<string, SimEntry>

  datatype Graph = Graph(nodes: set<string>, edges: set<(string, string)>) {
    ghost predicate Valid() {
      forall e :: e in edges ==> e.0 in nodes && e.1 in nodes
    }
  }

  // ----- What the registry asks for -------------------------------------------

  /** Simulation `a` is the one that provides `path`: of all that write it, the last by name. */
  ghost predicate Provides(reg: Registry, a: string, path: string) {
    && a in reg && Some(path) in reg[a].outputs
    && forall b :: b in reg && Some(path) in reg[b].outputs ==> b == a || Less(b, a)
  }

  /** `a` must run before `b`. */
  ghost predicate Dependency(reg: Registry, a: string, b: string) {
    && a in reg && b in reg && a != b
    && (|| (exists path :: Some(path) in reg[b].inputs && Provides(reg, a, path))
        || (reg[b].dependsOn.Some? && a in reg[b].dependsOn.value))
  }

  ghost function Dependencies(reg: Registry): (g: Graph)
    ensures g.Valid()
  {
    Graph(reg.Keys, set a, b | a in reg.Keys && b in reg.Keys && Dependency(reg, a, b) :: (a, b))
  }

  // ----- Kahn's algorithm over a graph ----------------------------------------

  /** Every predecessor of `n` has been listed. */
  ghost predicate Released(g: Graph, n: string, order: seq<string>) {
    forall a :: (a, n) in g.edges ==> a in order
  }

  /** The successors of `node` whose last missing predecessor it was. */
  ghost function Freed(g: Graph, node: string, order: seq<string>): set<string> {
    set e | e in g.edges && e.0 == node && Released(g, e.1, order) :: e.1
  }

  /** What a run keeps: who is queued or listed is who is released, and listed after all it needs. */
  ghost predicate KahnState(g: Graph, queue: seq<string>, order: seq<string>) {
    && g.Valid() && Distinct(order) && Distinct(queue)
    && (forall n :: n in queue ==> n !in order)
    && (forall n :: n in order || n in queue ==> n in g.nodes)
    && (forall n :: n in g.nodes ==> (n in order || n in queue <==> Released(g, n, order)))
    && (forall i, a :: 0 <= i < |order| && (a, order[i]) in g.edges ==> a in order[..i])
  }

  lemma {:induction false} DistinctSize<T>(s: seq<T>)
    requires Distinct(s)
    ensures |Elements(s)| == |s|
  {
    if s == [] {
    } else {
      DistinctSize(s[1..]);
      assert Elements(s) == {s[0]} + Elements(s[1..]);
    }
  }

  lemma DistinctFits<T>(s: seq<T>, all: set<T>)
    requires Distinct(s) && forall x :: x in s ==> x in all
    ensures |s| <= |all| && (|s| == |all| <==> Elements(s) == all)
  {
    DistinctSize(s);
    assert all == Elements(s) + (all - Elements(s));
  }

  lemma ListingHolds(names: set<string>)
    ensures Distinct(Listing(names)) && forall n :: n in Listing(names) <==> n in names
  {
    AscendingIsDistinct(Listing(names));
    forall n
      ensures n in Listing(names) <==> n in names
    {
      assert n in Listing(names) <==> n in Elements(Listing(names));
    }
  }

  /** Listing `node` releases what was released before, and what `node` frees. */
  lemma StillReleased(g: Graph, n: string, order: seq<string>, node: string)
    ensures Released(g, n, order + [node])
            <==> Released(g, n, order) || n in Freed(g, node, order + [node])
  {
    var next := order + [node];
    if Released(g, n, next) && !Released(g, n, order) {
      assert (node, n) in g.edges;
    }
  }

  /** What `node` frees was neither queued nor listed. */
  lemma FreedIsNew(g: Graph, queue: seq<string>, order: seq<string>, n: string)
    requires queue != [] && KahnState(g, queue, order)
    requires n in Freed(g, queue[0], order + [queue[0]])
    ensures n in g.nodes && n !in order && n !in queue
  {
    assert (queue[0], n) in g.edges && queue[0] !in order;
    assert !Released(g, n, order);
  }

  /** Taking the head of the queue keeps the state in order. */
  lemma KahnStep(g: Graph, queue: seq<string>, order: seq<string>)
    requires queue != [] && KahnState(g, queue, order)
    ensures var next := order + [queue[0]];
            KahnState(g, queue[1..] + Listing(Freed(g, queue[0], next)), next)
  {
    var node, rest := queue[0], queue[1..];
    var next := order + [node];
    var freed := Freed(g, node, next);
    var ready := Listing(freed);
    ListingHolds(freed);
    assert queue == [node] + rest && node !in rest;
    forall n | n in freed
      ensures n in g.nodes && n !in order && n !in queue
    {
      FreedIsNew(g, queue, order, n);
    }
    DistinctConcat(order, [node]);
    DistinctConcat(rest, ready);
    forall n | n in g.nodes
      ensures n in next || n in rest + ready <==> Released(g, n, next)
    {
      StillReleased(g, n, order, node);
    }
    forall i, a | 0 <= i < |next| && (a, next[i]) in g.edges
      ensures a in next[..i]
    {
      if i < |order| {
        assert next[..i] == order[..i];
      } else {
        assert next[..i] == order && Released(g, node, order);
      }
    }
  }

  lemma RoomForOneMore(g: Graph, queue: seq<string>, order: seq<string>)
    requires queue != [] && KahnState(g, queue, order)
    ensures |order| < |g.nodes|
  {
    DistinctConcat(order, [queue[0]]);
    DistinctFits(order + [queue[0]], g.nodes);
  }

  ghost function KahnFrom(g: Graph, queue: seq<string>, order: seq<string>): (r: seq<string>)
    requires KahnState(g, queue, order)
    ensures KahnState(g, [], r)
    decreases |g.nodes| - |order|
  {
    if queue == [] then order
    else
      KahnStep(g, queue, order);
      RoomForOneMore(g, queue, order);
      var next := order + [queue[0]];
      KahnFrom(g, queue[1..] + Listing(Freed(g, queue[0], next)), next)
  }

  /** The simulations that wait for nothing. */
  ghost function Roots(g: Graph): set<string> {
    set n | n in g.nodes && Released(g, n, [])
  }

  lemma KahnStarts(g: Graph)
    requires g.Valid()
    ensures KahnState(g, Listing(Roots(g)), [])
  {
    ListingHolds(Roots(g));
  }

  ghost function Kahn(g: Graph): (r: seq<string>)
    requires g.Valid()
    ensures KahnState(g, [], r)
  {
    KahnStarts(g);
    KahnFrom(g, Listing(Roots(g)), [])
  }

  // ----- Kahn's algorithm is right --------------------------------------------

  ghost predicate Path(g: Graph, p: seq<string>) {
    p != [] && forall i :: 0 < i < |p| ==> (p[i - 1], p[i]) in g.edges
  }

  ghost predicate HasCycle(g: Graph) {
    exists p :: Path(g, p) && |p| > 1 && p[0] == p[|p| - 1]
  }

  /** Every node once, and every edge pointing forward. */
  ghost predicate IsTopological(g: Graph, order: seq<string>) {
    && Distinct(order) && Elements(order) == g.nodes
    && forall i, j :: 0 <= i < |order| && 0 <= j < |order| && (order[i], order[j]) in g.edges ==> i < j
  }

  /** Along a path that ends at `order[j]`, positions only grow. */
  lemma {:induction false} PathsRunForward(g: Graph, order: seq<string>, p: seq<string>, j: nat) returns (i: nat)
    requires g.Valid() && IsTopological(g, order) && Path(g, p)
    requires j < |order| && order[j] == p[|p| - 1]
    ensures i <= j && order[i] == p[0] && (|p| > 1 ==> i < j)
  {
    if |p| == 1 {
      i := j;
    } else {
      var a := p[|p| - 2];
      assert a in Elements(order);
      var k :| 0 <= k < |order| && order[k] == a;
      i := PathsRunForward(g, order, p[..|p| - 1], k);
    }
  }

  ghost predicate HasPredecessor(g: Graph, x: string, inside: set<string>) {
    exists a :: a in inside && (a, x) in g.edges
  }

  /** Where every node has a predecessor inside the set, walks of any length stay inside it. */
  lemma {:induction false} LongWalk(g: Graph, inside: set<string>, n: nat) returns (p: seq<string>)
    requires inside != {}
    requires forall x {:trigger HasPredecessor(g, x, inside)} :: x in inside ==> HasPredecessor(g, x, inside)
    ensures |p| == n + 1 && Path(g, p) && forall x :: x in p ==> x in inside
  {
    if n == 0 {
      var x :| x in inside;
      p := [x];
    } else {
      var rest := LongWalk(g, inside, n - 1);
      assert HasPredecessor(g, rest[0], inside);
      var a :| a in inside && (a, rest[0]) in g.edges;
      p := [a] + rest;
    }
  }

  lemma SomethingRepeats<T>(p: seq<T>, inside: set<T>) returns (i: nat, j: nat)
    requires |p| > |inside| && forall x :: x in p ==> x in inside
    ensures i < j < |p| && p[i] == p[j]
  {
    if Distinct(p) {
      DistinctFits(p, inside);
    }
    i, j :| 0 <= i < j < |p| && p[i] == p[j];
  }

  lemma StuckNodesHoldACycle(g: Graph, inside: set<string>)
    requires inside != {}
    requires forall x {:trigger HasPredecessor(g, x, inside)} :: x in inside ==> HasPredecessor(g, x, inside)
    ensures HasCycle(g)
  {
    var p := LongWalk(g, inside, |inside|);
    var i, j := SomethingRepeats(p, inside);
    SliceIsPath(g, p, i, j);
    ReturningPathIsCycle(g, p[i..j + 1]);
  }

  lemma ReturningPathIsCycle(g: Graph, p: seq<string>)
    requires Path(g, p) && |p| > 1 && p[0] == p[|p| - 1]
    ensures HasCycle(g)
  {
  }

  lemma SliceIsPath(g: Graph, p: seq<string>, i: nat, j: nat)
    requires Path(g, p) && i < j < |p|
    ensures Path(g, p[i..j + 1])
  {
    var slice := p[i..j + 1];
    forall k | 0 < k < |slice|
      ensures (slice[k - 1], slice[k]) in g.edges
    {
      assert slice[k - 1] == p[i + k - 1] && slice[k] == p[i + k];
    }
  }

  /** The run lists everything exactly when there is no cycle, and then dependencies come first. */
  lemma KahnDecides(g: Graph)
    requires g.Valid()
    ensures |Kahn(g)| <= |g.nodes|
    ensures |Kahn(g)| == |g.nodes| <==> !HasCycle(g)
    ensures !HasCycle(g) ==> IsTopological(g, Kahn(g))
  {
    var order := Kahn(g);
    DistinctFits(order, g.nodes);
    var stuck := g.nodes - Elements(order);
    if stuck != {} {
      forall x | x in stuck
        ensures HasPredecessor(g, x, stuck)
      {
        assert !Released(g, x, order);
        var a :| (a, x) in g.edges && a !in order;
        assert a in stuck;
      }
      StuckNodesHoldACycle(g, stuck);
    } else {
      assert g.nodes <= Elements(order) by {
        forall x | x in g.nodes
          ensures x in Elements(order)
        {
          assert x !in stuck;
        }
      }
      EdgesRunForward(g, order);
      if HasCycle(g) {
        var p :| Path(g, p) && |p| > 1 && p[0] == p[|p| - 1];
        NoCycleInOrder(g, order, p);
      }
    }
  }

  lemma EdgesRunForward(g: Graph, order: seq<string>)
    requires KahnState(g, [], order) && Elements(order) == g.nodes
    ensures IsTopological(g, order)
  {
    forall i, j | 0 <= i < |order| && 0 <= j < |order| && (order[i], order[j]) in g.edges
      ensures i < j
    {
      assert order[i] in order[..j];
    }
  }

  lemma NoCycleInOrder(g: Graph, order: seq<string>, p: seq<string>)
    requires g.Valid() && IsTopological(g, order)
    requires Path(g, p) && |p| > 1
    ensures p[0] != p[|p| - 1]
  {
    var last := p[|p| - 1];
    assert (p[|p| - 2], last) in g.edges;
    assert last in Elements(order);
    var j :| 0 <= j < |order| && order[j] == last;
    var i := PathsRunForward(g, order, p, j);
  }


  // ----- The code's counters and neighbour lists ------------------------------

  type Edges = seq<(string, string)>

  /** How many of the listed edges lead to `n` from a node that is not done. */
  function Pending(edges: Edges, n: string, done: set<string>): nat {
    if edges == [] then 0
    else
      var last := edges[|edges| - 1];
      Pending(edges[..|edges| - 1], n, done) + (if last.1 == n && last.0 !in done then 1 else 0)
  }

  /** Where the listed edges of `a` lead, in the order they were added. */
  function Targets(edges: Edges, a: string): seq<string> {
    if edges == [] then []
    else
      var last := edges[|edges| - 1];
      Targets(edges[..|edges| - 1], a) + (if last.0 == a then [last.1] else [])
  }

  lemma {:induction false} PendingIsZero(edges: Edges, n: string, done: set<string>)
    ensures Pending(edges, n, done) == 0 <==> forall e :: e in edges && e.1 == n ==> e.0 in done
  {
    if edges == [] {
    } else {
      PendingIsZero(edges[..|edges| - 1], n, done);
      assert edges == edges[..|edges| - 1] + [edges[|edges| - 1]];
    }
  }

  lemma {:induction false} TargetsAre(edges: Edges, a: string, n: string)
    ensures n in Targets(edges, a) <==> (a, n) in edges
  {
    if edges == [] {
    } else {
      TargetsAre(edges[..|edges| - 1], a, n);
      assert edges == edges[..|edges| - 1] + [edges[|edges| - 1]];
    }
  }

  /** Finishing `a` takes off each of its edges to `n`, duplicates included. */
  lemma {:induction false} FinishingTakesOff(edges: Edges, n: string, done: set<string>, a: string)
    requires a !in done
    ensures Pending(edges, n, done + {a}) + multiset(Targets(edges, a))[n] == Pending(edges, n, done)
  {
    if edges == [] {
    } else {
      FinishingTakesOff(edges[..|edges| - 1], n, done, a);
    }
  }

  /** The two maps the code fills describe the listed edges. */
  ghost predicate Describes(nodes: set<string>, edges: Edges, inDegree: map<string, nat>,
                            adj: map<string, seq<string>>)
  {
    && inDegree.Keys == nodes
    && (forall e :: e in edges ==> e.0 in nodes && e.1 in nodes)
    && (forall n :: n in nodes ==> inDegree[n] == Pending(edges, n, {}))
    && (forall a :: Neighbours(adj, a) == Targets(edges, a))
  }

  function Neighbours(adj: map<string, seq<string>>, a: string): seq<string> {
    if a in adj then adj[a] else []
  }

  method AddEdge(a: string, b: string, inDegree: map<string, nat>, adj: map<string, seq<string>>,
                 ghost nodes: set<string>, ghost edges: Edges)
    returns (degrees: map<string, nat>, lists: map<string, seq<string>>)
    requires Describes(nodes, edges, inDegree, adj) && a in nodes && b in nodes
    ensures Describes(nodes, edges + [(a, b)], degrees, lists)
  {
    lists := adj[a := Neighbours(adj, a) + [b]];
    degrees := inDegree[b := inDegree[b] + 1];
    ghost var all := edges + [(a, b)];
    assert all[..|all| - 1] == edges && all[|all| - 1] == (a, b);
    forall c
      ensures Neighbours(lists, c) == Targets(all, c)
    {
      assert Targets(edges, c) + [] == Targets(edges, c);
    }
  }

  /** Each path's provider, as `output_producer` records it over the names before `upTo`. */
  ghost predicate ProducersUpTo(reg: Registry, names: seq<string>, upTo: nat, producer: map<string, string>)
    requires upTo <= |names|
  {
    && (forall path :: path in producer ==>
          producer[path] in names[..upTo] && producer[path] in reg && Some(path) in reg[producer[path]].outputs)
    && (forall path, b :: b in names[..upTo] && b in reg && Some(path) in reg[b].outputs ==>
          path in producer && (b == producer[path] || Less(b, producer[path])))
  }

  /** The same inside the turn of `names[i]`, once its first `j` outputs are recorded. */
  ghost predicate ProducersInTurn(reg: Registry, names: seq<string>, i: nat, j: nat, producer: map<string, string>)
    requires i < |names| && names[i] in reg && j <= |reg[names[i]].outputs|
  {
    && (forall path :: path in producer ==>
          && (producer[path] == names[i] || producer[path] in names[..i])
          && producer[path] in reg && Some(path) in reg[producer[path]].outputs)
    && (forall path, b :: b in names[..i] && b in reg && Some(path) in reg[b].outputs ==>
          path in producer && (b == producer[path] || Less(b, producer[path])))
    && (forall path :: Some(path) in reg[names[i]].outputs[..j] ==> path in producer && producer[path] == names[i])
  }

  lemma ProducersTurnStep(reg: Registry, names: seq<string>, i: nat, j: nat,
                          producer: map<string, string>, more: map<string, string>)
    requires Ascending(names) && i < |names| && names[i] in reg && j < |reg[names[i]].outputs|
    requires ProducersInTurn(reg, names, i, j, producer)
    requires var output := reg[names[i]].outputs[j];
             more == if output.Some? then producer[output.value := names[i]] else producer
    ensures ProducersInTurn(reg, names, i, j + 1, more)
  {
    var outputs := reg[names[i]].outputs;
    assert outputs[..j + 1] == outputs[..j] + [outputs[j]];
    assert forall b :: b in names[..i] ==> Less(b, names[i]);
  }

  lemma ProducersTurnStarts(reg: Registry, names: seq<string>, i: nat, producer: map<string, string>)
    requires i < |names| && names[i] in reg && ProducersUpTo(reg, names, i, producer)
    ensures ProducersInTurn(reg, names, i, 0, producer)
  {
  }

  lemma ProducersTurnEnds(reg: Registry, names: seq<string>, i: nat, producer: map<string, string>)
    requires i < |names| && names[i] in reg
    requires ProducersInTurn(reg, names, i, |reg[names[i]].outputs|, producer)
    ensures ProducersUpTo(reg, names, i + 1, producer)
  {
    assert names[..i + 1] == names[..i] + [names[i]];
    var outputs := reg[names[i]].outputs;
    assert outputs[..|outputs|] == outputs;
  }

  method BuildProducers(reg: Registry, names: seq<string>) returns (producer: map<string, string>)
    requires Ascending(names) && Elements(names) == reg.Keys
    ensures forall path, a :: path in producer && producer[path] == a <==> Provides(reg, a, path)
  {
    producer := map[];
    for i := 0 to |names|
      invariant ProducersUpTo(reg, names, i, producer)
    {
      var name := names[i];
      assert name in Elements(names);
      var outputs := reg[name].outputs;
      ProducersTurnStarts(reg, names, i, producer);
      for j := 0 to |outputs|
        invariant ProducersInTurn(reg, names, i, j, producer)
      {
        ghost var before := producer;
        if outputs[j].Some? {
          producer := producer[outputs[j].value := name];
        }
        ProducersTurnStep(reg, names, i, j, before, producer);
      }
      ProducersTurnEnds(reg, names, i, producer);
    }
    ProducersDecide(reg, names, producer);
  }

  lemma ProducersDecide(reg: Registry, names: seq<string>, producer: map<string, string>)
    requires Elements(names) == reg.Keys && ProducersUpTo(reg, names, |names|, producer)
    ensures forall path, a :: path in producer && producer[path] == a <==> Provides(reg, a, path)
  {
    assert names[..|names|] == names;
    assert forall b :: b in reg ==> b in Elements(names);
    forall path, a
      ensures path in producer && producer[path] == a <==> Provides(reg, a, path)
    {
      if Provides(reg, a, path) && producer[path] != a {
        LessIsAsymmetric(a, producer[path]);
      }
    }
  }

  /** The dependencies of `b` found in its first `i` inputs and first `j` explicit names. */
  ghost predicate FoundBy(reg: Registry, a: string, b: string, i: nat, j: nat)
    requires b in reg
  {
    && a in reg && a != b
    && (|| (exists path :: Some(path) in Prefix(reg[b].inputs, i) && Provides(reg, a, path))
        || (reg[b].dependsOn.Some? && a in Prefix(reg[b].dependsOn.value, j)))
  }

  function Prefix<T>(s: seq<T>, n: nat): seq<T> {
    if n <= |s| then s[..n] else s
  }

  lemma PrefixStep<T>(s: seq<T>, n: nat)
    requires n < |s|
    ensures Prefix(s, n + 1) == Prefix(s, n) + [s[n]] && Prefix(s, 0) == [] && Prefix(s, |s|) == s
  {
  }

  /** The listed edges into the names before `i` are their dependencies. */
  ghost predicate EdgesUpTo(reg: Registry, names: seq<string>, i: nat, edges: Edges)
    requires i <= |names|
  {
    forall a, b :: (a, b) in edges <==> b in names[..i] && Dependency(reg, a, b)
  }

  /** Inside the turn of `name`: the names before it are done, and `name` as far as `i` and `j`. */
  ghost predicate EdgesInTurn(reg: Registry, names: seq<string>, k: nat, edges: Edges, i: nat, j: nat)
    requires k < |names| && names[k] in reg
  {
    forall a, b :: (a, b) in edges <==>
                     (b in names[..k] && Dependency(reg, a, b)) || (b == names[k] && FoundBy(reg, a, b, i, j))
  }

  method BuildEdges(reg: Registry, names: seq<string>, producer: map<string, string>)
    returns (inDegree: map<string, nat>, adj: map<string, seq<string>>, ghost edges: Edges)
    requires Ascending(names) && Elements(names) == reg.Keys
    requires forall path, a :: path in producer && producer[path] == a <==> Provides(reg, a, path)
    ensures Describes(reg.Keys, edges, inDegree, adj)
    ensures forall a, b :: (a, b) in edges <==> Dependency(reg, a, b)
    ensures forall a, b :: b in Neighbours(adj, a) <==> Dependency(reg, a, b)
    ensures inDegree.Keys == reg.Keys
    ensures forall b :: b in inDegree && inDegree[b] == 0 <==> b in reg && DependsOnNothing(reg, b)
  {
    inDegree := map k | k in reg.Keys :: 0;
    adj := map[];
    edges := [];
    for k := 0 to |names|
      invariant Describes(reg.Keys, edges, inDegree, adj)
      invariant EdgesUpTo(reg, names, k, edges)
    {
      var name := names[k];
      assert name in Elements(names);
      var inputs := reg[name].inputs;
      TurnStarts(reg, names, k, edges);
      for i := 0 to |inputs|
        invariant Describes(reg.Keys, edges, inDegree, adj)
        invariant EdgesInTurn(reg, names, k, edges, i, 0)
      {
        ghost var before := edges;
        if inputs[i].Some? && inputs[i].value in producer {
          var source := producer[inputs[i].value];
          assert Provides(reg, source, inputs[i].value);
          if source != name {
            inDegree, adj := AddEdge(source, name, inDegree, adj, reg.Keys, edges);
            edges := edges + [(source, name)];
          }
        }
        InputTurn(reg, names, k, before, i, edges);
      }
      if reg[name].dependsOn.Some? {
        var deps := reg[name].dependsOn.value;
        for j := 0 to |deps|
          invariant Describes(reg.Keys, edges, inDegree, adj)
          invariant EdgesInTurn(reg, names, k, edges, |inputs|, j)
        {
          ghost var before := edges;
          if deps[j] != name && deps[j] in reg {
            inDegree, adj := AddEdge(deps[j], name, inDegree, adj, reg.Keys, edges);
            edges := edges + [(deps[j], name)];
          }
          DependsOnTurn(reg, names, k, before, j, edges);
        }
      }
      TurnEnds(reg, names, k, edges);
    }
    assert names[..|names|] == names;
    assert forall b :: b in reg ==> b in Elements(names);
    MapsTellDependencies(reg, edges, inDegree, adj);
  }

  ghost predicate DependsOnNothing(reg: Registry, b: string) {
    forall a :: !Dependency(reg, a, b)
  }

  /** What the listed edges say, said by the two maps. */
  lemma MapsTellDependencies(reg: Registry, edges: Edges, inDegree: map<string, nat>, adj: map<string, seq<string>>)
    requires Describes(reg.Keys, edges, inDegree, adj)
    requires forall a, b :: (a, b) in edges <==> Dependency(reg, a, b)
    ensures forall a, b :: b in Neighbours(adj, a) <==> Dependency(reg, a, b)
    ensures forall b :: b in inDegree && inDegree[b] == 0 <==> b in reg && DependsOnNothing(reg, b)
  {
    forall a, b
      ensures b in Neighbours(adj, a) <==> Dependency(reg, a, b)
    {
      TargetsAre(edges, a, b);
    }
    forall b | b in reg
      ensures inDegree[b] == 0 <==> DependsOnNothing(reg, b)
    {
      PendingIsZero(edges, b, {});
      if e :| e in edges && e.1 == b {
        assert (e.0, b) == e && Dependency(reg, e.0, b);
      }
    }
  }

  lemma TurnStarts(reg: Registry, names: seq<string>, k: nat, edges: Edges)
    requires Ascending(names) && Elements(names) == reg.Keys && k < |names| && names[k] in reg
    requires EdgesUpTo(reg, names, k, edges)
    ensures EdgesInTurn(reg, names, k, edges, 0, 0)
  {
  }

  lemma InputTurn(reg: Registry, names: seq<string>, k: nat, edges: Edges, i: nat, more: Edges)
    requires k < |names| && names[k] in reg && i < |reg[names[k]].inputs|
    requires EdgesInTurn(reg, names, k, edges, i, 0)
    requires var input := reg[names[k]].inputs[i];
             || (more == edges && (input.Some? ==> forall a :: a != names[k] ==> !Provides(reg, a, input.value)))
             || (exists a :: input.Some? && Provides(reg, a, input.value) && a != names[k]
                             && more == edges + [(a, names[k])])
    ensures EdgesInTurn(reg, names, k, more, i + 1, 0)
  {
    var name := names[k];
    var input := reg[name].inputs[i];
    PrefixStep(reg[name].inputs, i);
    assert forall a :: FoundBy(reg, a, name, i + 1, 0) <==>
        FoundBy(reg, a, name, i, 0) || (a != name && input.Some? && Provides(reg, a, input.value));
    if input.Some? {
      ProviderIsUnique(reg, input.value);
    }
  }

  lemma ProviderIsUnique(reg: Registry, path: string)
    ensures forall a, b :: Provides(reg, a, path) && Provides(reg, b, path) ==> a == b
  {
    forall a, b | Provides(reg, a, path) && Provides(reg, b, path)
      ensures a == b
    {
      if a != b {
        LessIsAsymmetric(a, b);
      }
    }
  }

  lemma DependsOnTurn(reg: Registry, names: seq<string>, k: nat, edges: Edges, j: nat, more: Edges)
    requires k < |names| && names[k] in reg
    requires reg[names[k]].dependsOn.Some? && j < |reg[names[k]].dependsOn.value|
    requires EdgesInTurn(reg, names, k, edges, |reg[names[k]].inputs|, j)
    requires var a := reg[names[k]].dependsOn.value[j];
             more == if a != names[k] && a in reg then edges + [(a, names[k])] else edges
    ensures EdgesInTurn(reg, names, k, more, |reg[names[k]].inputs|, j + 1)
  {
    PrefixStep(reg[names[k]].dependsOn.value, j);
  }

  lemma TurnEnds(reg: Registry, names: seq<string>, k: nat, edges: Edges)
    requires k < |names| && names[k] in reg
    requires var deps := reg[names[k]].dependsOn;
             EdgesInTurn(reg, names, k, edges, |reg[names[k]].inputs|, if deps.Some? then |deps.value| else 0)
    ensures EdgesUpTo(reg, names, k + 1, edges)
  {
    assert names[..k + 1] == names[..k] + [names[k]];
  }

  /** What the queue loop keeps: the counters count, and the state is a state of the run over `g`. */
  ghost predicate Counts(g: Graph, edges: Edges, inDegree: map<string, nat>, done: set<string>) {
    && inDegree.Keys == g.nodes
    && (forall e :: e in edges <==> e in g.edges)
    && forall n :: n in g.nodes ==> inDegree[n] == Pending(edges, n, done)
  }

  /**
   `topological_order`.  The maps are read in any order; the result is the one run of `Kahn`,
   or an error when that run leaves simulations out.
   */
  /** The order, told from the registry: who writes an input, or is named as a dependency, comes first. */
  ghost predicate NeedsComeFirst(reg: Registry, order: seq<string>) {
    && Distinct(order) && Elements(order) == reg.Keys
    && forall i, j :: 0 <= i < |order| && 0 <= j < |order| && i != j && Needs(reg, order[j], order[i]) ==> i < j
  }

  /** `b` reads what `a` is the last to write, or names `a` as a dependency. */
  ghost predicate Needs(reg: Registry, b: string, a: string)
    requires b in reg
  {
    || (exists path :: Some(path) in reg[b].inputs && LastWriter(reg, a, path))
    || (reg[b].dependsOn.Some? && a in reg[b].dependsOn.value)
  }

  /** Of the simulations that write the path, the last in the order of their names. */
  ghost predicate LastWriter(reg: Registry, a: string, path: string) {
    && a in reg && Some(path) in reg[a].outputs
    && forall b, k: nat :: b in reg && PartsAt(a, b, k) ==> Some(path) !in reg[b].outputs
  }

  lemma LastWriterProvides(reg: Registry, a: string, path: string)
    ensures LastWriter(reg, a, path) <==> Provides(reg, a, path)
  {
    if LastWriter(reg, a, path) {
      forall b | b in reg && Some(path) in reg[b].outputs
        ensures b == a || Less(b, a)
      {
        LessIsTotal(a, b);
        LessIsDictionaryOrder(a, b);
      }
    }
    if Provides(reg, a, path) {
      forall b, k: nat | b in reg && PartsAt(a, b, k)
        ensures Some(path) !in reg[b].outputs
      {
        LessIsDictionaryOrder(a, b);
        LessIsAsymmetric(a, b);
      }
    }
  }

  lemma NeedsAreDependencies(reg: Registry, a: string, b: string)
    requires a in reg && b in reg
    ensures Dependency(reg, a, b) <==> a != b && Needs(reg, b, a)
  {
    forall path
      ensures LastWriter(reg, a, path) <==> Provides(reg, a, path)
    {
      LastWriterProvides(reg, a, path);
    }
  }

  lemma TopologicalMeans(reg: Registry, order: seq<string>)
    ensures IsTopological(Dependencies(reg), order) <==> NeedsComeFirst(reg, order)
  {
    if Distinct(order) && Elements(order) == reg.Keys {
      forall i, j | 0 <= i < |order| && 0 <= j < |order|
        ensures (order[i], order[j]) in Dependencies(reg).edges <==> i != j && Needs(reg, order[j], order[i])
      {
        assert order[i] in Elements(order) && order[j] in Elements(order);
        NeedsAreDependencies(reg, order[i], order[j]);
      }
    }
  }

  lemma OrderMeans(reg: Registry, r: Result<seq<string>>)
    requires r.Ok? ==> IsTopological(Dependencies(reg), r.value)
    requires r.Err? ==> HasCycle(Dependencies(reg))
    ensures r.Ok? ==> NeedsComeFirst(reg, r.value)
    ensures r.Err? ==> forall order :: !NeedsComeFirst(reg, order)
  {
    if r.Ok? {
      TopologicalMeans(reg, r.value);
    } else {
      var p :| Path(Dependencies(reg), p) && |p| > 1 && p[0] == p[|p| - 1];
      forall order
        ensures !NeedsComeFirst(reg, order)
      {
        TopologicalMeans(reg, order);
        if IsTopological(Dependencies(reg), order) {
          NoCycleInOrder(Dependencies(reg), order, p);
        }
      }
    }
  }

  method TopologicalOrder(reg: Registry) returns (r: Result<seq<string>>)
    ensures var g := Dependencies(reg);
            r == if |Kahn(g)| < |g.nodes| then Err else Ok(Kahn(g))
    ensures r.Ok? <==> !HasCycle(Dependencies(reg))
    ensures r.Ok? ==> IsTopological(Dependencies(reg), r.value) && NeedsComeFirst(reg, r.value)
    ensures r.Err? ==> forall order :: !NeedsComeFirst(reg, order)
  {
    var names := SortedNames(reg.Keys);
    var producer := BuildProducers(reg, names);
    var inDegree, adj;
    ghost var edges;
    inDegree, adj, edges := BuildEdges(reg, names, producer);
    CountsDependencies(reg, edges, inDegree);
    var order := RunQueue(Dependencies(reg), edges, inDegree, adj);
    KahnDecides(Dependencies(reg));
    r := if |order| < |reg.Keys| then Err else Ok(order);
    OrderMeans(reg, r);
  }

  lemma CountsDependencies(reg: Registry, edges: Edges, inDegree: map<string, nat>)
    requires inDegree.Keys == reg.Keys
    requires forall n :: n in reg.Keys ==> inDegree[n] == Pending(edges, n, {})
    requires forall a, b :: (a, b) in edges <==> Dependency(reg, a, b)
    ensures Counts(Dependencies(reg), edges, inDegree, {})
  {
    forall e
      ensures e in edges <==> e in Dependencies(reg).edges
    {
      assert e == (e.0, e.1);
    }
  }

  /** The queue loop of `topological_order`. */
  method RunQueue(ghost g: Graph, ghost edges: Edges, degrees: map<string, nat>, adj: map<string, seq<string>>)
    returns (order: seq<string>)
    requires g.Valid() && Counts(g, edges, degrees, {})
    requires forall a :: Neighbours(adj, a) == Targets(edges, a)
    ensures order == Kahn(g)
  {
    var inDegree := degrees;
    RootsHaveNoPending(g, edges, inDegree);
    var queue := SortedNames(set n | n in inDegree.Keys && inDegree[n] == 0);
    order := [];
    KahnStarts(g);
    assert Elements(order) == {};
    while queue != []
      invariant Counts(g, edges, inDegree, Elements(order))
      invariant KahnState(g, queue, order)
      invariant KahnFrom(g, queue, order) == Kahn(g)
      decreases |g.nodes| - |order|
    {
      var node := queue[0];
      KahnStep(g, queue, order);
      RoomForOneMore(g, queue, order);
      NeighboursAreCounted(g, edges, inDegree, order, node);
      ghost var before := inDegree;
      var zeroed;
      inDegree, zeroed := Release(Neighbours(adj, node), inDegree);
      NodeIsDone(g, edges, before, inDegree, order, node, Elements(zeroed));
      SortIsListing(zeroed);
      var freed := Sort(zeroed);
      order := order + [node];
      queue := queue[1..] + freed;
    }
  }

  lemma RootsHaveNoPending(g: Graph, edges: Edges, inDegree: map<string, nat>)
    requires Counts(g, edges, inDegree, {})
    ensures (set n | n in inDegree.Keys && inDegree[n] == 0) == Roots(g)
  {
    forall n | n in g.nodes
      ensures inDegree[n] == 0 <==> Released(g, n, [])
    {
      PendingIsZero(edges, n, {});
    }
  }

  /** No counter can run out: each neighbour entry of `node` is one of its pending edges. */
  lemma NeighboursAreCounted(g: Graph, edges: Edges, inDegree: map<string, nat>, order: seq<string>, node: string)
    requires g.Valid() && Counts(g, edges, inDegree, Elements(order)) && node !in order
    ensures forall n :: n in Targets(edges, node) ==> n in inDegree
    ensures forall n :: n in inDegree ==> multiset(Targets(edges, node))[n] <= inDegree[n]
  {
    forall n | n in Targets(edges, node)
      ensures n in inDegree
    {
      TargetsAre(edges, node, n);
      assert (node, n) in g.edges;
    }
    forall n | n in inDegree
      ensures multiset(Targets(edges, node))[n] <= inDegree[n]
    {
      FinishingTakesOff(edges, n, Elements(order), node);
    }
  }

  /** Each neighbour is counted down as often as it occurs. */
  ghost predicate CountedDown(neighbours: seq<string>, inDegree: map<string, nat>, counted: map<string, nat>) {
    && counted.Keys == inDegree.Keys
    && forall n :: n in inDegree ==> counted[n] + multiset(neighbours)[n] == inDegree[n]
  }

  /** The neighbours at zero, each listed once. */
  ghost predicate AtZero(neighbours: seq<string>, counted: map<string, nat>, zeroed: seq<string>) {
    && (forall n :: n in neighbours ==> n in counted)
    && Distinct(zeroed) && forall n :: n in zeroed <==> n in neighbours && counted[n] == 0
  }

  lemma AtZeroOneMore(neighbours: seq<string>, n: string, counted: map<string, nat>, zeroed: seq<string>)
    requires n in counted && counted[n] > 0 && AtZero(neighbours, counted, zeroed)
    ensures var next := counted[n := counted[n] - 1];
            AtZero(neighbours + [n], next, if next[n] == 0 then zeroed + [n] else zeroed)
  {
    DistinctConcat(zeroed, [n]);
  }

  lemma CountedOneMore(neighbours: seq<string>, n: string, inDegree: map<string, nat>, counted: map<string, nat>)
    requires CountedDown(neighbours, inDegree, counted)
    requires n in inDegree && multiset(neighbours + [n])[n] <= inDegree[n]
    ensures counted[n] > 0 && CountedDown(neighbours + [n], inDegree, counted[n := counted[n] - 1])
  {
    assert multiset(neighbours + [n]) == multiset(neighbours) + multiset{n};
  }

  /** The neighbour loop: every duplicate edge is counted down, never below zero, and no name is freed twice. */
  method Release(neighbours: seq<string>, inDegree: map<string, nat>)
    returns (counted: map<string, nat>, zeroed: seq<string>)
    requires forall n :: n in neighbours ==> n in inDegree
    requires forall n :: n in inDegree ==> multiset(neighbours)[n] <= inDegree[n]
    ensures CountedDown(neighbours, inDegree, counted) && AtZero(neighbours, counted, zeroed)
  {
    counted, zeroed := inDegree, [];
    for j := 0 to |neighbours|
      invariant CountedDown(neighbours[..j], inDegree, counted) && AtZero(neighbours[..j], counted, zeroed)
    {
      var n := neighbours[j];
      TakenSoFar(neighbours, j);
      CountedOneMore(neighbours[..j], n, inDegree, counted);
      AtZeroOneMore(neighbours[..j], n, counted, zeroed);
      counted := counted[n := counted[n] - 1];
      if counted[n] == 0 {
        zeroed := zeroed + [n];
      }
    }
    assert neighbours[..|neighbours|] == neighbours;
  }

  lemma TakenSoFar(s: seq<string>, j: nat)
    requires j < |s|
    ensures s[..j] + [s[j]] == s[..j + 1] && s[j] in s
    ensures multiset(s[..j] + [s[j]])[s[j]] <= multiset(s)[s[j]]
  {
    assert s == (s[..j] + [s[j]]) + s[j + 1..];
  }

  /** After the countdown the counters are right for the longer list, and zero means freed. */
  lemma NodeIsDone(g: Graph, edges: Edges, before: map<string, nat>, after: map<string, nat>,
                   order: seq<string>, node: string, zeroed: set<string>)
    requires g.Valid() && Counts(g, edges, before, Elements(order)) && node !in order
    requires after.Keys == before.Keys
    requires forall n :: n in before ==> after[n] + multiset(Targets(edges, node))[n] == before[n]
    requires forall n :: n in Targets(edges, node) ==> n in after
    requires forall n :: n in zeroed <==> n in Targets(edges, node) && after[n] == 0
    ensures Counts(g, edges, after, Elements(order + [node]))
    ensures zeroed == Freed(g, node, order + [node])
  {
    var done := Elements(order + [node]);
    assert done == Elements(order) + {node};
    forall n | n in g.nodes
      ensures after[n] == Pending(edges, n, done)
    {
      FinishingTakesOff(edges, n, Elements(order), node);
    }
    forall n
      ensures n in zeroed <==> n in Freed(g, node, order + [node])
    {
      TargetsAre(edges, node, n);
      if (node, n) in g.edges {
        PendingIsZero(edges, n, done);
        ReleasedBySet(g, edges, n, order + [node]);
      }
    }
  }

  lemma ReleasedBySet(g: Graph, edges: Edges, n: string, order: seq<string>)
    requires forall e :: e in edges <==> e in g.edges
    ensures Released(g, n, order) <==> forall e :: e in edges && e.1 == n ==> e.0 in Elements(order)
  {
    if forall e :: e in edges && e.1 == n ==> e.0 in Elements(order) {
      forall a | (a, n) in g.edges
        ensures a in order
      {
        assert (a, n) in edges && (a, n).0 in Elements(order);
      }
    }
  }
}
