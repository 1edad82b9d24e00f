/** Which topological order `cli/src/simulate.rs` returns. */
module SimulationRanks {
  // Of the orders that put dependencies first, the code returns one: a simulation comes at the rank of
  // its last dependency, and those of one rank come by name.

  import opened Order
  import opened SimulationOrder

  /** `n` becomes ready when the simulation at `p` has been listed; at -1 it waits for nothing. */
  ghost predicate ReadyAt(g: Graph, all: seq<string>, n: string, p: int) {
    && -1 <= p < |all| && (p >= 0 ==> (all[p], n) in g.edges)
    && forall a :: (a, n) in g.edges ==> a in all[..p + 1]
  }

  ghost predicate Ranks(g: Graph, all: seq<string>, ranks: seq<int>) {
    |ranks| == |all| && forall k :: 0 <= k < |all| ==> ReadyAt(g, all, all[k], ranks[k])
  }

  ghost predicate Earlier(p: int, a: string, q: int, b: string) {
    p < q || (p == q && Less(a, b))
  }

  /** By rank, and by name within a rank. */
  ghost predicate ByRank(all: seq<string>, ranks: seq<int>) {
    |ranks| == |all| && forall i, j :: 0 <= i < j < |all| ==> Earlier(ranks[i], all[i], ranks[j], all[j])
  }

  lemma ReadyLater(g: Graph, all: seq<string>, more: seq<string>, n: string, p: int)
    requires ReadyAt(g, all, n, p)
    ensures ReadyAt(g, all + more, n, p)
  {
    assert (all + more)[..p + 1] == all[..p + 1];
  }

  function Repeat(p: int, n: nat): (r: seq<int>)
    ensures |r| == n && forall k :: 0 <= k < n ==> r[k] == p
  {
    seq(n, _ => p)
  }

  /** What becomes ready together joins the end, by name. */
  lemma Joins(g: Graph, all: seq<string>, ranks: seq<int>, more: seq<string>, p: int)
    requires Ranks(g, all, ranks) && ByRank(all, ranks) && (forall k :: 0 <= k < |ranks| ==> ranks[k] < p)
    requires Ascending(more) && forall k :: 0 <= k < |more| ==> ReadyAt(g, all, more[k], p)
    ensures Ranks(g, all + more, ranks + Repeat(p, |more|)) && ByRank(all + more, ranks + Repeat(p, |more|))
  {
    var t, r := all + more, ranks + Repeat(p, |more|);
    forall k | 0 <= k < |t|
      ensures ReadyAt(g, t, t[k], r[k])
    {
      if k < |all| {
        ReadyLater(g, all, more, all[k], ranks[k]);
      } else {
        ReadyLater(g, all, more, more[k - |all|], p);
      }
    }
  }

  /** The ranks of a run: of all that is listed or queued, each before the number of the listed. */
  ghost predicate RunRanks(g: Graph, queue: seq<string>, order: seq<string>, ranks: seq<int>) {
    && Ranks(g, order + queue, ranks) && ByRank(order + queue, ranks)
    && forall k :: 0 <= k < |ranks| ==> ranks[k] < |order|
  }

  lemma StepRanks(g: Graph, queue: seq<string>, order: seq<string>, ranks: seq<int>, ready: seq<string>)
    requires queue != [] && RunRanks(g, queue, order, ranks)
    requires ready == Listing(Freed(g, queue[0], order + [queue[0]]))
    ensures RunRanks(g, queue[1..] + ready, order + [queue[0]], ranks + Repeat(|order|, |ready|))
  {
    ListingHolds(Freed(g, queue[0], order + [queue[0]]));
    forall k | 0 <= k < |ready|
      ensures ReadyAt(g, order + queue, ready[k], |order|)
    {
      assert ready[k] in ready;
      FreedIsReady(g, queue, order, ready[k]);
    }
    Joins(g, order + queue, ranks, ready, |order|);
    Regroup(order, queue, ready);
  }

  lemma Regroup(order: seq<string>, queue: seq<string>, ready: seq<string>)
    requires queue != []
    ensures (order + [queue[0]]) + (queue[1..] + ready) == order + queue + ready
  {
  }

  lemma {:induction false} KahnFromRanks(g: Graph, queue: seq<string>, order: seq<string>, ranks: seq<int>)
    returns (r: seq<int>)
    requires KahnState(g, queue, order) && RunRanks(g, queue, order, ranks)
    ensures Ranks(g, KahnFrom(g, queue, order), r) && ByRank(KahnFrom(g, queue, order), r)
    decreases |g.nodes| - |order|
  {
    if queue == [] {
      assert order + queue == order;
      r := ranks;
    } else {
      var next := order + [queue[0]];
      var ready := Listing(Freed(g, queue[0], next));
      KahnStep(g, queue, order);
      RoomForOneMore(g, queue, order);
      StepRanks(g, queue, order, ranks, ready);
      r := KahnFromRanks(g, queue[1..] + ready, next, ranks + Repeat(|order|, |ready|));
    }
  }

  lemma FreedIsReady(g: Graph, queue: seq<string>, order: seq<string>, n: string)
    requires queue != [] && n in Freed(g, queue[0], order + [queue[0]])
    ensures ReadyAt(g, order + queue, n, |order|)
  {
    assert (order + queue)[..|order| + 1] == order + [queue[0]];
  }

  /** The order returned is by rank and name. */
  lemma KahnRanks(g: Graph) returns (ranks: seq<int>)
    requires g.Valid()
    ensures Ranks(g, Kahn(g), ranks) && ByRank(Kahn(g), ranks)
  {
    var roots := Listing(Roots(g));
    KahnStarts(g);
    RootsRank(g, roots);
    ranks := KahnFromRanks(g, roots, [], Repeat(-1, |roots|));
  }

  lemma RootsRank(g: Graph, roots: seq<string>)
    requires g.Valid() && roots == Listing(Roots(g))
    ensures RunRanks(g, roots, [], Repeat(-1, |roots|))
  {
    ListingHolds(Roots(g));
    assert [] + roots == roots;
    forall k | 0 <= k < |roots|
      ensures ReadyAt(g, roots, roots[k], -1)
    {
      assert roots[k] in roots && Released(g, roots[k], []);
    }
  }

  // ----- There is one such order ------------------------------------------------------

  /** Where two orders agree on what comes first, they agree on when something becomes ready. */
  lemma SameRank(g: Graph, a: seq<string>, b: seq<string>, k: nat, n: string, p: int, q: int)
    requires k <= |a| && k <= |b| && a[..k] == b[..k] && p < k && Distinct(b)
    requires ReadyAt(g, a, n, p) && ReadyAt(g, b, n, q)
    ensures p == q
  {
    assert a[..p + 1] == a[..k][..p + 1] == b[..p + 1];
    if q >= 0 {
      assert b[q] in a[..p + 1];
      var i :| 0 <= i < p + 1 && b[..p + 1][i] == b[q];
      assert i == q;
    }
    if p >= 0 {
      assert a[p] == a[..k][p] == b[p];
      assert a[p] in b[..q + 1];
      var i :| 0 <= i < q + 1 && b[..q + 1][i] == b[p];
      assert i == p;
    }
  }

  /** A rank lies before the simulation that has it. */
  lemma RankIsBefore(g: Graph, a: seq<string>, k: nat, p: int)
    requires IsTopological(g, a) && k < |a| && ReadyAt(g, a, a[k], p)
    ensures p < k
  {
    if p >= 0 {
      assert (a[p], a[k]) in g.edges;
    }
  }

  lemma FoundLater(a: seq<string>, b: seq<string>, k: nat) returns (j: nat)
    requires Distinct(a) && Elements(a) == Elements(b) && k < |a| && k < |b| && a[..k] == b[..k] && a[k] != b[k]
    ensures k < j < |b| && b[j] == a[k]
  {
    assert a[k] in Elements(b);
    forall i | 0 <= i < k
      ensures b[i] != a[k]
    {
      assert b[i] == b[..k][i] == a[..k][i] == a[i];
    }
    j :| 0 <= j < |b| && b[j] == a[k];
  }

  lemma SameNext(g: Graph, a: seq<string>, r: seq<int>, b: seq<string>, t: seq<int>, k: nat)
    requires IsTopological(g, a) && Ranks(g, a, r) && ByRank(a, r)
    requires IsTopological(g, b) && Ranks(g, b, t) && ByRank(b, t)
    requires k < |a| && k < |b| && a[..k] == b[..k]
    ensures a[k] == b[k]
  {
    if a[k] != b[k] {
      var j := FoundLater(a, b, k);
      var i := FoundLater(b, a, k);
      RankIsBefore(g, a, k, r[k]);
      RankIsBefore(g, b, k, t[k]);
      SameRank(g, a, b, k, a[k], r[k], t[j]);
      SameRank(g, b, a, k, b[k], t[k], r[i]);
      assert Earlier(r[k], a[k], r[i], a[i]) && Earlier(t[k], b[k], t[j], b[j]);
      NotBothEarlier(r[k], a[k], t[k], b[k]);
    }
  }

  lemma NotBothEarlier(p: int, a: string, q: int, b: string)
    ensures !(Earlier(p, a, q, b) && Earlier(q, b, p, a))
  {
    if Less(a, b) {
      LessIsAsymmetric(a, b);
    }
  }

  lemma {:induction false} SamePrefix(g: Graph, a: seq<string>, r: seq<int>, b: seq<string>, t: seq<int>, k: nat)
    requires IsTopological(g, a) && Ranks(g, a, r) && ByRank(a, r)
    requires IsTopological(g, b) && Ranks(g, b, t) && ByRank(b, t)
    requires k <= |a| && k <= |b|
    ensures a[..k] == b[..k]
  {
    if k == 0 {
    } else {
      SamePrefix(g, a, r, b, t, k - 1);
      SameNext(g, a, r, b, t, k - 1);
      assert a[..k] == a[..k - 1] + [a[k - 1]] && b[..k] == b[..k - 1] + [b[k - 1]];
    }
  }

  /** Only the order returned is topological and by rank and name. */
  lemma OrderIsUnique(g: Graph, order: seq<string>, ranks: seq<int>)
    requires g.Valid() && IsTopological(g, order) && Ranks(g, order, ranks) && ByRank(order, ranks)
    ensures !HasCycle(g) && order == Kahn(g)
  {
    if p :| Path(g, p) && |p| > 1 && p[0] == p[|p| - 1] {
      NoCycleInOrder(g, order, p);
    }
    KahnDecides(g);
    var r := KahnRanks(g);
    DistinctSize(order);
    DistinctSize(Kahn(g));
    SamePrefix(g, order, ranks, Kahn(g), r, |order|);
    assert order[..|order|] == order && Kahn(g)[..|order|] == Kahn(g);
  }
}
