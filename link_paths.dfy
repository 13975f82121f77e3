/**
 * The graph a link-state node searches (P3/link_state_node.py): links keyed
 * by the unordered pair of their ends, the edges Dijkstra may follow, paths
 * written as the list of nodes after the source, and their costs.
 *
 * The search state (a queue of candidate paths and a map of tentative
 * distances) is described here too, together with the frontier invariant
 * from which both the optimality of the returned path and the absence of any
 * path when the queue runs dry follow.
 */
module LinkPaths {
  import opened Base

  /**
   * `frozenset((a, b))` for two different nodes, stored with the smaller
   * node first so that equal sets are equal values.
   */
  datatype Pair = Pair(lo: int, hi: int)

  function Link(a: int, b: int): (k: Pair)
    ensures k.lo <= k.hi
    ensures (k.lo == a && k.hi == b) || (k.lo == b && k.hi == a)
  {
    if a <= b then Pair(a, b) else Pair(b, a)
  }

  /** The order of the two nodes does not matter, as with a frozenset. */
  lemma LinkUnordered(a: int, b: int, c: int, d: int)
    ensures Link(a, b) == Link(c, d) <==> (a == c && b == d) || (a == d && b == c)
  {
  }

  /** `{"cost": ..., "time": ...}` */
  datatype LinkInfo = LinkInfo(cost: int, time: int)

  /** `my_routing_table`: the node's link-state database. */
  type Lsdb = map<Pair, LinkInfo>

  /** Every key names two different nodes, so `node1, node2 = pair` unpacks. */
  ghost predicate WellFormed(db: Lsdb) {
    forall k :: k in db ==> k.lo < k.hi
  }

  /** The node across `k` from `u`, when `u` is one of its ends (`n_key`). */
  function Across(k: Pair, u: int): Option<int> {
    if u == k.lo then Some(k.hi) else if u == k.hi then Some(k.lo) else None
  }

  /** An edge the search may follow: a known link of non-negative cost. */
  predicate Edge(db: Lsdb, u: int, v: int) {
    u != v && Link(u, v) in db && db[Link(u, v)].cost >= 0
  }

  function Weight(db: Lsdb, u: int, v: int): int
    requires Link(u, v) in db
  {
    db[Link(u, v)].cost
  }

  lemma AcrossIsEdge(db: Lsdb, k: Pair, u: int)
    requires WellFormed(db) && k in db && db[k].cost >= 0 && Across(k, u).Some?
    ensures Link(u, Across(k, u).value) == k
    ensures Edge(db, u, Across(k, u).value)
  {
  }

  lemma EdgeIsAcross(db: Lsdb, u: int, v: int)
    requires Edge(db, u, v)
    ensures Across(Link(u, v), u) == Some(v)
  {
  }

  /** The last node of a path that starts at `src` and visits `p`. */
  function Last(src: int, p: seq<int>): int {
    if |p| == 0 then src else p[|p| - 1]
  }

  /** `p` lists the nodes visited after `src`, each an edge away from the one before. */
  ghost predicate IsPath(db: Lsdb, src: int, p: seq<int>)
    decreases |p|
  {
    |p| == 0 || (IsPath(db, src, p[..|p| - 1]) && Edge(db, Last(src, p[..|p| - 1]), p[|p| - 1]))
  }

  ghost function PathCost(db: Lsdb, src: int, p: seq<int>): int
    requires IsPath(db, src, p)
    decreases |p|
  {
    if |p| == 0 then 0
    else PathCost(db, src, p[..|p| - 1]) + Weight(db, Last(src, p[..|p| - 1]), p[|p| - 1])
  }

  /** A path to `dest` no other path to `dest` undercuts. */
  ghost predicate Cheapest(db: Lsdb, src: int, dest: int, p: seq<int>) {
    && IsPath(db, src, p) && Last(src, p) == dest
    && forall q :: IsPath(db, src, q) && Last(src, q) == dest ==> PathCost(db, src, p) <= PathCost(db, src, q)
  }

  ghost predicate Reachable(db: Lsdb, src: int, dest: int) {
    exists p :: IsPath(db, src, p) && Last(src, p) == dest
  }

  /** Following one more edge extends a path and adds that edge's cost. */
  lemma PathExtend(db: Lsdb, src: int, p: seq<int>, v: int)
    requires IsPath(db, src, p) && Edge(db, Last(src, p), v)
    ensures IsPath(db, src, p + [v]) && Last(src, p + [v]) == v
    ensures PathCost(db, src, p + [v]) == PathCost(db, src, p) + Weight(db, Last(src, p), v)
  {
    assert (p + [v])[..|p|] == p;
  }

  /** No path costs less than nothing: negative links are never followed. */
  lemma {:induction false} PathCostNonNegative(db: Lsdb, src: int, p: seq<int>)
    requires IsPath(db, src, p)
    ensures PathCost(db, src, p) >= 0
    decreases |p|
  {
    if |p| > 0 {
      PathCostNonNegative(db, src, p[..|p| - 1]);
    }
  }

  /** A path's first hop is an edge out of the source. */
  lemma {:induction false} PathFirstEdge(db: Lsdb, src: int, p: seq<int>)
    requires IsPath(db, src, p) && |p| > 0
    ensures Edge(db, src, p[0])
    decreases |p|
  {
    if |p| > 1 {
      PathFirstEdge(db, src, p[..|p| - 1]);
    }
  }

  /** A path that never comes back to its source and ends there is the empty path. */
  lemma PathHomeIsEmpty(src: int, p: seq<int>)
    requires Last(src, p) == src && src !in p
    ensures p == []
  {
  }

  /** Both ends of every link, in the order the links are listed. */
  function Ends(keys: seq<Pair>): (r: seq<int>)
    ensures forall i :: 0 <= i < |keys| ==> keys[i].lo in r && keys[i].hi in r
  {
    if |keys| == 0 then [] else Ends(keys[..|keys| - 1]) + [keys[|keys| - 1].lo, keys[|keys| - 1].hi]
  }

  // ---------------------------------------------------------------------------
  // The search's termination measure: how many listed nodes have no tentative
  // distance yet, and the sum of the distances they do have

  function Unseen(dist: map<int, int>, vs: seq<int>): nat {
    if |vs| == 0 then 0 else (if vs[0] in dist then 0 else 1) + Unseen(dist, vs[1..])
  }

  function SumAt(dist: map<int, int>, vs: seq<int>): int {
    if |vs| == 0 then 0 else (if vs[0] in dist then dist[vs[0]] else 0) + SumAt(dist, vs[1..])
  }

  /** Giving a listed node its first distance lowers the number of unseen nodes. */
  lemma {:induction false} UnseenDrops(dist: map<int, int>, vs: seq<int>, x: int, v: int)
    requires x !in dist
    ensures Unseen(dist[x := v], vs) <= Unseen(dist, vs)
    ensures x in vs ==> Unseen(dist[x := v], vs) < Unseen(dist, vs)
  {
    if |vs| > 0 {
      UnseenDrops(dist, vs[1..], x, v);
      if x in vs && vs[0] != x {
        assert x in vs[1..];
      }
    }
  }

  /** Lowering a known distance leaves the unseen nodes alone. */
  lemma {:induction false} UnseenSame(dist: map<int, int>, vs: seq<int>, x: int, v: int)
    requires x in dist
    ensures Unseen(dist[x := v], vs) == Unseen(dist, vs)
  {
    if |vs| > 0 {
      UnseenSame(dist, vs[1..], x, v);
    }
  }

  /** Lowering the distance of a listed node lowers the sum. */
  lemma {:induction false} SumDrops(dist: map<int, int>, vs: seq<int>, x: int, v: int)
    requires x in dist && v < dist[x]
    ensures SumAt(dist[x := v], vs) <= SumAt(dist, vs)
    ensures x in vs ==> SumAt(dist[x := v], vs) < SumAt(dist, vs)
  {
    if |vs| > 0 {
      SumDrops(dist, vs[1..], x, v);
      if x in vs && vs[0] != x {
        assert x in vs[1..];
      }
    }
  }

  lemma {:induction false} SumNonNegative(dist: map<int, int>, vs: seq<int>)
    requires forall u :: u in dist ==> dist[u] >= 0
    ensures SumAt(dist, vs) >= 0
  {
    if |vs| > 0 {
      SumNonNegative(dist, vs[1..]);
    }
  }

  // ---------------------------------------------------------------------------
  // The search state and its invariant

  /** `Heapq_Object`: a candidate path to `id` of cost `cost`. */
  datatype Item = Item(id: int, cost: int, prev: seq<int>)

  /** `Heapq_Object.__lt__`: candidates are ordered by cost alone. */
  predicate Before(a: Item, b: Item) {
    a.cost < b.cost
  }

  /** A candidate is a real path from the source that does not revisit it, at its real cost. */
  ghost predicate ItemOk(db: Lsdb, src: int, it: Item) {
    IsPath(db, src, it.prev) && Last(src, it.prev) == it.id && it.cost == PathCost(db, src, it.prev) && src !in it.prev
  }

  /** Every queued candidate is sound and no cheaper than its node's tentative distance. */
  ghost predicate ItemsOk(db: Lsdb, src: int, q: seq<Item>, dist: map<int, int>) {
    forall j :: 0 <= j < |q| ==> ItemOk(db, src, q[j]) && q[j].id in dist && dist[q[j].id] <= q[j].cost
  }

  ghost predicate Queued(q: seq<Item>, u: int, d: int) {
    exists j :: 0 <= j < |q| && q[j].id == u && q[j].cost == d
  }

  /** Every edge out of `u` has been relaxed at `u`'s current distance. */
  ghost predicate Relaxed(db: Lsdb, dist: map<int, int>, u: int) {
    u in dist && forall v :: Edge(db, u, v) ==> v in dist && dist[v] <= dist[u] + Weight(db, u, v)
  }

  /**
   * Every node with a tentative distance is either still waiting in the
   * queue at that distance or has been expanded at it.
   */
  ghost predicate Frontier(db: Lsdb, q: seq<Item>, dist: map<int, int>, expanded: set<int>) {
    forall u :: u in dist ==> Queued(q, u, dist[u]) || (u in expanded && Relaxed(db, dist, u))
  }

  ghost predicate SearchInv(db: Lsdb, src: int, dest: int, q: seq<Item>, dist: map<int, int>, expanded: set<int>) {
    && WellFormed(db)
    && src in dist && dist[src] == 0
    && (forall u :: u in dist ==> dist[u] >= 0)
    && ItemsOk(db, src, q, dist)
    && Frontier(db, q, dist, expanded)
    && dest !in expanded
  }

  /**
   * Walking any path from the source under the frontier invariant: either
   * some queued candidate costs no more than the walk so far, or the walk
   * ends at an expanded node whose distance is no more than the walk's cost.
   */
  lemma {:induction false} Walk(db: Lsdb, src: int, q: seq<Item>, dist: map<int, int>, expanded: set<int>, p: seq<int>)
    requires src in dist && dist[src] == 0 && Frontier(db, q, dist, expanded)
    requires IsPath(db, src, p)
    ensures (exists j :: 0 <= j < |q| && q[j].cost <= PathCost(db, src, p))
      || (Last(src, p) in expanded && Relaxed(db, dist, Last(src, p)) && dist[Last(src, p)] <= PathCost(db, src, p))
    decreases |p|
  {
    if |p| == 0 {
      assert Queued(q, src, dist[src]) || (src in expanded && Relaxed(db, dist, src));
    } else {
      var r := p[..|p| - 1];
      var u := Last(src, r);
      var v := p[|p| - 1];
      Walk(db, src, q, dist, expanded, r);
      PathCostNonNegative(db, src, r);
      assert PathCost(db, src, p) == PathCost(db, src, r) + Weight(db, u, v);
      if !exists j :: 0 <= j < |q| && q[j].cost <= PathCost(db, src, r) {
        assert Edge(db, u, v);
        assert v in dist && dist[v] <= PathCost(db, src, p);
        if Queued(q, v, dist[v]) {
          var j :| 0 <= j < |q| && q[j].id == v && q[j].cost == dist[v];
          assert q[j].cost <= PathCost(db, src, p);
        }
      }
    }
  }

  /** The cheapest candidate, when it reaches the destination, is a cheapest path there. */
  lemma PoppedIsCheapest(db: Lsdb, src: int, dest: int, q: seq<Item>, dist: map<int, int>, expanded: set<int>, j: nat)
    requires SearchInv(db, src, dest, q, dist, expanded)
    requires j < |q| && q[j].id == dest && forall i :: 0 <= i < |q| ==> q[j].cost <= q[i].cost
    ensures Cheapest(db, src, dest, q[j].prev) && PathCost(db, src, q[j].prev) == q[j].cost
  {
    assert ItemOk(db, src, q[j]);
    forall p | IsPath(db, src, p) && Last(src, p) == dest
      ensures q[j].cost <= PathCost(db, src, p)
    {
      Walk(db, src, q, dist, expanded, p);
    }
  }

  /** When the queue runs dry before the destination is reached, no path leads there. */
  lemma ExhaustedUnreachable(db: Lsdb, src: int, dest: int, dist: map<int, int>, expanded: set<int>)
    requires SearchInv(db, src, dest, [], dist, expanded)
    ensures !Reachable(db, src, dest)
  {
    forall p | IsPath(db, src, p)
      ensures Last(src, p) != dest
    {
      Walk(db, src, [], dist, expanded, p);
    }
  }
}
