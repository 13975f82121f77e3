/**
 * The distance-vector routing node of P3/distance_vector_node.py.
 *
 * A node keeps its own table (destination -> cost and route), the last table
 * each neighbour advertised, the link cost to each neighbour, and the time
 * stamp of each neighbour's last accepted advertisement. Tables are keyed in
 * the source by `str(node)`; `str` is injective on integers, so the model keys
 * them by the node id itself. Routes are lists of node ids, where Python's
 * `None` marks the node itself and `-1` marks "no route".
 *
 * The simulator's `send_to_neighbors` is an append to `outbox`, and `json`
 * encoding is the identity on the message datatype.
 */
module DistanceVector {
  import opened Base

  // ---------------------------------------------------------------------------
  // Costs: integer link latencies, and float("inf") for "no route"

  datatype Cost = Fin(value: int) | Inf

  /** `cost + latency`, where `inf + latency` stays `inf`. */
  function AddCost(c: Cost, latency: int): Cost {
    match c
    case Inf => Inf
    case Fin(v) => Fin(v + latency)
  }

  /** Python's `a <= b` on int and float("inf") costs: `inf <= inf` holds. */
  predicate CostLe(a: Cost, b: Cost) {
    b.Inf? || (a.Fin? && a.value <= b.value)
  }

  /** Python's `a < b` on int and float("inf") costs: `inf < inf` does not hold. */
  predicate CostLt(a: Cost, b: Cost) {
    a.Fin? && (b.Inf? || a.value < b.value)
  }

  /** A route: `[None]` for the node itself, `[-1]` for unreachable, else the next hop first. */
  type Route = seq<Option<int>>

  datatype Entry = Entry(cost: Cost, route: Route)

  type Table = map<int, Entry>

  const SELF_ENTRY: Entry := Entry(Fin(0), [None])
  const UNREACHABLE: Entry := Entry(Inf, [Some(-1)])

  /** `get_default_routing_table(node)`: the node reaches only itself, at cost 0. */
  function DefaultTable(node: int): (t: Table)
    ensures t.Keys == {node}
    ensures t[node].cost == Fin(0) && t[node].route == [None]
  {
    map[node := SELF_ENTRY]
  }

  /** The JSON message `{"dv": {sender_id, dv_info, time_seq}}`. */
  datatype DvMessage = DvMessage(senderId: int, dvInfo: Table, timeSeq: int)

  // ---------------------------------------------------------------------------
  // What the node knows about its links

  /**
   * `my_neighbor_list`, `neighbors_distance_vector_table`, `my_edge_list` and
   * `neighbors_last_message_time`. The second is iterated with `.items()`,
   * which follows insertion order; keys enter it exactly when they are
   * appended to the list and leave it when they are removed, so its order is
   * the order of `neighbors`.
   */
  datatype Links = Links(neighbors: seq<int>, tables: map<int, Table>, edges: map<int, int>, lastTime: map<int, int>)

  /** The neighbour list has no repeats, and the three dictionaries are keyed by exactly its members. */
  ghost predicate Aligned(l: Links) {
    && Distinct(l.neighbors)
    && (forall nb :: nb in l.neighbors ==> nb in l.tables && nb in l.edges && nb in l.lastTime)
    && (forall nb :: nb in l.tables ==> nb in l.neighbors)
    && (forall nb :: nb in l.edges ==> nb in l.neighbors)
    && (forall nb :: nb in l.lastTime ==> nb in l.neighbors)
  }

  /**
   * The bookkeeping of `link_has_been_updated` (P3/distance_vector_node.py:53-69):
   * latency -1 on a neighbour forgets it everywhere, another latency on a
   * neighbour changes only its link cost, and a new node joins with that
   * cost, a time of 0 and its default table.
   */
  function LinkUpdate(l: Links, neighbor: int, latency: int): (r: Links)
    requires Aligned(l)
    ensures neighbor in r.edges <==> !(neighbor in l.neighbors && latency == -1)
    ensures neighbor in r.edges ==> r.edges[neighbor] == latency
  {
    if neighbor in l.neighbors then
      if latency == -1 then
        Links(RemoveFirst(l.neighbors, neighbor), l.tables - {neighbor}, l.edges - {neighbor}, l.lastTime - {neighbor})
      else
        l.(edges := l.edges[neighbor := latency])
    else
      Links(l.neighbors + [neighbor], l.tables[neighbor := DefaultTable(neighbor)],
            l.edges[neighbor := latency], l.lastTime[neighbor := 0])
  }

  lemma LinkUpdateAligned(l: Links, neighbor: int, latency: int)
    requires Aligned(l)
    ensures Aligned(LinkUpdate(l, neighbor, latency))
  {
    if neighbor in l.neighbors && latency == -1 {
      RemoveFirstMembers(l.neighbors, neighbor);
    }
  }

  /** Every key of `m0` other than `k` is still in `m`, with the same value. */
  predicate KeptExcept<V(==)>(m: map<int, V>, m0: map<int, V>, k: int) {
    forall x :: x in m0 && x != k ==> x in m && m[x] == m0[x]
  }

  /**
   * What a link update leaves behind: a removed neighbour is gone from the
   * list and from every dictionary; otherwise the neighbour is present with
   * the new latency, a new one at the end of the list with time 0 and the
   * default table, and every other neighbour's latency, vector and time
   * are as they were.
   */
  lemma LinkUpdateEffect(l: Links, neighbor: int, latency: int)
    requires Aligned(l)
    ensures var r := LinkUpdate(l, neighbor, latency);
      && KeptExcept(r.edges, l.edges, neighbor)
      && KeptExcept(r.tables, l.tables, neighbor)
      && KeptExcept(r.lastTime, l.lastTime, neighbor)
      && if neighbor in l.neighbors && latency == -1 then
        && r.neighbors == RemoveFirst(l.neighbors, neighbor)
        && (forall nb :: nb in r.neighbors <==> nb in l.neighbors && nb != neighbor)
        && neighbor !in r.tables && neighbor !in r.edges && neighbor !in r.lastTime
      else
        && neighbor in r.edges && r.edges[neighbor] == latency
        && (neighbor in l.neighbors ==> r.neighbors == l.neighbors && r.tables == l.tables && r.lastTime == l.lastTime)
        && (neighbor !in l.neighbors ==>
              && r.neighbors == l.neighbors + [neighbor]
              && r.lastTime[neighbor] == 0 && r.tables[neighbor] == DefaultTable(neighbor))
  {
    if neighbor in l.neighbors && latency == -1 {
      RemoveFirstMembers(l.neighbors, neighbor);
    }
  }

  /**
   * The acceptance test of `process_incoming_routing_message`
   * (P3/distance_vector_node.py:90-93): a vector is stored only when its
   * sender is a neighbour and its time is strictly newer than the stored one.
   */
  predicate Newer(l: Links, sender: int, time: int) {
    sender in l.lastTime && time > l.lastTime[sender]
  }

  function Accept(l: Links, sender: int, time: int, dv: Table): (r: Links)
    ensures r.neighbors == l.neighbors && r.edges == l.edges
    ensures r != l ==> Newer(l, sender, time)
  {
    if Newer(l, sender, time) then
      l.(lastTime := l.lastTime[sender := time], tables := l.tables[sender := dv])
    else l
  }

  lemma AcceptAligned(l: Links, sender: int, time: int, dv: Table)
    requires Aligned(l)
    ensures Aligned(Accept(l, sender, time, dv))
  {
  }

  /** Stored times never go back, and a stale or foreign vector changes nothing. */
  lemma AcceptMonotone(l: Links, sender: int, time: int, dv: Table)
    ensures var r := Accept(l, sender, time, dv);
      && r.lastTime.Keys == l.lastTime.Keys
      && (forall nb :: nb in l.lastTime ==> l.lastTime[nb] <= r.lastTime[nb])
      && (!Newer(l, sender, time) <==> r == l)
  {
    var r := Accept(l, sender, time, dv);
    if Newer(l, sender, time) {
      assert r.lastTime[sender] != l.lastTime[sender];
    }
  }

  // ---------------------------------------------------------------------------
  // The nodes a table covers (get_graph_nodes)

  /** The destinations of the tables of the first `j` neighbours. */
  function KnownNodes(l: Links, j: nat): set<int>
    requires j <= |l.neighbors|
  {
    if j == 0 then {}
    else
      var nb := l.neighbors[j - 1];
      KnownNodes(l, j - 1) + (if nb in l.tables then l.tables[nb].Keys else {})
  }

  /** The node itself and every destination any neighbour advertises. */
  function GraphNodes(self: int, l: Links): set<int> {
    {self} + KnownNodes(l, |l.neighbors|)
  }

  lemma {:induction false} KnownNodesMembers(l: Links, j: nat)
    requires j <= |l.neighbors|
    ensures forall k :: k in KnownNodes(l, j) <==>
      exists i :: 0 <= i < j && l.neighbors[i] in l.tables && k in l.tables[l.neighbors[i]]
  {
    if j > 0 {
      KnownNodesMembers(l, j - 1);
    }
  }

  // ---------------------------------------------------------------------------
  // The Bellman-Ford relaxation over the neighbours, in list order

  /**
   * `neighbor` offers a route to `node` that does not already pass through
   * `self` (P3/distance_vector_node.py:130-132, 211-213).
   */
  predicate Offers(self: int, node: int, l: Links, neighbor: int) {
    neighbor in l.tables && node in l.tables[neighbor] && neighbor in l.edges
    && Some(self) !in l.tables[neighbor][node].route
  }

  /** The route through `neighbor`: its cost plus the link, and the neighbour prepended. */
  function Via(node: int, l: Links, neighbor: int): Entry
    requires neighbor in l.tables && node in l.tables[neighbor] && neighbor in l.edges
  {
    var e := l.tables[neighbor][node];
    Entry(AddCost(e.cost, l.edges[neighbor]), [Some(neighbor)] + e.route)
  }

  /** Does `alt` replace the best so far: `<` in `recompute_dv_table`, `<=` in `handle_dv_link_update`. */
  predicate Replaces(alt: Cost, best: Cost, strict: bool) {
    if strict then CostLt(alt, best) else CostLe(alt, best)
  }

  /** The best entry for `node` after scanning the first `j` neighbours, starting from `init`. */
  function Relax(self: int, node: int, l: Links, strict: bool, j: nat, init: Entry): (r: Entry)
    requires j <= |l.neighbors|
    ensures (forall i :: 0 <= i < j ==> !Offers(self, node, l, l.neighbors[i])) ==> r == init
  {
    if j == 0 then init
    else
      var best := Relax(self, node, l, strict, j - 1, init);
      var nb := l.neighbors[j - 1];
      if Offers(self, node, l, nb) && Replaces(Via(node, l, nb).cost, best.cost, strict) then Via(node, l, nb)
      else best
  }

  lemma RelaxStep(self: int, node: int, l: Links, strict: bool, j: nat, init: Entry)
    requires j < |l.neighbors|
    ensures var best := Relax(self, node, l, strict, j, init);
      var nb := l.neighbors[j];
      Relax(self, node, l, strict, j + 1, init)
        == if Offers(self, node, l, nb) && Replaces(Via(node, l, nb).cost, best.cost, strict) then Via(node, l, nb) else best
  {
    var m := j + 1;
    assert m - 1 == j;
  }

  /** The result costs no more than the start and than any route a scanned neighbour offers. */
  lemma {:induction false} RelaxMinimal(self: int, node: int, l: Links, strict: bool, j: nat, init: Entry)
    requires j <= |l.neighbors|
    ensures CostLe(Relax(self, node, l, strict, j, init).cost, init.cost)
    ensures forall i :: 0 <= i < j && Offers(self, node, l, l.neighbors[i]) ==>
      CostLe(Relax(self, node, l, strict, j, init).cost, Via(node, l, l.neighbors[i]).cost)
  {
    if j > 0 {
      RelaxMinimal(self, node, l, strict, j - 1, init);
    }
  }

  /** The result is the start, or exactly the route some scanned neighbour offers. */
  lemma {:induction false} RelaxAchieved(self: int, node: int, l: Links, strict: bool, j: nat, init: Entry)
    requires j <= |l.neighbors|
    ensures var r := Relax(self, node, l, strict, j, init);
      r == init || exists i :: 0 <= i < j && Offers(self, node, l, l.neighbors[i]) && r == Via(node, l, l.neighbors[i])
  {
    if j > 0 {
      RelaxAchieved(self, node, l, strict, j - 1, init);
    }
  }

  /**
   * With `<`, among neighbours offering the minimal cost the first one wins,
   * provided it beats the start.
   */
  lemma {:induction false} RelaxStrictFirst(self: int, node: int, l: Links, j: nat, init: Entry, i: nat)
    requires j <= |l.neighbors| && i < j && Offers(self, node, l, l.neighbors[i])
    requires CostLt(Via(node, l, l.neighbors[i]).cost, init.cost)
    requires forall i' :: 0 <= i' < j && Offers(self, node, l, l.neighbors[i']) ==>
      CostLe(Via(node, l, l.neighbors[i]).cost, Via(node, l, l.neighbors[i']).cost)
    requires forall i' :: 0 <= i' < i && Offers(self, node, l, l.neighbors[i']) ==>
      Via(node, l, l.neighbors[i']).cost != Via(node, l, l.neighbors[i]).cost
    ensures Relax(self, node, l, true, j, init) == Via(node, l, l.neighbors[i])
  {
    var v := Via(node, l, l.neighbors[i]);
    if j - 1 > i {
      RelaxStrictFirst(self, node, l, j - 1, init, i);
    } else {
      RelaxMinimal(self, node, l, true, j - 1, init);
      RelaxAchieved(self, node, l, true, j - 1, init);
    }
  }

  /**
   * With `<=`, among neighbours offering the minimal cost the last one wins,
   * provided it is no worse than the start.
   */
  lemma {:induction false} RelaxLooseLast(self: int, node: int, l: Links, j: nat, init: Entry, i: nat)
    requires j <= |l.neighbors| && i < j && Offers(self, node, l, l.neighbors[i])
    requires CostLe(Via(node, l, l.neighbors[i]).cost, init.cost)
    requires forall i' :: 0 <= i' < j && Offers(self, node, l, l.neighbors[i']) ==>
      CostLe(Via(node, l, l.neighbors[i]).cost, Via(node, l, l.neighbors[i']).cost)
    requires forall i' :: i < i' < j && Offers(self, node, l, l.neighbors[i']) ==>
      Via(node, l, l.neighbors[i']).cost != Via(node, l, l.neighbors[i]).cost
    ensures Relax(self, node, l, false, j, init) == Via(node, l, l.neighbors[i])
  {
    if j - 1 > i {
      RelaxLooseLast(self, node, l, j - 1, init, i);
    } else {
      RelaxMinimal(self, node, l, false, j - 1, init);
      RelaxAchieved(self, node, l, false, j - 1, init);
    }
  }

  // ---------------------------------------------------------------------------
  // The two recomputations and the broadcast

  /** An entry of `recompute_dv_table` (P3/distance_vector_node.py:198-222). */
  function RecomputedEntry(self: int, node: int, l: Links): Entry {
    if node == self then SELF_ENTRY else Relax(self, node, l, true, |l.neighbors|, UNREACHABLE)
  }

  /** An entry of `handle_dv_link_update` (P3/distance_vector_node.py:118-138): the node itself is relaxed too. */
  function HandledEntry(self: int, node: int, l: Links): Entry {
    Relax(self, node, l, false, |l.neighbors|, if node == self then SELF_ENTRY else UNREACHABLE)
  }

  function RecomputedTable(self: int, l: Links): Table {
    map node | node in GraphNodes(self, l) :: RecomputedEntry(self, node, l)
  }

  function HandledTable(self: int, l: Links): Table {
    map node | node in GraphNodes(self, l) :: HandledEntry(self, node, l)
  }

  /** Proof aid: a table filled node by node with the handled entries is `HandledTable`. */
  lemma HandledTableFilled(self: int, l: Links, nodes: seq<int>, temp: Table)
    requires forall n :: n in nodes <==> n in GraphNodes(self, l)
    requires forall n :: n in temp <==> n == self || n in nodes
    requires forall n :: n in nodes ==> temp[n] == HandledEntry(self, n, l)
    ensures temp == HandledTable(self, l)
  {
    var t := HandledTable(self, l);
    assert self in GraphNodes(self, l);
    forall n
      ensures n in temp <==> n in t
    {
    }
    assert temp.Keys == t.Keys;
    forall n | n in t
      ensures temp[n] == t[n]
    {
    }
  }

  /**
   * What `recompute_dv_table` makes of a node: itself at cost 0, otherwise the
   * cheapest route any neighbour offers, or "unreachable" when none does.
   */
  lemma RecomputedOptimal(self: int, l: Links, node: int)
    requires node in GraphNodes(self, l)
    ensures node in RecomputedTable(self, l)
    ensures node == self ==> RecomputedTable(self, l)[node] == SELF_ENTRY
    ensures node != self ==>
      var e := RecomputedTable(self, l)[node];
      && (forall nb :: nb in l.neighbors && Offers(self, node, l, nb) ==> CostLe(e.cost, Via(node, l, nb).cost))
      && (e == UNREACHABLE || exists nb :: nb in l.neighbors && Offers(self, node, l, nb) && e == Via(node, l, nb))
      && ((forall nb :: nb in l.neighbors ==> !Offers(self, node, l, nb)) ==> e == UNREACHABLE)
  {
    if node != self {
      var n := |l.neighbors|;
      RelaxMinimal(self, node, l, true, n, UNREACHABLE);
      RelaxAchieved(self, node, l, true, n, UNREACHABLE);
      var e := Relax(self, node, l, true, n, UNREACHABLE);
      forall nb | nb in l.neighbors && Offers(self, node, l, nb) ensures CostLe(e.cost, Via(node, l, nb).cost) {
        var i :| 0 <= i < n && l.neighbors[i] == nb;
      }
    }
  }

  /**
   * The `<=` of `handle_dv_link_update` also takes a neighbour whose own cost
   * is infinite: the node then keeps cost `inf` but routes through that
   * neighbour, where `recompute_dv_table` would report it unreachable.
   */
  lemma HandledTakesInfiniteRoute(self: int, l: Links, node: int, nb: int)
    requires node != self && l.neighbors == [nb] && nb in l.edges && nb in l.tables
    requires node in l.tables[nb] && l.tables[nb][node] == UNREACHABLE && self != -1
    ensures node in HandledTable(self, l) && HandledTable(self, l)[node] == Entry(Inf, [Some(nb), Some(-1)])
    ensures node in RecomputedTable(self, l) && RecomputedTable(self, l)[node] == UNREACHABLE
  {
    assert node in KnownNodes(l, 1);
    assert Offers(self, node, l, nb);
    RelaxStep(self, node, l, false, 0, UNREACHABLE);
    RelaxStep(self, node, l, true, 0, UNREACHABLE);
    assert [Some(nb)] + [Some(-1)] == [Some(nb), Some(-1)];
  }

  /** `my_distance_vector_table`, `curr_seq_number` and the broadcasts so far. */
  datatype Advert = Advert(table: Table, seqNumber: int, outbox: seq<DvMessage>)

  /**
   * `check_dv_and_update_neighbors` (P3/distance_vector_node.py:167-184): a
   * changed table is adopted, numbered with the next sequence number and
   * broadcast; an equal one changes nothing.
   */
  function Announce(a: Advert, self: int, recomputed: Table): (r: Advert)
    ensures |a.outbox| <= |r.outbox| <= |a.outbox| + 1 && r.outbox[..|a.outbox|] == a.outbox
    ensures r.seqNumber >= a.seqNumber
  {
    if a.table != recomputed then
      Advert(recomputed, a.seqNumber + 1, a.outbox + [DvMessage(self, recomputed, a.seqNumber + 1)])
    else a
  }

  /** One broadcast per change, carrying the new table and the incremented number; none otherwise. */
  lemma AnnounceCounts(a: Advert, self: int, recomputed: Table)
    ensures var r := Announce(a, self, recomputed);
      && r.table == recomputed
      && r.seqNumber - a.seqNumber == |r.outbox| - |a.outbox|
      && (a.table == recomputed <==> r.seqNumber == a.seqNumber)
      && (a.table != recomputed ==>
            r.seqNumber == a.seqNumber + 1 && r.outbox[|r.outbox| - 1] == DvMessage(self, recomputed, r.seqNumber))
  {
  }

  /** Announcing the same table twice in a row is the same as announcing it once. */
  lemma AnnounceIdempotent(a: Advert, self: int, recomputed: Table)
    ensures Announce(Announce(a, self, recomputed), self, recomputed) == Announce(a, self, recomputed)
  {
  }

  /**
   * `get_next_hop`: the first element of the stored route, as `int`. A missing
   * destination raises KeyError, and the node's own route `[None]` makes
   * `int(None)` raise TypeError.
   */
  function NextHop(table: Table, destination: int): (r: Result<int>)
    ensures r.Ok? <==> destination in table && |table[destination].route| > 0 && table[destination].route[0].Some?
    ensures r.Ok? ==> table[destination].route[0] == Some(r.value)
    ensures !r.Ok? ==> r == Raised(KeyError) || r == Raised(IndexError) || r == Raised(TypeError)
  {
    if destination !in table then Raised(KeyError)
    else
      var route := table[destination].route;
      if |route| == 0 then Raised(IndexError)
      else match route[0]
        case None => Raised(TypeError)
        case Some(hop) => Ok(hop)
  }

  /**
   * In a recomputed table, a destination no neighbour offers a route to has
   * next hop -1; any other destination's next hop is a neighbour offering a
   * cheapest route; asking for the node itself raises.
   */
  lemma NextHopRecomputed(self: int, l: Links, node: int)
    requires node in GraphNodes(self, l)
    ensures var hop := NextHop(RecomputedTable(self, l), node);
      && (node == self ==> hop == Raised(TypeError))
      && (node != self ==> hop.Ok?)
      && (node != self && hop.value != -1 ==>
            hop.value in l.neighbors && Offers(self, node, l, hop.value)
            && forall nb :: nb in l.neighbors && Offers(self, node, l, nb) ==>
                 CostLe(Via(node, l, hop.value).cost, Via(node, l, nb).cost))
      && (node != self && (forall nb :: nb in l.neighbors ==> !Offers(self, node, l, nb)) ==> hop == Ok(-1))
  {
    RecomputedOptimal(self, l, node);
    if node != self {
      var e := RecomputedTable(self, l)[node];
      if e != UNREACHABLE {
        var nb :| nb in l.neighbors && Offers(self, node, l, nb) && e == Via(node, l, nb);
        assert e.route[0] == Some(nb);
      }
    }
  }

  // ---------------------------------------------------------------------------
  // The node

  class DistanceVectorNode {
    const id: int
    /** `my_distance_vector_table` */
    var table: Table
    /** `neighbors_distance_vector_table` */
    var neighborTables: map<int, Table>
    /** `my_neighbor_list` */
    var neighbors: seq<int>
    /** `my_edge_list` */
    var edges: map<int, int>
    /** `curr_seq_number` */
    var seqNumber: int
    /** `neighbors_last_message_time` */
    var lastTime: map<int, int>
    /** Every message handed to `send_to_neighbors`, in order. */
    var outbox: seq<DvMessage>

    function LinksOf(): Links
      reads this`neighbors, this`neighborTables, this`edges, this`lastTime
    {
      Links(neighbors, neighborTables, edges, lastTime)
    }

    function AdvertOf(): Advert
      reads this`table, this`seqNumber, this`outbox
    {
      Advert(table, seqNumber, outbox)
    }

    ghost predicate Valid()
      reads this`neighbors, this`neighborTables, this`edges, this`lastTime
    {
      Aligned(LinksOf())
    }

    constructor (nodeId: int)
      ensures id == nodeId && Valid()
      ensures table == DefaultTable(nodeId) && seqNumber == 0 && outbox == []
      ensures neighbors == [] && neighborTables == map[] && edges == map[] && lastTime == map[]
    {
      id := nodeId;
      table := DefaultTable(nodeId);
      neighborTables := map[];
      neighbors := [];
      edges := map[];
      seqNumber := 0;
      lastTime := map[];
      outbox := [];
    }

    /** `link_has_been_updated(neighbor, latency)`. */
    method LinkHasBeenUpdated(neighbor: int, latency: int)
      requires Valid()
      modifies this
      ensures Valid()
      ensures LinksOf() == LinkUpdate(old(LinksOf()), neighbor, latency)
      ensures AdvertOf() == Announce(old(AdvertOf()), id, HandledTable(id, LinksOf()))
    {
      LinkUpdateAligned(LinksOf(), neighbor, latency);
      if neighbor in neighbors {
        if latency == -1 {
          neighbors := RemoveFirst(neighbors, neighbor);
          neighborTables := neighborTables - {neighbor};
          lastTime := lastTime - {neighbor};
          edges := edges - {neighbor};
        } else {
          edges := edges[neighbor := latency];
        }
      } else {
        neighbors := neighbors + [neighbor];
        lastTime := lastTime[neighbor := 0];
        edges := edges[neighbor := latency];
        neighborTables := neighborTables[neighbor := DefaultTable(neighbor)];
      }
      HandleDvLinkUpdate();
    }

    /** `process_incoming_routing_message` on the decoded message. */
    method ProcessIncomingRoutingMessage(sender: int, time: int, dv: Table)
      requires Valid()
      modifies this
      ensures Valid()
      ensures LinksOf() == Accept(old(LinksOf()), sender, time, dv)
      ensures AdvertOf() == if Newer(old(LinksOf()), sender, time)
        then Announce(old(AdvertOf()), id, RecomputedTable(id, LinksOf()))
        else old(AdvertOf())
    {
      AcceptAligned(LinksOf(), sender, time, dv);
      if sender in lastTime {
        if time > lastTime[sender] {
          lastTime := lastTime[sender := time];
          neighborTables := neighborTables[sender := dv];
          RecomputeDvTable();
        }
      }
    }

    /**
     * `get_graph_nodes`: the node itself first, then each neighbour's
     * destinations not seen yet. A neighbour's table is a dictionary whose
     * order is not modelled; any order gives the same set.
     */
    method GetGraphNodes() returns (temp: Table, nodes: seq<int>)
      requires Valid()
      ensures temp == DefaultTable(id)
      ensures |nodes| > 0 && nodes[0] == id && Distinct(nodes)
      ensures forall k :: k in nodes <==> k in GraphNodes(id, LinksOf())
    {
      temp := map[id := SELF_ENTRY];
      nodes := [id];
      var i := 0;
      while i < |neighbors|
        invariant 0 <= i <= |neighbors|
        invariant |nodes| > 0 && nodes[0] == id && Distinct(nodes)
        invariant forall k :: k in nodes <==> k == id || k in KnownNodes(LinksOf(), i)
      {
        var neighbor := neighbors[i];
        var keys := neighborTables[neighbor].Keys;
        var pending := keys;
        while pending != {}
          invariant pending <= keys
          invariant |nodes| > 0 && nodes[0] == id && Distinct(nodes)
          invariant forall k :: k in nodes <==> k == id || k in KnownNodes(LinksOf(), i) || (k in keys && k !in pending)
          decreases pending
        {
          var k :| k in pending;
          if k !in nodes {
            nodes := nodes + [k];
          }
          pending := pending - {k};
        }
        i := i + 1;
      }
    }

    /** The inner loop over `neighbors_distance_vector_table.items()` for one destination. */
    method BestRoute(node: int, strict: bool, init: Entry) returns (best: Entry)
      requires Valid()
      ensures best == Relax(id, node, LinksOf(), strict, |neighbors|, init)
    {
      best := init;
      var j := 0;
      while j < |neighbors|
        invariant 0 <= j <= |neighbors|
        invariant best == Relax(id, node, LinksOf(), strict, j, init)
      {
        RelaxStep(id, node, LinksOf(), strict, j, init);
        var neighbor := neighbors[j];
        var vector := neighborTables[neighbor];
        // recompute_dv_table tests `neighbor in my_edge_list`; handle_dv_link_update
        // indexes it directly, which the alignment of the dictionaries makes safe
        if node in vector && neighbor in edges {
          var route := vector[node].route;
          if Some(id) !in route {
            var alt := AddCost(vector[node].cost, edges[neighbor]);
            if Replaces(alt, best.cost, strict) {
              best := Entry(alt, [Some(neighbor)] + route);
            }
          }
        }
        j := j + 1;
      }
    }

    /** `handle_dv_link_update`. */
    method HandleDvLinkUpdate()
      requires Valid()
      modifies this`table, this`seqNumber, this`outbox
      ensures AdvertOf() == Announce(old(AdvertOf()), id, HandledTable(id, LinksOf()))
    {
      var temp, nodes := GetGraphNodes();
      var i := 0;
      while i < |nodes|
        invariant 0 <= i <= |nodes|
        invariant forall n :: n in temp <==> n == id || n in nodes[..i]
        invariant forall n :: n in nodes[..i] ==> temp[n] == HandledEntry(id, n, LinksOf())
        invariant AdvertOf() == old(AdvertOf())
      {
        var node := nodes[i];
        var best := BestRoute(node, false, if id != node then UNREACHABLE else SELF_ENTRY);
        temp := temp[node := best];
        i := i + 1;
      }
      assert nodes[..i] == nodes;
      HandledTableFilled(id, LinksOf(), nodes, temp);
      CheckDvAndUpdateNeighbors(temp);
    }

    /** `recompute_dv_table`. */
    method RecomputeDvTable()
      requires Valid()
      modifies this`table, this`seqNumber, this`outbox
      ensures AdvertOf() == Announce(old(AdvertOf()), id, RecomputedTable(id, LinksOf()))
    {
      var temp, nodes := GetGraphNodes();
      var i := 0;
      while i < |nodes|
        invariant 0 <= i <= |nodes|
        invariant forall n :: n in temp <==> n == id || n in nodes[..i]
        invariant forall n :: n in nodes[..i] ==> temp[n] == RecomputedEntry(id, n, LinksOf())
        invariant AdvertOf() == old(AdvertOf())
      {
        var node := nodes[i];
        var best;
        if id != node {
          best := BestRoute(node, true, UNREACHABLE);
        } else {
          best := SELF_ENTRY;
        }
        temp := temp[node := best];
        i := i + 1;
      }
      assert nodes[..i] == nodes;
      assert temp == RecomputedTable(id, LinksOf());
      CheckDvAndUpdateNeighbors(temp);
    }

    /** `check_dv_and_update_neighbors(recomputed)`. */
    method CheckDvAndUpdateNeighbors(recomputed: Table)
      modifies this`table, this`seqNumber, this`outbox
      ensures AdvertOf() == Announce(old(AdvertOf()), id, recomputed)
    {
      if table != recomputed {
        seqNumber := seqNumber + 1;
        table := recomputed;
        outbox := outbox + [DvMessage(id, recomputed, seqNumber)];
      }
    }
  }
}
