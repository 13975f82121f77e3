/**
 * A link-state routing node (P3/link_state_node.py).
 *
 * The node keeps the list of its live neighbours and a link-state database:
 * for every link it has heard of, keyed by the unordered pair of its ends,
 * the latest cost and the time that cost was set. When one of its own links
 * changes it advertises the whole database; when it hears of a link it did
 * not know, or of a newer cost for one it did, it floods that single entry
 * on. Routes come from Dijkstra's algorithm over the links of non-negative
 * cost.
 */
module LinkState {
  import opened Base
  import opened LinkPaths

  // ---------------------------------------------------------------------------
  // The database as a Python dict: insertion order and contents

  /** `my_routing_table`: the links in the order they were first inserted, and what is known of each. */
  datatype Table = Table(keys: seq<Pair>, info: Lsdb)

  const EMPTY: Table := Table([], map[])

  ghost predicate TableOk(t: Table) {
    && (forall i, j :: 0 <= i < j < |t.keys| ==> t.keys[i] != t.keys[j])
    && (forall i :: 0 <= i < |t.keys| ==> t.keys[i] in t.info)
    && (forall k :: k in t.info ==> k in t.keys)
    && WellFormed(t.info)
  }

  /** `table[k] = v`: a new key goes last, a known key keeps its place. */
  function Put(t: Table, k: Pair, v: LinkInfo): (r: Table)
    ensures r.info == t.info[k := v]
    ensures |t.keys| <= |r.keys| && r.keys[..|t.keys|] == t.keys
  {
    if k in t.info then Table(t.keys, t.info[k := v]) else Table(t.keys + [k], t.info[k := v])
  }

  /** Storing a link between two different nodes keeps the dict well formed. */
  lemma PutOk(t: Table, k: Pair, v: LinkInfo)
    requires TableOk(t) && k.lo < k.hi
    ensures TableOk(Put(t, k, v))
  {
    var r := Put(t, k, v);
    if k !in t.info {
      forall i | 0 <= i < |r.keys| ensures r.keys[i] in r.info {
        if i < |t.keys| {
          assert r.keys[i] == t.keys[i];
        }
      }
      assert r.keys[|t.keys|] == k;
    }
  }

  // ---------------------------------------------------------------------------
  // Messages

  /**
   * One element of a message's `"lsdb"` list: `sender_id`, `link_info` as
   * `[node1, node2]`, `link_cost` and `time_seq`.
   */
  datatype Lsa = Lsa(senderId: int, node1: int, node2: int, cost: int, time: int)

  /** A `send_to_neighbors` or a `send_to_neighbor` call, with the `"lsdb"` list it sends. */
  datatype Send = ToNeighbors(lsdb: seq<Lsa>) | ToNeighbor(neighbor: int, lsdb: seq<Lsa>)

  /**
   * The entry the node writes for link `k`. Unpacking a frozenset yields its
   * ends in an order Python does not fix; the smaller node goes first here.
   */
  function Announce(id: int, k: Pair, v: LinkInfo): Lsa {
    Lsa(id, k.lo, k.hi, v.cost, v.time)
  }

  /** The message `link_has_been_updated` sends: one entry per database entry, in dict order. */
  function Advertisement(id: int, keys: seq<Pair>, info: Lsdb): seq<Lsa>
    requires forall i :: 0 <= i < |keys| ==> keys[i] in info
  {
    if |keys| == 0 then []
    else Advertisement(id, keys[..|keys| - 1], info) + [Announce(id, keys[|keys| - 1], info[keys[|keys| - 1]])]
  }

  /**
   * The advertisement lists exactly the database: entry `i` is the `i`-th
   * link with its stored cost and time, signed by the node.
   */
  lemma {:induction false} AdvertisementLists(id: int, keys: seq<Pair>, info: Lsdb)
    requires forall i :: 0 <= i < |keys| ==> keys[i] in info
    requires WellFormed(info)
    ensures var r := Advertisement(id, keys, info);
      && |r| == |keys|
      && forall i :: 0 <= i < |r| ==>
        r[i].senderId == id && Link(r[i].node1, r[i].node2) == keys[i]
        && info[keys[i]] == LinkInfo(r[i].cost, r[i].time)
  {
    if |keys| > 0 {
      var n := |keys| - 1;
      AdvertisementLists(id, keys[..n], info);
      var r := Advertisement(id, keys, info);
      forall i | 0 <= i < |r|
        ensures r[i].senderId == id && Link(r[i].node1, r[i].node2) == keys[i] && info[keys[i]] == LinkInfo(r[i].cost, r[i].time)
      {
        if i < n {
          assert r[i] == Advertisement(id, keys[..n], info)[i];
          assert keys[..n][i] == keys[i];
        }
      }
    }
  }

  /** `send_to_neighbor` to every neighbour except the one the entry came from, in list order. */
  function Forward(neighbors: seq<int>, sender: int, msg: seq<Lsa>): (r: seq<Send>)
    ensures |r| <= |neighbors|
    ensures sender !in neighbors ==> |r| == |neighbors|
  {
    if |neighbors| == 0 then []
    else
      var nb := neighbors[|neighbors| - 1];
      Forward(neighbors[..|neighbors| - 1], sender, msg) + (if nb != sender then [ToNeighbor(nb, msg)] else [])
  }

  /** A forwarded entry reaches every neighbour but its sender, and nobody else. */
  lemma {:induction false} ForwardTargets(neighbors: seq<int>, sender: int, msg: seq<Lsa>)
    ensures var r := Forward(neighbors, sender, msg);
      && (forall i :: 0 <= i < |r| ==> r[i].ToNeighbor? && r[i].lsdb == msg && r[i].neighbor in neighbors && r[i].neighbor != sender)
      && (forall nb :: nb in neighbors && nb != sender ==> ToNeighbor(nb, msg) in r)
  {
    if |neighbors| > 0 {
      var n := |neighbors| - 1;
      var init := neighbors[..n];
      ForwardTargets(init, sender, msg);
      var r := Forward(neighbors, sender, msg);
      var r0 := Forward(init, sender, msg);
      assert r[..|r0|] == r0;
      forall i | 0 <= i < |r|
        ensures r[i].ToNeighbor? && r[i].lsdb == msg && r[i].neighbor in neighbors && r[i].neighbor != sender
      {
        if i < |r0| {
          assert r[i] == r0[i];
          assert r0[i].neighbor in init;
        }
      }
      forall nb | nb in neighbors && nb != sender ensures ToNeighbor(nb, msg) in r {
        if nb != neighbors[n] {
          var k :| 0 <= k < |neighbors| && neighbors[k] == nb;
          assert init[k] == nb;
          assert ToNeighbor(nb, msg) in r0;
        } else {
          assert r[|r| - 1] == ToNeighbor(nb, msg);
        }
      }
    }
  }

  // ---------------------------------------------------------------------------
  // process_incoming_routing_message

  /** The database and everything sent so far. */
  datatype Flood = Flood(table: Table, sent: seq<Send>)

  /** Whether the entry is about one of the node's own links, or is one of its own. */
  predicate OwnEntry(id: int, e: Lsa) {
    e.node1 == id || e.node2 == id || e.senderId == id
  }

  /**
   * One entry of an incoming message: the node's own links and its own
   * entries are skipped; an unknown link is stored and sent to all
   * neighbours; a known link is overwritten only by a strictly newer time,
   * and then forwarded to every neighbour except the entry's sender.
   */
  function Ingest(id: int, neighbors: seq<int>, f: Flood, e: Lsa): (r: Flood)
    ensures r.table.info.Keys == f.table.info.Keys + (if OwnEntry(id, e) then {} else {Link(e.node1, e.node2)})
    ensures |f.sent| <= |r.sent| && r.sent[..|f.sent|] == f.sent
  {
    if OwnEntry(id, e) then f
    else
      var k := Link(e.node1, e.node2);
      var v := LinkInfo(e.cost, e.time);
      var msg := [Announce(id, k, v)];
      if k in f.table.info then
        if f.table.info[k].time < e.time then Flood(Put(f.table, k, v), f.sent + Forward(neighbors, e.senderId, msg))
        else f
      else Flood(Put(f.table, k, v), f.sent + [ToNeighbors(msg)])
  }

  function IngestAll(id: int, neighbors: seq<int>, f: Flood, msgs: seq<Lsa>): (r: Flood)
    ensures f.table.info.Keys <= r.table.info.Keys
    ensures forall k :: k in r.table.info && k !in f.table.info ==>
      exists i :: 0 <= i < |msgs| && !OwnEntry(id, msgs[i]) && Link(msgs[i].node1, msgs[i].node2) == k
  {
    if |msgs| == 0 then f
    else Ingest(id, neighbors, IngestAll(id, neighbors, f, msgs[..|msgs| - 1]), msgs[|msgs| - 1])
  }

  /** Entries naming two different nodes (`frozenset` of one node would not unpack). */
  predicate ProperEntries(msgs: seq<Lsa>) {
    forall i :: 0 <= i < |msgs| ==> msgs[i].node1 != msgs[i].node2
  }

  /** Ingesting keeps the dict well formed and only ever appends to what was sent. */
  lemma IngestOk(id: int, neighbors: seq<int>, f: Flood, e: Lsa)
    requires TableOk(f.table) && e.node1 != e.node2
    ensures TableOk(Ingest(id, neighbors, f, e).table)
    ensures var r := Ingest(id, neighbors, f, e); |f.sent| <= |r.sent| && r.sent[..|f.sent|] == f.sent
  {
    if !OwnEntry(id, e) {
      PutOk(f.table, Link(e.node1, e.node2), LinkInfo(e.cost, e.time));
    }
  }

  /**
   * After an entry about someone else's link, the database holds that link
   * at a time no older than the entry's, with the entry's values whenever
   * the entry was news; no other link changes, and no stored time decreases.
   */
  lemma IngestKeepsNewest(id: int, neighbors: seq<int>, f: Flood, e: Lsa)
    ensures var r := Ingest(id, neighbors, f, e).table.info;
      var k := Link(e.node1, e.node2);
      && (forall l :: l in f.table.info ==> l in r && r[l].time >= f.table.info[l].time)
      && (forall l :: l in r && l != k ==> l in f.table.info && r[l] == f.table.info[l])
      && (!OwnEntry(id, e) ==> k in r && r[k].time >= e.time)
      && (!OwnEntry(id, e) && (k !in f.table.info || f.table.info[k].time < e.time) ==> r[k] == LinkInfo(e.cost, e.time))
  {
  }

  /**
   * The four ways an entry is handled, with the whole database and
   * everything sent: an own entry changes nothing; a known link with an
   * equal or older time changes nothing; a strictly newer time replaces the
   * stored cost and time in place and forwards the single re-signed entry to
   * every neighbour but the sender; an unknown link is added last and its
   * re-signed entry goes to all neighbours.
   */
  lemma IngestEffect(id: int, neighbors: seq<int>, f: Flood, e: Lsa)
    ensures OwnEntry(id, e) ==> Ingest(id, neighbors, f, e) == f
    ensures var k := Link(e.node1, e.node2);
      !OwnEntry(id, e) && k in f.table.info && f.table.info[k].time >= e.time ==> Ingest(id, neighbors, f, e) == f
    ensures var k := Link(e.node1, e.node2);
      var v := LinkInfo(e.cost, e.time);
      var r := Ingest(id, neighbors, f, e);
      !OwnEntry(id, e) && k in f.table.info && f.table.info[k].time < e.time ==>
        && r.table == Table(f.table.keys, f.table.info[k := v])
        && r.sent == f.sent + Forward(neighbors, e.senderId, [Announce(id, k, v)])
    ensures var k := Link(e.node1, e.node2);
      var v := LinkInfo(e.cost, e.time);
      var r := Ingest(id, neighbors, f, e);
      !OwnEntry(id, e) && k !in f.table.info ==>
        && r.table == Table(f.table.keys + [k], f.table.info[k := v])
        && r.sent == f.sent + [ToNeighbors([Announce(id, k, v)])]
  {
  }

  /** The same entry heard twice is news at most once: the repeat changes and sends nothing. */
  lemma DuplicateIgnored(id: int, neighbors: seq<int>, f: Flood, e: Lsa)
    ensures var once := Ingest(id, neighbors, f, e); Ingest(id, neighbors, once, e) == once
  {
  }

  /** Whether the two ends of a link are listed in one order or the other makes no difference. */
  lemma IngestUnordered(id: int, neighbors: seq<int>, f: Flood, e: Lsa)
    ensures Ingest(id, neighbors, f, e) == Ingest(id, neighbors, f, e.(node1 := e.node2, node2 := e.node1))
  {
    assert Link(e.node1, e.node2) == Link(e.node2, e.node1);
  }

  /** Over a whole message, stored times never go back and links are never forgotten. */
  lemma {:induction false} IngestAllMonotone(id: int, neighbors: seq<int>, f: Flood, msgs: seq<Lsa>)
    ensures var r := IngestAll(id, neighbors, f, msgs).table.info;
      forall l :: l in f.table.info ==> l in r && r[l].time >= f.table.info[l].time
  {
    if |msgs| > 0 {
      var mid := IngestAll(id, neighbors, f, msgs[..|msgs| - 1]);
      IngestAllMonotone(id, neighbors, f, msgs[..|msgs| - 1]);
      IngestKeepsNewest(id, neighbors, mid, msgs[|msgs| - 1]);
    }
  }

  /** Every entry of the message leaves its link at least as new as the entry, unless it was the node's own. */
  lemma {:induction false} IngestAllCovers(id: int, neighbors: seq<int>, f: Flood, msgs: seq<Lsa>)
    ensures var r := IngestAll(id, neighbors, f, msgs).table.info;
      forall i :: 0 <= i < |msgs| && !OwnEntry(id, msgs[i]) ==>
        Link(msgs[i].node1, msgs[i].node2) in r && r[Link(msgs[i].node1, msgs[i].node2)].time >= msgs[i].time
  {
    if |msgs| > 0 {
      var n := |msgs| - 1;
      var mid := IngestAll(id, neighbors, f, msgs[..n]);
      IngestAllCovers(id, neighbors, f, msgs[..n]);
      IngestKeepsNewest(id, neighbors, mid, msgs[n]);
      forall i | 0 <= i < n && !OwnEntry(id, msgs[i])
        ensures Link(msgs[i].node1, msgs[i].node2) in mid.table.info
        ensures mid.table.info[Link(msgs[i].node1, msgs[i].node2)].time >= msgs[i].time
      {
        assert msgs[..n][i] == msgs[i];
      }
    }
  }

  /**
   * A node that knows none of the advertised links, hearing another node's
   * advertisement, ends up with that node's database, in the same order.
   */
  lemma AdvertisementRebuilds(author: int, t: Table, id: int, neighbors: seq<int>)
    requires TableOk(t) && author != id
    requires forall k :: k in t.info ==> k.lo != id && k.hi != id
    ensures IngestAll(id, neighbors, Flood(EMPTY, []), Advertisement(author, t.keys, t.info)).table == t
  {
    RebuildPrefix(author, t, id, neighbors, |t.keys|);
    assert t.keys[..|t.keys|] == t.keys;
    RestrictAll(t);
  }

  /** The entries of a consistent table for all of its keys are all of its entries. */
  lemma RestrictAll(t: Table)
    requires TableOk(t)
    ensures Restrict(t.info, t.keys) == t.info
  {
    Restricted(t.info, t.keys);
    assert Restrict(t.info, t.keys).Keys == t.info.Keys;
  }

  /** The entries of `info` for the links `keys`, added in that order. */
  function Restrict(info: Lsdb, keys: seq<Pair>): Lsdb
    requires forall i :: 0 <= i < |keys| ==> keys[i] in info
  {
    if |keys| == 0 then map[] else Restrict(info, keys[..|keys| - 1])[keys[|keys| - 1] := info[keys[|keys| - 1]]]
  }

  lemma {:induction false} Restricted(info: Lsdb, keys: seq<Pair>)
    requires forall i :: 0 <= i < |keys| ==> keys[i] in info
    ensures forall k :: k in Restrict(info, keys) <==> k in keys
    ensures forall k :: k in Restrict(info, keys) ==> Restrict(info, keys)[k] == info[k]
  {
    if |keys| > 0 {
      var pre := keys[..|keys| - 1];
      Restricted(info, pre);
      assert forall k :: k in keys <==> k in pre || k == keys[|keys| - 1];
    }
  }

  lemma {:induction false} RebuildPrefix(author: int, t: Table, id: int, neighbors: seq<int>, m: nat)
    requires TableOk(t) && author != id && m <= |t.keys|
    requires forall k :: k in t.info ==> k.lo != id && k.hi != id
    ensures IngestAll(id, neighbors, Flood(EMPTY, []), Advertisement(author, t.keys[..m], t.info)).table
      == Table(t.keys[..m], Restrict(t.info, t.keys[..m]))
  {
    if m > 0 {
      var keys := t.keys[..m];
      var pre := t.keys[..m - 1];
      assert keys[..m - 1] == pre;
      RebuildPrefix(author, t, id, neighbors, m - 1);
      var k := t.keys[m - 1];
      var adv := Advertisement(author, keys, t.info);
      var e := Announce(author, k, t.info[k]);
      assert adv == Advertisement(author, pre, t.info) + [e];
      assert adv[..|adv| - 1] == Advertisement(author, pre, t.info);
      var mid := IngestAll(id, neighbors, Flood(EMPTY, []), Advertisement(author, pre, t.info));
      assert k !in pre by {
        forall i | 0 <= i < m - 1 ensures pre[i] != k {
          assert pre[i] == t.keys[i];
        }
      }
      Restricted(t.info, pre);
      RebuildStep(id, neighbors, mid, e, pre, Restrict(t.info, pre));
      SliceSnoc(t.keys, m);
    }
  }

  lemma SliceSnoc<T>(s: seq<T>, m: nat)
    requires 0 < m <= |s|
    ensures s[..m] == s[..m - 1] + [s[m - 1]]
  {
  }

  /** Hearing of a link the node does not know appends it to the dict. */
  lemma RebuildStep(id: int, neighbors: seq<int>, mid: Flood, e: Lsa, pre: seq<Pair>, known: Lsdb)
    requires mid.table == Table(pre, known) && !OwnEntry(id, e) && e.node1 <= e.node2
    requires Pair(e.node1, e.node2) !in known
    ensures Ingest(id, neighbors, mid, e).table == Table(pre + [Pair(e.node1, e.node2)], known[Pair(e.node1, e.node2) := LinkInfo(e.cost, e.time)])
  {
  }

  // ---------------------------------------------------------------------------
  // link_has_been_updated

  /**
   * The neighbour list after a link report: a known neighbour reported at -1
   * is removed, any other report of a known neighbour keeps the list, and an
   * unknown neighbour is appended whatever its latency.
   */
  function UpdatedNeighbors(neighbors: seq<int>, neighbor: int, latency: int): seq<int> {
    if neighbor in neighbors then
      if latency == -1 then RemoveFirst(neighbors, neighbor) else neighbors
    else neighbors + [neighbor]
  }

  /** What the node relies on: a sound dict, and a stored link to each live neighbour. */
  ghost predicate NodeOk(id: int, neighbors: seq<int>, t: Table) {
    && TableOk(t)
    && Distinct(neighbors)
    && forall nb :: nb in neighbors ==> nb != id && Link(id, nb) in t.info
  }

  /**
   * A link report keeps the node sound; afterwards the neighbour is listed
   * unless it was a known neighbour reported at -1, and the link holds the
   * reported cost and time (-1 included: the entry is never deleted).
   */
  lemma LinkUpdateOk(id: int, neighbors: seq<int>, t: Table, neighbor: int, latency: int, now: int)
    requires NodeOk(id, neighbors, t) && neighbor != id
    ensures var ns := UpdatedNeighbors(neighbors, neighbor, latency);
      var t' := Put(t, Link(id, neighbor), LinkInfo(latency, now));
      && NodeOk(id, ns, t')
      && (neighbor in ns <==> !(neighbor in neighbors && latency == -1))
      && (forall nb :: nb != neighbor ==> (nb in ns <==> nb in neighbors))
      && t'.info[Link(id, neighbor)] == LinkInfo(latency, now)
  {
    PutOk(t, Link(id, neighbor), LinkInfo(latency, now));
    if neighbor in neighbors && latency == -1 {
      RemoveFirstMembers(neighbors, neighbor);
    } else if neighbor !in neighbors {
      var ns := neighbors + [neighbor];
      forall i, j | 0 <= i < j < |ns| ensures ns[i] != ns[j] {
        if j == |neighbors| {
          assert ns[i] == neighbors[i];
        }
      }
    }
  }

  // ---------------------------------------------------------------------------
  // run_dijkstra

  /** What `run_dijkstra` returns when it reaches the destination: `(prev, link_cost)`. */
  datatype Found = Found(path: seq<int>, cost: int)

  /** Tentative distances: the source's is 0 and none is negative. */
  ghost predicate DistOk(src: int, dist: map<int, int>) {
    src in dist && dist[src] == 0 && forall x :: x in dist ==> dist[x] >= 0
  }

  /** No distance has been forgotten or raised since `dist0`. */
  ghost predicate Lowered(dist0: map<int, int>, dist: map<int, int>) {
    forall x :: x in dist0 ==> x in dist && dist[x] <= dist0[x]
  }

  /** The frontier invariant, except that node `u` may be waiting only on its own expansion at cost `c`. */
  ghost predicate Pending(db: Lsdb, q: seq<Item>, dist: map<int, int>, exp0: set<int>, u: int, c: int) {
    forall x :: x in dist ==> Queued(q, x, dist[x]) || (x in exp0 && Relaxed(db, dist, x)) || (x == u && c == dist[x])
  }

  /** The first `i` links of the dict have been relaxed at node `u`, reached at cost `c`. */
  ghost predicate Scanned(t: Table, u: int, c: int, i: nat, dist: map<int, int>) {
    forall m :: 0 <= m < i && m < |t.keys| && t.keys[m] in t.info && t.info[t.keys[m]].cost >= 0 && Across(t.keys[m], u).Some? ==>
      Across(t.keys[m], u).value in dist && dist[Across(t.keys[m], u).value] <= c + t.info[t.keys[m]].cost
  }

  /** The expansion so far has given a new node a distance, lowered one, or changed nothing at all. */
  ghost predicate Progress(dist0: map<int, int>, vs: seq<int>, rest: seq<Item>, dist: map<int, int>, q: seq<Item>) {
    Unseen(dist, vs) < Unseen(dist0, vs)
    || (Unseen(dist, vs) == Unseen(dist0, vs) && (SumAt(dist, vs) < SumAt(dist0, vs) || (dist == dist0 && q == rest)))
  }

  /**
   * The invariant of the `for node_pair, entry in ...items()` loop after `i`
   * links, while expanding the candidate `it` popped from the queue: `rest`
   * and `dist0` are the queue and distances at the start of the expansion,
   * `q` and `dist` the current ones.
   */
  ghost predicate ScanInv(t: Table, src: int, it: Item, i: nat, rest: seq<Item>, dist0: map<int, int>, exp0: set<int>,
                          vs: seq<int>, q: seq<Item>, dist: map<int, int>)
  {
    && TableOk(t) && i <= |t.keys|
    && ItemOk(t.info, src, it) && it.id in dist0 && dist0[it.id] <= it.cost
    && DistOk(src, dist) && Lowered(dist0, dist)
    && it.id in dist && dist[it.id] == dist0[it.id]
    && ItemsOk(t.info, src, q, dist)
    && Pending(t.info, q, dist, exp0, it.id, it.cost)
    && Scanned(t, it.id, it.cost, i, dist)
    && Progress(dist0, vs, rest, dist, q)
  }

  lemma StartItems(db: Lsdb, src: int, q0: seq<Item>, j: nat, dist0: map<int, int>)
    requires ItemsOk(db, src, q0, dist0) && j < |q0|
    ensures ItemsOk(db, src, q0[..j] + q0[j + 1..], dist0)
  {
    var rest := q0[..j] + q0[j + 1..];
    forall m | 0 <= m < |rest| ensures rest[m] == q0[if m < j then m else m + 1] {
    }
  }

  lemma StartPending(db: Lsdb, q0: seq<Item>, j: nat, dist0: map<int, int>, exp0: set<int>)
    requires Frontier(db, q0, dist0, exp0) && j < |q0|
    ensures Pending(db, q0[..j] + q0[j + 1..], dist0, exp0, q0[j].id, q0[j].cost)
  {
    var rest := q0[..j] + q0[j + 1..];
    forall x | x in dist0
      ensures Queued(rest, x, dist0[x]) || (x in exp0 && Relaxed(db, dist0, x)) || (x == q0[j].id && q0[j].cost == dist0[x])
    {
      if Queued(q0, x, dist0[x]) {
        var m :| 0 <= m < |q0| && q0[m].id == x && q0[m].cost == dist0[x];
        if m < j {
          assert rest[m] == q0[m];
        } else if m > j {
          assert rest[m - 1] == q0[m];
        }
      }
    }
  }

  /** Popping candidate `j` starts its expansion in a state that satisfies the loop invariant. */
  lemma ScanStart(t: Table, src: int, dest: int, q0: seq<Item>, j: nat, dist0: map<int, int>, exp0: set<int>, vs: seq<int>)
    requires TableOk(t) && SearchInv(t.info, src, dest, q0, dist0, exp0) && j < |q0|
    ensures ScanInv(t, src, q0[j], 0, q0[..j] + q0[j + 1..], dist0, exp0, vs, q0[..j] + q0[j + 1..], dist0)
  {
    StartItems(t.info, src, q0, j, dist0);
    StartPending(t.info, q0, j, dist0, exp0);
  }

  /** Once every link has been scanned, the search invariant holds again with the candidate's node expanded if it was current. */
  lemma ScanEnd(t: Table, src: int, dest: int, it: Item, rest: seq<Item>, dist0: map<int, int>, exp0: set<int>,
                vs: seq<int>, q: seq<Item>, dist: map<int, int>)
    requires ScanInv(t, src, it, |t.keys|, rest, dist0, exp0, vs, q, dist)
    requires dest !in exp0 && it.id != dest
    ensures SearchInv(t.info, src, dest, q, dist, if it.cost == dist[it.id] then exp0 + {it.id} else exp0)
  {
    var u := it.id;
    if it.cost == dist[u] {
      forall v | Edge(t.info, u, v) ensures v in dist && dist[v] <= dist[u] + Weight(t.info, u, v) {
        var k := Link(u, v);
        var m :| 0 <= m < |t.keys| && t.keys[m] == k;
        EdgeIsAcross(t.info, u, v);
      }
      assert Relaxed(t.info, dist, u);
    }
  }

  /** A relaxed node stays relaxed when only the distances of other nodes go down. */
  lemma RelaxedLowered(db: Lsdb, dist: map<int, int>, x: int, n: int, alt: int)
    requires Relaxed(db, dist, x) && x != n && (n !in dist || alt < dist[n])
    ensures Relaxed(db, dist[n := alt], x)
  {
  }

  lemma PushItems(db: Lsdb, src: int, q: seq<Item>, dist: map<int, int>, item: Item)
    requires ItemsOk(db, src, q, dist) && ItemOk(db, src, item)
    requires item.id !in dist || item.cost < dist[item.id]
    ensures ItemsOk(db, src, q + [item], dist[item.id := item.cost])
  {
    var q' := q + [item];
    forall m | 0 <= m < |q'|
      ensures ItemOk(db, src, q'[m]) && q'[m].id in dist[item.id := item.cost] && dist[item.id := item.cost][q'[m].id] <= q'[m].cost
    {
      if m < |q| {
        assert q'[m] == q[m];
      }
    }
  }

  lemma PushPending(db: Lsdb, q: seq<Item>, dist: map<int, int>, exp0: set<int>, u: int, c: int, item: Item)
    requires Pending(db, q, dist, exp0, u, c) && item.id != u
    requires item.id !in dist || item.cost < dist[item.id]
    ensures Pending(db, q + [item], dist[item.id := item.cost], exp0, u, c)
  {
    var q' := q + [item];
    var n := item.id;
    var dist' := dist[n := item.cost];
    forall x | x in dist'
      ensures Queued(q', x, dist'[x]) || (x in exp0 && Relaxed(db, dist', x)) || (x == u && c == dist'[x])
    {
      if x == n {
        assert q'[|q|] == item;
      } else if Queued(q, x, dist[x]) {
        var m :| 0 <= m < |q| && q[m].id == x && q[m].cost == dist[x];
        assert q'[m] == q[m];
      } else if x in exp0 && Relaxed(db, dist, x) {
        RelaxedLowered(db, dist, x, n, item.cost);
      }
    }
  }

  lemma PushScanned(t: Table, u: int, c: int, i: nat, dist: map<int, int>, n: int, alt: int)
    requires Scanned(t, u, c, i, dist) && i < |t.keys| && t.keys[i] in t.info
    requires t.info[t.keys[i]].cost >= 0 && Across(t.keys[i], u) == Some(n) && alt == t.info[t.keys[i]].cost + c
    requires n !in dist || alt < dist[n]
    ensures Scanned(t, u, c, i + 1, dist[n := alt])
  {
  }

  lemma PushProgress(dist0: map<int, int>, vs: seq<int>, rest: seq<Item>, dist: map<int, int>, q: seq<Item>, n: int, alt: int, item: Item)
    requires Progress(dist0, vs, rest, dist, q) && Lowered(dist0, dist) && n in vs
    requires n !in dist || alt < dist[n]
    ensures Progress(dist0, vs, rest, dist[n := alt], q + [item])
  {
    if n in dist {
      UnseenSame(dist, vs, n, alt);
      SumDrops(dist, vs, n, alt);
    } else {
      UnseenDrops(dist, vs, n, alt);
    }
  }

  /** Pushing a cheaper candidate for the node across link `i` keeps the loop invariant. */
  lemma ScanPush(t: Table, src: int, it: Item, i: nat, rest: seq<Item>, dist0: map<int, int>, exp0: set<int>,
                 vs: seq<int>, q: seq<Item>, dist: map<int, int>, n: int, alt: int)
    requires ScanInv(t, src, it, i, rest, dist0, exp0, vs, q, dist) && i < |t.keys|
    requires forall x :: x in Ends(t.keys) ==> x in vs
    requires t.info[t.keys[i]].cost >= 0 && Across(t.keys[i], it.id) == Some(n)
    requires alt == t.info[t.keys[i]].cost + it.cost
    requires n !in dist || dist[n] > alt
    ensures ScanInv(t, src, it, i + 1, rest, dist0, exp0, vs, q + [Item(n, alt, it.prev + [n])], dist[n := alt])
  {
    var item := Item(n, alt, it.prev + [n]);
    PushedItem(t, src, it, i, dist, n, alt, vs);
    PushDist(src, dist0, dist, n, alt);
    PushItems(t.info, src, q, dist, item);
    PushPending(t.info, q, dist, exp0, it.id, it.cost, item);
    PushScanned(t, it.id, it.cost, i, dist, n, alt);
    PushProgress(dist0, vs, rest, dist, q, n, alt, item);
  }

  /** The candidate pushed for the node across link `i` is a sound path that avoids the source. */
  lemma PushedItem(t: Table, src: int, it: Item, i: nat, dist: map<int, int>, n: int, alt: int, vs: seq<int>)
    requires TableOk(t) && i < |t.keys| && ItemOk(t.info, src, it) && it.cost >= 0 && DistOk(src, dist)
    requires forall x :: x in Ends(t.keys) ==> x in vs
    requires t.info[t.keys[i]].cost >= 0 && Across(t.keys[i], it.id) == Some(n)
    requires alt == t.info[t.keys[i]].cost + it.cost
    requires n !in dist || dist[n] > alt
    ensures ItemOk(t.info, src, Item(n, alt, it.prev + [n])) && n != it.id && n in vs
  {
    var k := t.keys[i];
    AcrossIsEdge(t.info, k, it.id);
    assert Weight(t.info, it.id, n) == t.info[k].cost;
    PathExtend(t.info, src, it.prev, n);
    assert n != src;
  }

  lemma PushDist(src: int, dist0: map<int, int>, dist: map<int, int>, n: int, alt: int)
    requires DistOk(src, dist) && Lowered(dist0, dist) && alt >= 0
    requires n !in dist || dist[n] > alt
    ensures DistOk(src, dist[n := alt]) && Lowered(dist0, dist[n := alt])
  {
  }

  /** A link that yields no cheaper candidate leaves everything but the scan position as it was. */
  lemma ScanSkip(t: Table, src: int, it: Item, i: nat, rest: seq<Item>, dist0: map<int, int>, exp0: set<int>,
                 vs: seq<int>, q: seq<Item>, dist: map<int, int>)
    requires ScanInv(t, src, it, i, rest, dist0, exp0, vs, q, dist) && i < |t.keys|
    requires t.info[t.keys[i]].cost >= 0 && Across(t.keys[i], it.id).Some? ==>
      var n := Across(t.keys[i], it.id).value; n in dist && dist[n] <= t.info[t.keys[i]].cost + it.cost
    ensures ScanInv(t, src, it, i + 1, rest, dist0, exp0, vs, q, dist)
  {
  }

  /** One iteration of the scan: relax the link at position `i` of the dict. */
  method RelaxLink(t: Table, src: int, it: Item, i: nat, ghost rest: seq<Item>, ghost dist0: map<int, int>, ghost exp0: set<int>,
                   ghost vs: seq<int>, q: seq<Item>, dist: map<int, int>) returns (q': seq<Item>, dist': map<int, int>)
    requires ScanInv(t, src, it, i, rest, dist0, exp0, vs, q, dist) && i < |t.keys|
    requires forall x :: x in Ends(t.keys) ==> x in vs
    ensures ScanInv(t, src, it, i + 1, rest, dist0, exp0, vs, q', dist')
  {
    var k := t.keys[i];
    var entry := t.info[k];
    q', dist' := q, dist;
    if entry.cost >= 0 {
      var nKey := Across(k, it.id);
      if nKey.Some? {
        var n := nKey.value;
        var alt := entry.cost + it.cost;
        if n !in dist || dist[n] > alt {
          ScanPush(t, src, it, i, rest, dist0, exp0, vs, q, dist, n, alt);
          q' := q + [Item(n, alt, it.prev + [n])];
          dist' := dist[n := alt];
          return;
        }
      }
    }
    ScanSkip(t, src, it, i, rest, dist0, exp0, vs, q, dist);
  }

  /**
   * Expanding candidate `j` of the queue: remove it, then relax every link of
   * non-negative cost at one of whose ends it stands. The search invariant
   * is kept and the measure (unseen nodes, sum of distances, queue length)
   * decreases.
   */
  method Expand(t: Table, src: int, dest: int, q0: seq<Item>, j: nat, dist0: map<int, int>, ghost exp0: set<int>, ghost vs: seq<int>)
    returns (q: seq<Item>, dist: map<int, int>, ghost expanded: set<int>)
    requires TableOk(t) && SearchInv(t.info, src, dest, q0, dist0, exp0) && j < |q0| && q0[j].id != dest
    requires forall x :: x in Ends(t.keys) ==> x in vs
    ensures SearchInv(t.info, src, dest, q, dist, expanded)
    ensures Unseen(dist, vs) < Unseen(dist0, vs)
      || (Unseen(dist, vs) == Unseen(dist0, vs) && (SumAt(dist, vs) < SumAt(dist0, vs) || (SumAt(dist, vs) == SumAt(dist0, vs) && |q| < |q0|)))
  {
    var it := q0[j];
    q := q0[..j] + q0[j + 1..];
    ghost var rest := q;
    dist := dist0;
    ScanStart(t, src, dest, q0, j, dist0, exp0, vs);
    var i := 0;
    while i < |t.keys|
      invariant ScanInv(t, src, it, i, rest, dist0, exp0, vs, q, dist)
    {
      q, dist := RelaxLink(t, src, it, i, rest, dist0, exp0, vs, q, dist);
      i := i + 1;
    }
    ScanEnd(t, src, dest, it, rest, dist0, exp0, vs, q, dist);
    expanded := if it.cost == dist[it.id] then exp0 + {it.id} else exp0;
  }

  /** `heapq.heappop`: the position of a cheapest candidate (the first, among equals). */
  method PopMin(q: seq<Item>) returns (j: nat)
    requires |q| > 0
    ensures j < |q|
    ensures forall i :: 0 <= i < |q| ==> !Before(q[i], q[j])
    ensures forall i :: 0 <= i < j ==> Before(q[j], q[i])
  {
    j := 0;
    var i := 1;
    while i < |q|
      invariant 1 <= i <= |q| && j < i
      invariant forall m :: 0 <= m < i ==> !Before(q[m], q[j])
      invariant forall m :: 0 <= m < j ==> Before(q[j], q[m])
    {
      if Before(q[i], q[j]) {
        j := i;
      }
      i := i + 1;
    }
  }

  // ---------------------------------------------------------------------------
  // The node

  class LinkStateNode {
    const id: int
    /** `my_neighbors_list` */
    var neighbors: seq<int>
    /** `my_routing_table` */
    var table: Table
    /** Every message sent, in order. */
    var outbox: seq<Send>

    ghost predicate Valid()
      reads this`neighbors, this`table
    {
      NodeOk(id, neighbors, table)
    }

    constructor(nodeId: int)
      ensures id == nodeId && neighbors == [] && table == EMPTY && outbox == []
      ensures Valid()
    {
      id := nodeId;
      neighbors := [];
      table := EMPTY;
      outbox := [];
    }

    /**
     * `link_has_been_updated(neighbor, latency)`, with `get_time()` passed in
     * as `now`: update the neighbour list and the link's entry, then send the
     * whole database to all neighbours.
     */
    method LinkHasBeenUpdated(neighbor: int, latency: int, now: int)
      requires Valid() && neighbor != id
      modifies this
      ensures neighbors == UpdatedNeighbors(old(neighbors), neighbor, latency)
      ensures table == Put(old(table), Link(id, neighbor), LinkInfo(latency, now))
      ensures outbox == old(outbox) + [ToNeighbors(Advertisement(id, table.keys, table.info))]
      ensures Valid()
    {
      LinkUpdateOk(id, neighbors, table, neighbor, latency, now);
      if neighbor in neighbors {
        if latency == -1 {
          neighbors := RemoveFirst(neighbors, neighbor);
        }
        table := Put(table, Link(id, neighbor), LinkInfo(latency, now));
      } else {
        neighbors := neighbors + [neighbor];
        table := Put(table, Link(id, neighbor), LinkInfo(latency, now));
      }
      var message := BuildAdvertisement();
      outbox := outbox + [ToNeighbors(message)];
    }

    /** The loop over `my_routing_table.items()` that builds the advertisement. */
    method BuildAdvertisement() returns (message: seq<Lsa>)
      requires TableOk(table)
      ensures message == Advertisement(id, table.keys, table.info)
    {
      message := [];
      var i := 0;
      while i < |table.keys|
        invariant 0 <= i <= |table.keys|
        invariant message == Advertisement(id, table.keys[..i], table.info)
      {
        var entry := table.keys[i];
        assert table.keys[..i + 1][..i] == table.keys[..i];
        message := message + [Announce(id, entry, table.info[entry])];
        i := i + 1;
      }
      assert table.keys[..i] == table.keys;
    }

    /**
     * `process_incoming_routing_message(m)`, with the JSON already parsed
     * into its `"lsdb"` list.
     */
    method ProcessIncomingRoutingMessage(msgs: seq<Lsa>)
      requires Valid() && ProperEntries(msgs)
      modifies this`table, this`outbox
      ensures Flood(table, outbox) == IngestAll(id, neighbors, Flood(old(table), old(outbox)), msgs)
      ensures Valid()
    {
      var i := 0;
      while i < |msgs|
        invariant 0 <= i <= |msgs|
        invariant Flood(table, outbox) == IngestAll(id, neighbors, Flood(old(table), old(outbox)), msgs[..i])
        invariant Valid()
      {
        assert msgs[..i + 1][..i] == msgs[..i];
        IngestOk(id, neighbors, Flood(table, outbox), msgs[i]);
        IngestKeepsNewest(id, neighbors, Flood(table, outbox), msgs[i]);
        HandleEntry(msgs[i]);
        i := i + 1;
      }
      assert msgs[..i] == msgs;
    }

    /** The body of the loop over the message's entries. */
    method HandleEntry(e: Lsa)
      requires TableOk(table)
      modifies this`table, this`outbox
      ensures Flood(table, outbox) == Ingest(id, neighbors, Flood(old(table), old(outbox)), e)
    {
      if OwnEntry(id, e) {
        return;
      }
      var pair := Link(e.node1, e.node2);
      var v := LinkInfo(e.cost, e.time);
      if pair in table.info {
        if table.info[pair].time < e.time {
          table := Put(table, pair, v);
          SendToOthers(e.senderId, [Announce(id, pair, v)]);
        }
      } else {
        table := Put(table, pair, v);
        outbox := outbox + [ToNeighbors([Announce(id, pair, v)])];
      }
    }

    /** `for each_neighbor in my_neighbors_list: if each_neighbor != message_sender: send_to_neighbor(...)` */
    method SendToOthers(sender: int, msg: seq<Lsa>)
      modifies this`outbox
      ensures outbox == old(outbox) + Forward(neighbors, sender, msg)
    {
      var i := 0;
      while i < |neighbors|
        invariant 0 <= i <= |neighbors|
        invariant outbox == old(outbox) + Forward(neighbors[..i], sender, msg)
      {
        assert neighbors[..i + 1][..i] == neighbors[..i];
        if neighbors[i] != sender {
          outbox := outbox + [ToNeighbor(neighbors[i], msg)];
        }
        i := i + 1;
      }
      assert neighbors[..i] == neighbors;
    }

    /**
     * `run_dijkstra(destination)`: a cheapest path over the links of
     * non-negative cost, listed without the node itself, with its cost; or
     * None exactly when no such path exists.
     */
    method RunDijkstra(destination: int) returns (r: Option<Found>)
      requires Valid()
      ensures r.Some? ==>
        && Cheapest(table.info, id, destination, r.value.path)
        && r.value.cost == PathCost(table.info, id, r.value.path)
        && id !in r.value.path
      ensures r.None? <==> !Reachable(table.info, id, destination)
      ensures destination == id ==> r == Some(Found([], 0))
    {
      var q := [Item(id, 0, [])];
      var dist := map[id := 0];
      ghost var expanded: set<int> := {};
      ghost var vs := Ends(table.keys);
      assert ItemOk(table.info, id, q[0]);
      assert Queued(q, id, 0);
      assert IsPath(table.info, id, []) && Last(id, []) == id;
      while |q| > 0
        invariant SearchInv(table.info, id, destination, q, dist, expanded)
        decreases Unseen(dist, vs), SumAt(dist, vs), |q|
      {
        var j := PopMin(q);
        var it := q[j];
        if it.id == destination {
          PoppedIsCheapest(table.info, id, destination, q, dist, expanded, j);
          assert ItemOk(table.info, id, it);
          if destination == id {
            PathHomeIsEmpty(id, it.prev);
          }
          return Some(Found(it.prev, it.cost));
        }
        SumNonNegative(dist, vs);
        q, dist, expanded := Expand(table, id, destination, q, j, dist, expanded, vs);
      }
      ExhaustedUnreachable(table.info, id, destination, dist, expanded);
      return None;
    }

    /**
     * `get_next_hop(destination)`: the first hop of the path Dijkstra finds.
     * The result of `run_dijkstra` is unpacked before it is tested, so an
     * unreachable destination raises TypeError; the node itself has the empty
     * path, whose first element raises IndexError.
     */
    method GetNextHop(destination: int) returns (r: Result<int>)
      requires Valid()
      ensures destination == id ==> r == Raised(IndexError)
      ensures destination != id && !Reachable(table.info, id, destination) ==> r == Raised(TypeError)
      ensures destination != id && Reachable(table.info, id, destination) ==>
        r.Ok? && Edge(table.info, id, r.value)
        && exists p :: Cheapest(table.info, id, destination, p) && |p| > 0 && p[0] == r.value
    {
      var found := RunDijkstra(destination);
      if found.None? {
        return Raised(TypeError);
      }
      var path := found.value.path;
      if |path| == 0 {
        return Raised(IndexError);
      }
      PathFirstEdge(table.info, id, path);
      return Ok(path[0]);
    }
  }
}
