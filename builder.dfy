/**
 * The reachability tree builder (`PredectiveTree`): from one road node it
 * grows, Dijkstra style, the tree of nodes reachable within `range`
 * kilometres, then spreads probability down the tree. Both revisions of the
 * builder are the same code over their own tree node type.
 *
 * The priority queue is a sequence of candidates in insertion order whose
 * key is the candidate's `DistanceToRoot`; `Dequeue` takes the first entry
 * with the smallest key. The committed tree is an id-keyed store as in
 * `ForestArena`, with the road node of each tree node kept beside it.
 */
module Reachability {
  import opened Wrappers
  import opened Sequences
  import opened ForestArena
  import opened RoadGraph
  import opened Networks
  import opened TreeShares

  /**
   * A tree node waiting in the queue: its road node, the id of the tree node
   * it was reached from, its `DistanceToRoot`, which is also its key, and
   * the out-edge of the parent's road node it was reached by.
   */
  datatype Candidate = Candidate(node: RoadNetworkNode, parent: int, dist: real, edge: Edge)

  /** The queue seen as a dictionary from node id to its entry, the first entry winning. */
  function View(q: seq<Candidate>): map<int, Candidate> {
    if q == [] then map[] else View(q[1..])[q[0].node.id := q[0]]
  }

  /** No node id is queued twice. */
  predicate DistinctIds(q: seq<Candidate>) {
    forall a, b :: 0 <= a < b < |q| ==> q[a].node.id != q[b].node.id
  }

  /** Dropping the head keeps the ids distinct. */
  lemma DistinctTail(q: seq<Candidate>)
    requires DistinctIds(q) && q != []
    ensures DistinctIds(q[1..])
  {
    forall a, b | 0 <= a < b < |q[1..]| ensures q[1..][a].node.id != q[1..][b].node.id {
      assert q[1..][a] == q[a + 1] && q[1..][b] == q[b + 1];
    }
  }

  /** Dropping any one entry keeps the ids distinct. */
  lemma DistinctRemove(q: seq<Candidate>, i: int)
    requires DistinctIds(q) && 0 <= i < |q|
    ensures DistinctIds(q[..i] + q[i + 1..])
  {
    var r := q[..i] + q[i + 1..];
    forall a, b | 0 <= a < b < |r| ensures r[a].node.id != r[b].node.id {
      var a' := if a < i then a else a + 1;
      var b' := if b < i then b else b + 1;
      assert r[a] == q[a'] && r[b] == q[b'];
    }
  }

  /** Every entry is in the view under its own id. */
  lemma {:induction false} ViewHas(q: seq<Candidate>, j: int)
    requires DistinctIds(q) && 0 <= j < |q|
    ensures q[j].node.id in View(q) && View(q)[q[j].node.id] == q[j]
  {
    if j > 0 {
      DistinctTail(q);
      ViewHas(q[1..], j - 1);
      assert q[0].node.id != q[j].node.id;
    }
  }

  /** Every id of the view is the id of its entry. */
  lemma {:induction false} ViewKeys(q: seq<Candidate>, x: int)
    requires x in View(q)
    ensures View(q)[x].node.id == x
  {
    if q[0].node.id != x {
      ViewKeys(q[1..], x);
    }
  }

  /** Appending an entry for an id not yet queued adds just that id. */
  lemma {:induction false} ViewAppend(q: seq<Candidate>, c: Candidate)
    requires c.node.id !in View(q)
    ensures View(q + [c]) == View(q)[c.node.id := c]
  {
    if q != [] {
      assert (q + [c])[1..] == q[1..] + [c];
      ViewAppend(q[1..], c);
    }
  }

  /** Removing the entry at `i` from a queue without repeated ids removes its id. */
  lemma {:induction false} ViewRemove(q: seq<Candidate>, i: int)
    requires DistinctIds(q) && 0 <= i < |q|
    ensures View(q[..i] + q[i + 1..]) == View(q) - {q[i].node.id}
    ensures DistinctIds(q[..i] + q[i + 1..])
  {
    var r := q[..i] + q[i + 1..];
    var t := q[1..];
    var a := q[0].node.id;
    DistinctRemove(q, i);
    DistinctTail(q);
    if i == 0 {
      assert r == t;
      assert a !in View(t) by {
        forall j | 0 <= j < |t| ensures t[j].node.id != a {
          assert t[j] == q[j + 1];
        }
        ViewLacks(t, a);
      }
      calc {
        View(r);
        View(t);
        View(t)[a := q[0]] - {a};
        View(q) - {a};
      }
    } else {
      var b := q[i].node.id;
      ViewRemove(t, i - 1);
      assert r == [q[0]] + (t[..i - 1] + t[i..]);
      assert r[1..] == t[..i - 1] + t[i..];
      assert t[i - 1] == q[i];
      assert a != b;
      calc {
        View(r);
        View(r[1..])[a := q[0]];
        (View(t) - {b})[a := q[0]];
        View(t)[a := q[0]] - {b};
        View(q) - {b};
      }
    }
  }

  /** An id no entry has is not in the view. */
  lemma {:induction false} ViewLacks(q: seq<Candidate>, x: int)
    requires forall j :: 0 <= j < |q| ==> q[j].node.id != x
    ensures x !in View(q)
  {
    if q != [] {
      assert forall j :: 0 <= j < |q[1..]| ==> q[1..][j] == q[j + 1];
      ViewLacks(q[1..], x);
    }
  }

  /** The position of the first entry for the queued id `x`. */
  function IndexOfId(q: seq<Candidate>, x: int): (i: int)
    requires x in View(q)
    ensures 0 <= i < |q| && q[i].node.id == x && View(q)[x] == q[i]
  {
    if q[0].node.id == x then 0 else 1 + IndexOfId(q[1..], x)
  }

  /** The smallest key in the queue. */
  function MinDist(q: seq<Candidate>): (d: real)
    requires q != []
    ensures forall j :: 0 <= j < |q| ==> d <= q[j].dist
  {
    if |q| == 1 then q[0].dist
    else
      var m := MinDist(q[1..]);
      assert forall j :: 1 <= j < |q| ==> q[j] == q[1..][j - 1];
      if q[0].dist <= m then q[0].dist else m
  }

  /** The entry `Dequeue` takes: the first one whose key is the smallest. */
  function FirstMin(q: seq<Candidate>): (i: int)
    requires q != []
    ensures 0 <= i < |q| && q[i].dist == MinDist(q)
    ensures forall j :: 0 <= j < i ==> q[j].dist > q[i].dist
  {
    if |q| == 1 || q[0].dist <= MinDist(q[1..]) then 0
    else
      var k := FirstMin(q[1..]);
      assert forall j :: 1 <= j < |q| ==> q[j] == q[1..][j - 1];
      1 + k
  }

  /**
   * `InsertQueue` as a change of the queue: a candidate for an id not yet
   * queued is appended; one for a queued id replaces the queued entry only
   * when its distance is strictly smaller, and is dropped otherwise.
   */
  function Offer(q: seq<Candidate>, c: Candidate): seq<Candidate> {
    if c.node.id !in View(q) then q + [c]
    else if View(q)[c.node.id].dist > c.dist then
      var i := IndexOfId(q, c.node.id);
      q[..i] + q[i + 1..] + [c]
    else q
  }

  /**
   * The decrease-key rule: after `Offer` the queue still holds one entry
   * per id, every other id keeps its entry, and the candidate's id holds
   * whichever of the queued and the offered entries is strictly closer, the
   * queued one winning ties.
   */
  lemma OfferView(q: seq<Candidate>, c: Candidate)
    requires DistinctIds(q)
    ensures DistinctIds(Offer(q, c))
    ensures View(Offer(q, c)) ==
      if c.node.id !in View(q) || View(q)[c.node.id].dist > c.dist then View(q)[c.node.id := c] else View(q)
  {
    var x := c.node.id;
    if x !in View(q) {
      AppendFresh(q, c);
    } else if View(q)[x].dist > c.dist {
      var i := IndexOfId(q, x);
      var r := q[..i] + q[i + 1..];
      ViewRemove(q, i);
      AppendFresh(r, c);
      assert View(q) - {x} + map[x := c] == View(q)[x := c];
    }
  }

  /** Appending an entry for an id not in the view keeps the ids distinct and adds that id. */
  lemma AppendFresh(q: seq<Candidate>, c: Candidate)
    requires DistinctIds(q) && c.node.id !in View(q)
    ensures DistinctIds(q + [c]) && View(q + [c]) == View(q)[c.node.id := c]
  {
    ViewAppend(q, c);
    forall j | 0 <= j < |q| ensures q[j].node.id != c.node.id {
      ViewHas(q, j);
    }
    DistinctAppendId(q, c);
  }

  /** Appending an entry whose id no entry has keeps the ids distinct. */
  lemma DistinctAppendId(q: seq<Candidate>, c: Candidate)
    requires DistinctIds(q) && forall j :: 0 <= j < |q| ==> q[j].node.id != c.node.id
    ensures DistinctIds(q + [c])
  {
    forall a, b | 0 <= a < b < |q + [c]| ensures (q + [c])[a].node.id != (q + [c])[b].node.id {
      assert (q + [c])[a] == q[a];
    }
  }


  /** The entry the view holds for an id is an entry of the queue. */
  lemma {:induction false} ViewIn(q: seq<Candidate>, x: int)
    requires x in View(q)
    ensures View(q)[x] in q
  {
    if q[0].node.id != x {
      ViewIn(q[1..], x);
    }
  }

  /** Every id of `a` is still in `b`, at a key no larger. */
  ghost predicate Lowers(a: map<int, Candidate>, b: map<int, Candidate>) {
    forall y {:trigger a[y]} :: y in a ==> y in b && b[y].dist <= a[y].dist
  }

  /**
   * `Offer` never drops a queued id and never raises the key of one: the
   * decrease-key rule only lowers keys.
   */
  lemma OfferLowers(q: seq<Candidate>, c: Candidate)
    requires DistinctIds(q)
    ensures Lowers(View(q), View(Offer(q, c)))
    ensures c.node.id in View(Offer(q, c)) && View(Offer(q, c))[c.node.id].dist <= c.dist
  {
    OfferView(q, c);
  }

  /** The road nodes of a list of candidates. */
  function NodesOf(r: seq<Candidate>): set<RoadNetworkNode> {
    if r == [] then {} else NodesOf(r[..|r| - 1]) + {r[|r| - 1].node}
  }

  /** Every road node of `NodesOf(r)` is the node of one of the candidates. */
  lemma {:induction false} NodesOfHas(r: seq<Candidate>, x: RoadNetworkNode)
    requires x in NodesOf(r)
    ensures exists j :: 0 <= j < |r| && r[j].node == x
  {
    var last := |r| - 1;
    if r[last].node != x {
      NodesOfHas(r[..last], x);
      var j :| 0 <= j < last && r[..last][j].node == x;
      assert r[j] == r[..last][j];
    }
  }

  /**
   * The frontier of the expansion: for every out-edge of a committed node
   * whose target is not in `done`, the target's id is queued, at a key no
   * larger than the committed node's distance plus the edge's length.
   */
  ghost predicate Covered(t: Nodes, done: set<int>, temp: map<int, Candidate>, g: map<int, RoadNetworkNode>)
    reads g.Values
  {
    forall k, x {:trigger g[k].outEdges[x]} :: k in t && k in g && x in g[k].outEdges && x.id !in done ==>
      x.id in temp && temp[x.id].dist <= t[k].dist + g[k].outEdges[x].length
  }

  /**
   * Closure under in-range expansion: every out-edge of a committed node
   * that ends less than `range` from the root ends at a committed node.
   */
  ghost predicate Expanded(t: Nodes, g: map<int, RoadNetworkNode>, range: real)
    reads g.Values
  {
    forall k, x {:trigger g[k].outEdges[x]} :: k in t && k in g && x in g[k].outEdges && t[k].dist + g[k].outEdges[x].length < range ==> x.id in t
  }

  /**
   * Where the expansion stops, the frontier is closed: once every queued
   * key is at least `range`, every edge that ends within `range` ends in the
   * tree.
   */
  lemma CoveredExpanded(t: Nodes, temp: map<int, Candidate>, g: map<int, RoadNetworkNode>, q: seq<Candidate>, range: real)
    requires Covered(t, t.Keys, temp, g) && temp == View(q)
    requires q != [] ==> MinDist(q) >= range
    ensures Expanded(t, g, range)
  {
    forall k, x | k in t && k in g && x in g[k].outEdges && t[k].dist + g[k].outEdges[x].length < range
      ensures x.id in t
    {
      if x.id !in t {
        ViewIn(q, x.id);
      }
    }
  }

  /**
   * The frontier right after `Initialization`: with only the root
   * committed, and one entry per other out-neighbour of the root at the
   * length of the edge to it, every out-edge of the tree is covered.
   */
  lemma RootCovered(t: Nodes, q: seq<Candidate>, g: map<int, RoadNetworkNode>, root: RoadNetworkNode, edges: map<RoadNetworkNode, Edge>)
    requires t == map[root.id := Item(root.id, None, [], 0.0, 0.0)] && root.id in g && g[root.id] == root
    requires root.outEdges == edges && DistinctIds(q)
    requires forall j :: 0 <= j < |q| ==> q[j].node in edges && q[j].dist == edges[q[j].node].length
    requires forall x :: x in edges && x != root ==> x in NodesOf(q)
    ensures Covered(t, t.Keys, View(q), g)
  {
    forall k, x | k in t && k in g && x in g[k].outEdges && x.id !in t.Keys
      ensures x.id in View(q) && View(q)[x.id].dist <= t[k].dist + g[k].outEdges[x].length
    {
      assert k == root.id && x != root;
      NodesOfHas(q, x);
      var j :| 0 <= j < |q| && q[j].node == x;
      ViewHas(q, j);
    }
  }

  /** Taking an id off the queue leaves the frontier covered for every other id. */
  lemma CoveredPop(t: Nodes, temp: map<int, Candidate>, g: map<int, RoadNetworkNode>, id: int)
    requires Covered(t, t.Keys, temp, g)
    ensures Covered(t, t.Keys + {id}, temp - {id}, g)
  {
  }

  /**
   * Committing `id` at distance `d`: when every other frontier id stays
   * queued no farther than before, and every out-neighbour of `id` outside
   * the old tree is queued within `d` plus its edge, the frontier of the
   * grown tree is covered.
   */
  lemma CoveredCommit(t: Nodes, t': Nodes, temp: map<int, Candidate>, temp': map<int, Candidate>,
                      g: map<int, RoadNetworkNode>, id: int, d: real)
    requires Covered(t, t.Keys + {id}, temp, g)
    requires Extends(t, t') && t'.Keys == t.Keys + {id} && id in t' && t'[id].dist == d
    requires Lowers(temp, temp')
    requires id in g ==> forall x :: x in g[id].outEdges && x.id !in t ==>
      x.id in temp' && temp'[x.id].dist <= d + g[id].outEdges[x].length
    ensures Covered(t', t'.Keys, temp', g)
  {
    forall k, x | k in t' && k in g && x in g[k].outEdges && x.id !in t'.Keys
      ensures x.id in temp' && temp'[x.id].dist <= t'[k].dist + g[k].outEdges[x].length
    {
      if k != id {
        assert k in t && t'[k].dist == t[k].dist;
      }
    }
  }

  /**
   * The candidates built for a node at distance `d` and offered: every
   * out-neighbour outside `t` is queued within `d` plus its edge.
   */
  lemma ConnectedCovered(r: seq<Candidate>, edges: map<RoadNetworkNode, Edge>, t: Nodes, temp: map<int, Candidate>, d: real)
    requires forall j :: 0 <= j < |r| ==>
      r[j].node in edges && r[j].edge == edges[r[j].node] && r[j].dist == d + r[j].edge.length
    requires forall x :: x in edges && x.id !in t ==> x in NodesOf(r)
    requires forall j :: 0 <= j < |r| && r[j].node.id !in t ==> r[j].node.id in temp && temp[r[j].node.id].dist <= r[j].dist
    ensures forall x :: x in edges && x.id !in t ==> x.id in temp && temp[x.id].dist <= d + edges[x].length
  {
    forall x | x in edges && x.id !in t ensures x.id in temp && temp[x.id].dist <= d + edges[x].length {
      NodesOfHas(r, x);
    }
  }

  /** Expansion closure depends only on the nodes and their distances. */
  lemma ExpandedShape(t: Nodes, t': Nodes, g: map<int, RoadNetworkNode>, range: real)
    requires Expanded(t, g, range) && SameShape(t, t')
    ensures Expanded(t', g, range)
  {
    forall k, x | k in t' && k in g && x in g[k].outEdges && t'[k].dist + g[k].outEdges[x].length < range
      ensures x.id in t'
    {
      assert t[k].dist == t'[k].dist;
    }
  }

  /** The out-edges of every network node, by node id. */
  ghost function OutEdges(g: map<int, RoadNetworkNode>): (e: map<int, map<RoadNetworkNode, Edge>>)
    reads g.Values
    ensures e.Keys == g.Keys && forall k :: k in g ==> e[k] == g[k].outEdges
  {
    map k | k in g :: g[k].outEdges
  }

  /** `e` holds the out-edges of every network node, by node id: `OutEdges`, stated field by field. */
  ghost predicate OutEdgesOf(e: map<int, map<RoadNetworkNode, Edge>>, g: map<int, RoadNetworkNode>)
    reads g.Values
  {
    e.Keys == g.Keys && forall k :: k in g ==> e[k] == g[k].outEdges
  }

  /** A snapshot taken field by field is the out-edge map itself, as `ReachedWithin` reads it. */
  lemma OutEdgesOfIs(e: map<int, map<RoadNetworkNode, Edge>>, g: map<int, RoadNetworkNode>)
    requires OutEdgesOf(e, g)
    ensures e == OutEdges(g)
  {
    var o := OutEdges(g);
    assert forall k :: k in e ==> e[k] == o[k];
  }

  /** The length of the edge from the node with id `k` to `x` in the snapshot `e`. */
  ghost function Length(e: map<int, map<RoadNetworkNode, Edge>>, k: int, x: RoadNetworkNode): real
    requires k in e && x in e[k]
  {
    e[k][x].length
  }

  /** Every edge has a non-negative length. */
  ghost predicate NonNegative(e: map<int, map<RoadNetworkNode, Edge>>) {
    forall k, x {:trigger Length(e, k, x)} :: k in e && x in e[k] ==> 0.0 <= Length(e, k, x)
  }

  /** No committed node lies farther from the root than a queued key. */
  ghost predicate Settled(t: Nodes, temp: map<int, Candidate>) {
    forall k, x :: k in t && x in temp ==> t[k].dist <= temp[x].dist
  }

  /** Every queued key is at least `lo`. */
  ghost predicate Floor(temp: map<int, Candidate>, lo: real) {
    forall x :: x in temp ==> lo <= temp[x].dist
  }

  /**
   * No edge between two committed nodes is a shortcut: a committed target
   * lies no farther from the root than its committed source plus the edge.
   */
  ghost predicate Relaxed(t: Nodes, e: map<int, map<RoadNetworkNode, Edge>>) {
    forall k, x {:trigger Length(e, k, x)} :: k in t && k in e && x in e[k] && x.id in t ==> t[x.id].dist <= t[k].dist + Length(e, k, x)
  }

  /** A queue whose keys are all at least `lo` has a view whose keys are too. */
  lemma ViewFloor(q: seq<Candidate>, lo: real)
    requires forall j :: 0 <= j < |q| ==> lo <= q[j].dist
    ensures Floor(View(q), lo)
  {
    forall x | x in View(q) ensures lo <= View(q)[x].dist {
      ViewIn(q, x);
    }
  }

  /** Offering a candidate no nearer than `lo` keeps every key at least `lo`. */
  lemma OfferFloor(q: seq<Candidate>, c: Candidate, lo: real)
    requires DistinctIds(q) && Floor(View(q), lo) && lo <= c.dist
    ensures Floor(View(Offer(q, c)), lo)
  {
    OfferView(q, c);
  }

  /** `Covered` read over a snapshot `e` of the out-edges: every uncommitted out-neighbour is queued within reach. */
  ghost predicate Frontier(t: Nodes, temp: map<int, Candidate>, e: map<int, map<RoadNetworkNode, Edge>>) {
    forall k, x {:trigger Length(e, k, x)} :: k in t && k in e && x in e[k] && x.id !in t ==>
      x.id in temp && temp[x.id].dist <= t[k].dist + Length(e, k, x)
  }

  /** `Covered` over the network gives `Frontier` over a snapshot of its out-edges. */
  lemma CoveredFrontier(t: Nodes, temp: map<int, Candidate>, g: map<int, RoadNetworkNode>, e: map<int, map<RoadNetworkNode, Edge>>)
    requires OutEdgesOf(e, g) && Covered(t, t.Keys, temp, g)
    ensures Frontier(t, temp, e)
  {
    forall k, x | k in t && k in e && x in e[k] && x.id !in t
      ensures x.id in temp && temp[x.id].dist <= t[k].dist + Length(e, k, x)
    {
      assert g[k].outEdges[x] == e[k][x];
    }
  }

  /**
   * The tree right after `Initialization`, with only the root committed at
   * distance 0 and every key the length of an edge out of the root, is
   * settling when no edge is negative.
   */
  lemma RootSettling(t: Nodes, q: seq<Candidate>, e: map<int, map<RoadNetworkNode, Edge>>, rootID: int)
    requires t == map[rootID := Item(rootID, None, [], 0.0, 0.0)] && NonNegative(e) && rootID in e
    requires forall j :: 0 <= j < |q| ==> q[j].node in e[rootID] && q[j].dist == e[rootID][q[j].node].length
    ensures Settling(t, View(q), e)
  {
    assert forall j :: 0 <= j < |q| ==> 0.0 <= Length(e, rootID, q[j].node);
    ViewFloor(q, 0.0);
    forall k, x | k in t && k in e && x in e[k] && x.id in t
      ensures t[x.id].dist <= t[k].dist + Length(e, k, x)
    {
      assert k == rootID && x.id == rootID;
    }
  }

  /**
   * Committing the popped entry for `id`, whose key `d` was the smallest,
   * keeps every committed distance at most every queued key, provided the
   * queue afterwards holds no key below `d`.
   */
  lemma CommitSettled(t: Nodes, t': Nodes, ts: map<int, Candidate>, temp': map<int, Candidate>, id: int, d: real)
    requires Settled(t, ts) && id in ts && ts[id].dist == d
    requires Extends(t, t') && t'.Keys == t.Keys + {id} && t'[id].dist == d
    requires Floor(temp', d)
    ensures Settled(t', temp')
  {
    forall k, x | k in t' && x in temp' ensures t'[k].dist <= temp'[x].dist {
      if k != id {
        assert t'[k].dist == t[k].dist <= ts[id].dist;
      }
    }
  }

  /**
   * Committing the popped entry for `id` at its key `d` keeps every edge
   * between committed nodes relaxed: an edge into `id` was offered at no
   * less than `d`, and an edge out of `id` leads to a node committed no
   * farther than `d`.
   */
  lemma CommitRelaxed(t: Nodes, t': Nodes, ts: map<int, Candidate>, e: map<int, map<RoadNetworkNode, Edge>>, id: int, d: real)
    requires Relaxed(t, e) && Frontier(t, ts, e) && Settled(t, ts) && NonNegative(e)
    requires id in ts && ts[id].dist == d && id !in t
    requires Extends(t, t') && t'.Keys == t.Keys + {id} && t'[id].dist == d
    ensures Relaxed(t', e)
  {
    forall k, x | k in t' && k in e && x in e[k] && x.id in t'
      ensures t'[x.id].dist <= t'[k].dist + Length(e, k, x)
    {
      var len := Length(e, k, x);
      if k == id {
        assert 0.0 <= len;
        if x.id != id {
          assert t'[x.id].dist == t[x.id].dist <= ts[id].dist;
        }
      } else if x.id == id {
        assert ts[x.id].dist <= t[k].dist + len;
      } else {
        assert t[x.id].dist <= t[k].dist + len;
      }
    }
  }

  /** With no negative edge, every edge out of a node of the network has non-negative length. */
  lemma NonNegativeAt(g: map<int, RoadNetworkNode>, e: map<int, map<RoadNetworkNode, Edge>>, n: RoadNetworkNode)
    requires OutEdgesOf(e, g) && NonNegative(e) && n.id in g && g[n.id] == n
    ensures LeavesNonNegative(n)
  {
    forall x | x in n.outEdges ensures 0.0 <= n.outEdges[x].length {
      assert 0.0 <= Length(e, n.id, x);
    }
  }

  /**
   * The invariant of the expansion under edges of non-negative length: no
   * committed distance exceeds a queued key, and every edge between
   * committed nodes is relaxed.
   */
  ghost predicate Settling(t: Nodes, temp: map<int, Candidate>, e: map<int, map<RoadNetworkNode, Edge>>) {
    NonNegative(e) && Settled(t, temp) && Relaxed(t, e)
  }

  /** What the pop of `id` at key `d` leaves: `temp` is the queue before, `temp'` after. */
  ghost predicate PoppedAt(t: Nodes, temp: map<int, Candidate>, temp': map<int, Candidate>, e: map<int, map<RoadNetworkNode, Edge>>, id: int, d: real) {
    Frontier(t, temp, e) && id in temp && temp[id].dist == d && Floor(temp', d)
  }

  /** Every edge out of `n` has non-negative length. */
  ghost predicate LeavesNonNegative(n: RoadNetworkNode)
    reads n
  {
    forall x :: x in n.outEdges ==> 0.0 <= n.outEdges[x].length
  }

  /** Relaxation depends only on the nodes and their distances. */
  lemma RelaxedShape(t: Nodes, t': Nodes, e: map<int, map<RoadNetworkNode, Edge>>)
    requires Relaxed(t, e) && SameShape(t, t')
    ensures Relaxed(t', e)
  {
    forall k, x | k in t' && k in e && x in e[k] && x.id in t'
      ensures t'[x.id].dist <= t'[k].dist + Length(e, k, x)
    {
      assert t[k].dist == t'[k].dist && t[x.id].dist == t'[x.id].dist;
    }
  }

  /** `p` is a walk: every node but the last has out-edges in `e`, one of them to the next node. */
  ghost predicate Walk(e: map<int, map<RoadNetworkNode, Edge>>, p: seq<RoadNetworkNode>) {
    forall i :: 0 <= i < |p| - 1 ==> p[i].id in e && p[i + 1] in e[p[i].id]
  }

  /** The sum of the lengths of the edges along the walk `p`. */
  ghost function WalkLength(e: map<int, map<RoadNetworkNode, Edge>>, p: seq<RoadNetworkNode>): real
    requires Walk(e, p)
    decreases |p|
  {
    if |p| <= 1 then 0.0
    else
      assert forall i :: 0 <= i < |p| - 2 ==> p[1..][i] == p[i + 1];
      Length(e, p[0].id, p[1]) + WalkLength(e, p[1..])
  }

  /** A walk over edges of non-negative length has non-negative length. */
  lemma {:induction false} WalkNonNegative(e: map<int, map<RoadNetworkNode, Edge>>, p: seq<RoadNetworkNode>)
    requires Walk(e, p) && NonNegative(e)
    ensures 0.0 <= WalkLength(e, p)
    decreases |p|
  {
    if |p| > 1 {
      assert forall i :: 0 <= i < |p| - 2 ==> p[1..][i] == p[i + 1];
      WalkNonNegative(e, p[1..]);
    }
  }

  /**
   * The expansion holds every shortest way within `range`: a walk from a
   * committed node that ends less than `range` from the root ends at a
   * committed node, no farther from the root than the walk's start plus
   * its length.
   */
  lemma {:induction false} ReachedWithin(t: Nodes, g: map<int, RoadNetworkNode>, range: real, p: seq<RoadNetworkNode>)
    requires Expanded(t, g, range) && Relaxed(t, OutEdges(g)) && NonNegative(OutEdges(g))
    requires Walk(OutEdges(g), p) && p != [] && p[0].id in t && t[p[0].id].dist + WalkLength(OutEdges(g), p) < range
    ensures p[|p| - 1].id in t && t[p[|p| - 1].id].dist <= t[p[0].id].dist + WalkLength(OutEdges(g), p)
    decreases |p|
  {
    var e := OutEdges(g);
    if |p| > 1 {
      var k, x, rest := p[0].id, p[1], p[1..];
      assert forall i :: 0 <= i < |rest| - 1 ==> rest[i] == p[i + 1];
      assert Walk(e, rest);
      WalkNonNegative(e, rest);
      assert WalkLength(e, p) == Length(e, k, x) + WalkLength(e, rest);
      assert g[k].outEdges[x] == e[k][x];
      assert x.id in t;
      assert t[x.id].dist <= t[k].dist + Length(e, k, x);
      ReachedWithin(t, g, range, rest);
      assert rest[|rest| - 1] == p[|p| - 1];
    }
  }

  /**
   * The road network is closed and keyed by id: each node sits under its
   * own id, and every out-edge, filed under its target, leaves that node and
   * leads to a node of the network.
   */
  ghost predicate Closed(g: map<int, RoadNetworkNode>)
    reads g.Values
  {
    && (forall k :: k in g ==> g[k].id == k)
    && forall k, t :: k in g && t in g[k].outEdges ==>
         && t.id in g && g[t.id] == t
         && g[k].outEdges[t].to == t && g[k].outEdges[t].from == g[k]
  }

  /**
   * `Closed` at one node: every out-edge of `n` is filed under its target,
   * leaves `n`, and leads to a node of the network.
   */
  ghost predicate Adjacent(n: RoadNetworkNode, g: map<int, RoadNetworkNode>)
    reads n
  {
    forall x :: x in n.outEdges ==>
      && x.id in g && g[x.id] == x && n.outEdges[x].to == x && n.outEdges[x].from == n
  }

  lemma ClosedAdjacent(g: map<int, RoadNetworkNode>, n: RoadNetworkNode)
    requires Closed(g) && n.id in g && g[n.id] == n
    ensures Adjacent(n, g)
  {
    forall x | x in n.outEdges
      ensures x.id in g && g[x.id] == x && n.outEdges[x].to == x && n.outEdges[x].from == n
    {
      assert x in g[n.id].outEdges;
    }
  }

  /** No road node has an edge to itself. */
  ghost predicate NoSelfLoops(g: map<int, RoadNetworkNode>)
    reads g.Values
  {
    forall k :: k in g ==> g[k] !in g[k].outEdges
  }

  /**
   * The candidate hangs under a committed tree node, is reached from that
   * node's road node by its edge, and its distance is the parent's plus the
   * edge's length.
   */
  ghost predicate Sound(c: Candidate, t: Nodes, nodeOf: map<int, RoadNetworkNode>, g: map<int, RoadNetworkNode>) {
    && c.parent in t && c.parent in nodeOf
    && c.edge.from == nodeOf[c.parent] && c.edge.to == c.node
    && c.dist == t[c.parent].dist + c.edge.length
    && c.node.id in g && g[c.node.id] == c.node
  }

  /** Every entry of the side dictionary sits under its own id and is sound. */
  ghost predicate QueueSound(temp: map<int, Candidate>, t: Nodes, nodeOf: map<int, RoadNetworkNode>, g: map<int, RoadNetworkNode>) {
    forall x :: x in temp ==> temp[x].node.id == x && Sound(temp[x], t, nodeOf, g)
  }

  /** `n` is `o` with nodes added and children appended, nothing else changed. */
  ghost predicate Extends(o: Nodes, n: Nodes) {
    && o.Keys <= n.Keys
    && forall k :: k in o ==>
         && n[k].id == o[k].id && n[k].parent == o[k].parent && n[k].dist == o[k].dist
         && n[k].prob == o[k].prob && o[k].children <= n[k].children
  }

  /** Soundness survives growing the tree. */
  lemma QueueSoundGrows(temp: map<int, Candidate>, t: Nodes, nodeOf: map<int, RoadNetworkNode>,
                        t': Nodes, nodeOf': map<int, RoadNetworkNode>, g: map<int, RoadNetworkNode>)
    requires QueueSound(temp, t, nodeOf, g) && Extends(t, t')
    requires forall k :: k in nodeOf ==> k in nodeOf' && nodeOf'[k] == nodeOf[k]
    ensures QueueSound(temp, t', nodeOf', g)
  {
    forall x | x in temp ensures temp[x].node.id == x && Sound(temp[x], t', nodeOf', g) {
      var c := temp[x];
      assert Sound(c, t, nodeOf, g);
      assert nodeOf'[c.parent] == nodeOf[c.parent];
    }
  }

  /** Adding a sound entry under its own id keeps the side dictionary sound. */
  lemma QueueSoundAdd(temp: map<int, Candidate>, t: Nodes, nodeOf: map<int, RoadNetworkNode>, g: map<int, RoadNetworkNode>, c: Candidate)
    requires QueueSound(temp, t, nodeOf, g) && Sound(c, t, nodeOf, g)
    ensures QueueSound(temp[c.node.id := c], t, nodeOf, g)
  {
  }

  lemma ExtendsTrans(a: Nodes, b: Nodes, c: Nodes)
    requires Extends(a, b) && Extends(b, c)
    ensures Extends(a, c)
  {
  }

  /** A tree grown by one node within `range` keeps every node added since `o` within `range`. */
  lemma NewWithin(o: Nodes, prev: Nodes, cur: Nodes, id: int, range: real)
    requires Extends(prev, cur) && cur.Keys == prev.Keys + {id} && id in cur && cur[id].dist < range
    requires forall k :: k in prev && k !in o ==> prev[k].dist < range
    ensures forall k :: k in cur && k !in o ==> cur[k].dist < range
  {
  }

  /** A tree grown by one node of probability 0 keeps every node added since `o` at probability 0. */
  lemma NewUnweighted(o: Nodes, prev: Nodes, cur: Nodes, id: int)
    requires Extends(prev, cur) && cur.Keys == prev.Keys + {id} && id in cur && cur[id].prob == 0.0
    requires forall k :: k in prev && k !in o ==> prev[k].prob == 0.0
    ensures forall k :: k in cur && k !in o ==> cur[k].prob == 0.0
  {
  }

  /** Committing one more network node leaves one fewer uncommitted. */
  lemma OneFewer(g: set<int>, a: set<int>, x: int)
    requires x in g && x !in a
    ensures |g - (a + {x})| < |g - a|
  {
    assert g - (a + {x}) == (g - a) - {x};
  }

  /** Attaching a leaf extends the store. */
  lemma AttachExtends(m: Nodes, id: int, p: int, dist: real, prob: real)
    requires p in m && id !in m
    ensures Extends(m, Attach(m, id, Some(p), dist, prob))
  {
  }

  /**
   * Every non-root tree node is reached from its parent's road node by the
   * edge recorded for it, and its distance is the parent's plus that edge's
   * length.
   */
  ghost predicate PathLengths(t: Nodes, nodeOf: map<int, RoadNetworkNode>, edgeOf: map<int, Edge>) {
    forall k :: k in t && t[k].parent.Some? ==>
      var p := t[k].parent.value;
      && k in nodeOf && k in edgeOf && p in nodeOf && p in t
      && edgeOf[k].from == nodeOf[p] && edgeOf[k].to == nodeOf[k]
      && t[k].dist == t[p].dist + edgeOf[k].length
  }

  /**
   * A committed tree: a consistent store whose nodes are network nodes
   * under their own ids, with `rootID` as its only root, at distance 0, and
   * path lengths adding up.
   */
  ghost predicate Store(t: Nodes, rank: Rank, nodeOf: map<int, RoadNetworkNode>, edgeOf: map<int, Edge>,
                        g: map<int, RoadNetworkNode>, rootID: int) {
    && ForestArena.Valid(t, rank)
    && nodeOf.Keys == t.Keys
    && (forall k :: k in nodeOf ==> nodeOf[k].id == k && k in g && g[k] == nodeOf[k])
    && (t != map[] ==> rootID in t && t[rootID].dist == 0.0)
    && Roots(t) <= {rootID}
    && PathLengths(t, nodeOf, edgeOf)
  }

  /** Committing a sound candidate for a new id keeps the store sound and only extends it. */
  lemma CommitStore(t: Nodes, rank: Rank, nodeOf: map<int, RoadNetworkNode>, edgeOf: map<int, Edge>,
                    g: map<int, RoadNetworkNode>, rootID: int, c: Candidate)
    requires Store(t, rank, nodeOf, edgeOf, g, rootID) && Sound(c, t, nodeOf, g) && c.node.id !in t
    ensures c.parent in rank
    ensures Store(Attach(t, c.node.id, Some(c.parent), c.dist, 0.0), AttachRank(rank, c.node.id, Some(c.parent)),
                  nodeOf[c.node.id := c.node], edgeOf[c.node.id := c.edge], g, rootID)
    ensures Extends(t, Attach(t, c.node.id, Some(c.parent), c.dist, 0.0))
  {
    var id := c.node.id;
    var t' := Attach(t, id, Some(c.parent), c.dist, 0.0);
    var n' := nodeOf[id := c.node];
    var e' := edgeOf[id := c.edge];
    AttachValid(t, rank, id, Some(c.parent), c.dist, 0.0);
    AttachExtends(t, id, c.parent, c.dist, 0.0);
    assert Roots(t') <= {rootID} by {
      forall k | k in Roots(t') ensures k == rootID {
        assert k in t;
      }
    }
    assert PathLengths(t', n', e') by {
      forall k | k in t' && t'[k].parent.Some?
        ensures var p := t'[k].parent.value;
          && k in n' && k in e' && p in n' && p in t'
          && e'[k].from == n'[p] && e'[k].to == n'[k]
          && t'[k].dist == t'[p].dist + e'[k].length
      {
        if k != id {
          assert k in t && t[k].parent == t'[k].parent;
        }
      }
    }
  }

  /** The candidates `GetConnectedItems` builds for a committed node are sound. */
  lemma ConnectedSound(r: seq<Candidate>, node: RoadNetworkNode, t: Nodes, nodeOf: map<int, RoadNetworkNode>,
                       g: map<int, RoadNetworkNode>)
    requires Adjacent(node, g) && node.id in t && node.id in nodeOf && nodeOf[node.id] == node
    requires forall j :: 0 <= j < |r| ==>
      && r[j].parent == node.id && r[j].node in node.outEdges && r[j].edge == node.outEdges[r[j].node]
      && r[j].dist == t[node.id].dist + r[j].edge.length
    ensures forall j :: 0 <= j < |r| ==> Sound(r[j], t, nodeOf, g)
  {
    forall j | 0 <= j < |r| ensures Sound(r[j], t, nodeOf, g) {
      assert r[j].node in node.outEdges;
    }
  }

  /** Candidates for distinct network nodes have distinct ids. */
  lemma SoundDistinct(r: seq<Candidate>, t: Nodes, nodeOf: map<int, RoadNetworkNode>, g: map<int, RoadNetworkNode>)
    requires forall j :: 0 <= j < |r| ==> Sound(r[j], t, nodeOf, g)
    requires forall a, b :: 0 <= a < b < |r| ==> r[a].node != r[b].node
    ensures DistinctIds(r)
  {
    forall a, b | 0 <= a < b < |r| ensures r[a].node.id != r[b].node.id {
      assert Sound(r[a], t, nodeOf, g) && Sound(r[b], t, nodeOf, g);
    }
  }

  /**
   * The loop of `Initialization`: every connection is enqueued, in order,
   * and recorded in the side dictionary.
   */
  method EnqueueAll(connections: seq<Candidate>, ghost t: Nodes, ghost n: map<int, RoadNetworkNode>, ghost g: map<int, RoadNetworkNode>)
    returns (queue: seq<Candidate>, temp: map<int, Candidate>)
    requires DistinctIds(connections)
    requires forall j :: 0 <= j < |connections| ==> Sound(connections[j], t, n, g) && connections[j].node.id !in t
    ensures queue == connections && temp == View(connections)
    ensures QueueSound(temp, t, n, g) && forall x :: x in temp ==> x !in t
  {
    queue := [];
    temp := map[];
    var i := 0;
    while i < |connections|
      invariant 0 <= i <= |connections|
      invariant queue == connections[..i]
      invariant temp == View(queue)
      invariant QueueSound(temp, t, n, g) && forall x :: x in temp ==> x !in t
    {
      var ti := connections[i];
      QueueSoundAdd(temp, t, n, g, ti);
      forall j | 0 <= j < |queue| ensures queue[j].node.id != ti.node.id {
        assert queue[j] == connections[j];
      }
      ViewLacks(queue, ti.node.id);
      ViewAppend(queue, ti);
      TakeOneMore(connections, i);
      queue := queue + [ti];
      temp := temp[ti.node.id := ti];
      i := i + 1;
    }
    assert connections[..i] == connections;
  }

  /** Probabilities play no part in a committed tree's soundness. */
  lemma ShapeStore(t: Nodes, n: Nodes, rank: Rank, nodeOf: map<int, RoadNetworkNode>, edgeOf: map<int, Edge>,
                   g: map<int, RoadNetworkNode>, rootID: int)
    requires Store(t, rank, nodeOf, edgeOf, g, rootID) && SameShape(t, n)
    ensures Store(n, rank, nodeOf, edgeOf, g, rootID)
  {
    ShapeValid(t, n, rank);
    forall k | k in Roots(n) ensures k == rootID {
      assert n[k].parent == t[k].parent;
    }
    forall k | k in n && n[k].parent.Some?
      ensures var p := n[k].parent.value;
        && k in nodeOf && k in edgeOf && p in nodeOf && p in n
        && edgeOf[k].from == nodeOf[p] && edgeOf[k].to == nodeOf[k]
        && n[k].dist == n[p].dist + edgeOf[k].length
    {
      assert t[k].parent == n[k].parent;
    }
  }

  /** A committed tree lies wholly below `rootID`. */
  lemma AllUnderRoot(t: Nodes, rank: Rank, nodeOf: map<int, RoadNetworkNode>, edgeOf: map<int, Edge>,
                     g: map<int, RoadNetworkNode>, rootID: int)
    requires Store(t, rank, nodeOf, edgeOf, g, rootID)
    ensures forall x :: x in t ==> InSubtree(t, rank, rootID, x)
  {
    forall x | x in t ensures InSubtree(t, rank, rootID, x) {
      RootOfIsRoot(t, rank, x);
      assert RootOf(t, rank, x) in Roots(t);
    }
  }

  /** The record of `objectId` is deleted at the network node of every id in `ids`. */
  method DeleteAll(g: map<int, RoadNetworkNode>, ids: seq<int>, objectId: int)
    requires forall k :: k in g ==> g[k].id == k
    requires forall j :: 0 <= j < |ids| ==> ids[j] in g
    modifies g.Values
    ensures forall k :: k in g ==>
      g[k].predictedObjects == if k in ids then old(g[k].predictedObjects) - {objectId} else old(g[k].predictedObjects)
    ensures forall k :: k in g ==> g[k].outEdges == old(g[k].outEdges)
  {
    var i := 0;
    while i < |ids|
      invariant 0 <= i <= |ids|
      invariant forall k :: k in g ==>
        g[k].predictedObjects == if k in ids[..i] then old(g[k].predictedObjects) - {objectId} else old(g[k].predictedObjects)
      invariant forall k :: k in g ==> g[k].outEdges == old(g[k].outEdges)
    {
      var x := ids[i];
      assert forall k :: k in g && k != x ==> g[k] != g[x];
      g[x].DeletePredictedObject(objectId);
      TakeOneMore(ids, i);
      i := i + 1;
    }
    assert ids[..i] == ids;
  }

  /**
   * The record of `objectId` is added at the network node of every id in
   * `ids`, with that tree node's probability and distance.
   */
  method RegisterAll(g: map<int, RoadNetworkNode>, n: Nodes, ids: seq<int>, objectId: int)
    requires forall k :: k in g ==> g[k].id == k
    requires forall j :: 0 <= j < |ids| ==> ids[j] in g && ids[j] in n
    modifies g.Values
    ensures forall k :: k in g ==>
      g[k].predictedObjects == if k in ids then AddRecord(old(g[k].predictedObjects), PredictedObjectRecord(objectId, n[k].prob, n[k].dist))
                               else old(g[k].predictedObjects)
    ensures forall k :: k in g ==> g[k].outEdges == old(g[k].outEdges)
  {
    var i := 0;
    while i < |ids|
      invariant 0 <= i <= |ids|
      invariant forall k :: k in g ==>
        g[k].predictedObjects == if k in ids[..i] then AddRecord(old(g[k].predictedObjects), PredictedObjectRecord(objectId, n[k].prob, n[k].dist))
                                 else old(g[k].predictedObjects)
      invariant forall k :: k in g ==> g[k].outEdges == old(g[k].outEdges)
    {
      var x := ids[i];
      assert forall k :: k in g && k != x ==> g[k] != g[x];
      g[x].AddPredictedObject(objectId, n[x].prob, n[x].dist);
      TakeOneMore(ids, i);
      i := i + 1;
    }
    assert ids[..i] == ids;
  }

  /**
   * The probability part of `ObjectProbabilityExpansion` over the store
   * `o`: `start` gets 1; in breadth-first order, each child of a dequeued
   * node gets its parent's probability over the parent's child count, and
   * one whose share exceeds `thr` is dequeued in turn. `dequeued` lists the
   * dequeued nodes other than `start`, the ones that get the object's record.
   */
  method SpreadReached(o: Nodes, ghost rank: Rank, start: int, thr: real) returns (n: Nodes, dequeued: seq<int>)
    requires ForestArena.Valid(o, rank) && start in o
    ensures SameShape(o, n)
    ensures forall x :: x in n ==>
      n[x].prob == if Assigned(o, rank, start, thr, x) then PathProb(o, rank, start, x) else o[x].prob
    ensures forall x :: x in dequeued <==> x in o && x != start && Reached(o, rank, start, thr, x)
  {
    var order := TraverseSubtree(o, rank, start);
    n := o[start := o[start].(prob := 1.0)];
    var reached := {start};
    dequeued := [];
    ghost var visited := {start};
    var i := 1;
    while i < |order|
      invariant 1 <= i <= |order|
      invariant visited == Elements(order[..i])
      invariant SameShape(o, n)
      invariant forall x :: x in n ==>
        n[x].prob == if x in visited && Assigned(o, rank, start, thr, x) then PathProb(o, rank, start, x) else o[x].prob
      invariant forall x :: x in visited ==> (x in reached <==> Reached(o, rank, start, thr, x))
      invariant reached <= visited
      invariant forall x :: x in dequeued <==> x in reached && x != start
    {
      var x := order[i];
      var added;
      n, reached, added := SpreadVisit(o, rank, start, thr, order, i, n, reached, visited);
      if added {
        dequeued := dequeued + [x];
      }
      ElementsStep(order, i);
      visited := visited + {x};
      i := i + 1;
    }
    assert order[..i] == order;
    forall x | x in n && Assigned(o, rank, start, thr, x) ensures x in visited {
      AssignedInSubtree(o, rank, start, thr, x);
    }
    forall k | k in o && Reached(o, rank, start, thr, k) ensures k in visited {
      ReachedInSubtree(o, rank, start, thr, k);
    }
  }

  /**
   * One visit of the breadth-first pass in `SpreadReached`: the node `order[i]` receives its share of its parent's
   * probability when the parent was reached, and is reached itself when that share is above the threshold.
   */
  method SpreadVisit(o: Nodes, ghost rank: Rank, start: int, thr: real, order: seq<int>, i: int,
                     n0: Nodes, reached0: set<int>, ghost visited: set<int>)
    returns (n: Nodes, reached: set<int>, added: bool)
    requires ForestArena.Valid(o, rank) && start in o && 0 < i < |order| && order[0] == start && Distinct(order)
    requires forall x :: x in order <==> x in o && InSubtree(o, rank, start, x)
    requires ParentsEarlier(o, order)
    requires visited == Elements(order[..i])
    requires SameShape(o, n0)
    requires forall x :: x in n0 ==>
      n0[x].prob == if x in visited && Assigned(o, rank, start, thr, x) then PathProb(o, rank, start, x) else o[x].prob
    requires forall x :: x in visited ==> (x in reached0 <==> Reached(o, rank, start, thr, x))
    requires reached0 <= visited
    ensures order[i] != start && order[i] !in visited
    ensures SameShape(o, n)
    ensures forall x :: x in n ==>
      n[x].prob == if x in visited + {order[i]} && Assigned(o, rank, start, thr, x) then PathProb(o, rank, start, x)
      else o[x].prob
    ensures forall x :: x in visited + {order[i]} ==> (x in reached <==> Reached(o, rank, start, thr, x))
    ensures reached == if added then reached0 + {order[i]} else reached0
  {
    var x := order[i];
    ParentEarlier(o, rank, start, order, i);
    var q := n0[x].parent.value;
    ReachedUnfold(o, rank, start, thr, x);
    assert q in visited && x !in visited;
    n, reached, added := n0, reached0, false;
    if q in reached0 {
      ReachedAssigned(o, rank, start, thr, q);
      assert n0[q].prob == PathProb(o, rank, start, q) && n0[q].children == o[q].children;
      var share := n0[q].prob / (|n0[q].children| as real);
      assert share == PathProb(o, rank, start, x);
      n := n0[x := n0[x].(prob := share)];
      if share > thr {
        reached, added := reached0 + {x}, true;
      }
    }
  }

  /**
   * The registration half of `ObjectProbabilityExpansion`: given the shares `n` and the
   * dequeued ids as `SpreadReached` produces them from `o`, each network node's bag gets the
   * object's record exactly when `RegisterBag` says so.
   */
  method RegisterReached(o: Nodes, ghost rank: Rank, start: int, thr: real, objectId: int,
                         g: map<int, RoadNetworkNode>, n: Nodes, dequeued: seq<int>)
    requires ForestArena.Valid(o, rank) && start in o
    requires (forall k :: k in g ==> g[k].id == k) && forall k :: k in o ==> k in g
    requires SameShape(o, n)
    requires forall x :: x in n ==>
      n[x].prob == if Assigned(o, rank, start, thr, x) then PathProb(o, rank, start, x) else o[x].prob
    requires forall x :: x in dequeued <==> x in o && x != start && Reached(o, rank, start, thr, x)
    modifies g.Values
    ensures forall k :: k in g ==> g[k].predictedObjects == RegisterBag(o, rank, start, thr, objectId, k, old(g[k].predictedObjects))
    ensures forall k :: k in g ==> g[k].outEdges == old(g[k].outEdges)
  {
    forall j | 0 <= j < |dequeued|
      ensures var x := dequeued[j]; x in g && x in n && n[x].prob == PathProb(o, rank, start, x) && n[x].dist == o[x].dist
    {
      assert dequeued[j] in dequeued;
      ReachedAssigned(o, rank, start, thr, dequeued[j]);
    }
    RegisterAll(g, n, dequeued, objectId);
  }

  class PredectiveTree {
    const roadNetwork: RoadNetworks
    const range: real
    const probabilityThreshold: real
    const rootID: int
    /** The road node of the current root item. */
    var root: RoadNetworkNode
    /** The id of the current root item (`rootitem`); re-rooting moves it down the tree. */
    var rootItem: int
    /** The committed tree (`myTree`). */
    var myTree: Nodes
    /** The road node (`Node`) of each committed tree node. */
    var nodeOf: map<int, RoadNetworkNode>
    /** The edge each committed non-root node was reached by. */
    ghost var edgeOf: map<int, Edge>
    ghost var rank: Rank
    /** The priority queue (`mainQueue`), in insertion order. */
    var mainQueue: seq<Candidate>
    /** The queued entry of each queued id (`tempStorage`). */
    var tempStorage: map<int, Candidate>

    /**
     * The committed tree is a sound store rooted at `rootID`, and the root
     * item is either the original root before anything is committed or a
     * committed node whose road node is `root`.
     */
    ghost predicate Valid()
      reads this, roadNetwork
    {
      && Store(myTree, rank, nodeOf, edgeOf, roadNetwork.nodes, rootID)
      && root.id == rootItem
      && (rootItem in myTree || (myTree == map[] && rootItem == rootID))
      && (rootItem in nodeOf ==> nodeOf[rootItem] == root)
    }

    /** The queue holds one entry per id, `tempStorage` mirrors it, and every entry is sound. */
    ghost predicate Ready()
      reads this, roadNetwork
    {
      DistinctIds(mainQueue) && tempStorage == View(mainQueue) && QueueSound(tempStorage, myTree, nodeOf, roadNetwork.nodes)
    }

    /** No queued id is committed yet. */
    ghost predicate Fresh()
      reads this
    {
      forall x :: x in tempStorage ==> x !in myTree
    }

    /** The road network the builder walks is closed and keyed by id. */
    ghost predicate Network()
      reads roadNetwork, roadNetwork.nodes.Values
    {
      Closed(roadNetwork.nodes)
    }

    /** The root item is the road node's, with no parent, at distance 0; tree and queue start empty. */
    constructor(roadNetwork: RoadNetworks, n: RoadNetworkNode, range: real, probabilityThreshold: real)
      ensures this.roadNetwork == roadNetwork && this.range == range && this.probabilityThreshold == probabilityThreshold
      ensures root == n && rootID == n.id && rootItem == n.id
      ensures myTree == map[] && nodeOf == map[] && mainQueue == [] && tempStorage == map[]
      ensures Valid() && Ready()
    {
      this.roadNetwork := roadNetwork;
      this.range := range;
      this.probabilityThreshold := probabilityThreshold;
      root := n;
      rootID := n.id;
      rootItem := n.id;
      myTree := map[];
      nodeOf := map[];
      edgeOf := map[];
      rank := map[];
      mainQueue := [];
      tempStorage := map[];
    }

    /** The key of the entry `Dequeue` would take, and 0 for an empty queue. */
    function GetNextDistance(): (d: real)
      reads this
      ensures mainQueue == [] ==> d == 0.0
      ensures mainQueue != [] ==> d == mainQueue[FirstMin(mainQueue)].dist
      ensures forall j :: 0 <= j < |mainQueue| ==> d <= mainQueue[j].dist
    {
      if mainQueue == [] then 0.0 else MinDist(mainQueue)
    }

    /** Takes the first entry with the smallest key off the queue and out of `tempStorage`. */
    method GetNextItem() returns (c: Candidate)
      requires mainQueue != []
      modifies this
      ensures var i := FirstMin(old(mainQueue));
        c == old(mainQueue)[i] && mainQueue == old(mainQueue)[..i] + old(mainQueue)[i + 1..]
      ensures tempStorage == old(tempStorage) - {c.node.id}
      ensures myTree == old(myTree) && nodeOf == old(nodeOf) && edgeOf == old(edgeOf) && rank == old(rank)
      ensures root == old(root) && rootItem == old(rootItem)
      ensures unchanged(roadNetwork.nodes.Values)
    {
      var i := FirstMin(mainQueue);
      c := mainQueue[i];
      mainQueue := mainQueue[..i] + mainQueue[i + 1..];
      if c.node.id in tempStorage {
        tempStorage := tempStorage - {c.node.id};
      }
    }

    /** Offers a candidate to the queue under the decrease-key rule (`Offer`, `OfferView`). */
    method InsertQueue(it: Candidate)
      requires DistinctIds(mainQueue) && tempStorage == View(mainQueue)
      modifies this
      ensures mainQueue == Offer(old(mainQueue), it)
      ensures DistinctIds(mainQueue) && tempStorage == View(mainQueue)
      ensures myTree == old(myTree) && nodeOf == old(nodeOf) && edgeOf == old(edgeOf) && rank == old(rank)
      ensures root == old(root) && rootItem == old(rootItem)
      ensures unchanged(roadNetwork.nodes.Values)
    {
      OfferView(mainQueue, it);
      if it.node.id !in View(mainQueue) {
        mainQueue := mainQueue + [it];
        if it.node.id !in tempStorage {
          tempStorage := tempStorage[it.node.id := it];
        }
      } else {
        var queued := tempStorage[it.node.id];
        if queued.dist > it.dist {
          var i := IndexOfId(mainQueue, queued.node.id);
          mainQueue := mainQueue[..i] + mainQueue[i + 1..];
          tempStorage := tempStorage - {queued.node.id};
          mainQueue := mainQueue + [it];
          tempStorage := tempStorage[it.node.id := it];
        }
      }
    }

    /** Replaces the queue and the side dictionary, nothing else. */
    method SetQueue(q: seq<Candidate>, temp: map<int, Candidate>)
      modifies this
      ensures mainQueue == q && tempStorage == temp
      ensures myTree == old(myTree) && nodeOf == old(nodeOf) && edgeOf == old(edgeOf) && rank == old(rank)
      ensures root == old(root) && rootItem == old(rootItem)
      ensures unchanged(roadNetwork.nodes.Values)
    {
      mainQueue, tempStorage := q, temp;
    }

    /** A new, empty priority queue; `tempStorage` is left as it is. */
    method CreateMainQueue()
      modifies this
      ensures mainQueue == [] && tempStorage == old(tempStorage)
      ensures myTree == old(myTree) && nodeOf == old(nodeOf) && edgeOf == old(edgeOf) && rank == old(rank)
      ensures root == old(root) && rootItem == old(rootItem)
      ensures unchanged(roadNetwork.nodes.Values)
    {
      mainQueue := [];
    }

    /**
     * One candidate per out-edge of `node` whose target is not in the tree
     * yet, hanging under `node` at `dist` plus the edge's length.
     */
    method GetConnectedItems(node: RoadNetworkNode, dist: real) returns (r: seq<Candidate>)
      requires forall t :: t in node.outEdges ==> node.outEdges[t].to == t
      ensures forall j :: 0 <= j < |r| ==>
        && r[j].parent == node.id && r[j].node in node.outEdges && r[j].edge == node.outEdges[r[j].node]
        && r[j].node.id !in myTree && r[j].dist == dist + r[j].edge.length
      ensures forall t :: t in node.outEdges && t.id !in myTree ==> t in NodesOf(r)
      ensures forall a, b :: 0 <= a < b < |r| ==> r[a].node != r[b].node
    {
      var rest := node.outEdges.Keys;
      r := [];
      while rest != {}
        invariant rest <= node.outEdges.Keys
        invariant forall j :: 0 <= j < |r| ==>
          && r[j].parent == node.id && r[j].node in node.outEdges && r[j].edge == node.outEdges[r[j].node]
          && r[j].node.id !in myTree && r[j].dist == dist + r[j].edge.length && r[j].node !in rest
        invariant forall t :: t in node.outEdges && t !in rest && t.id !in myTree ==> t in NodesOf(r)
        invariant forall a, b :: 0 <= a < b < |r| ==> r[a].node != r[b].node
        decreases |rest|
      {
        ghost var w := Member(rest);
        var t :| t in rest;
        var e := node.outEdges[t];
        var nout := e.to;
        if nout.id !in myTree {
          var c := Candidate(nout, node.id, dist + e.length, e);
          assert (r + [c])[..|r|] == r;
          r := r + [c];
        }
        rest := rest - {t};
      }
    }

    /** Replaces the committed tree and its ghost companions, nothing else. */
    method SetTree(t: Nodes, n: map<int, RoadNetworkNode>, ghost e: map<int, Edge>, ghost r: Rank)
      modifies this
      ensures myTree == t && nodeOf == n && edgeOf == e && rank == r
      ensures mainQueue == old(mainQueue) && tempStorage == old(tempStorage)
      ensures root == old(root) && rootItem == old(rootItem)
      ensures unchanged(roadNetwork.nodes.Values)
    {
      myTree, nodeOf, edgeOf, rank := t, n, e, r;
    }

    /** Replaces the arena by one of the same shape that differs in its probabilities; nothing else changes. */
    method SetProbabilities(t: Nodes)
      modifies this
      ensures myTree == t && nodeOf == old(nodeOf) && edgeOf == old(edgeOf) && rank == old(rank)
      ensures mainQueue == old(mainQueue) && tempStorage == old(tempStorage)
      ensures root == old(root) && rootItem == old(rootItem)
      ensures unchanged(roadNetwork.nodes.Values)
      ensures forall k :: k in roadNetwork.nodes ==>
        roadNetwork.nodes[k].predictedObjects == old(roadNetwork.nodes[k].predictedObjects)
        && roadNetwork.nodes[k].outEdges == old(roadNetwork.nodes[k].outEdges)
    {
      myTree := t;
    }

    /**
     * `AddItem`: commits a candidate under its parent, unless its id is
     * already in the tree.
     */
    method AddItem(it: Candidate)
      requires Valid() && Sound(it, myTree, nodeOf, roadNetwork.nodes)
      modifies this
      ensures Valid()
      ensures it.node.id in old(myTree) ==> myTree == old(myTree) && nodeOf == old(nodeOf)
      ensures it.node.id !in old(myTree) ==>
        && myTree == Attach(old(myTree), it.node.id, Some(it.parent), it.dist, 0.0)
        && nodeOf == old(nodeOf)[it.node.id := it.node]
      ensures Extends(old(myTree), myTree)
      ensures mainQueue == old(mainQueue) && tempStorage == old(tempStorage)
      ensures root == old(root) && rootItem == old(rootItem)
      ensures unchanged(roadNetwork.nodes.Values)
    {
      var id := it.node.id;
      if id !in myTree {
        CommitStore(myTree, rank, nodeOf, edgeOf, roadNetwork.nodes, rootID, it);
        assert rootItem in myTree && rootItem != id;
        SetTree(Attach(myTree, id, Some(it.parent), it.dist, 0.0), nodeOf[id := it.node], edgeOf[id := it.edge],
          AttachRank(rank, id, Some(it.parent)));
      }
    }

    /**
     * Commits the root item and queues one candidate per out-neighbour of
     * the root other than the root itself, at the length of the edge to it.
     */
    method Initialization()
      requires Valid() && Network() && myTree == map[] && mainQueue == [] && tempStorage == map[]
      requires rootID in roadNetwork.nodes && roadNetwork.nodes[rootID] == root
      modifies this
      ensures Valid() && Ready() && Fresh()
      ensures myTree == map[rootID := Item(rootID, None, [], 0.0, 0.0)] && nodeOf == map[rootID := root]
      ensures forall j :: 0 <= j < |mainQueue| ==>
        && mainQueue[j].parent == rootID && mainQueue[j].node in old(root.outEdges) && mainQueue[j].node != root
        && mainQueue[j].dist == old(root.outEdges)[mainQueue[j].node].length
      ensures forall t :: t in old(root.outEdges) && t != root ==> t in NodesOf(mainQueue)
      ensures Covered(myTree, myTree.Keys, tempStorage, roadNetwork.nodes)
      ensures root == old(root) && rootItem == old(rootItem)
      ensures unchanged(roadNetwork.nodes.Values)
    {
      ghost var g := roadNetwork.nodes;
      var t, n := map[rootID := Item(rootID, None, [], 0.0, 0.0)], map[rootID := root];
      assert Store(t, map[rootID := 0], n, map[], g, rootID) by {
        assert Roots(t) == {rootID};
      }
      SetTree(t, n, map[], map[rootID := 0]);
      var queue, temp := RootQueue(t, n);
      SetQueue(queue, temp);
      assert myTree == t && nodeOf == n && edgeOf == map[] && rank == map[rootID := 0];
    }

    /**
     * The loop of `Initialization`, on a tree holding just the root: one
     * entry per out-neighbour of the root other than the root itself, at the
     * length of the edge to it, which covers the frontier.
     */
    method RootQueue(ghost t: Nodes, ghost n: map<int, RoadNetworkNode>) returns (queue: seq<Candidate>, temp: map<int, Candidate>)
      requires Network() && rootID in roadNetwork.nodes && roadNetwork.nodes[rootID] == root
      requires myTree == t && t == map[rootID := Item(rootID, None, [], 0.0, 0.0)] && n == map[rootID := root]
      ensures DistinctIds(queue) && temp == View(queue)
      ensures QueueSound(temp, t, n, roadNetwork.nodes) && forall x :: x in temp ==> x !in t
      ensures forall j :: 0 <= j < |queue| ==>
        && queue[j].parent == rootID && queue[j].node in root.outEdges && queue[j].node != root
        && queue[j].dist == root.outEdges[queue[j].node].length
      ensures forall x :: x in root.outEdges && x != root ==> x in NodesOf(queue)
      ensures Covered(t, t.Keys, temp, roadNetwork.nodes)
    {
      ghost var g := roadNetwork.nodes;
      ClosedAdjacent(g, root);
      var connections := GetConnectedItems(root, 0.0);
      assert forall j :: 0 <= j < |connections| ==> connections[j].node != root;
      ConnectedSound(connections, root, t, n, g);
      SoundDistinct(connections, t, n, g);
      queue, temp := EnqueueAll(connections, t, n, g);
      forall x | x in root.outEdges && x != root ensures x in NodesOf(connections) {
        assert g[x.id] == x;
      }
      RootCovered(t, connections, g, root, root.outEdges);
    }

    /**
     * Grows the tree, nearest candidate first, until the queue is empty or
     * its nearest entry is `range` away. A popped candidate whose node is
     * already committed is dropped. The frontier stays covered (`Covered`),
     * so on return every edge out of the tree that ends within `range` ends
     * in the tree (`Expanded`). Without self-loops every node committed here
     * lies within `range`. With `settling`, when `e` snapshots the out-edges
     * and the start is `Settling`, the expansion stays `Settling`: no edge
     * between two committed nodes is a shortcut.
     */
    method Process(ghost noLoops: bool, ghost settling: bool, ghost e: map<int, map<RoadNetworkNode, Edge>>)
      requires Valid() && Ready() && Network() && myTree != map[]
      requires Covered(myTree, myTree.Keys, tempStorage, roadNetwork.nodes)
      requires noLoops ==> NoSelfLoops(roadNetwork.nodes) && Fresh()
      requires settling ==> OutEdgesOf(e, roadNetwork.nodes) && Settling(myTree, tempStorage, e)
      modifies this
      ensures Expanding(old(myTree), noLoops, settling, e)
      ensures Expanded(myTree, roadNetwork.nodes, range)
      ensures mainQueue == [] || GetNextDistance() >= range
      ensures root == old(root) && rootItem == old(rootItem)
      ensures unchanged(roadNetwork.nodes.Values)
    {
      ghost var g := roadNetwork.nodes;
      var cDistance := GetNextDistance();
      while cDistance < range
        invariant Expanding(old(myTree), noLoops, settling, e)
        invariant unchanged(g.Values)
        invariant settling ==> OutEdgesOf(e, g)
        invariant root == old(root) && rootItem == old(rootItem)
        invariant cDistance == GetNextDistance() || cDistance < range
        invariant noLoops ==> cDistance == GetNextDistance()
        decreases |g.Keys - myTree.Keys|, |mainQueue|
      {
        if mainQueue == [] {
          break;
        }
        var committed, id := ProcessNext(noLoops, old(myTree), settling, e);
        if committed {
          if mainQueue != [] {
            cDistance := GetNextDistance();
          } else {
            break;
          }
        }
      }
      CoveredExpanded(myTree, tempStorage, g, mainQueue, range);
    }

    /**
     * The loop invariant of `Process`, grown from `o`: the builder is sound,
     * the frontier covered and the tree only grown; without self-loops no
     * queued id is committed; with `settling`, the expansion is `Settling`
     * over the out-edge snapshot `e`.
     */
    ghost predicate Expanding(o: Nodes, noLoops: bool, settling: bool, e: map<int, map<RoadNetworkNode, Edge>>)
      reads this, roadNetwork, roadNetwork.nodes.Values
    {
      && Valid() && Ready() && Network() && myTree != map[]
      && Covered(myTree, myTree.Keys, tempStorage, roadNetwork.nodes)
      && GrownFrom(o, noLoops)
      && (noLoops ==> NoSelfLoops(roadNetwork.nodes) && Fresh())
      && (settling ==> Settling(myTree, tempStorage, e))
    }

    /**
     * One round of the loop of `Process`: takes the nearest candidate off the
     * queue and, unless its node is already in the tree, commits it. Without
     * self-loops a popped candidate is never stale.
     */
    method ProcessNext(ghost noLoops: bool, ghost o: Nodes, ghost settling: bool, ghost e: map<int, map<RoadNetworkNode, Edge>>) returns (committed: bool, ghost id: int)
      requires Expanding(o, noLoops, settling, e) && mainQueue != []
      requires noLoops ==> GetNextDistance() < range
      requires settling ==> OutEdgesOf(e, roadNetwork.nodes)
      modifies this
      ensures Expanding(o, noLoops, settling, e)
      ensures Extends(old(myTree), myTree)
      ensures !committed ==> myTree == old(myTree) && |mainQueue| < old(|mainQueue|)
      ensures committed ==> |roadNetwork.nodes.Keys - myTree.Keys| < |roadNetwork.nodes.Keys - old(myTree).Keys|
      ensures committed ==>
        && id in roadNetwork.nodes && id !in old(myTree) && myTree.Keys == old(myTree).Keys + {id}
        && myTree[id].dist == old(GetNextDistance()) && myTree[id].prob == 0.0
      ensures noLoops ==> committed
      ensures root == old(root) && rootItem == old(rootItem)
      ensures unchanged(roadNetwork.nodes.Values)
    {
      ghost var g := roadNetwork.nodes;
      ghost var ts, before, d := tempStorage, myTree, GetNextDistance();
      var ti := PopNext(settling, e);
      committed, id := ti.node.id !in myTree, ti.node.id;
      if committed {
        Step(ti, noLoops, o, settling, ts, e);
      } else {
        assert myTree.Keys + {id} == myTree.Keys;
      }
    }

    /**
     * The pop of `ProcessNext`: the nearest candidate leaves the queue, and
     * the frontier stays covered once its id counts as committed. With
     * `settling`, the queue keeps no key below the popped one and every edge
     * out of the popped node has non-negative length.
     */
    method PopNext(ghost settling: bool, ghost e: map<int, map<RoadNetworkNode, Edge>>) returns (ti: Candidate)
      requires Valid() && Ready() && Network() && mainQueue != []
      requires Covered(myTree, myTree.Keys, tempStorage, roadNetwork.nodes)
      requires settling ==> OutEdgesOf(e, roadNetwork.nodes) && NonNegative(e)
      modifies this
      ensures Valid() && Ready()
      ensures Sound(ti, myTree, nodeOf, roadNetwork.nodes) && ti.dist == old(GetNextDistance())
      ensures ti.node.id in old(tempStorage) && old(tempStorage)[ti.node.id] == ti
      ensures tempStorage == old(tempStorage) - {ti.node.id} && |mainQueue| < old(|mainQueue|)
      ensures Covered(myTree, myTree.Keys + {ti.node.id}, tempStorage, roadNetwork.nodes)
      ensures settling ==> PoppedAt(myTree, old(tempStorage), tempStorage, e, ti.node.id, ti.dist) && LeavesNonNegative(ti.node)
      ensures myTree == old(myTree) && nodeOf == old(nodeOf) && edgeOf == old(edgeOf) && rank == old(rank)
      ensures root == old(root) && rootItem == old(rootItem)
      ensures unchanged(roadNetwork.nodes.Values)
    {
      ghost var g := roadNetwork.nodes;
      ghost var q, ts := mainQueue, tempStorage;
      ViewHas(q, FirstMin(q));
      ViewRemove(q, FirstMin(q));
      if settling {
        CoveredFrontier(myTree, ts, g, e);
        ViewFloor(q, GetNextDistance());
        NonNegativeAt(g, e, q[FirstMin(q)].node);
      }
      ti := GetNextItem();
      assert Sound(ti, myTree, nodeOf, g) by {
        assert ts[ti.node.id] == ti;
      }
      CoveredPop(myTree, ts, g, ti.node.id);
    }

    /**
     * The inner loop of `Process`: every candidate whose id is not in the
     * tree is offered to the queue, in order.
     */
    method OfferAll(connections: seq<Candidate>, ghost t: Nodes, ghost n: map<int, RoadNetworkNode>,
                    ghost g: map<int, RoadNetworkNode>, ghost noLoops: bool, ghost lo: real)
      requires DistinctIds(mainQueue) && tempStorage == View(mainQueue) && QueueSound(tempStorage, t, n, g)
      requires forall j :: 0 <= j < |connections| ==> Sound(connections[j], t, n, g)
      requires noLoops ==> (forall x :: x in tempStorage ==> x !in t) && forall j :: 0 <= j < |connections| ==> connections[j].node.id !in t
      modifies this
      ensures DistinctIds(mainQueue) && tempStorage == View(mainQueue) && QueueSound(tempStorage, t, n, g)
      ensures noLoops ==> forall x :: x in tempStorage ==> x !in t
      ensures forall j :: 0 <= j < |connections| && connections[j].node.id !in myTree ==>
        connections[j].node.id in tempStorage && tempStorage[connections[j].node.id].dist <= connections[j].dist
      ensures Lowers(old(tempStorage), tempStorage)
      ensures Floor(old(tempStorage), lo) && (forall j :: 0 <= j < |connections| ==> lo <= connections[j].dist) ==>
        Floor(tempStorage, lo)
      ensures myTree == old(myTree) && nodeOf == old(nodeOf) && edgeOf == old(edgeOf) && rank == old(rank)
      ensures root == old(root) && rootItem == old(rootItem)
      ensures unchanged(roadNetwork.nodes.Values)
    {
      ghost var above := Floor(tempStorage, lo) && forall j :: 0 <= j < |connections| ==> lo <= connections[j].dist;
      var i := 0;
      while i < |connections|
        invariant 0 <= i <= |connections|
        invariant DistinctIds(mainQueue) && tempStorage == View(mainQueue) && QueueSound(tempStorage, t, n, g)
        invariant noLoops ==> forall x :: x in tempStorage ==> x !in t
        invariant forall j :: 0 <= j < i && connections[j].node.id !in myTree ==>
          connections[j].node.id in tempStorage && tempStorage[connections[j].node.id].dist <= connections[j].dist
        invariant Lowers(old(tempStorage), tempStorage)
        invariant above ==> Floor(tempStorage, lo)
        invariant myTree == old(myTree) && nodeOf == old(nodeOf) && edgeOf == old(edgeOf) && rank == old(rank)
        invariant root == old(root) && rootItem == old(rootItem)
      {
        OfferOne(connections[i], t, n, g, noLoops, lo);
        i := i + 1;
      }
    }

    /** One round of `OfferAll`: the candidate is offered unless its id is in the tree. */
    method OfferOne(newti: Candidate, ghost t: Nodes, ghost n: map<int, RoadNetworkNode>,
                    ghost g: map<int, RoadNetworkNode>, ghost noLoops: bool, ghost lo: real)
      requires DistinctIds(mainQueue) && tempStorage == View(mainQueue) && QueueSound(tempStorage, t, n, g)
      requires Sound(newti, t, n, g)
      requires noLoops ==> (forall x :: x in tempStorage ==> x !in t) && newti.node.id !in t
      modifies this
      ensures DistinctIds(mainQueue) && tempStorage == View(mainQueue) && QueueSound(tempStorage, t, n, g)
      ensures noLoops ==> forall x :: x in tempStorage ==> x !in t
      ensures newti.node.id !in myTree ==> newti.node.id in tempStorage && tempStorage[newti.node.id].dist <= newti.dist
      ensures Lowers(old(tempStorage), tempStorage)
      ensures Floor(old(tempStorage), lo) && lo <= newti.dist ==> Floor(tempStorage, lo)
      ensures myTree == old(myTree) && nodeOf == old(nodeOf) && edgeOf == old(edgeOf) && rank == old(rank)
      ensures root == old(root) && rootItem == old(rootItem)
      ensures unchanged(roadNetwork.nodes.Values)
    {
      if newti.node.id !in myTree {
        OfferView(mainQueue, newti);
        OfferLowers(mainQueue, newti);
        if Floor(tempStorage, lo) && lo <= newti.dist {
          OfferFloor(mainQueue, newti, lo);
        }
        InsertQueue(newti);
      }
    }

    /** One commit of `Process`: offer the candidate's onward candidates to the queue, then commit it. */
    method Step(ti: Candidate, ghost noLoops: bool, ghost o: Nodes, ghost settling: bool, ghost ts: map<int, Candidate>,
                ghost e: map<int, map<RoadNetworkNode, Edge>>)
      requires Valid() && Ready() && Network() && myTree != map[]
      requires Sound(ti, myTree, nodeOf, roadNetwork.nodes) && ti.node.id !in myTree && ti.node.id !in tempStorage
      requires noLoops ==> NoSelfLoops(roadNetwork.nodes) && Fresh() && ti.dist < range
      requires GrownFrom(o, noLoops)
      requires Covered(myTree, myTree.Keys + {ti.node.id}, tempStorage, roadNetwork.nodes)
      requires settling ==> Settling(myTree, ts, e) && PoppedAt(myTree, ts, tempStorage, e, ti.node.id, ti.dist) && LeavesNonNegative(ti.node)
      modifies this
      ensures Valid() && Ready() && myTree != map[]
      ensures Covered(myTree, myTree.Keys, tempStorage, roadNetwork.nodes)
      ensures Extends(old(myTree), myTree) && myTree.Keys == old(myTree).Keys + {ti.node.id}
      ensures myTree[ti.node.id].dist == ti.dist && myTree[ti.node.id].prob == 0.0
      ensures GrownFrom(o, noLoops)
      ensures |roadNetwork.nodes.Keys - myTree.Keys| < |roadNetwork.nodes.Keys - old(myTree).Keys|
      ensures settling ==> Settling(myTree, tempStorage, e)
      ensures root == old(root) && rootItem == old(rootItem)
      ensures unchanged(roadNetwork.nodes.Values)
      ensures noLoops ==> Fresh()
    {
      ghost var g := roadNetwork.nodes;
      var id := ti.node.id;
      ClosedAdjacent(g, ti.node);
      assert noLoops ==> ti.node !in ti.node.outEdges;
      ghost var t' := Attach(myTree, id, Some(ti.parent), ti.dist, 0.0);
      ghost var n' := nodeOf[id := ti.node];
      AttachExtends(myTree, id, ti.parent, ti.dist, 0.0);
      QueueSoundGrows(tempStorage, myTree, nodeOf, t', n', g);
      ghost var t, temp := myTree, tempStorage;
      OfferConnected(ti, t', n', noLoops, settling);
      CoveredCommit(t, t', temp, tempStorage, g, id, ti.dist);
      AddItem(ti);
      if settling {
        CommitSettled(t, myTree, ts, tempStorage, id, ti.dist);
        CommitRelaxed(t, myTree, ts, e, id, ti.dist);
      }
      OneFewer(g.Keys, t.Keys, id);
      NewUnweighted(o, t, myTree, id);
      if noLoops {
        NewWithin(o, t, myTree, id, range);
      }
      ExtendsTrans(o, t, myTree);
    }

    /**
     * The inner loop of `Process` for a candidate about to be committed as
     * `t'` and `n'`: its onward candidates are built and offered, so that
     * every out-neighbour of its node outside the tree is queued within the
     * candidate's distance plus the edge, and no queued key rises.
     */
    method OfferConnected(ti: Candidate, ghost t': Nodes, ghost n': map<int, RoadNetworkNode>, ghost noLoops: bool, ghost nonNeg: bool)
      requires Network() && DistinctIds(mainQueue) && tempStorage == View(mainQueue)
      requires QueueSound(tempStorage, t', n', roadNetwork.nodes)
      requires Adjacent(ti.node, roadNetwork.nodes) && ti.node.id in roadNetwork.nodes && roadNetwork.nodes[ti.node.id] == ti.node
      requires ti.node.id in t' && ti.node.id in n' && n'[ti.node.id] == ti.node && t'[ti.node.id].dist == ti.dist
      requires noLoops ==>
        && ti.node !in ti.node.outEdges && t'.Keys == myTree.Keys + {ti.node.id}
        && forall x :: x in tempStorage ==> x !in t'
      requires nonNeg ==> LeavesNonNegative(ti.node)
      modifies this
      ensures DistinctIds(mainQueue) && tempStorage == View(mainQueue) && QueueSound(tempStorage, t', n', roadNetwork.nodes)
      ensures noLoops ==> forall x :: x in tempStorage ==> x !in t'
      ensures Lowers(old(tempStorage), tempStorage)
      ensures forall x :: x in ti.node.outEdges && x.id !in myTree ==>
        x.id in tempStorage && tempStorage[x.id].dist <= ti.dist + ti.node.outEdges[x].length
      ensures nonNeg && Floor(old(tempStorage), ti.dist) ==> Floor(tempStorage, ti.dist)
      ensures myTree == old(myTree) && nodeOf == old(nodeOf) && edgeOf == old(edgeOf) && rank == old(rank)
      ensures root == old(root) && rootItem == old(rootItem)
      ensures unchanged(roadNetwork.nodes.Values)
    {
      ghost var g := roadNetwork.nodes;
      var connections := GetConnectedItems(ti.node, ti.dist);
      ConnectedSound(connections, ti.node, t', n', g);
      if noLoops {
        forall j | 0 <= j < |connections| ensures connections[j].node.id !in t' {
          assert connections[j].node in ti.node.outEdges;
          assert g[connections[j].node.id] == connections[j].node;
        }
      }
      assert nonNeg ==> forall j :: 0 <= j < |connections| ==> ti.dist <= connections[j].dist;
      OfferAll(connections, t', n', g, noLoops, ti.dist);
      ConnectedCovered(connections, ti.node.outEdges, myTree, tempStorage, ti.dist);
    }

    /**
     * Since `o` the tree has only grown, every node added since has
     * probability 0 and, without self-loops, lies within `range`.
     */
    ghost predicate GrownFrom(o: Nodes, noLoops: bool)
      reads this
    {
      && Extends(o, myTree)
      && (forall k :: k in myTree && k !in o ==> myTree[k].prob == 0.0)
      && (noLoops ==> forall k :: k in myTree && k !in o ==> myTree[k].dist < range)
    }

    /** Every network node sits under its own id. */
    ghost predicate Keyed()
      reads roadNetwork
    {
      forall k :: k in roadNetwork.nodes ==> roadNetwork.nodes[k].id == k
    }

    /**
     * `ProbabilityExpansion`: the root item gets 1 and every node below it
     * its share (`PathProb`); nodes outside the subtree keep their
     * probability. The threshold argument is not used.
     */
    method ProbabilityExpansion(probabilityThreshold: real)
      requires Valid()
      modifies this
      ensures nodeOf == old(nodeOf) && edgeOf == old(edgeOf) && rank == old(rank)
      ensures mainQueue == old(mainQueue) && tempStorage == old(tempStorage)
      ensures root == old(root) && rootItem == old(rootItem)
      ensures unchanged(roadNetwork.nodes.Values)
      ensures Valid() && SameShape(old(myTree), myTree)
      ensures forall x :: x in myTree ==>
        myTree[x].prob == if InSubtree(old(myTree), rank, rootItem, x) then PathProb(old(myTree), rank, rootItem, x) else old(myTree)[x].prob
    {
      if rootItem in myTree {
        var n := Spread(myTree, rank, rootItem);
        ShapeStore(myTree, n, rank, nodeOf, edgeOf, roadNetwork.nodes, rootID);
        SetProbabilities(n);
      }
    }

    /**
     * `BuildTree`: a new queue, the root item with its out-neighbours
     * queued, the range-bounded expansion, and then every node receives its
     * share of the root's probability.
     */
    method BuildTree(ghost e: map<int, map<RoadNetworkNode, Edge>>)
      requires Valid() && Network() && myTree == map[] && tempStorage == map[]
      requires rootID in roadNetwork.nodes && roadNetwork.nodes[rootID] == root
      requires OutEdgesOf(e, roadNetwork.nodes)
      modifies this
      ensures Valid() && rootItem == rootID && rootID in myTree && myTree[rootID].dist == 0.0
      ensures Expanded(myTree, roadNetwork.nodes, range)
      ensures mainQueue == [] || GetNextDistance() >= range
      ensures old(NoSelfLoops(roadNetwork.nodes)) ==>
        forall k :: k in myTree && k != rootID ==> myTree[k].dist < range
      ensures forall x :: x in myTree ==> myTree[x].prob == PathProb(myTree, rank, rootID, x)
      ensures NonNegative(e) ==> Relaxed(myTree, e)
      ensures unchanged(roadNetwork.nodes.Values)
    {
      Expand(e);
      ghost var t := myTree;
      ProbabilityExpansion(0.01);
      ExpandedShape(t, myTree, roadNetwork.nodes, range);
      if NonNegative(e) {
        RelaxedShape(t, myTree, e);
      }
      AllUnderRoot(t, rank, nodeOf, edgeOf, roadNetwork.nodes, rootID);
      forall x | x in myTree ensures myTree[x].prob == PathProb(myTree, rank, rootID, x) {
        PathProbShape(t, myTree, rank, rootID, x);
      }
    }

    /** `BuildQueryTree`: the same construction without probabilities; the depth argument is not used. */
    method BuildQueryTree(depth: real, ghost e: map<int, map<RoadNetworkNode, Edge>>)
      requires Valid() && Network() && myTree == map[] && tempStorage == map[]
      requires rootID in roadNetwork.nodes && roadNetwork.nodes[rootID] == root
      requires OutEdgesOf(e, roadNetwork.nodes)
      modifies this
      ensures Valid() && Ready() && rootItem == rootID && rootID in myTree && myTree[rootID].dist == 0.0
      ensures Expanded(myTree, roadNetwork.nodes, range)
      ensures mainQueue == [] || GetNextDistance() >= range
      ensures old(NoSelfLoops(roadNetwork.nodes)) ==>
        forall k :: k in myTree && k != rootID ==> myTree[k].dist < range
      ensures forall x :: x in myTree ==> myTree[x].prob == 0.0
      ensures NonNegative(e) ==> Relaxed(myTree, e)
      ensures unchanged(roadNetwork.nodes.Values)
    {
      Expand(e);
    }

    /**
     * `BuildObjectTree`: the same construction, after which the object is
     * registered, with its share, at every node the thresholded spread from
     * the root reaches.
     */
    method BuildObjectTree(objectId: int, ghost e: map<int, map<RoadNetworkNode, Edge>>)
      requires Valid() && Network() && myTree == map[] && tempStorage == map[]
      requires rootID in roadNetwork.nodes && roadNetwork.nodes[rootID] == root
      requires OutEdgesOf(e, roadNetwork.nodes)
      modifies this, roadNetwork.nodes.Values
      ensures Valid() && rootItem == rootID && rootID in myTree && myTree[rootID].dist == 0.0
      ensures Expanded(myTree, roadNetwork.nodes, range)
      ensures mainQueue == [] || GetNextDistance() >= range
      ensures old(NoSelfLoops(roadNetwork.nodes)) ==>
        forall k :: k in myTree && k != rootID ==> myTree[k].dist < range
      ensures forall x :: x in myTree ==>
        myTree[x].prob == if Assigned(myTree, rank, rootID, probabilityThreshold, x)
                          then PathProb(myTree, rank, rootID, x) else 0.0
      ensures forall k :: k in roadNetwork.nodes ==>
        roadNetwork.nodes[k].predictedObjects
          == RegisterBag(myTree, rank, rootID, probabilityThreshold, objectId, k, old(roadNetwork.nodes[k].predictedObjects))
      ensures NonNegative(e) ==> Relaxed(myTree, e)
    {
      Expand(e);
      assert forall k :: k in roadNetwork.nodes ==> roadNetwork.nodes[k].predictedObjects == old(roadNetwork.nodes[k].predictedObjects);
      ghost var t := myTree;
      SpreadFromRoot(objectId);
      if NonNegative(e) {
        RelaxedShape(t, myTree, e);
      }
    }

    /**
     * The spread that ends `BuildObjectTree`: `ObjectProbabilityExpansion`
     * over an expanded tree whose probabilities are all 0, with its effect
     * stated against the tree it leaves, which has the same shape.
     */
    method SpreadFromRoot(objectId: int)
      requires Valid() && Keyed() && rootItem == rootID
      requires Expanded(myTree, roadNetwork.nodes, range)
      requires forall x :: x in myTree ==> myTree[x].prob == 0.0
      modifies this, roadNetwork.nodes.Values
      ensures Valid() && SameShape(old(myTree), myTree) && rootItem == rootID
      ensures mainQueue == old(mainQueue) && tempStorage == old(tempStorage)
      ensures Expanded(myTree, roadNetwork.nodes, range)
      ensures forall x :: x in myTree ==>
        myTree[x].prob == if Assigned(myTree, rank, rootID, probabilityThreshold, x)
                          then PathProb(myTree, rank, rootID, x) else 0.0
      ensures forall k :: k in roadNetwork.nodes ==>
        roadNetwork.nodes[k].predictedObjects
          == RegisterBag(myTree, rank, rootID, probabilityThreshold, objectId, k, old(roadNetwork.nodes[k].predictedObjects))
    {
      ghost var t := myTree;
      label expanded:
      ObjectProbabilityExpansion(objectId, probabilityThreshold);
      ghost var g := roadNetwork.nodes;
      forall k, x | k in myTree && k in g && x in g[k].outEdges && myTree[k].dist + g[k].outEdges[x].length < range
        ensures x.id in myTree
      {
        assert g[k].outEdges == old@expanded(g[k].outEdges);
        assert old@expanded(g[k].outEdges[x]) == g[k].outEdges[x] && t[k].dist == myTree[k].dist;
      }
      forall x | x in myTree
        ensures myTree[x].prob == if Assigned(myTree, rank, rootID, probabilityThreshold, x)
                                  then PathProb(myTree, rank, rootID, x) else 0.0
      {
        ReachedShape(t, myTree, rank, rootID, probabilityThreshold, x);
        PathProbShape(t, myTree, rank, rootID, x);
        if x != rootID && t[x].parent.Some? {
          assert Linked(t, rank, x);
          ReachedShape(t, myTree, rank, rootID, probabilityThreshold, t[x].parent.value);
        }
      }
      forall k | k in roadNetwork.nodes
        ensures roadNetwork.nodes[k].predictedObjects
          == RegisterBag(myTree, rank, rootID, probabilityThreshold, objectId, k, old(roadNetwork.nodes[k].predictedObjects))
      {
        RegisterShape(t, myTree, rank, rootID, probabilityThreshold, objectId, k, old(roadNetwork.nodes[k].predictedObjects));
      }
    }

    /**
     * The construction the three builds share: `CreateMainQueue`,
     * `Initialization` and `Process`. Every committed node has probability 0.
     */
    method Expand(ghost e: map<int, map<RoadNetworkNode, Edge>>)
      requires Valid() && Network() && myTree == map[] && tempStorage == map[]
      requires rootID in roadNetwork.nodes && roadNetwork.nodes[rootID] == root
      requires OutEdgesOf(e, roadNetwork.nodes)
      modifies this
      ensures Valid() && Ready() && Network() && Keyed()
      ensures rootItem == rootID && rootID in myTree && myTree[rootID].dist == 0.0
      ensures Expanded(myTree, roadNetwork.nodes, range)
      ensures mainQueue == [] || GetNextDistance() >= range
      ensures old(NoSelfLoops(roadNetwork.nodes)) ==>
        forall k :: k in myTree && k != rootID ==> myTree[k].dist < range
      ensures forall x :: x in myTree ==> myTree[x].prob == 0.0
      ensures NonNegative(e) ==> Relaxed(myTree, e)
      ensures root == old(root)
      ensures unchanged(roadNetwork.nodes.Values)
    {
      ghost var g := roadNetwork.nodes;
      ghost var settling := NonNegative(e);
      assert rootID in e && e[rootID] == root.outEdges;
      CreateMainQueue();
      Initialization();
      ghost var t := myTree;
      if settling {
        RootSettling(myTree, mainQueue, e, rootID);
      }
      Process(NoSelfLoops(g), settling, e);
      forall x | x in myTree ensures myTree[x].prob == 0.0 {
        if x in t {
          assert myTree[x].prob == t[x].prob;
        } else {
          assert myTree[x].prob == 0.0;
        }
      }
    }

    /**
     * `UpdateObjectTree_DeleteFromPredictedObjects`: the object's record is
     * deleted from the network node of every tree node below the root item.
     */
    method DeleteFromPredictedObjects(objectId: int)
      requires Valid() && Keyed()
      modifies roadNetwork.nodes.Values
      ensures forall k :: k in roadNetwork.nodes ==>
        roadNetwork.nodes[k].predictedObjects == DeleteBag(myTree, rank, rootItem, objectId, k, old(roadNetwork.nodes[k].predictedObjects))
      ensures forall k :: k in roadNetwork.nodes ==> roadNetwork.nodes[k].outEdges == old(roadNetwork.nodes[k].outEdges)
    {
      if rootItem !in myTree {
        return;
      }
      var order := TraverseSubtree(myTree, rank, rootItem);
      DistinctTailMembers(order);
      DeleteAll(roadNetwork.nodes, order[1..], objectId);
    }

    /**
     * `ObjectProbabilityExpansion`: the root item gets 1; going down in
     * breadth-first order, each child of a dequeued node gets its share, and
     * a child whose share exceeds the threshold is dequeued in turn and
     * gets the object's record (`RegisterBag`) at its network node, with
     * that share and its distance.
     */
    method ObjectProbabilityExpansion(objectId: int, probabilityThreshold: real)
      requires Valid() && Keyed()
      modifies this, roadNetwork.nodes.Values
      ensures nodeOf == old(nodeOf) && edgeOf == old(edgeOf) && rank == old(rank)
      ensures mainQueue == old(mainQueue) && tempStorage == old(tempStorage)
      ensures root == old(root) && rootItem == old(rootItem)
      ensures Valid() && SameShape(old(myTree), myTree)
      ensures forall x :: x in myTree ==>
        myTree[x].prob == if Assigned(old(myTree), rank, rootItem, probabilityThreshold, x)
                          then PathProb(old(myTree), rank, rootItem, x) else old(myTree)[x].prob
      ensures forall k :: k in roadNetwork.nodes ==>
        roadNetwork.nodes[k].predictedObjects
          == RegisterBag(old(myTree), rank, rootItem, probabilityThreshold, objectId, k, old(roadNetwork.nodes[k].predictedObjects))
      ensures forall k :: k in roadNetwork.nodes ==> roadNetwork.nodes[k].outEdges == old(roadNetwork.nodes[k].outEdges)
    {
      if rootItem in myTree {
        var o, g := myTree, roadNetwork.nodes;
        var n, dequeued := SpreadReached(o, rank, rootItem, probabilityThreshold);
        ShapeStore(o, n, rank, nodeOf, edgeOf, g, rootID);
        SetProbabilities(n);
        RegisterReached(o, rank, rootItem, probabilityThreshold, objectId, g, n, dequeued);
      }
    }

    /** `rootitem.GetNextTreeNode`: the child of the root item with id `nextNodeId`, if it has one. */
    method GetNextTreeNode(nextNodeId: int) returns (r: Option<int>)
      ensures r == if rootItem in myTree && nextNodeId in myTree[rootItem].children then Some(nextNodeId) else None
    {
      if rootItem !in myTree {
        return None;
      }
      var children := myTree[rootItem].children;
      var i := 0;
      while i < |children|
        invariant 0 <= i <= |children|
        invariant nextNodeId !in children[..i]
      {
        if children[i] == nextNodeId {
          return Some(children[i]);
        }
        TakeOneMore(children, i);
        i := i + 1;
      }
      assert children[..i] == children;
      return None;
    }

    /** `IsChild`: `nodeId` is a child of the root item. */
    method IsChild(nodeId: int) returns (b: bool)
      ensures b <==> rootItem in myTree && nodeId in myTree[rootItem].children
    {
      if rootItem !in myTree {
        return false;
      }
      var children := myTree[rootItem].children;
      var i := 0;
      while i < |children|
        invariant 0 <= i <= |children|
        invariant nodeId !in children[..i]
      {
        if children[i] == nodeId {
          return true;
        }
        TakeOneMore(children, i);
        i := i + 1;
      }
      assert children[..i] == children;
      return false;
    }

    /** `subtree`: the root item moves to tree node `id` when the tree holds it; otherwise nothing changes. */
    method SubtreeAt(id: int)
      requires Valid()
      modifies this
      ensures Valid()
      ensures id in myTree ==> rootItem == id && root == nodeOf[id]
      ensures id !in myTree ==> rootItem == old(rootItem) && root == old(root)
      ensures myTree == old(myTree) && nodeOf == old(nodeOf) && edgeOf == old(edgeOf) && rank == old(rank)
      ensures mainQueue == old(mainQueue) && tempStorage == old(tempStorage)
      ensures unchanged(roadNetwork.nodes.Values)
    {
      if id in myTree {
        root, rootItem := nodeOf[id], id;
      }
    }

    /** `ObjectSubtree`: re-roots at the tree node found, if any. */
    method ObjectSubtree(t: Option<int>)
      requires Valid()
      modifies this
      ensures Valid()
      ensures t.Some? && t.value in myTree ==> rootItem == t.value && root == nodeOf[t.value]
      ensures !(t.Some? && t.value in myTree) ==> rootItem == old(rootItem) && root == old(root)
      ensures myTree == old(myTree) && nodeOf == old(nodeOf) && edgeOf == old(edgeOf) && rank == old(rank)
      ensures mainQueue == old(mainQueue) && tempStorage == old(tempStorage)
      ensures unchanged(roadNetwork.nodes.Values)
    {
      if t.Some? {
        SubtreeAt(t.value);
      }
    }

    /** `subtree(int)`: re-roots at the target of network edge `edgeId`, if the tree holds it. */
    method SubtreeByEdge(edgeId: int)
      requires Valid() && edgeId in roadNetwork.edges
      modifies this
      ensures Valid()
      ensures var id := roadNetwork.edges[edgeId].to.id;
        && (id in myTree ==> rootItem == id && root == nodeOf[id])
        && (id !in myTree ==> rootItem == old(rootItem) && root == old(root))
      ensures myTree == old(myTree) && nodeOf == old(nodeOf) && edgeOf == old(edgeOf) && rank == old(rank)
      ensures mainQueue == old(mainQueue) && tempStorage == old(tempStorage)
      ensures unchanged(roadNetwork.nodes.Values)
    {
      var nodeid := roadNetwork.edges[edgeId].to.id;
      SubtreeAt(nodeid);
    }

    /**
     * `RandomStep`, with the random number in [0, 100) as a parameter: the
     * root item moves to its child at that number modulo the child count,
     * and stays when it has no children.
     */
    method RandomStep(randomNumber: int)
      requires Valid() && 0 <= randomNumber < 100
      modifies this
      ensures Valid()
      ensures var cs := if old(rootItem) in myTree then myTree[old(rootItem)].children else [];
        && (cs == [] ==> rootItem == old(rootItem) && root == old(root))
        && (cs != [] ==> rootItem == cs[randomNumber % |cs|] && root == nodeOf[rootItem])
      ensures myTree == old(myTree) && nodeOf == old(nodeOf) && edgeOf == old(edgeOf) && rank == old(rank)
      ensures mainQueue == old(mainQueue) && tempStorage == old(tempStorage)
      ensures unchanged(roadNetwork.nodes.Values)
    {
      if rootItem in myTree && |myTree[rootItem].children| > 0 {
        var cs := myTree[rootItem].children;
        var selection := randomNumber % |cs|;
        assert Linked(myTree, rank, rootItem) && cs[selection] in cs;
        SubtreeAt(cs[selection]);
      }
    }

    /**
     * `UpdateObjectTree`: the object's records below the root item are
     * deleted, the root item moves to its child `nextNodeId` if it has one,
     * and the object is spread again from the (new) root item.
     */
    method UpdateObjectTree(objectId: int, nextNodeId: int)
      requires Valid() && Keyed()
      modifies this, roadNetwork.nodes.Values
      ensures nodeOf == old(nodeOf) && edgeOf == old(edgeOf) && rank == old(rank)
      ensures mainQueue == old(mainQueue) && tempStorage == old(tempStorage)
      ensures Valid() && SameShape(old(myTree), myTree)
      ensures var moved := old(rootItem) in old(myTree) && nextNodeId in old(myTree)[old(rootItem)].children;
        && rootItem == (if moved then nextNodeId else old(rootItem))
        && root == (if moved then nodeOf[nextNodeId] else old(root))
      ensures forall x :: x in myTree ==>
        myTree[x].prob == if Assigned(old(myTree), rank, rootItem, probabilityThreshold, x)
                          then PathProb(old(myTree), rank, rootItem, x) else old(myTree)[x].prob
      ensures forall k :: k in roadNetwork.nodes ==>
        roadNetwork.nodes[k].predictedObjects
          == RegisterBag(old(myTree), rank, rootItem, probabilityThreshold, objectId, k,
                         DeleteBag(old(myTree), rank, old(rootItem), objectId, k, old(roadNetwork.nodes[k].predictedObjects)))
    {
      DeleteFromPredictedObjects(objectId);
      AdvanceRoot(nextNodeId);
      ObjectProbabilityExpansion(objectId, probabilityThreshold);
    }

    /** The pruning step of `UpdateObjectTree`: the root item moves to its child `nextNodeId` if it has one. */
    method AdvanceRoot(nextNodeId: int)
      requires Valid()
      modifies this
      ensures Valid()
      ensures var moved := old(rootItem) in myTree && nextNodeId in myTree[old(rootItem)].children;
        && rootItem == (if moved then nextNodeId else old(rootItem))
        && root == (if moved then nodeOf[nextNodeId] else old(root))
      ensures myTree == old(myTree) && nodeOf == old(nodeOf) && edgeOf == old(edgeOf) && rank == old(rank)
      ensures mainQueue == old(mainQueue) && tempStorage == old(tempStorage)
      ensures forall k :: k in roadNetwork.nodes ==>
        roadNetwork.nodes[k].predictedObjects == old(roadNetwork.nodes[k].predictedObjects)
      ensures unchanged(roadNetwork.nodes.Values)
    {
      var treeNode := GetNextTreeNode(nextNodeId);
      ObjectSubtree(treeNode);
    }
  }
}
