/**
 * The id-keyed tree store shared by the predictive forest and the reachability
 * tree builder. Both keep a dictionary from node id to a tree node whose
 * `Parent` and `Children` fields link the nodes; here the links are ids.
 * A ghost rank (parent strictly below child) makes the parent relation acyclic,
 * which is what lets every walk up a parent chain terminate.
 */
module ForestArena {
  import opened Wrappers
  import opened Sequences

  /** One tree node: its id, parent id, child ids in insertion order, `DistanceToRoot` and `Probability`. */
  datatype Item = Item(id: int, parent: Option<int>, children: seq<int>, dist: real, prob: real)

  type Nodes = map<int, Item>
  type Rank = map<int, nat>

  /** The node under key `k` is consistent with its parent and its children. */
  ghost predicate Linked(m: Nodes, rank: Rank, k: int)
    requires k in m
  {
    && m[k].id == k
    && k in rank
    && (m[k].parent.Some? ==>
          var p := m[k].parent.value;
          p in m && p in rank && rank[p] < rank[k] && k in m[p].children)
    && (forall c :: c in m[k].children ==> c in m && m[c].parent == Some(k))
    && Distinct(m[k].children)
  }

  /** Parent/child consistency of the whole store. */
  ghost predicate Valid(m: Nodes, rank: Rank) {
    forall k :: k in m ==> Linked(m, rank, k)
  }

  /** The ids whose node has no parent (the `Roots` property of the forest). */
  function Roots(m: Nodes): (r: set<int>)
    ensures forall k :: k in r <==> k in m && m[k].parent.None?
  {
    set k | k in m && m[k].parent.None?
  }

  /** `x` lies in the subtree rooted at `a`: `a` is `x` or one of its ancestors. */
  ghost predicate InSubtree(m: Nodes, rank: Rank, a: int, x: int)
    requires Valid(m, rank) && x in m
    decreases rank[x]
  {
    x == a || (m[x].parent.Some? && InSubtree(m, rank, a, m[x].parent.value))
  }

  ghost function Subtree(m: Nodes, rank: Rank, a: int): set<int>
    requires Valid(m, rank)
  {
    set x | x in m && InSubtree(m, rank, a, x)
  }

  /** The root reached by following parents from `x`. */
  ghost function RootOf(m: Nodes, rank: Rank, x: int): int
    requires Valid(m, rank) && x in m
    decreases rank[x]
  {
    if m[x].parent.None? then x else RootOf(m, rank, m[x].parent.value)
  }

  lemma {:induction false} SubtreeRank(m: Nodes, rank: Rank, a: int, x: int)
    requires Valid(m, rank) && x in m && InSubtree(m, rank, a, x)
    ensures a in m && a in rank && x in rank && rank[a] <= rank[x]
    decreases rank[x]
  {
    if x != a {
      SubtreeRank(m, rank, a, m[x].parent.value);
    }
  }

  /** A subtree is its root plus the subtrees of the root's children. */
  lemma SubtreeChild(m: Nodes, rank: Rank, a: int, x: int, c: int)
    requires Valid(m, rank) && x in m && InSubtree(m, rank, a, x) && c in m[x].children
    ensures c in m && InSubtree(m, rank, a, c) && c != a
  {
    assert Linked(m, rank, x);
    SubtreeRank(m, rank, a, x);
  }

  lemma {:induction false} RootOfIsRoot(m: Nodes, rank: Rank, x: int)
    requires Valid(m, rank) && x in m
    ensures RootOf(m, rank, x) in m && m[RootOf(m, rank, x)].parent.None?
    ensures InSubtree(m, rank, RootOf(m, rank, x), x)
    decreases rank[x]
  {
    if m[x].parent.Some? {
      var p := m[x].parent.value;
      RootOfIsRoot(m, rank, p);
    }
  }

  /** Every node lies below exactly one root. */
  lemma {:induction false} RootOfUnique(m: Nodes, rank: Rank, r: int, x: int)
    requires Valid(m, rank) && x in m && r in m && m[r].parent.None? && InSubtree(m, rank, r, x)
    ensures RootOf(m, rank, x) == r
    decreases rank[x]
  {
    if x != r {
      RootOfUnique(m, rank, r, m[x].parent.value);
    }
  }

  /** A set that holds `a` and is closed under children holds the whole subtree of `a`. */
  lemma ClosedContainsSubtree(m: Nodes, rank: Rank, a: int, s: set<int>)
    requires Valid(m, rank) && a in s
    requires forall x, c :: x in s && x in m && c in m[x].children ==> c in s
    ensures forall x :: x in m && InSubtree(m, rank, a, x) ==> x in s
  {
    forall x | x in m && InSubtree(m, rank, a, x) ensures x in s {
      ClosedContainsNode(m, rank, a, s, x);
    }
  }

  lemma {:induction false} ClosedContainsNode(m: Nodes, rank: Rank, a: int, s: set<int>, x: int)
    requires Valid(m, rank) && a in s
    requires forall x, c :: x in s && x in m && c in m[x].children ==> c in s
    requires x in m && InSubtree(m, rank, a, x)
    ensures x in s
    decreases rank[x]
  {
    if x != a {
      var p := m[x].parent.value;
      assert Linked(m, rank, x);
      ClosedContainsNode(m, rank, a, s, p);
    }
  }

  // The traversal loop's invariant, one conjunct per predicate: `order` is visited, `queue` is pending.

  ghost predicate TravInside(m: Nodes, rank: Rank, start: int, seen: seq<int>)
    requires Valid(m, rank)
  {
    forall x :: x in seen ==> x in m && InSubtree(m, rank, start, x)
  }

  ghost predicate TravStart(start: int, order: seq<int>, queue: seq<int>) {
    && (order == [] ==> queue == [start])
    && (order != [] ==> order[0] == start)
  }

  ghost predicate TravQueueParents(m: Nodes, start: int, order: seq<int>, queue: seq<int>) {
    forall x :: x in queue && x != start ==> x in m && m[x].parent.Some? && m[x].parent.value in order
  }

  ghost predicate ParentsEarlier(m: Nodes, order: seq<int>) {
    forall i :: 0 < i < |order| ==>
      order[i] in m && m[order[i]].parent.Some? && m[order[i]].parent.value in order[..i]
  }

  ghost predicate TravClosed(m: Nodes, order: seq<int>, seen: seq<int>) {
    forall i, c :: 0 <= i < |order| && order[i] in m && c in m[order[i]].children ==> c in seen
  }

  /** The dequeued node is new, and so are its children. */
  lemma StepFresh(m: Nodes, rank: Rank, start: int, order: seq<int>, queue: seq<int>)
    requires Valid(m, rank) && queue != []
    requires Distinct(order + queue) && TravInside(m, rank, start, order + queue)
    requires TravStart(start, order, queue) && TravQueueParents(m, start, order, queue)
    requires ParentsEarlier(m, order)
    ensures queue[0] in m && queue[0] !in order
    ensures forall k :: 0 <= k < |m[queue[0]].children| ==> m[queue[0]].children[k] !in order + queue
  {
    var id := queue[0];
    var seen := order + queue;
    assert seen[|order|] == id;
    assert id in seen;
    forall i | 0 <= i < |order| ensures order[i] != id {
      assert seen[i] == order[i];
    }
    var kids := m[id].children;
    assert Linked(m, rank, id);
    forall k | 0 <= k < |kids| ensures kids[k] !in seen {
      var c := kids[k];
      SubtreeChild(m, rank, start, id, c);
      assert m[c].parent == Some(id);
      forall i | 0 <= i < |order| ensures order[i] != c {
        if i > 0 {
          assert order[..i] <= order;
        }
      }
      forall j | 0 <= j < |queue| ensures queue[j] != c {
      }
    }
  }

  lemma StepInside(m: Nodes, rank: Rank, start: int, order: seq<int>, queue: seq<int>)
    requires Valid(m, rank) && queue != [] && queue[0] in m
    requires TravInside(m, rank, start, order + queue)
    ensures TravInside(m, rank, start, order + [queue[0]] + (queue[1..] + m[queue[0]].children))
  {
    var id := queue[0];
    assert id in order + queue;
    forall x | x in order + [id] + (queue[1..] + m[id].children)
      ensures x in m && InSubtree(m, rank, start, x)
    {
      if x in m[id].children {
        SubtreeChild(m, rank, start, id, x);
      } else {
        assert x in order + queue;
      }
    }
  }

  lemma StepParents(m: Nodes, rank: Rank, start: int, order: seq<int>, queue: seq<int>)
    requires Valid(m, rank) && queue != [] && queue[0] in m && queue[0] !in order
    requires TravStart(start, order, queue) && TravQueueParents(m, start, order, queue)
    requires ParentsEarlier(m, order)
    ensures TravQueueParents(m, start, order + [queue[0]], queue[1..] + m[queue[0]].children)
    ensures ParentsEarlier(m, order + [queue[0]])
  {
    var id := queue[0];
    var order' := order + [id];
    forall x | x in queue[1..] + m[id].children && x != start
      ensures x in m && m[x].parent.Some? && m[x].parent.value in order'
    {
      if x in m[id].children {
        assert Linked(m, rank, id);
      } else {
        assert x in queue;
      }
    }
    forall i | 0 < i < |order'|
      ensures order'[i] in m && m[order'[i]].parent.Some? && m[order'[i]].parent.value in order'[..i]
    {
      if i < |order| {
        assert order'[i] == order[i] && order'[..i] == order[..i];
      } else {
        assert order'[i] == id && order'[..i] == order;
        assert order != [];
        assert order[0] == start;
        assert id != start;
      }
    }
  }

  lemma StepClosed(m: Nodes, order: seq<int>, queue: seq<int>)
    requires queue != [] && queue[0] in m && TravClosed(m, order, order + queue)
    ensures TravClosed(m, order + [queue[0]], order + [queue[0]] + (queue[1..] + m[queue[0]].children))
  {
    var id := queue[0];
    var order' := order + [id];
    var seen' := order' + (queue[1..] + m[id].children);
    forall i, c | 0 <= i < |order'| && order'[i] in m && c in m[order'[i]].children
      ensures c in seen'
    {
      if i < |order| {
        assert order'[i] == order[i];
        assert c in order + queue;
        assert queue == [id] + queue[1..];
      } else {
        assert c in m[id].children;
      }
    }
  }

  /** Once the queue is empty, the visited nodes are exactly the subtree. */
  lemma StepDone(m: Nodes, rank: Rank, start: int, order: seq<int>)
    requires Valid(m, rank) && start in m
    requires TravInside(m, rank, start, order) && TravStart(start, order, [])
    requires TravClosed(m, order, order)
    ensures forall x :: x in order <==> x in m && InSubtree(m, rank, start, x)
  {
    var visited := set x | x in order;
    forall x, c | x in visited && x in m && c in m[x].children ensures c in visited {
      var i :| 0 <= i < |order| && order[i] == x;
    }
    ClosedContainsSubtree(m, rank, start, visited);
  }

  /** Moving the head of the queue to the visited list keeps the concatenation. */
  lemma Dequeue(order: seq<int>, queue: seq<int>, kids: seq<int>)
    requires queue != []
    ensures order + [queue[0]] + (queue[1..] + kids) == order + queue + kids
  {
    assert queue == [queue[0]] + queue[1..];
  }

  /**
   * Breadth-first traversal of the subtree under `start`, as `TraverseSubtree`
   * does with its queue of ids: every node of the subtree is visited exactly
   * once, `start` first, and every node after its parent.
   */
  method TraverseSubtree(m: Nodes, ghost rank: Rank, start: int) returns (order: seq<int>)
    requires Valid(m, rank) && start in m
    ensures |order| > 0 && order[0] == start
    ensures Distinct(order)
    ensures forall x :: x in order <==> x in m && InSubtree(m, rank, start, x)
    ensures ParentsEarlier(m, order)
    ensures ParentBefore(m, order)
  {
    var queue := [start];
    order := [];
    ghost var visited: set<int> := {};
    while queue != []
      invariant Distinct(order + queue)
      invariant TravInside(m, rank, start, order + queue)
      invariant TravStart(start, order, queue)
      invariant TravQueueParents(m, start, order, queue)
      invariant ParentsEarlier(m, order)
      invariant TravClosed(m, order, order + queue)
      invariant visited == set x | x in order
      invariant visited <= Subtree(m, rank, start)
      decreases Subtree(m, rank, start) - visited
    {
      var id := queue[0];
      var kids := m[id].children;
      StepFresh(m, rank, start, order, queue);
      StepInside(m, rank, start, order, queue);
      StepParents(m, rank, start, order, queue);
      StepClosed(m, order, queue);
      DistinctConcat(order + queue, kids);
      Dequeue(order, queue, kids);
      assert id in order + queue;
      order := order + [id];
      queue := queue[1..] + kids;
      visited := visited + {id};
    }
    assert order + queue == order;
    StepDone(m, rank, start, order);
    TraversalParentBefore(m, rank, start, order);
  }

  /**
   * Detaching every node of `d` from its parent, as `RemoveChild` does one
   * node at a time: the node loses its parent and disappears from the
   * parent's child list. No node leaves the store.
   */
  function Cut(m: Nodes, d: set<int>): (r: Nodes)
    ensures r.Keys == m.Keys
  {
    map k | k in m :: m[k].(parent := if k in d then None else m[k].parent, children := Without(m[k].children, d))
  }

  /** Deleting the nodes of `r` from the store and from every child list. */
  function Prune(m: Nodes, r: set<int>): (n: Nodes)
    ensures n.Keys == m.Keys - r
  {
    map k | k in m && k !in r :: m[k].(children := Without(m[k].children, r))
  }

  /** Adding a childless node under `parent` (or as a root): `AddNode`'s clone and `AddChild`. */
  function Attach(m: Nodes, id: int, parent: Option<int>, dist: real, prob: real): (n: Nodes)
    requires parent.Some? ==> parent.value in m
    ensures n.Keys == m.Keys + {id}
  {
    var leaf := Item(id, parent, [], dist, prob);
    if parent.None? then m[id := leaf]
    else m[parent.value := m[parent.value].(children := m[parent.value].children + [id])][id := leaf]
  }

  /** The rank a newly attached node gets: one above its parent, 0 for a root. */
  function AttachRank(rank: Rank, id: int, parent: Option<int>): Rank
    requires parent.Some? ==> parent.value in rank
  {
    rank[id := if parent.None? then 0 else rank[parent.value] + 1]
  }

  /** Nodes of `r` have all their children in `r`: removing them leaves no dangling parent. */
  ghost predicate ClosedUnderChildren(m: Nodes, r: set<int>) {
    forall k, c :: k in r && k in m && c in m[k].children ==> c in r
  }

  /** Detaching keeps the store consistent. */
  lemma CutValid(m: Nodes, rank: Rank, d: set<int>)
    requires Valid(m, rank)
    ensures Valid(Cut(m, d), rank)
  {
    var n := Cut(m, d);
    forall k | k in n ensures Linked(n, rank, k) {
      assert Linked(m, rank, k);
      if n[k].parent.Some? {
        var p := n[k].parent.value;
        WithoutMember(m[p].children, d, k);
      }
      forall c | c in n[k].children ensures c in n && n[c].parent == Some(k) {
        WithoutMember(m[k].children, d, c);
      }
      WithoutDistinct(m[k].children, d);
    }
  }

  /** Removing a set closed under children keeps the store consistent. */
  lemma PruneValid(m: Nodes, rank: Rank, r: set<int>)
    requires Valid(m, rank) && ClosedUnderChildren(m, r)
    ensures Valid(Prune(m, r), rank)
  {
    var n := Prune(m, r);
    forall k | k in n ensures Linked(n, rank, k) {
      assert Linked(m, rank, k);
      if n[k].parent.Some? {
        var p := n[k].parent.value;
        assert Linked(m, rank, p);
        WithoutMember(m[p].children, r, k);
      }
      forall c | c in n[k].children ensures c in n && n[c].parent == Some(k) {
        WithoutMember(m[k].children, r, c);
      }
      WithoutDistinct(m[k].children, r);
    }
  }

  /** Attaching a fresh leaf (ranked one above its parent) keeps the store consistent. */
  lemma AttachValid(m: Nodes, rank: Rank, id: int, parent: Option<int>, dist: real, prob: real)
    requires Valid(m, rank) && id !in m && (parent.Some? ==> parent.value in m)
    ensures parent.Some? ==> parent.value in rank
    ensures Valid(Attach(m, id, parent, dist, prob), AttachRank(rank, id, parent))
  {
    if parent.Some? {
      assert Linked(m, rank, parent.value);
    }
    var n := Attach(m, id, parent, dist, prob);
    var rank' := AttachRank(rank, id, parent);
    forall k | k in n ensures Linked(n, rank', k) {
      if k != id {
        assert Linked(m, rank, k);
        if parent.Some? && k == parent.value {
          DistinctAppend(m[k].children, id);
        }
      }
    }
  }

  /** Two rounds of detaching are one round over the union. */
  lemma CutCut(m: Nodes, a: set<int>, b: set<int>)
    ensures Cut(Cut(m, a), b) == Cut(m, a + b)
  {
    forall k | k in m ensures Cut(Cut(m, a), b)[k] == Cut(m, a + b)[k] {
      WithoutWithout(m[k].children, a, b);
    }
  }

  /** Two rounds of removal are one round over the union. */
  lemma PrunePrune(m: Nodes, a: set<int>, b: set<int>)
    ensures Prune(Prune(m, a), b) == Prune(m, a + b)
  {
    forall k | k in m && k !in a + b ensures Prune(Prune(m, a), b)[k] == Prune(m, a + b)[k] {
      WithoutWithout(m[k].children, a, b);
    }
  }

  /** Detaching only shrinks subtrees. */
  lemma {:induction false} CutSubtreeSound(m: Nodes, rank: Rank, d: set<int>, a: int, x: int)
    requires Valid(m, rank) && x in m
    requires Valid(Cut(m, d), rank) && InSubtree(Cut(m, d), rank, a, x)
    ensures InSubtree(m, rank, a, x)
    decreases rank[x]
  {
    if x != a {
      assert Linked(m, rank, x);
      CutSubtreeSound(m, rank, d, a, m[x].parent.value);
    }
  }

  /** A node stays below `a` when no detached node other than `a` lies between them. */
  lemma {:induction false} CutSubtreeComplete(m: Nodes, rank: Rank, d: set<int>, a: int, x: int)
    requires Valid(m, rank) && x in m && InSubtree(m, rank, a, x)
    requires forall y :: y in d && y != a ==> !InSubtree(m, rank, y, x)
    ensures Valid(Cut(m, d), rank) && InSubtree(Cut(m, d), rank, a, x)
    decreases rank[x]
  {
    CutValid(m, rank, d);
    if x != a {
      assert InSubtree(m, rank, x, x);
      var p := m[x].parent.value;
      assert Linked(m, rank, x);
      forall y | y in d && y != a ensures !InSubtree(m, rank, y, p) {
        assert InSubtree(m, rank, y, p) ==> InSubtree(m, rank, y, x);
      }
      CutSubtreeComplete(m, rank, d, a, p);
    }
  }

  /** Removing a set closed under children does not change the subtrees of the nodes that remain. */
  lemma {:induction false} PruneSubtree(m: Nodes, rank: Rank, r: set<int>, a: int, x: int)
    requires Valid(m, rank) && ClosedUnderChildren(m, r) && x in m && x !in r
    ensures Valid(Prune(m, r), rank)
    ensures InSubtree(Prune(m, r), rank, a, x) <==> InSubtree(m, rank, a, x)
    decreases rank[x]
  {
    PruneValid(m, rank, r);
    if x != a && m[x].parent.Some? {
      var p := m[x].parent.value;
      assert Linked(m, rank, x);
      PruneSubtree(m, rank, r, a, p);
    }
  }

  /** A parent is listed before each of its children. */
  ghost predicate ParentBefore(m: Nodes, s: seq<int>) {
    forall a, b :: 0 <= a < |s| && 0 <= b < |s| && s[b] in m && m[s[b]].parent == Some(s[a]) ==> a < b
  }

  /** A breadth-first order of a subtree lists every parent before its children. */
  lemma TraversalParentBefore(m: Nodes, rank: Rank, start: int, order: seq<int>)
    requires Valid(m, rank) && start in m
    requires |order| > 0 && order[0] == start && Distinct(order)
    requires forall x :: x in order <==> x in m && InSubtree(m, rank, start, x)
    requires ParentsEarlier(m, order)
    ensures ParentBefore(m, order)
  {
    forall a, b | 0 <= a < |order| && 0 <= b < |order| && order[b] in m && m[order[b]].parent == Some(order[a])
      ensures a < b
    {
      SubtreeRank(m, rank, start, order[a]);
      assert Linked(m, rank, order[b]);
      assert b != 0;
      var p := order[a];
      assert p in order[..b];
      var a' :| 0 <= a' < b && order[..b][a'] == p;
      assert order[a'] == order[a];
    }
  }

  /**
   * `RemoveChild` on the parent of `x`: `x` leaves its parent's child list
   * and loses its parent; a root is left as it is.
   */
  function Detach(m: Nodes, x: int): (n: Nodes)
    requires x in m && (m[x].parent.Some? ==> m[x].parent.value in m)
    ensures n.Keys == m.Keys
  {
    match m[x].parent
    case None => m
    case Some(p) => m[p := m[p].(children := RemoveFirst(m[p].children, x))][x := m[x].(parent := None)]
  }

  /** A node occurs only in its own parent's child list. */
  lemma ChildOfParentOnly(m: Nodes, rank: Rank, x: int)
    requires Valid(m, rank) && x in m
    ensures forall k :: k in m && x in m[k].children ==> m[x].parent == Some(k)
  {
    forall k | k in m && x in m[k].children ensures m[x].parent == Some(k) {
      assert Linked(m, rank, k);
    }
  }

  /** Detaching one node is the one-element `Cut`. */
  lemma DetachIsCut(m: Nodes, rank: Rank, x: int)
    requires Valid(m, rank) && x in m
    ensures m[x].parent.Some? ==> m[x].parent.value in m
    ensures Detach(m, x) == Cut(m, {x})
  {
    assert Linked(m, rank, x);
    ChildOfParentOnly(m, rank, x);
    var n := Detach(m, x);
    var c := Cut(m, {x});
    forall k | k in m ensures n[k] == c[k] {
      assert Linked(m, rank, k);
      if k == x || m[x].parent != Some(k) {
        WithoutNothing(m[k].children, {x});
      } else {
        RemoveFirstIsWithout(m[k].children, x);
      }
    }
  }

  /** Detaching nodes and then deleting them is deleting them. */
  lemma CutThenDrop(m: Nodes, d: set<int>)
    ensures Cut(m, d) - d == Prune(m, d)
  {
  }

  /** Deleting a childless node keeps the store consistent. */
  lemma DropLeafValid(m: Nodes, rank: Rank, x: int)
    requires Valid(m, rank) && x in m && m[x].children == []
    ensures Valid(Prune(m, {x}), rank)
  {
    PruneValid(m, rank, {x});
  }

  /** `m` and `n` differ at most in the probabilities they store. */
  ghost predicate SameShape(m: Nodes, n: Nodes) {
    && m.Keys == n.Keys
    && forall k :: k in m ==>
         n[k].id == m[k].id && n[k].parent == m[k].parent && n[k].children == m[k].children && n[k].dist == m[k].dist
  }

  /** Probabilities play no part in consistency. */
  lemma ShapeValid(m: Nodes, n: Nodes, rank: Rank)
    requires Valid(m, rank) && SameShape(m, n)
    ensures Valid(n, rank)
  {
    forall k | k in n ensures Linked(n, rank, k) {
      assert Linked(m, rank, k);
    }
  }

  /** Nor in the subtree relation. */
  lemma {:induction false} ShapeSubtree(m: Nodes, n: Nodes, rank: Rank, a: int, x: int)
    requires Valid(m, rank) && SameShape(m, n) && x in m
    ensures Valid(n, rank)
    ensures InSubtree(n, rank, a, x) <==> InSubtree(m, rank, a, x)
    decreases rank[x]
  {
    ShapeValid(m, n, rank);
    if x != a && m[x].parent.Some? {
      assert Linked(m, rank, x);
      ShapeSubtree(m, n, rank, a, m[x].parent.value);
    }
  }

  /** A child lies below the same root as its parent. */
  lemma RootOfChild(m: Nodes, rank: Rank, x: int, c: int)
    requires Valid(m, rank) && x in m && c in m[x].children
    ensures c in m && RootOf(m, rank, c) == RootOf(m, rank, x)
  {
    RootOfIsRoot(m, rank, x);
    SubtreeChild(m, rank, RootOf(m, rank, x), x, c);
    RootOfUnique(m, rank, RootOf(m, rank, x), c);
  }

  /** Deleting nothing changes nothing. */
  lemma PruneNone(m: Nodes)
    ensures Prune(m, {}) == m
  {
    forall k | k in m ensures Prune(m, {})[k] == m[k] {
      WithoutNothing(m[k].children, {});
    }
  }

  /** Detaching nothing changes nothing. */
  lemma CutNone(m: Nodes)
    ensures Cut(m, {}) == m
  {
    forall k | k in m ensures Cut(m, {})[k] == m[k] {
      WithoutNothing(m[k].children, {});
    }
  }

  /** The total probability of the nodes `cs`. */
  function ProbSum(m: Nodes, cs: seq<int>): real
    requires forall i :: 0 <= i < |cs| ==> cs[i] in m
  {
    if cs == [] then 0.0 else m[cs[0]].prob + ProbSum(m, cs[1..])
  }

  /** Nodes that each hold an equal share `v / n` add up to their number times that share. */
  lemma {:induction false} EvenShares(m: Nodes, cs: seq<int>, v: real, n: nat)
    requires n > 0 && forall i :: 0 <= i < |cs| ==> cs[i] in m && m[cs[i]].prob == v / (n as real)
    ensures ProbSum(m, cs) == (|cs| as real) * (v / (n as real))
  {
    if cs != [] {
      EvenShares(m, cs[1..], v, n);
    }
  }
}
