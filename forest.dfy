/**
 * The predictive forest: a store of tree nodes keyed by road-network node
 * id, the set of ids sent to history (`execluded` in the source), and the
 * region of the last prediction. Both revisions are modelled by one class;
 * members whose name starts with `Legacy` are the older revision's versions.
 */
module Forest {
  import opened Wrappers
  import opened Sequences
  import opened ForestArena
  import opened RoadGraph
  import opened Networks

  /**
   * A tree as the tree-building strategy hands it over: the root's node and,
   * in their child lists, the nodes it reaches. Every node's parent is its
   * enclosing node.
   */
  datatype Tree = Tree(id: int, dist: real, prob: real, children: seq<Tree>)

  /** A queued tree together with the id of the builder node that is its parent. */
  type Pending = (Option<int>, Tree)

  /** What a prediction did. */
  datatype Outcome =
    | RegionUnavailable   // the nearest-node or neighbour lookup found no cell (the source dereferences null)
    | Rebuilt             // the forest was built afresh
    | BuildAborted        // a merged node's parent was missing (the source's failed lookup of the parent)
    | Updated             // the forest was shrunk to the matched subtrees

  /** Every kept node with a parent has a kept parent, so deleting the others leaves no kept node dangling. */
  ghost predicate KeepClosed(m: Nodes, keep: set<int>) {
    forall x :: x in m && x in keep && m[x].parent.Some? ==> m[x].parent.value in keep
  }

  /** Number of nodes of a tree. */
  function Size(t: Tree): nat
    decreases t
  {
    1 + SizeAll(t.children)
  }

  function SizeAll(ts: seq<Tree>): nat
    decreases ts
  {
    if ts == [] then 0 else Size(ts[0]) + SizeAll(ts[1..])
  }

  /** Number of tree nodes still to be merged. */
  function PendingSize(q: seq<Pending>): nat {
    if q == [] then 0 else Size(q[0].1) + PendingSize(q[1..])
  }

  lemma {:induction false} PendingConcat(a: seq<Pending>, b: seq<Pending>)
    ensures PendingSize(a + b) == PendingSize(a) + PendingSize(b)
  {
    if a != [] {
      assert (a + b)[0] == a[0];
      assert (a + b)[1..] == a[1..] + b;
      PendingConcat(a[1..], b);
      calc {
        PendingSize(a + b);
        Size((a + b)[0].1) + PendingSize((a + b)[1..]);
        Size(a[0].1) + PendingSize(a[1..] + b);
        Size(a[0].1) + PendingSize(a[1..]) + PendingSize(b);
        PendingSize(a) + PendingSize(b);
      }
    } else {
      assert a + b == b;
    }
  }

  /** The queue entries for the children of the builder node `p`. */
  function Entries(p: int, ts: seq<Tree>): (q: seq<Pending>)
    ensures |q| == |ts| && forall i :: 0 <= i < |ts| ==> q[i] == (Some(p), ts[i])
  {
    if ts == [] then [] else [(Some(p), ts[0])] + Entries(p, ts[1..])
  }

  /** Queueing the children of a node queues exactly the nodes below it. */
  lemma {:induction false} PendingEntries(p: int, ts: seq<Tree>)
    ensures PendingSize(Entries(p, ts)) == SizeAll(ts)
  {
    if ts != [] {
      assert Entries(p, ts)[1..] == Entries(p, ts[1..]);
      PendingEntries(p, ts[1..]);
    }
  }

  /** The ids occurring in a tree. */
  ghost function TreeIds(t: Tree): set<int>
    decreases t
  {
    {t.id} + AllIds(t.children)
  }

  ghost function AllIds(ts: seq<Tree>): set<int>
    decreases ts
  {
    if ts == [] then {} else TreeIds(ts[0]) + AllIds(ts[1..])
  }

  lemma {:induction false} AllIdsHas(ts: seq<Tree>, i: int)
    requires 0 <= i < |ts|
    ensures TreeIds(ts[i]) <= AllIds(ts)
  {
    if i > 0 {
      AllIdsHas(ts[1..], i - 1);
    }
  }

  /** One node of the second phase of `Update`: it is detached exactly when it is an orphan. */
  lemma OrphanStep(n1: Nodes, keep: set<int>, todo: set<int>, done: set<int>, x: int)
    requires keep <= n1.Keys && todo <= keep && x in todo && done == Orphans(n1, keep) - todo
    ensures x in n1 && x !in done && Cut(n1, done)[x].parent == n1[x].parent
    ensures var p := n1[x].parent; p.Some? && p.value !in keep <==> x in Orphans(n1, keep)
    ensures x in Orphans(n1, keep) ==> done + {x} == Orphans(n1, keep) - (todo - {x})
    ensures x !in Orphans(n1, keep) ==> done == Orphans(n1, keep) - (todo - {x})
  {
  }

  /** The road nodes of `s` whose id is in `ids`, in their order (the `Where` on forest membership). */
  function WithIdIn(s: seq<RoadNetworkNode>, ids: set<int>): (r: seq<RoadNetworkNode>)
    ensures |r| <= |s|
    ensures forall a :: 0 <= a < |r| ==> r[a] in s && r[a].id in ids
    ensures forall i :: 0 <= i < |s| && s[i].id in ids ==> s[i] in r
  {
    if s == [] then []
    else if s[0].id in ids then [s[0]] + WithIdIn(s[1..], ids)
    else WithIdIn(s[1..], ids)
  }

  /** The road nodes of `s` whose id is not in `ids`, in their order (the `Where` on history). */
  function WithIdNotIn(s: seq<RoadNetworkNode>, ids: set<int>): (r: seq<RoadNetworkNode>)
    ensures |r| <= |s|
    ensures forall a :: 0 <= a < |r| ==> r[a] in s && r[a].id !in ids
    ensures forall i :: 0 <= i < |s| && s[i].id !in ids ==> s[i] in r
  {
    if s == [] then []
    else if s[0].id in ids then WithIdNotIn(s[1..], ids)
    else [s[0]] + WithIdNotIn(s[1..], ids)
  }

  /** The nodes below some matched node: what `Update` keeps. */
  ghost function Reach(m: Nodes, rank: Rank, matched: set<int>): (r: set<int>)
    requires ForestArena.Valid(m, rank)
    ensures r <= m.Keys
  {
    set x | x in m && exists a :: a in matched && InSubtree(m, rank, a, x)
  }

  /** The kept nodes whose parent is not kept: `Update` turns them into roots. */
  ghost function Orphans(m: Nodes, keep: set<int>): set<int> {
    set x | x in m && x in keep && m[x].parent.Some? && m[x].parent.value !in keep
  }

  /** The nodes not kept whose root is no longer to be visited: what `Update` has deleted so far. */
  ghost function Unreached(m: Nodes, rank: Rank, keep: set<int>, todo: set<int>): set<int>
    requires ForestArena.Valid(m, rank)
  {
    set x | x in m && x !in keep && RootOf(m, rank, x) !in todo
  }

  /**
   * The store `Update` leaves: the matched nodes are detached when
   * `detachMatched` holds (the current revision), then every kept node whose
   * parent is not kept is detached, then everything not kept is deleted.
   */
  ghost function Narrowed(o: Nodes, rank: Rank, matched: set<int>, detachMatched: bool): Nodes
    requires ForestArena.Valid(o, rank)
  {
    var keep := Reach(o, rank, matched);
    var n1 := if detachMatched then Cut(o, matched) else o;
    var n2 := Cut(n1, Orphans(n1, keep));
    Prune(n2, n2.Keys - keep)
  }

  /** What `Update` keeps is exactly the nodes below a matched node. */
  lemma NarrowedKeys(o: Nodes, rank: Rank, matched: set<int>, detach: bool)
    requires ForestArena.Valid(o, rank)
    ensures Narrowed(o, rank, matched, detach).Keys == Reach(o, rank, matched)
  {
  }

  /** In the current revision every matched node of the store ends up a root. */
  lemma NarrowedMatched(o: Nodes, rank: Rank, matched: set<int>)
    requires ForestArena.Valid(o, rank) && matched <= o.Keys
    ensures forall a :: a in matched ==>
      a in Narrowed(o, rank, matched, true) && Narrowed(o, rank, matched, true)[a].parent.None?
  {
    var keep := Reach(o, rank, matched);
    var n1 := Cut(o, matched);
    var n2 := Cut(n1, Orphans(n1, keep));
    forall a | a in matched
      ensures a in Narrowed(o, rank, matched, true) && Narrowed(o, rank, matched, true)[a].parent.None?
    {
      assert InSubtree(o, rank, a, a);
      assert a in keep && n1[a].parent.None?;
      assert n2[a].parent.None?;
    }
  }

  /**
   * In the older revision a matched node keeps its parent unless it had
   * none or the parent is not kept.
   */
  lemma NarrowedLegacy(o: Nodes, rank: Rank, matched: set<int>)
    requires ForestArena.Valid(o, rank) && matched <= o.Keys
    ensures var n := Narrowed(o, rank, matched, false); var keep := Reach(o, rank, matched);
      forall a :: a in matched ==>
        a in n && (n[a].parent.None? <==> o[a].parent.None? || o[a].parent.value !in keep)
  {
    var keep := Reach(o, rank, matched);
    var n := Narrowed(o, rank, matched, false);
    var n2 := Cut(o, Orphans(o, keep));
    forall a | a in matched
      ensures a in n && (n[a].parent.None? <==> o[a].parent.None? || o[a].parent.value !in keep)
    {
      assert InSubtree(o, rank, a, a);
      assert a in keep;
      assert n[a].parent == n2[a].parent;
    }
  }

  /** Before any root is visited nothing is unreached, and the store is unchanged. */
  lemma UnreachedNone(n: Nodes, rank: Rank, keep: set<int>)
    requires ForestArena.Valid(n, rank)
    ensures Unreached(n, rank, keep, Roots(n)) == {}
    ensures Prune(n, Unreached(n, rank, keep, Roots(n))) == n
  {
    forall x | x in n ensures RootOf(n, rank, x) in Roots(n) {
      RootOfIsRoot(n, rank, x);
    }
    PruneNone(n);
  }

  /** Once every root is visited, everything not kept is unreached. */
  lemma UnreachedAll(n: Nodes, rank: Rank, keep: set<int>)
    requires ForestArena.Valid(n, rank)
    ensures Unreached(n, rank, keep, {}) == n.Keys - keep
  {
  }

  /** The nodes deleted from the root `r` join those deleted before into what is unreached without `r`. */
  lemma DropUnion(n: Nodes, rank: Rank, keep: set<int>, todo: set<int>, r: int, rem: set<int>)
    requires ForestArena.Valid(n, rank) && KeepClosed(n, keep)
    requires todo <= Roots(n) && r in todo
    requires ForestArena.Valid(Prune(n, Unreached(n, rank, keep, todo)), rank)
    requires var p := Prune(n, Unreached(n, rank, keep, todo));
      forall x :: x in rem <==> x in p && InSubtree(p, rank, r, x) && x !in keep
    ensures Unreached(n, rank, keep, todo) + rem == Unreached(n, rank, keep, todo - {r})
  {
    var rm := Unreached(n, rank, keep, todo);
    var after := Unreached(n, rank, keep, todo - {r});
    var p := Prune(n, rm);
    DropStep(n, rank, keep, todo, r);
    assert forall x :: x in rem <==> x in after && x !in rm;
    assert rm <= after;
  }

  /** Visiting one more matched node adds its subtree in the current store to what is kept. */
  lemma ReachStep(o: Nodes, rank: Rank, matched: set<int>, r: int, detach: bool)
    requires ForestArena.Valid(o, rank) && r in o
    ensures ForestArena.Valid(if detach then Cut(o, matched) else o, rank)
    ensures var cur := if detach then Cut(o, matched) else o;
      Reach(o, rank, matched) + Subtree(cur, rank, r) == Reach(o, rank, matched + {r})
  {
    CutValid(o, rank, matched);
    var cur := if detach then Cut(o, matched) else o;
    forall x | x in Subtree(cur, rank, r) ensures x in Reach(o, rank, matched + {r}) {
      if detach {
        CutSubtreeSound(o, rank, matched, r, x);
      }
    }
    forall x | x in Reach(o, rank, matched + {r}) && x !in Reach(o, rank, matched)
      ensures x in Subtree(cur, rank, r)
    {
      assert InSubtree(o, rank, r, x);
      if detach {
        CutSubtreeComplete(o, rank, matched, r, x);
      }
    }
  }

  /** One step of deleting the unreached nodes root by root. */
  lemma DropStep(n: Nodes, rank: Rank, keep: set<int>, todo: set<int>, r: int)
    requires ForestArena.Valid(n, rank) && KeepClosed(n, keep)
    requires todo <= Roots(n) && r in todo
    ensures ClosedUnderChildren(n, Unreached(n, rank, keep, todo))
    ensures ForestArena.Valid(Prune(n, Unreached(n, rank, keep, todo)), rank)
    ensures r in Prune(n, Unreached(n, rank, keep, todo))
    ensures var rm := Unreached(n, rank, keep, todo); var p := Prune(n, rm);
      forall x :: x in p && InSubtree(p, rank, r, x) && x !in keep <==> x in Unreached(n, rank, keep, todo - {r}) && x !in rm
  {
    var rm := Unreached(n, rank, keep, todo);
    forall k, c | k in rm && k in n && c in n[k].children ensures c in rm {
      RootOfChild(n, rank, k, c);
    }
    PruneValid(n, rank, rm);
    RootOfUnique(n, rank, r, r);
    var p := Prune(n, rm);
    forall x ensures x in p && InSubtree(p, rank, r, x) && x !in keep <==> x in Unreached(n, rank, keep, todo - {r}) && x !in rm {
      if x in n && x !in rm {
        PruneSubtree(n, rank, rm, r, x);
        RootOfIsRoot(n, rank, x);
        if InSubtree(n, rank, r, x) {
          RootOfUnique(n, rank, r, x);
        }
      }
    }
  }

  /**
   * The probability rule of both revisions for node `x`: a root holds
   * `share`, any other node its parent's probability divided evenly among
   * the parent's children.
   */
  ghost predicate ProbabilityRule(m: Nodes, share: real, x: int)
    requires x in m
  {
    match m[x].parent
    case None => m[x].prob == share
    case Some(p) => p in m && |m[p].children| > 0 && m[x].prob == m[p].prob / (|m[p].children| as real)
  }

  /** Every node of the store follows the probability rule. */
  ghost predicate Assigned(m: Nodes, share: real) {
    forall x :: x in m ==> ProbabilityRule(m, share, x)
  }

  /** The probability of node `x`, as the rule computes it from the parent's current probability. */
  function RuleValue(m: Nodes, share: real, x: int): real
    requires x in m && (m[x].parent.Some? ==> m[x].parent.value in m && |m[m[x].parent.value].children| > 0)
  {
    match m[x].parent
    case None => share
    case Some(p) => m[p].prob / (|m[p].children| as real)
  }

  /**
   * Once probabilities are assigned, the children of any node with children
   * share its probability exactly: their probabilities add up to it.
   */
  lemma ChildrenShareParent(m: Nodes, rank: Rank, share: real, x: int)
    requires ForestArena.Valid(m, rank) && Assigned(m, share) && x in m && m[x].children != []
    ensures forall i :: 0 <= i < |m[x].children| ==> m[x].children[i] in m
    ensures ProbSum(m, m[x].children) == m[x].prob
  {
    assert Linked(m, rank, x);
    var cs := m[x].children;
    var n := |cs|;
    forall i | 0 <= i < n ensures cs[i] in m && m[cs[i]].prob == m[x].prob / (n as real) {
      assert cs[i] in cs;
      assert ProbabilityRule(m, share, cs[i]);
    }
    EvenShares(m, cs, m[x].prob, n);
  }

  /**
   * Giving node `x` of the subtree now being visited its rule value keeps the
   * rule wherever it held: for the nodes of subtrees finished earlier and
   * for the nodes visited before `x`, none of which is `x` or a child of `x`.
   */
  lemma AssignStep(o: Nodes, rank: Rank, share: real, todo: set<int>, r: int, order: seq<int>, i: int, n: Nodes)
    requires ForestArena.Valid(o, rank) && SameShape(o, n) && todo <= Roots(o) && r in todo
    requires Distinct(order) && ParentBefore(o, order) && 0 <= i < |order|
    requires forall x :: x in order <==> x in o && InSubtree(o, rank, r, x)
    requires forall x :: x in o && RootOf(o, rank, x) !in todo ==> ProbabilityRule(n, share, x)
    requires forall j :: 0 <= j < i ==> order[j] in n && ProbabilityRule(n, share, order[j])
    ensures order[i] in n
    ensures var x := order[i];
      n[x].parent.Some? ==> n[x].parent.value in n && |n[n[x].parent.value].children| > 0
    ensures var x := order[i]; var n' := n[x := n[x].(prob := RuleValue(n, share, x))];
      && SameShape(o, n')
      && (forall y :: y in o && RootOf(o, rank, y) !in todo ==> ProbabilityRule(n', share, y))
      && (forall j :: 0 <= j <= i ==> ProbabilityRule(n', share, order[j]))
  {
    var x := order[i];
    assert x in order;
    assert Linked(o, rank, x);
    var n' := n[x := n[x].(prob := RuleValue(n, share, x))];
    assert forall y :: y in o && RootOf(o, rank, y) !in todo ==> ProbabilityRule(n', share, y) by {
      StepKeepsFinished(o, rank, share, todo, r, x, n);
    }
    assert forall j :: 0 <= j <= i ==> ProbabilityRule(n', share, order[j]) by {
      StepKeepsVisited(o, share, order, i, n);
    }
  }

  /** The nodes of finished subtrees are neither `x` nor its children, so their rule survives. */
  lemma StepKeepsFinished(o: Nodes, rank: Rank, share: real, todo: set<int>, r: int, x: int, n: Nodes)
    requires ForestArena.Valid(o, rank) && SameShape(o, n) && todo <= Roots(o) && r in todo
    requires x in o && InSubtree(o, rank, r, x)
    requires x in n && (n[x].parent.Some? ==> n[x].parent.value in n && |n[n[x].parent.value].children| > 0)
    requires forall y :: y in o && RootOf(o, rank, y) !in todo ==> ProbabilityRule(n, share, y)
    ensures var n' := n[x := n[x].(prob := RuleValue(n, share, x))];
      forall y :: y in o && RootOf(o, rank, y) !in todo ==> ProbabilityRule(n', share, y)
  {
    RootOfUnique(o, rank, r, x);
  }

  /** The nodes visited before `x` are not its children, and `x` itself now follows the rule. */
  lemma StepKeepsVisited(o: Nodes, share: real, order: seq<int>, i: int, n: Nodes)
    requires SameShape(o, n)
    requires Distinct(order) && ParentBefore(o, order) && 0 <= i < |order| && order[i] in o && order[i] in n
    requires forall j :: 0 <= j < i ==> order[j] in n && ProbabilityRule(n, share, order[j])
    requires var x := order[i];
      n[x].parent.Some? ==> n[x].parent.value in n && |n[n[x].parent.value].children| > 0
    ensures var x := order[i]; var n' := n[x := n[x].(prob := RuleValue(n, share, x))];
      forall j :: 0 <= j <= i ==> ProbabilityRule(n', share, order[j])
  {
    var x := order[i];
    var n' := n[x := n[x].(prob := RuleValue(n, share, x))];
    forall j | 0 <= j <= i ensures ProbabilityRule(n', share, order[j]) {
      if j < i {
        EarlierKeepsRule(o, share, order, i, j, n);
      } else if o[x].parent.Some? {
        assert o[x].parent.value != x;
      }
    }
  }

  /** A node visited before `order[i]` is not a child of it, so its rule survives the assignment at `order[i]`. */
  lemma EarlierKeepsRule(o: Nodes, share: real, order: seq<int>, i: int, j: int, n: Nodes)
    requires SameShape(o, n) && Distinct(order) && ParentBefore(o, order)
    requires 0 <= j < i < |order| && order[i] in o && order[j] in n && ProbabilityRule(n, share, order[j])
    requires var x := order[i];
      n[x].parent.Some? ==> n[x].parent.value in n && |n[n[x].parent.value].children| > 0
    ensures var x := order[i]; var n' := n[x := n[x].(prob := RuleValue(n, share, x))];
      order[j] in n' && ProbabilityRule(n', share, order[j])
  {
    var x, y := order[i], order[j];
    var n' := n[x := n[x].(prob := RuleValue(n, share, x))];
    assert y != x;
    assert n'[y] == n[y];
    if n[y].parent.Some? {
      var p := n[y].parent.value;
      assert o[y].parent == Some(p);
      assert p != x;
      assert n'[p] == n[p];
    }
  }

  /** Every node lies below one of the roots. */
  lemma RootsCoverAll(m: Nodes, rank: Rank)
    requires ForestArena.Valid(m, rank)
    ensures forall x :: x in m ==> RootOf(m, rank, x) in Roots(m)
  {
    forall x | x in m ensures RootOf(m, rank, x) in Roots(m) {
      RootOfIsRoot(m, rank, x);
    }
  }

  /** A consistent store without roots is empty. */
  lemma NoRootsEmpty(m: Nodes, rank: Rank)
    requires ForestArena.Valid(m, rank) && Roots(m) == {}
    ensures m == map[]
  {
    RootsCoverAll(m, rank);
    assert forall x :: x !in m;
  }

  /** A traversal of `n` is a traversal of any store of the same shape. */
  lemma ShapeTraversal(o: Nodes, n: Nodes, rank: Rank, r: int, order: seq<int>)
    requires ForestArena.Valid(o, rank) && SameShape(o, n) && ParentBefore(n, order)
    requires ForestArena.Valid(n, rank) && forall x :: x in order <==> x in n && InSubtree(n, rank, r, x)
    ensures ParentBefore(o, order)
    ensures forall x :: x in order <==> x in o && InSubtree(o, rank, r, x)
  {
    forall x | x in o ensures InSubtree(n, rank, r, x) <==> InSubtree(o, rank, r, x) {
      ShapeSubtree(o, n, rank, r, x);
    }
    forall a, b | 0 <= a < |order| && 0 <= b < |order| && order[b] in o && o[order[b]].parent == Some(order[a])
      ensures a < b
    {
      var k := order[b];
      assert k in o.Keys;
      assert n[k].parent == o[k].parent;
    }
  }

  /** Probabilities play no part in which nodes are roots. */
  lemma ShapeRoots(m: Nodes, n: Nodes)
    requires SameShape(m, n)
    ensures Roots(m) == Roots(n)
  {
    forall k | k in m ensures (k in Roots(m)) == (k in Roots(n)) {
      assert n[k].parent == m[k].parent;
    }
  }

  /** When the subtree under `r` follows the rule, so does everything whose root is finished or is `r`. */
  lemma SubtreeFinished(o: Nodes, rank: Rank, share: real, todo: set<int>, r: int, order: seq<int>, n: Nodes)
    requires ForestArena.Valid(o, rank) && todo <= Roots(o) && r in todo && o.Keys == n.Keys
    requires forall x :: x in order <==> x in o && InSubtree(o, rank, r, x)
    requires forall x :: x in o && RootOf(o, rank, x) !in todo ==> ProbabilityRule(n, share, x)
    requires forall j :: 0 <= j < |order| ==> order[j] in n && ProbabilityRule(n, share, order[j])
    ensures forall x :: x in o && RootOf(o, rank, x) !in todo - {r} ==> ProbabilityRule(n, share, x)
  {
    forall x | x in o && RootOf(o, rank, x) == r ensures ProbabilityRule(n, share, x) {
      RootOfIsRoot(o, rank, x);
      assert x in order;
      var j :| 0 <= j < |order| && order[j] == x;
    }
  }

  /** A subtree is closed under children, so it can be deleted as a whole. */
  lemma SubtreeClosed(m: Nodes, rank: Rank, a: int)
    requires ForestArena.Valid(m, rank)
    ensures ClosedUnderChildren(m, Subtree(m, rank, a))
  {
    forall k, c | k in Subtree(m, rank, a) && k in m && c in m[k].children
      ensures c in Subtree(m, rank, a)
    {
      SubtreeChild(m, rank, a, k, c);
    }
  }

  /** A store with its ranks, and whether every merge step so far found its parent. */
  datatype Merged = Merged(nodes: Nodes, rank: Rank, ok: bool)

  /**
   * The merge rule of `Build` for one incoming node `t` whose builder parent
   * is `parent`, while the tree of `rootId` is merged into `m`, with `excl`
   * the ids in history. The second component says whether `t`'s children
   * are queued.
   */
  ghost function MergeStep(m: Nodes, rank: Rank, excl: set<int>, parent: Option<int>, t: Tree, rootId: int): (r: (Merged, bool))
    requires ForestArena.Valid(m, rank)
    ensures ForestArena.Valid(r.0.nodes, r.0.rank)
  {
    if t.id in excl then (Merged(m, rank, true), false)
    else if t.id in m && t.dist < m[t.id].dist then
      SubtreeClosed(m, rank, t.id);
      PruneValid(m, rank, Subtree(m, rank, t.id));
      var rest := Prune(m, Subtree(m, rank, t.id));
      if parent.Some? && parent.value !in rest then (Merged(rest, rank, false), false)
      else
        AttachValid(rest, rank, t.id, parent, t.dist, t.prob);
        (Merged(Attach(rest, t.id, parent, t.dist, t.prob), AttachRank(rank, t.id, parent), true), true)
    else if t.id !in m then
      if parent.Some? && parent.value !in m then (Merged(m, rank, false), false)
      else
        AttachValid(m, rank, t.id, parent, t.dist, t.prob);
        (Merged(Attach(m, t.id, parent, t.dist, t.prob), AttachRank(rank, t.id, parent), true), true)
    else (Merged(m, rank, true), t.id == rootId)
  }

  /**
   * Breadth-first merge of the pending trees `q` into `m`: the first entry
   * is merged, its children are queued behind the others when it is
   * explored, and the first failed step ends the merge.
   */
  ghost function MergeQueue(m: Nodes, rank: Rank, excl: set<int>, q: seq<Pending>, rootId: int): (r: Merged)
    requires ForestArena.Valid(m, rank)
    ensures ForestArena.Valid(r.nodes, r.rank)
    decreases PendingSize(q)
  {
    if q == [] then Merged(m, rank, true)
    else
      var (s, explore) := MergeStep(m, rank, excl, q[0].0, q[0].1, rootId);
      if !s.ok then s
      else
        var next := if explore then Entries(q[0].1.id, q[0].1.children) else [];
        PendingConcat(q[1..], next);
        PendingEntries(q[0].1.id, q[0].1.children);
        MergeQueue(s.nodes, s.rank, excl, q[1..] + next, rootId)
  }

  /**
   * The trees the strategy `builder` gives for the roots `rs`, merged one
   * root after the other into `m`; a failed merge ends the whole build.
   */
  ghost function MergeTrees(m: Nodes, rank: Rank, excl: set<int>, rs: seq<RoadNetworkNode>, builder: RoadNetworkNode -> Tree): (r: Merged)
    requires ForestArena.Valid(m, rank)
    ensures ForestArena.Valid(r.nodes, r.rank)
    decreases |rs|
  {
    if rs == [] then Merged(m, rank, true)
    else
      var s := MergeTrees(m, rank, excl, rs[..|rs| - 1], builder);
      if !s.ok then s
      else MergeQueue(s.nodes, s.rank, excl, [(None, builder(rs[|rs| - 1]))], rs[|rs| - 1].id)
  }

  /** Once a prefix of the roots has failed, the later roots change nothing. */
  lemma {:induction false} MergeTreesFailed(m: Nodes, rank: Rank, excl: set<int>, rs: seq<RoadNetworkNode>,
                                           builder: RoadNetworkNode -> Tree, k: int)
    requires ForestArena.Valid(m, rank) && 0 <= k <= |rs|
    requires !MergeTrees(m, rank, excl, rs[..k], builder).ok
    ensures MergeTrees(m, rank, excl, rs, builder) == MergeTrees(m, rank, excl, rs[..k], builder)
    decreases |rs| - k
  {
    if k < |rs| {
      assert rs[..k + 1][..k] == rs[..k];
      MergeTreesFailed(m, rank, excl, rs, builder, k + 1);
    } else {
      assert rs[..k] == rs;
    }
  }

  /** The store after the first tree of the conflict scenario: root 0, then 2 and 3 below it at distance 2. */
  lemma ConflictFirstTree(t0: Tree, rank: Rank)
    requires t0 == Tree(0, 0.0, 0.0, [Tree(2, 2.0, 0.0, []), Tree(3, 2.0, 0.0, [])])
    ensures MergeQueue(map[], rank, {}, [(None, t0)], 0).ok
    ensures MergeQueue(map[], rank, {}, [(None, t0)], 0).nodes
      == Attach(Attach(Attach(map[], 0, None, 0.0, 0.0), 2, Some(0), 2.0, 0.0), 3, Some(0), 2.0, 0.0)
  {
    var a2, a3 := Tree(2, 2.0, 0.0, []), Tree(3, 2.0, 0.0, []);
    var m1, k1 := Attach(map[], 0, None, 0.0, 0.0), AttachRank(rank, 0, None);
    assert MergeStep(map[], rank, {}, None, t0, 0) == (Merged(m1, k1, true), true);
    var m2, k2 := Attach(m1, 2, Some(0), 2.0, 0.0), AttachRank(k1, 2, Some(0));
    assert MergeStep(m1, k1, {}, Some(0), a2, 0) == (Merged(m2, k2, true), true);
    var m3, k3 := Attach(m2, 3, Some(0), 2.0, 0.0), AttachRank(k2, 3, Some(0));
    assert MergeStep(m2, k2, {}, Some(0), a3, 0) == (Merged(m3, k3, true), true);
    assert MergeQueue(m2, k2, {}, [(Some(0), a3)], 0) == Merged(m3, k3, true) by {
      assert [(Some(0), a3)][1..] + Entries(3, []) == [];
    }
    assert MergeQueue(m1, k1, {}, [(Some(0), a2), (Some(0), a3)], 0) == Merged(m3, k3, true) by {
      assert [(Some(0), a2), (Some(0), a3)][1..] + Entries(2, []) == [(Some(0), a3)];
    }
    assert [(None, t0)][1..] + Entries(0, t0.children) == [(Some(0), a2), (Some(0), a3)];
  }

  /** In the conflict scenario, root 1 joins the store and its three children are queued. */
  lemma ConflictRootOne(t1: Tree, m3: Nodes, rank: Rank)
    requires t1 == Tree(1, 0.0, 0.0, [Tree(2, 1.0, 0.0, []), Tree(3, 4.0, 0.0, []), Tree(4, -2147483648.0, 0.0, [])])
    requires m3 == Attach(Attach(Attach(map[], 0, None, 0.0, 0.0), 2, Some(0), 2.0, 0.0), 3, Some(0), 2.0, 0.0)
    requires ForestArena.Valid(m3, rank)
    ensures ForestArena.Valid(Attach(m3, 1, None, 0.0, 0.0), AttachRank(rank, 1, None))
    ensures MergeQueue(m3, rank, {}, [(None, t1)], 1)
      == MergeQueue(Attach(m3, 1, None, 0.0, 0.0), AttachRank(rank, 1, None), {},
                    [(Some(1), Tree(2, 1.0, 0.0, [])), (Some(1), Tree(3, 4.0, 0.0, [])), (Some(1), Tree(4, -2147483648.0, 0.0, []))], 1)
  {
    assert MergeStep(m3, rank, {}, None, t1, 1) == (Merged(Attach(m3, 1, None, 0.0, 0.0), AttachRank(rank, 1, None), true), true);
    assert [(None, t1)][1..] + Entries(1, t1.children)
      == [(Some(1), Tree(2, 1.0, 0.0, [])), (Some(1), Tree(3, 4.0, 0.0, [])), (Some(1), Tree(4, -2147483648.0, 0.0, []))];
  }

  /** In the conflict scenario, the copy of 2 at distance 1 under root 1 replaces the stored copy at distance 2. */
  lemma ConflictMoveTwo(m4: Nodes, k4: Rank)
    requires m4 == Attach(Attach(Attach(Attach(map[], 0, None, 0.0, 0.0), 2, Some(0), 2.0, 0.0), 3, Some(0), 2.0, 0.0), 1, None, 0.0, 0.0)
    requires ForestArena.Valid(m4, k4)
    ensures 1 in Prune(m4, {2}) && 1 in k4
    ensures var m5 := Attach(Prune(m4, {2}), 2, Some(1), 1.0, 0.0);
      && ForestArena.Valid(m5, AttachRank(k4, 2, Some(1)))
      && m5.Keys == {0, 1, 2, 3} && m5[3].dist == 2.0
    ensures MergeQueue(m4, k4, {}, [(Some(1), Tree(2, 1.0, 0.0, [])), (Some(1), Tree(3, 4.0, 0.0, [])), (Some(1), Tree(4, -2147483648.0, 0.0, []))], 1)
      == MergeQueue(Attach(Prune(m4, {2}), 2, Some(1), 1.0, 0.0), AttachRank(k4, 2, Some(1)), {},
                    [(Some(1), Tree(3, 4.0, 0.0, [])), (Some(1), Tree(4, -2147483648.0, 0.0, []))], 1)
  {
    assert m4.Keys == {0, 1, 2, 3};
    assert Subtree(m4, k4, 2) == {2} by {
      assert !InSubtree(m4, k4, 2, 0) && !InSubtree(m4, k4, 2, 1);
      assert !InSubtree(m4, k4, 2, 3);
    }
    assert MergeStep(m4, k4, {}, Some(1), Tree(2, 1.0, 0.0, []), 1)
      == (Merged(Attach(Prune(m4, {2}), 2, Some(1), 1.0, 0.0), AttachRank(k4, 2, Some(1)), true), true);
    assert [(Some(1), Tree(2, 1.0, 0.0, [])), (Some(1), Tree(3, 4.0, 0.0, [])), (Some(1), Tree(4, -2147483648.0, 0.0, []))][1..]
             + Entries(2, [])
      == [(Some(1), Tree(3, 4.0, 0.0, [])), (Some(1), Tree(4, -2147483648.0, 0.0, []))];
  }

  /** In the conflict scenario, the farther copy of 3 is kept out and 4 joins root 1. */
  lemma ConflictTail(m5: Nodes, k5: Rank)
    requires ForestArena.Valid(m5, k5) && m5.Keys == {0, 1, 2, 3} && m5[3].dist == 2.0
    ensures 1 in k5
    ensures MergeQueue(m5, k5, {}, [(Some(1), Tree(3, 4.0, 0.0, [])), (Some(1), Tree(4, -2147483648.0, 0.0, []))], 1)
      == Merged(Attach(m5, 4, Some(1), -2147483648.0, 0.0), AttachRank(k5, 4, Some(1)), true)
  {
    var b3, b4 := Tree(3, 4.0, 0.0, []), Tree(4, -2147483648.0, 0.0, []);
    assert MergeStep(m5, k5, {}, Some(1), b3, 1) == (Merged(m5, k5, true), false);
    assert [(Some(1), b3), (Some(1), b4)][1..] + [] == [(Some(1), b4)];
    assert Linked(m5, k5, 1);
    assert MergeStep(m5, k5, {}, Some(1), b4, 1)
      == (Merged(Attach(m5, 4, Some(1), -2147483648.0, 0.0), AttachRank(k5, 4, Some(1)), true), true);
    assert [(Some(1), b4)][1..] + Entries(4, []) == [];
  }

  /** The second tree of the conflict scenario, merged into the store the first one left. */
  lemma ConflictSecondTree(t1: Tree, m3: Nodes, rank: Rank)
    requires t1 == Tree(1, 0.0, 0.0, [Tree(2, 1.0, 0.0, []), Tree(3, 4.0, 0.0, []), Tree(4, -2147483648.0, 0.0, [])])
    requires m3 == Attach(Attach(Attach(map[], 0, None, 0.0, 0.0), 2, Some(0), 2.0, 0.0), 3, Some(0), 2.0, 0.0)
    requires ForestArena.Valid(m3, rank)
    ensures MergeQueue(m3, rank, {}, [(None, t1)], 1).ok
    ensures MergeQueue(m3, rank, {}, [(None, t1)], 1).nodes
      == Attach(Attach(Prune(Attach(m3, 1, None, 0.0, 0.0), {2}), 2, Some(1), 1.0, 0.0), 4, Some(1), -2147483648.0, 0.0)
  {
    ConflictRootOne(t1, m3, rank);
    var m4, k4 := Attach(m3, 1, None, 0.0, 0.0), AttachRank(rank, 1, None);
    ConflictMoveTwo(m4, k4);
    ConflictTail(Attach(Prune(m4, {2}), 2, Some(1), 1.0, 0.0), AttachRank(k4, 2, Some(1)));
  }

  /** In the conflict scenario, removing the subtree of 2 after root 1 joined leaves 0 with 3 below it, and 1. */
  lemma ConflictPruned()
    ensures Prune(Attach(Attach(Attach(Attach(map[], 0, None, 0.0, 0.0), 2, Some(0), 2.0, 0.0), 3, Some(0), 2.0, 0.0),
                         1, None, 0.0, 0.0), {2})
      == map[0 := Item(0, None, [3], 0.0, 0.0), 1 := Item(1, None, [], 0.0, 0.0), 3 := Item(3, Some(0), [], 2.0, 0.0)]
  {
    var m3 := Attach(Attach(Attach(map[], 0, None, 0.0, 0.0), 2, Some(0), 2.0, 0.0), 3, Some(0), 2.0, 0.0);
    assert m3[0].children == [2, 3] by { assert [] + [2] + [3] == [2, 3]; }
    var rest := Prune(Attach(m3, 1, None, 0.0, 0.0), {2});
    assert rest.Keys == {0, 1, 3};
    assert rest[0] == Item(0, None, [3], 0.0, 0.0) by {
      assert Without([2, 3], {2}) == [3] by {
        assert [2, 3][1..] == [3] && [3][1..] == [];
      }
    }
    assert rest[1] == Item(1, None, [], 0.0, 0.0) && rest[3] == Item(3, Some(0), [], 2.0, 0.0);
  }

  /** The conflict scenario's final store, written out: 0 keeps 3, and 1 holds 2 and 4. */
  lemma ConflictResult()
    ensures Attach(Attach(Prune(Attach(Attach(Attach(Attach(map[], 0, None, 0.0, 0.0), 2, Some(0), 2.0, 0.0), 3, Some(0), 2.0, 0.0),
                                       1, None, 0.0, 0.0), {2}), 2, Some(1), 1.0, 0.0), 4, Some(1), -2147483648.0, 0.0)
      == map[0 := Item(0, None, [3], 0.0, 0.0), 1 := Item(1, None, [2, 4], 0.0, 0.0),
             2 := Item(2, Some(1), [], 1.0, 0.0), 3 := Item(3, Some(0), [], 2.0, 0.0),
             4 := Item(4, Some(1), [], -2147483648.0, 0.0)]
  {
    ConflictPruned();
    var rest := map[0 := Item(0, None, [3], 0.0, 0.0), 1 := Item(1, None, [], 0.0, 0.0), 3 := Item(3, Some(0), [], 2.0, 0.0)];
    var f := Attach(Attach(rest, 2, Some(1), 1.0, 0.0), 4, Some(1), -2147483648.0, 0.0);
    assert f.Keys == {0, 1, 2, 3, 4};
    assert f[1] == Item(1, None, [2, 4], 0.0, 0.0) by { assert [] + [2] + [4] == [2, 4]; }
  }

  /** The roots of the conflict scenario's result are 0 and 1. */
  lemma ConflictRoots()
    ensures Roots(map[0 := Item(0, None, [3], 0.0, 0.0), 1 := Item(1, None, [2, 4], 0.0, 0.0),
                      2 := Item(2, Some(1), [], 1.0, 0.0), 3 := Item(3, Some(0), [], 2.0, 0.0),
                      4 := Item(4, Some(1), [], -2147483648.0, 0.0)]) == {0, 1}
  {
    var m := map[0 := Item(0, None, [3], 0.0, 0.0), 1 := Item(1, None, [2, 4], 0.0, 0.0),
                 2 := Item(2, Some(1), [], 1.0, 0.0), 3 := Item(3, Some(0), [], 2.0, 0.0),
                 4 := Item(4, Some(1), [], -2147483648.0, 0.0)];
    assert m.Keys == {0, 1, 2, 3, 4};
    forall k | k in Roots(m) ensures k in {0, 1} {
      assert k in m.Keys;
    }
  }

  /**
   * The "conflict forest" scenario: roots 0 and 1, where the tree of 0 reaches
   * 2 and 3 at distance 2, and the tree of 1 reaches 2 at distance 1, 3 at
   * distance 4 and 4 with no distance given (so `int.MinValue`). Node 2 moves
   * under the closer root 1, node 3 stays under 0, and 4 joins 1.
   */
  lemma ConflictForestMerge(r0: RoadNetworkNode, r1: RoadNetworkNode, builder: RoadNetworkNode -> Tree, rank: Rank)
    requires r0.id == 0 && r1.id == 1
    requires builder(r0) == Tree(0, 0.0, 0.0, [Tree(2, 2.0, 0.0, []), Tree(3, 2.0, 0.0, [])])
    requires builder(r1) == Tree(1, 0.0, 0.0, [Tree(2, 1.0, 0.0, []), Tree(3, 4.0, 0.0, []), Tree(4, -2147483648.0, 0.0, [])])
    ensures MergeTrees(map[], rank, {}, [r0, r1], builder).ok
    ensures MergeTrees(map[], rank, {}, [r0, r1], builder).nodes
      == map[0 := Item(0, None, [3], 0.0, 0.0), 1 := Item(1, None, [2, 4], 0.0, 0.0),
             2 := Item(2, Some(1), [], 1.0, 0.0), 3 := Item(3, Some(0), [], 2.0, 0.0),
             4 := Item(4, Some(1), [], -2147483648.0, 0.0)]
    ensures Roots(MergeTrees(map[], rank, {}, [r0, r1], builder).nodes) == {0, 1}
  {
    ConflictResult();
    ConflictRoots();
    assert [r0, r1][..1] == [r0] && [r0][..0] == [];
    assert MergeTrees(map[], rank, {}, [], builder) == Merged(map[], rank, true);
    ConflictFirstTree(builder(r0), rank);
    var first := MergeTrees(map[], rank, {}, [r0], builder);
    assert first == MergeQueue(map[], rank, {}, [(None, builder(r0))], 0);
    ConflictSecondTree(builder(r1), first.nodes, first.rank);
    assert MergeTrees(map[], rank, {}, [r0, r1], builder) == MergeQueue(first.nodes, first.rank, {}, [(None, builder(r1))], 1);
  }

  class PredictiveForest {
    var nodes: Nodes
    var excluded: set<int>
    var region: Option<Region>
    ghost var level: Rank
    const roadNetwork: RoadNetworks
    const timeRange: real
    const probabilityThreshold: real
    /** The tree-building strategy (`TreeBuilder`), applied to a root road node. */
    const treeBuilder: RoadNetworkNode -> Tree

    /** The store is consistent and holds no id sent to history. */
    ghost predicate Valid()
      reads this
    {
      ForestArena.Valid(nodes, level) && nodes.Keys !! excluded
    }

    /** An empty forest with no history and no region. */
    constructor(roadNetwork: RoadNetworks, timeRange: real, probabilityThreshold: real, treeBuilder: RoadNetworkNode -> Tree)
      ensures Valid()
      ensures nodes == map[] && excluded == {} && region == None
      ensures this.roadNetwork == roadNetwork && this.timeRange == timeRange
      ensures this.probabilityThreshold == probabilityThreshold && this.treeBuilder == treeBuilder
    {
      this.roadNetwork := roadNetwork;
      this.timeRange := timeRange;
      this.probabilityThreshold := probabilityThreshold;
      this.treeBuilder := treeBuilder;
      nodes := map[];
      excluded := {};
      region := None;
      level := map[];
    }

    /** The ids of the current roots (`Roots`). */
    function RootIds(): set<int>
      reads this
    {
      Roots(nodes)
    }

    /** `GetNode`: the node stored under `key`, or nothing when the id is absent. */
    function GetNode(key: int): (r: Option<Item>)
      reads this
      ensures r.None? <==> key !in nodes
      ensures r.Some? ==> r.value == nodes[key]
      ensures r.Some? && Valid() ==> r.value.id == key && (r.value.parent.None? <==> key in RootIds())
    {
      if key in nodes then
        assert Valid() ==> Linked(nodes, level, key);
        Some(nodes[key])
      else None
    }

    /** The indexer's getter: the node under a key the caller knows to be present. */
    function Get(key: int): (r: Item)
      requires key in nodes
      reads this
      ensures GetNode(key) == Some(r)
    {
      nodes[key]
    }

    /** `Clear`: no nodes, no history, no region. */
    method Clear()
      modifies this
      ensures nodes == map[] && excluded == {} && region == None
      ensures Valid()
    {
      nodes := map[];
      excluded := {};
      region := None;
    }

    /** `RemoveChild` on the parent of `id`, as `Update` uses it. */
    method DetachNode(id: int)
      requires Valid() && id in nodes
      modifies this
      ensures Valid()
      ensures nodes == Cut(old(nodes), {id})
      ensures level == old(level) && excluded == old(excluded) && region == old(region)
    {
      DetachIsCut(nodes, level, id);
      CutValid(nodes, level, {id});
      nodes := Detach(nodes, id);
    }

    /** `RemoveNode`: a childless node is detached from its parent and deleted. */
    method RemoveNode(id: int)
      requires Valid() && id in nodes && nodes[id].children == []
      modifies this
      ensures Valid()
      ensures nodes == Prune(old(nodes), {id})
      ensures level == old(level) && excluded == old(excluded) && region == old(region)
    {
      ghost var o := nodes;
      DetachIsCut(nodes, level, id);
      DropLeafValid(nodes, level, id);
      CutThenDrop(nodes, {id});
      nodes := Detach(nodes, id);
      nodes := nodes - {id};
    }

    /**
     * The older `RemoveNode`: a non-root's parent drops every child equal to
     * the node (`RemoveAll`), then the node is deleted; its own parent link
     * goes with it.
     */
    method LegacyRemoveNode(id: int)
      requires Valid() && id in nodes && nodes[id].children == []
      modifies this
      ensures Valid()
      ensures nodes == Prune(old(nodes), {id})
      ensures level == old(level) && excluded == old(excluded) && region == old(region)
    {
      ghost var o := nodes;
      DropLeafValid(nodes, level, id);
      LegacyDropIsPrune(nodes, level, id);
      if id !in RootIds() {
        var p := nodes[id].parent.value;
        nodes := nodes[p := nodes[p].(children := Without(nodes[p].children, {id}))];
      }
      nodes := nodes - {id};
    }

    /** The older removal's two steps amount to deleting the node. */
    static lemma LegacyDropIsPrune(m: Nodes, rank: Rank, id: int)
      requires ForestArena.Valid(m, rank) && id in m
      ensures m[id].parent.Some? ==> m[id].parent.value in m
      ensures var n := if m[id].parent.None? then m
                       else m[m[id].parent.value := m[m[id].parent.value].(children := Without(m[m[id].parent.value].children, {id}))];
              n - {id} == Prune(m, {id})
    {
      assert Linked(m, rank, id);
      ChildOfParentOnly(m, rank, id);
      var n := if m[id].parent.None? then m
               else m[m[id].parent.value := m[m[id].parent.value].(children := Without(m[m[id].parent.value].children, {id}))];
      forall k | k in m && k != id ensures (n - {id})[k] == Prune(m, {id})[k] {
        if m[id].parent != Some(k) {
          WithoutNothing(m[k].children, {id});
        }
      }
    }

    /**
     * `RemoveSubtree`: the nodes of the subtree under `start` that are not
     * kept are collected in breadth-first order, deleted leaves first (the
     * reverse order), and returned.
     */
    method RemoveSubtree(start: int, keep: set<int>) returns (removed: seq<int>)
      requires Valid() && start in nodes && KeepClosed(nodes, keep)
      modifies this
      ensures Valid() && KeepClosed(nodes, keep)
      ensures Distinct(removed)
      ensures forall x :: x in removed <==> x in old(nodes) && InSubtree(old(nodes), old(level), start, x) && x !in keep
      ensures nodes == Prune(old(nodes), Elements(removed))
      ensures level == old(level) && excluded == old(excluded) && region == old(region)
    {
      removed := CollectUnkept(nodes, level, start, keep);
      PopAll(start, keep, removed);
    }

    /**
     * The selection pass of `RemoveSubtree`: the ids of the subtree under
     * `start` that are not kept, in breadth-first order, so that every
     * parent comes before its children.
     */
    static method CollectUnkept(m: Nodes, ghost rank: Rank, start: int, keep: set<int>) returns (removed: seq<int>)
      requires ForestArena.Valid(m, rank) && start in m
      ensures Distinct(removed) && ParentBefore(m, removed)
      ensures forall x :: x in removed <==> x in m && InSubtree(m, rank, start, x) && x !in keep
    {
      var order := TraverseSubtree(m, rank, start);
      removed := [];
      var i := 0;
      while i < |order|
        invariant 0 <= i <= |order|
        invariant Distinct(removed)
        invariant forall x :: x in removed <==> x in order[..i] && x !in keep
        invariant forall b :: 0 <= b < |removed| ==> removed[b] in order[..i]
        invariant ParentBefore(m, removed)
      {
        var x := order[i];
        if x !in keep {
          CollectStep(m, rank, order, i, removed);
          assert x !in order[..i];
          DistinctAppend(removed, x);
          removed := removed + [x];
        }
        TakeOneMore(order, i);
        i := i + 1;
      }
      assert order[..i] == order;
    }

    /** The deletion pass of `RemoveSubtree`: the collected ids are deleted from the last to the first. */
    method PopAll(ghost start: int, ghost keep: set<int>, removed: seq<int>)
      requires Valid() && KeepClosed(nodes, keep) && Distinct(removed) && ParentBefore(nodes, removed)
      requires forall x :: x in removed <==> x in nodes && InSubtree(nodes, level, start, x) && x !in keep
      modifies this
      ensures Valid() && KeepClosed(nodes, keep)
      ensures nodes == Prune(old(nodes), Elements(removed))
      ensures level == old(level) && excluded == old(excluded) && region == old(region)
    {
      ghost var o := nodes;
      var t := |removed|;
      PruneNone(o);
      assert Elements(removed[t..]) == {};
      while t > 0
        invariant 0 <= t <= |removed|
        invariant Valid() && level == old(level) && excluded == old(excluded) && region == old(region)
        invariant nodes == Prune(o, Elements(removed[t..]))
      {
        var x := removed[t - 1];
        PopReady(o, level, start, keep, removed, t);
        RemoveNode(x);
        PrunePrune(o, Elements(removed[t..]), {x});
        t := t - 1;
      }
      assert removed[0..] == removed;
      forall x | x in Elements(removed) ensures x !in keep {
        assert x in removed;
      }
      PrunedKeepClosed(o, keep, Elements(removed));
    }

    /** Deleting nodes that are not kept leaves every kept node's parent kept. */
    static lemma PrunedKeepClosed(o: Nodes, keep: set<int>, r: set<int>)
      requires KeepClosed(o, keep) && r !! keep
      ensures KeepClosed(Prune(o, r), keep)
    {
    }

    /**
     * The next id popped off the removal stack is present and childless:
     * its children were pushed after it and are gone already.
     */
    static lemma PopReady(o: Nodes, rank: Rank, start: int, keep: set<int>, removed: seq<int>, t: int)
      requires ForestArena.Valid(o, rank) && KeepClosed(o, keep) && Distinct(removed)
      requires forall x :: x in removed <==> x in o && InSubtree(o, rank, start, x) && x !in keep
      requires ParentBefore(o, removed) && 0 < t <= |removed|
      ensures removed[t - 1] in Prune(o, Elements(removed[t..]))
      ensures Prune(o, Elements(removed[t..]))[removed[t - 1]].children == []
      ensures Elements(removed[t - 1..]) == Elements(removed[t..]) + {removed[t - 1]}
    {
      var x := removed[t - 1];
      var s := Elements(removed[t..]);
      assert x in removed;
      forall k | 0 <= k < |o[x].children| ensures o[x].children[k] in s {
        var c := o[x].children[k];
        assert Linked(o, rank, x);
        SubtreeChild(o, rank, start, x, c);
        assert c in removed;
        var b :| 0 <= b < |removed| && removed[b] == c;
        assert removed[t..][b - t] == c;
      }
      WithoutAll(o[x].children, s);
      forall b | t <= b < |removed| ensures removed[b] != x {
      }
      assert x !in removed[t..];
      assert removed[t - 1..] == [x] + removed[t..];
    }

    /** Extending a parent-before-child list of visited ids by the next id of a breadth-first order. */
    static lemma CollectStep(m: Nodes, rank: Rank, order: seq<int>, i: int, removed: seq<int>)
      requires ForestArena.Valid(m, rank) && 0 <= i < |order| && order[i] in m
      requires ParentBefore(m, order) && ParentBefore(m, removed)
      requires forall b :: 0 <= b < |removed| ==> removed[b] in order[..i]
      ensures ParentBefore(m, removed + [order[i]])
    {
      var x := order[i];
      assert Linked(m, rank, x);
      forall b | 0 <= b < |removed| && removed[b] in m ensures m[removed[b]].parent != Some(x) {
        var j :| 0 <= j < i && order[..i][j] == removed[b];
        assert order[j] == removed[b];
      }
      var s := removed + [x];
      forall a, b | 0 <= a < |s| && 0 <= b < |s| && s[b] in m && m[s[b]].parent == Some(s[a]) ensures a < b {
        if b < |removed| {
          assert s[b] == removed[b];
          if a < |removed| {
            assert s[a] == removed[a];
          }
        }
      }
    }

    /** The ids the tree-building strategy offers for the roots `rs`. */
    ghost function Offered(rs: seq<RoadNetworkNode>): set<int>
      decreases |rs|
    {
      if rs == [] then {} else Offered(rs[..|rs| - 1]) + TreeIds(treeBuilder(rs[|rs| - 1]))
    }

    /**
     * One step of `Build`'s merge: an incoming node `t` whose builder parent
     * is `parent`, while merging the tree of the root `rootId`. `ok` is false
     * when the node had to be stored but its parent was missing; `explore`
     * says whether the node's children are queued.
     */
    method MergeIncoming(parent: Option<int>, t: Tree, rootId: int) returns (ok: bool, explore: bool)
      requires Valid()
      modifies this
      ensures Valid() && excluded == old(excluded) && region == old(region)
      ensures nodes.Keys <= old(nodes).Keys + {t.id}
      ensures t.id in old(excluded) ==> ok && !explore && nodes == old(nodes)
      ensures t.id !in old(excluded) && t.id !in old(nodes) ==>
        && explore == ok
        && (ok <==> (parent.Some? ==> parent.value in old(nodes)))
        && (ok ==> nodes == Attach(old(nodes), t.id, parent, t.dist, t.prob))
        && (!ok ==> nodes == old(nodes))
      ensures t.id !in old(excluded) && t.id in old(nodes) && t.dist < old(nodes)[t.id].dist ==>
        var rest := Prune(old(nodes), Subtree(old(nodes), old(level), t.id));
        && explore == ok
        && (ok <==> (parent.Some? ==> parent.value in rest))
        && (ok ==> nodes == Attach(rest, t.id, parent, t.dist, t.prob))
        && (!ok ==> nodes == rest)
      ensures t.id !in old(excluded) && t.id in old(nodes) && t.dist >= old(nodes)[t.id].dist ==>
        ok && nodes == old(nodes) && explore == (t.id == rootId)
      ensures (Merged(nodes, level, ok), explore) == MergeStep(old(nodes), old(level), excluded, parent, t, rootId)
    {
      if t.id in excluded {
        return true, false;
      }
      if t.id in nodes && t.dist < nodes[t.id].dist {
        var removed := RemoveSubtree(t.id, {});
        assert Elements(removed) == Subtree(old(nodes), old(level), t.id);
        ok := AddNode(t.id, parent, t.dist, t.prob);
        explore := ok;
      } else if t.id !in nodes {
        ok := AddNode(t.id, parent, t.dist, t.prob);
        explore := ok;
      } else {
        ok := true;
        explore := t.id == rootId;
      }
    }

    /**
     * `Build`: every current id goes to history and the store is emptied;
     * then the strategy's tree for each root is merged breadth first. A
     * failed merge step abandons the build (`ok` false). Only offered ids
     * are ever stored, and none from history.
     */
    method Build(roots: seq<RoadNetworkNode>) returns (ok: bool)
      requires Valid()
      modifies this
      ensures Valid() && region == old(region)
      ensures excluded == old(excluded) + old(nodes).Keys
      ensures nodes.Keys <= Offered(roots)
      ensures Merged(nodes, level, ok) == MergeTrees(map[], old(level), excluded, roots, treeBuilder)
    {
      excluded := excluded + nodes.Keys;
      nodes := map[];
      ghost var rank0 := level;
      var i := 0;
      while i < |roots|
        invariant 0 <= i <= |roots|
        invariant Valid() && region == old(region)
        invariant excluded == old(excluded) + old(nodes).Keys
        invariant nodes.Keys <= Offered(roots[..i])
        invariant Merged(nodes, level, true) == MergeTrees(map[], rank0, excluded, roots[..i], treeBuilder)
      {
        var tree := treeBuilder(roots[i]);
        var queue: seq<Pending> := [(None, tree)];
        assert roots[..i + 1][..i] == roots[..i];
        ghost var goal := MergeTrees(map[], rank0, excluded, roots[..i + 1], treeBuilder);
        while queue != []
          invariant Valid() && region == old(region)
          invariant excluded == old(excluded) + old(nodes).Keys
          invariant nodes.Keys <= Offered(roots[..i]) + TreeIds(tree)
          invariant forall e :: 0 <= e < |queue| ==> TreeIds(queue[e].1) <= TreeIds(tree)
          invariant MergeQueue(nodes, level, excluded, queue, roots[i].id) == goal
          decreases PendingSize(queue)
        {
          var (parent, t) := queue[0];
          var explore;
          assert TreeIds(queue[0].1) <= TreeIds(tree);
          ok, explore := MergeIncoming(parent, t, roots[i].id);
          if !ok {
            assert Offered(roots) == Offered(roots[..|roots|]) by { assert roots[..|roots|] == roots; }
            OfferedGrows(roots, i + 1);
            MergeTreesFailed(map[], rank0, excluded, roots, treeBuilder, i + 1);
            return;
          }
          var next := if explore then Entries(t.id, t.children) else [];
          forall e | 0 <= e < |next| ensures TreeIds(next[e].1) <= TreeIds(tree) {
            AllIdsHas(t.children, e);
          }
          PendingConcat(queue[1..], next);
          PendingEntries(t.id, t.children);
          queue := queue[1..] + next;
        }
        i := i + 1;
      }
      assert roots[..i] == roots;
      ok := true;
    }

    /** What a prefix of the roots offers is offered by all of them. */
    lemma {:induction false} OfferedGrows(rs: seq<RoadNetworkNode>, k: int)
      requires 0 <= k <= |rs|
      ensures Offered(rs[..k]) <= Offered(rs)
      decreases |rs| - k
    {
      if k < |rs| {
        OfferedGrows(rs, k + 1);
        assert rs[..k + 1][..k] == rs[..k];
      } else {
        assert rs[..k] == rs;
      }
    }

    /**
     * First phase of `Update`: the subtrees of the matched nodes are
     * collected; the current revision also detaches each matched node from
     * its parent right after visiting it (`detach`).
     */
    method CollectMatched(roots: seq<RoadNetworkNode>, detach: bool) returns (included: set<int>)
      requires Valid() && forall i :: 0 <= i < |roots| ==> roots[i].id in nodes
      modifies this
      ensures Valid() && level == old(level) && excluded == old(excluded) && region == old(region)
      ensures included == Reach(old(nodes), old(level), Ids(roots))
      ensures nodes == if detach then Cut(old(nodes), Ids(roots)) else old(nodes)
    {
      ghost var o := nodes;
      ghost var matched: set<int> := {};
      included := {};
      CutNone(o);
      assert Reach(o, level, {}) == {};
      var t := 0;
      while t < |roots|
        invariant 0 <= t <= |roots|
        invariant Valid() && level == old(level) && excluded == old(excluded) && region == old(region)
        invariant matched == Ids(roots[..t])
        invariant nodes == if detach then Cut(o, matched) else o
        invariant included == Reach(o, level, matched)
      {
        var r := roots[t].id;
        IdsSnoc(roots, t);
        var order := TraverseSubtree(nodes, level, r);
        ReachStep(o, level, matched, r, detach);
        assert Elements(order) == Subtree(nodes, level, r);
        included := included + Elements(order);
        if detach {
          DetachIsCut(nodes, level, r);
          if nodes[r].parent.Some? {
            DetachNode(r);
          }
          CutCut(o, matched, {r});
        }
        matched := matched + {r};
        t := t + 1;
      }
      assert roots[..t] == roots;
    }

    /** Second phase of `Update`: every kept node whose parent is not kept is detached from it. */
    method DetachOrphans(included: set<int>)
      requires Valid() && included <= nodes.Keys
      modifies this
      ensures Valid() && level == old(level) && excluded == old(excluded) && region == old(region)
      ensures nodes == Cut(old(nodes), Orphans(old(nodes), included))
      ensures KeepClosed(nodes, included)
    {
      ghost var n1 := nodes;
      ghost var orphans := Orphans(n1, included);
      ghost var done: set<int> := {};
      CutNone(n1);
      var todo := included;
      while todo != {}
        invariant todo <= included
        invariant done == orphans - todo
        invariant nodes == Cut(n1, done)
        invariant Valid() && level == old(level) && excluded == old(excluded) && region == old(region)
        decreases |todo|
      {
        ghost var w := Member(todo);
        var x :| x in todo;
        OrphanStep(n1, included, todo, done, x);
        var p := nodes[x].parent;
        if p.Some? && p.value !in included {
          DetachNode(x);
          CutCut(n1, done, {x});
          done := done + {x};
        }
        todo := todo - {x};
      }
      assert done == orphans;
    }

    /**
     * Third phase of `Update`: from every root, the nodes not kept are
     * deleted and sent to history.
     */
    method DropUnreached(included: set<int>)
      requires Valid() && included <= nodes.Keys && KeepClosed(nodes, included)
      modifies this
      ensures Valid() && level == old(level) && region == old(region)
      ensures nodes == Prune(old(nodes), old(nodes).Keys - included)
      ensures excluded == old(excluded) + (old(nodes).Keys - included)
    {
      ghost var n2 := nodes;
      ghost var lv := level;
      var todo := RootIds();
      UnreachedNone(n2, lv, included);
      while todo != {}
        invariant level == lv && region == old(region)
        invariant todo <= Roots(n2)
        invariant Valid() && KeepClosed(nodes, included)
        invariant nodes == Prune(n2, Unreached(n2, lv, included, todo))
        invariant excluded == old(excluded) + Unreached(n2, lv, included, todo)
        decreases |todo|
      {
        ghost var w := Member(todo);
        var r :| r in todo;
        DropRoot(r, included, n2, todo);
        todo := todo - {r};
      }
      UnreachedAll(n2, lv, included);
    }

    /**
     * One root of the third phase: the nodes not kept below root `r` of the
     * store `n2` the phase started from are deleted and sent to history.
     */
    method DropRoot(r: int, included: set<int>, ghost n2: Nodes, ghost todo: set<int>)
      requires ForestArena.Valid(n2, level) && KeepClosed(n2, included) && todo <= Roots(n2) && r in todo
      requires Valid() && KeepClosed(nodes, included)
      requires nodes == Prune(n2, Unreached(n2, level, included, todo))
      modifies this
      ensures level == old(level) && region == old(region)
      ensures Valid() && KeepClosed(nodes, included)
      ensures nodes == Prune(n2, Unreached(n2, level, included, todo - {r}))
      ensures excluded == old(excluded) + (Unreached(n2, level, included, todo - {r}) - Unreached(n2, level, included, todo))
    {
      ghost var gone := Unreached(n2, level, included, todo);
      assert r in nodes by {
        DropStep(n2, level, included, todo, r);
      }
      var removed := RemoveSubtree(r, included);
      assert gone + Elements(removed) == Unreached(n2, level, included, todo - {r}) by {
        DropUnion(n2, level, included, todo, r, Elements(removed));
      }
      assert Prune(n2, gone + Elements(removed)) == nodes by {
        PrunePrune(n2, gone, Elements(removed));
      }
      assert gone !! Elements(removed);
      excluded := excluded + Elements(removed);
    }

    /**
     * `Update`: the forest shrinks to the subtrees of the matched nodes, each
     * matched node becomes a root, and every deleted id goes to history.
     */
    method Update(roots: seq<RoadNetworkNode>)
      requires Valid() && forall i :: 0 <= i < |roots| ==> roots[i].id in nodes
      modifies this
      ensures Valid() && level == old(level) && region == old(region)
      ensures nodes == Narrowed(old(nodes), old(level), Ids(roots), true)
      ensures nodes.Keys == Reach(old(nodes), old(level), Ids(roots))
      ensures forall i :: 0 <= i < |roots| ==> roots[i].id in nodes && nodes[roots[i].id].parent.None?
      ensures excluded == old(excluded) + (old(nodes).Keys - nodes.Keys)
    {
      var included := CollectMatched(roots, true);
      DetachOrphans(included);
      DropUnreached(included);
      NarrowedKeys(old(nodes), old(level), Ids(roots), true);
      NarrowedMatched(old(nodes), old(level), Ids(roots));
    }

    /**
     * The older `Update`: the same phases without detaching the matched
     * nodes, so a matched node below another kept node keeps its parent.
     */
    method LegacyUpdate(roots: seq<RoadNetworkNode>)
      requires Valid() && forall i :: 0 <= i < |roots| ==> roots[i].id in nodes
      modifies this
      ensures Valid() && level == old(level) && region == old(region)
      ensures nodes == Narrowed(old(nodes), old(level), Ids(roots), false)
      ensures nodes.Keys == Reach(old(nodes), old(level), Ids(roots))
      ensures forall i :: 0 <= i < |roots| ==>
        && roots[i].id in nodes
        && (nodes[roots[i].id].parent.None? <==>
              old(nodes)[roots[i].id].parent.None? || old(nodes)[roots[i].id].parent.value !in nodes.Keys)
      ensures excluded == old(excluded) + (old(nodes).Keys - nodes.Keys)
    {
      var included := CollectMatched(roots, false);
      DetachOrphans(included);
      DropUnreached(included);
      NarrowedKeys(old(nodes), old(level), Ids(roots), false);
      NarrowedLegacy(old(nodes), old(level), Ids(roots));
    }

    /**
     * One root's pass of the probability assignment: the subtree under `r`
     * is traversed breadth first, a root getting `share` and every other node
     * its parent's probability over the parent's child count. `o` is the
     * store's shape, which the pass does not change.
     */
    method AssignSubtree(r: int, share: real, ghost o: Nodes, ghost todo: set<int>)
      requires Valid() && ForestArena.Valid(o, level) && SameShape(o, nodes)
      requires todo <= Roots(o) && r in todo
      requires forall x :: x in o && RootOf(o, level, x) !in todo ==> ProbabilityRule(nodes, share, x)
      modifies this
      ensures Valid() && SameShape(o, nodes)
      ensures level == old(level) && excluded == old(excluded) && region == old(region)
      ensures forall x :: x in o && RootOf(o, level, x) !in todo - {r} ==> ProbabilityRule(nodes, share, x)
    {
      var order := TraverseSubtree(nodes, level, r);
      ShapeTraversal(o, nodes, level, r, order);
      var i := 0;
      while i < |order|
        invariant 0 <= i <= |order|
        invariant SameShape(o, nodes)
        invariant level == old(level) && excluded == old(excluded) && region == old(region)
        invariant forall x :: x in o && RootOf(o, level, x) !in todo ==> ProbabilityRule(nodes, share, x)
        invariant forall j :: 0 <= j < i ==> order[j] in nodes && ProbabilityRule(nodes, share, order[j])
      {
        var x := order[i];
        AssignStep(o, level, share, todo, r, order, i, nodes);
        nodes := nodes[x := nodes[x].(prob := RuleValue(nodes, share, x))];
        i := i + 1;
      }
      SubtreeFinished(o, level, share, todo, r, order, nodes);
      ShapeValid(o, nodes, level);
    }

    /**
     * Both revisions' probability pass with the root share as a parameter:
     * afterwards every node follows the probability rule, and nothing but
     * probabilities has changed.
     */
    method AssignProbabilities(share: real)
      requires Valid()
      modifies this
      ensures Valid() && SameShape(old(nodes), nodes)
      ensures level == old(level) && excluded == old(excluded) && region == old(region)
      ensures Assigned(nodes, share)
    {
      ghost var o := nodes;
      var todo := RootIds();
      RootsCoverAll(o, level);
      while todo != {}
        invariant Valid() && SameShape(o, nodes)
        invariant level == old(level) && excluded == old(excluded) && region == old(region)
        invariant todo <= Roots(o)
        invariant forall x :: x in o && RootOf(o, level, x) !in todo ==> ProbabilityRule(nodes, share, x)
        decreases |todo|
      {
        ghost var w := Member(todo);
        var r :| r in todo;
        AssignSubtree(r, share, o, todo);
        todo := todo - {r};
      }
    }

    /**
     * `ProbabilityAssignment`: every root gets `1 / |Roots|`, every other
     * node its parent's probability divided by the parent's child count.
     */
    method ProbabilityAssignment()
      requires Valid()
      modifies this
      ensures Valid() && SameShape(old(nodes), nodes) && RootIds() == old(RootIds())
      ensures level == old(level) && excluded == old(excluded) && region == old(region)
      ensures RootIds() == {} ==> nodes == map[]
      ensures RootIds() != {} ==> Assigned(nodes, 1.0 / (|RootIds()| as real))
    {
      var k := |RootIds()|;
      if k == 0 {
        NoRootsEmpty(nodes, level);
        return;
      }
      AssignProbabilities(1.0 / (k as real));
      ShapeRoots(old(nodes), nodes);
    }

    /**
     * The older `ProbabilityExpansion`: every root gets 1.0 and every other
     * node its parent's probability divided by the parent's child count.
     */
    method LegacyProbabilityExpansion()
      requires Valid()
      modifies this
      ensures Valid() && SameShape(old(nodes), nodes)
      ensures level == old(level) && excluded == old(excluded) && region == old(region)
      ensures Assigned(nodes, 1.0)
    {
      AssignProbabilities(1.0);
    }

    /**
     * `GetRegionNodes`: the road node nearest the centre of the current
     * region, then that node's neighbours within the radius of `r`, less the
     * ids in history. Nothing comes back when there is no current region or
     * either lookup finds no cell (the source dereferences null there).
     * `centre` and `near` are the two lookups' results.
     */
    method GetRegionNodes(r: Region) returns (found: Option<seq<RoadNetworkNode>>,
                                              ghost centre: Option<RoadNetworkNode>, ghost near: seq<RoadNetworkNode>)
      requires roadNetwork.difLat != 0.0 && roadNetwork.difLng != 0.0
      ensures region.None? ==> found.None?
      ensures found.Some? ==> forall i :: 0 <= i < |found.value| ==> found.value[i].id !in excluded
      ensures region.Some? ==> (centre.None? <==> roadNetwork.CellEmpty(region.value.center))
      ensures region.Some? && centre.Some? ==>
        roadNetwork.NearestIn(region.value.center, roadNetwork.spatialIndex[roadNetwork.Mapping(region.value.center)], centre.value)
      ensures found.None? <==> region.None? || centre.None? || roadNetwork.CellEmpty(centre.value.location)
      ensures found.Some? ==>
        var cell := roadNetwork.spatialIndex[roadNetwork.Mapping(centre.value.location)];
        && near == roadNetwork.FirstMet(centre.value.location, cell, r.radius, |cell|)
        && roadNetwork.NeighboursIn(centre.value.location, cell, r.radius, near)
        && found.value == WithIdNotIn(near, excluded)
    {
      near := [];
      centre := None;
      if region.None? {
        return None, centre, near;
      }
      var c := region.value.center;
      var centreNode := roadNetwork.Nearest(c.latitude, c.longitude);
      centre := centreNode;
      if centreNode.None? {
        return None, centre, near;
      }
      var neighbours := roadNetwork.GetNeighbors(centreNode.value, r.radius);
      if neighbours.None? {
        return None, centre, near;
      }
      near := neighbours.value;
      found := Some(WithIdNotIn(neighbours.value, excluded));
    }

    /**
     * `Predict`: the region becomes current and its candidate road nodes are
     * looked up. The forest is built afresh when it is empty or holds none of
     * the candidates; otherwise it is updated to the candidates it holds.
     * Probabilities are then assigned, `1 / |Roots|` to every root.
     */
    method Predict(r: Region) returns (outcome: Outcome, ghost candidates: seq<RoadNetworkNode>,
                                  ghost centre: Option<RoadNetworkNode>, ghost near: seq<RoadNetworkNode>)
      requires Valid() && roadNetwork.difLat != 0.0 && roadNetwork.difLng != 0.0
      modifies this
      ensures Valid() && region == Some(r)
      ensures centre.None? <==> roadNetwork.CellEmpty(r.center)
      ensures centre.Some? ==>
        roadNetwork.NearestIn(r.center, roadNetwork.spatialIndex[roadNetwork.Mapping(r.center)], centre.value)
      ensures outcome == RegionUnavailable <==> centre.None? || roadNetwork.CellEmpty(centre.value.location)
      ensures outcome != RegionUnavailable ==>
        var cell := roadNetwork.spatialIndex[roadNetwork.Mapping(centre.value.location)];
        && near == roadNetwork.FirstMet(centre.value.location, cell, r.radius, |cell|)
        && candidates == WithIdNotIn(near, old(excluded))
      ensures outcome == Rebuilt || outcome == BuildAborted ==>
        var built := MergeTrees(map[], old(level), excluded, candidates, treeBuilder);
        && (outcome == Rebuilt <==> built.ok)
        && (outcome == Rebuilt ==> SameShape(built.nodes, nodes))
        && (outcome == BuildAborted ==> nodes == built.nodes)
      ensures outcome == RegionUnavailable ==> nodes == old(nodes) && excluded == old(excluded)
      ensures forall a :: 0 <= a < |candidates| ==> candidates[a].id !in old(excluded)
      ensures (outcome == Rebuilt || outcome == BuildAborted) <==>
        outcome != RegionUnavailable && (old(nodes) == map[] || WithIdIn(candidates, old(nodes).Keys) == [])
      ensures outcome == Rebuilt || outcome == BuildAborted ==>
        excluded == old(excluded) + old(nodes).Keys && nodes.Keys <= Offered(candidates)
      ensures outcome == Updated ==>
        && SameShape(Narrowed(old(nodes), old(level), Ids(WithIdIn(candidates, old(nodes).Keys)), true), nodes)
        && excluded == old(excluded) + (old(nodes).Keys - nodes.Keys)
      ensures (outcome == Rebuilt || outcome == Updated) && RootIds() != {} ==>
        Assigned(nodes, 1.0 / (|RootIds()| as real))
    {
      region := Some(r);
      var found: Option<seq<RoadNetworkNode>>;
      found, centre, near := GetRegionNodes(r);
      if found.None? {
        return RegionUnavailable, [], centre, near;
      }
      var regionNodes := found.value;
      candidates := regionNodes;
      var members := WithIdIn(regionNodes, nodes.Keys);
      if nodes == map[] || members == [] {
        var ok := Build(regionNodes);
        if !ok {
          return BuildAborted, candidates, centre, near;
        }
        outcome := Rebuilt;
      } else {
        Update(members);
        outcome := Updated;
      }
      ProbabilityAssignment();
    }

    /**
     * The older `Predict`: the same choice between building and updating,
     * with the older `Update` and every root getting probability 1.0.
     */
    method LegacyPredict(r: Region) returns (outcome: Outcome, ghost candidates: seq<RoadNetworkNode>,
                                  ghost centre: Option<RoadNetworkNode>, ghost near: seq<RoadNetworkNode>)
      requires Valid() && roadNetwork.difLat != 0.0 && roadNetwork.difLng != 0.0
      modifies this
      ensures Valid() && region == Some(r)
      ensures centre.None? <==> roadNetwork.CellEmpty(r.center)
      ensures centre.Some? ==>
        roadNetwork.NearestIn(r.center, roadNetwork.spatialIndex[roadNetwork.Mapping(r.center)], centre.value)
      ensures outcome == RegionUnavailable <==> centre.None? || roadNetwork.CellEmpty(centre.value.location)
      ensures outcome != RegionUnavailable ==>
        var cell := roadNetwork.spatialIndex[roadNetwork.Mapping(centre.value.location)];
        && near == roadNetwork.FirstMet(centre.value.location, cell, r.radius, |cell|)
        && candidates == WithIdNotIn(near, old(excluded))
      ensures outcome == Rebuilt || outcome == BuildAborted ==>
        var built := MergeTrees(map[], old(level), excluded, candidates, treeBuilder);
        && (outcome == Rebuilt <==> built.ok)
        && (outcome == Rebuilt ==> SameShape(built.nodes, nodes))
        && (outcome == BuildAborted ==> nodes == built.nodes)
      ensures outcome == RegionUnavailable ==> nodes == old(nodes) && excluded == old(excluded)
      ensures forall a :: 0 <= a < |candidates| ==> candidates[a].id !in old(excluded)
      ensures (outcome == Rebuilt || outcome == BuildAborted) <==>
        outcome != RegionUnavailable && (old(nodes) == map[] || WithIdIn(candidates, old(nodes).Keys) == [])
      ensures outcome == Rebuilt || outcome == BuildAborted ==>
        excluded == old(excluded) + old(nodes).Keys && nodes.Keys <= Offered(candidates)
      ensures outcome == Updated ==>
        && SameShape(Narrowed(old(nodes), old(level), Ids(WithIdIn(candidates, old(nodes).Keys)), false), nodes)
        && excluded == old(excluded) + (old(nodes).Keys - nodes.Keys)
      ensures outcome == Rebuilt || outcome == Updated ==> Assigned(nodes, 1.0)
    {
      region := Some(r);
      var found: Option<seq<RoadNetworkNode>>;
      found, centre, near := GetRegionNodes(r);
      if found.None? {
        return RegionUnavailable, [], centre, near;
      }
      var regionNodes := found.value;
      candidates := regionNodes;
      var members := WithIdIn(regionNodes, nodes.Keys);
      if nodes == map[] || members == [] {
        var ok := Build(regionNodes);
        if !ok {
          return BuildAborted, candidates, centre, near;
        }
        outcome := Rebuilt;
      } else {
        LegacyUpdate(members);
        outcome := Updated;
      }
      LegacyProbabilityExpansion();
    }

    /**
     * `AddNode`: a childless copy of an incoming node is stored and appended
     * to its parent's children. The id must be new and not in history; when
     * the parent is missing nothing is stored and the merge fails.
     */
    method AddNode(id: int, parent: Option<int>, dist: real, prob: real) returns (ok: bool)
      requires Valid() && id !in excluded && id !in nodes
      modifies this
      ensures ok <==> (parent.Some? ==> parent.value in old(nodes))
      ensures ok ==> nodes == Attach(old(nodes), id, parent, dist, prob)
      ensures !ok ==> nodes == old(nodes)
      ensures ok ==> (parent.Some? ==> parent.value in old(level)) && level == AttachRank(old(level), id, parent)
      ensures !ok ==> level == old(level)
      ensures Valid() && excluded == old(excluded) && region == old(region)
    {
      if parent.Some? && parent.value !in nodes {
        return false;
      }
      AttachValid(nodes, level, id, parent, dist, prob);
      level := AttachRank(level, id, parent);
      nodes := Attach(nodes, id, parent, dist, prob);
      ok := true;
    }
  }
}
