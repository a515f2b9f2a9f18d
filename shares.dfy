/**
 * How the reachability tree spreads probability below its root item, as a
 * reference definition: the root item holds 1, and each node holds its
 * parent's probability divided evenly among the parent's children, so a
 * node's share is the product of `1 / |children|` along its path from the
 * root item. With a threshold, the spread only continues below nodes whose
 * share exceeds it; the object's record is then added to each network node
 * reached that way. The ids here are keys of a `ForestArena` store.
 */
module TreeShares {
  import opened Wrappers
  import opened Sequences
  import opened ForestArena
  import opened RoadGraph

  /** The share of `x` when `start` holds 1; 0 for a node outside the subtree of `start`. */
  ghost function PathProb(m: Nodes, rank: Rank, start: int, x: int): (p: real)
    requires Valid(m, rank) && x in m
    ensures 0.0 <= p <= 1.0
    decreases rank[x]
  {
    if x == start then 1.0
    else if m[x].parent.None? then 0.0
    else
      var q := m[x].parent.value;
      assert Linked(m, rank, x);
      var k := |m[q].children| as real;
      var above := PathProb(m, rank, start, q);
      DivideShare(above, k);
      above / k
  }

  /**
   * `x` is dequeued by the thresholded spread from `start`: it is `start`,
   * or its share exceeds `thr` and its parent is dequeued.
   */
  ghost predicate Reached(m: Nodes, rank: Rank, start: int, thr: real, x: int)
    requires Valid(m, rank) && x in m
    decreases rank[x]
  {
    x == start ||
    (m[x].parent.Some? && PathProb(m, rank, start, x) > thr &&
     (assert Linked(m, rank, x); Reached(m, rank, start, thr, m[x].parent.value)))
  }

  /** `x` receives a probability in the thresholded spread: it is `start` or a child of a dequeued node. */
  ghost predicate Assigned(m: Nodes, rank: Rank, start: int, thr: real, x: int)
    requires Valid(m, rank) && x in m
  {
    x == start || (m[x].parent.Some? && (assert Linked(m, rank, x); Reached(m, rank, start, thr, m[x].parent.value)))
  }

  /** The object bag of network node `k` after its record is deleted below `r`, `r` itself excluded. */
  ghost function DeleteBag(m: Nodes, rank: Rank, r: int, objectId: int, k: int, bag: map<int, PredictedObjectRecord>)
    : map<int, PredictedObjectRecord>
    requires Valid(m, rank)
  {
    if k in m && k != r && InSubtree(m, rank, r, k) then bag - {objectId} else bag
  }

  /** The object bag of network node `k` after the thresholded spread from `r` registers the object. */
  ghost function RegisterBag(m: Nodes, rank: Rank, r: int, thr: real, objectId: int, k: int,
                             bag: map<int, PredictedObjectRecord>): map<int, PredictedObjectRecord>
    requires Valid(m, rank)
  {
    if k in m && k != r && Reached(m, rank, r, thr, k)
    then AddRecord(bag, PredictedObjectRecord(objectId, PathProb(m, rank, r, k), m[k].dist))
    else bag
  }

  /** Exactly the nodes of the subtree of `start` have a positive share. */
  lemma {:induction false} PathProbPositive(m: Nodes, rank: Rank, start: int, x: int)
    requires Valid(m, rank) && x in m
    ensures PathProb(m, rank, start, x) > 0.0 <==> InSubtree(m, rank, start, x)
    decreases rank[x]
  {
    if x != start && m[x].parent.Some? {
      assert Linked(m, rank, x);
      PathProbPositive(m, rank, start, m[x].parent.value);
    }
  }

  /** Below the root item, a node's share is its parent's share split evenly, so never more. */
  lemma ShareOfParent(m: Nodes, rank: Rank, start: int, x: int)
    requires Valid(m, rank) && x in m && InSubtree(m, rank, start, x) && x != start
    ensures m[x].parent.Some? && m[x].parent.value in m && |m[m[x].parent.value].children| > 0
    ensures var q := m[x].parent.value;
      && InSubtree(m, rank, start, q)
      && PathProb(m, rank, start, x) == PathProb(m, rank, start, q) / (|m[q].children| as real)
      && PathProb(m, rank, start, x) <= PathProb(m, rank, start, q)
  {
    assert Linked(m, rank, x);
    var q := m[x].parent.value;
    DivideShare(PathProb(m, rank, start, q), |m[q].children| as real);
  }

  /** Splitting a probability among one or more children gives each a probability no larger. */
  lemma DivideShare(a: real, k: real)
    requires 0.0 <= a <= 1.0 && k >= 1.0
    ensures 0.0 <= a / k <= a
  {
    var r := a / k;
    assert r * k == a;
    assert r * k >= r * 1.0;
  }

  /** A dequeued node lies in the subtree of `start`. */
  lemma {:induction false} ReachedInSubtree(m: Nodes, rank: Rank, start: int, thr: real, x: int)
    requires Valid(m, rank) && x in m && Reached(m, rank, start, thr, x)
    ensures InSubtree(m, rank, start, x)
    decreases rank[x]
  {
    if x != start {
      assert Linked(m, rank, x);
      ReachedInSubtree(m, rank, start, thr, m[x].parent.value);
    }
  }

  /**
   * The pruning loses nothing: because shares only shrink going down, the
   * spread dequeues exactly `start` and the nodes below it whose share
   * exceeds the threshold.
   */
  lemma {:induction false} ReachedIff(m: Nodes, rank: Rank, start: int, thr: real, x: int)
    requires Valid(m, rank) && x in m
    ensures Reached(m, rank, start, thr, x) <==>
      InSubtree(m, rank, start, x) && (x == start || PathProb(m, rank, start, x) > thr)
    decreases rank[x]
  {
    if x != start && m[x].parent.Some? {
      assert Linked(m, rank, x);
      var q := m[x].parent.value;
      ReachedIff(m, rank, start, thr, q);
      if InSubtree(m, rank, start, x) {
        ShareOfParent(m, rank, start, x);
      }
    }
  }

  /** A node that receives a probability lies in the subtree of `start`. */
  lemma AssignedInSubtree(m: Nodes, rank: Rank, start: int, thr: real, x: int)
    requires Valid(m, rank) && x in m && Assigned(m, rank, start, thr, x)
    ensures InSubtree(m, rank, start, x)
  {
    if x != start {
      assert Linked(m, rank, x);
      ReachedInSubtree(m, rank, start, thr, m[x].parent.value);
    }
  }

  /**
   * Once the subtree of `start` holds its shares, the children of any of
   * its nodes split that node's probability exactly: their probabilities add
   * up to it.
   */
  lemma SharesSum(o: Nodes, n: Nodes, rank: Rank, start: int, x: int)
    requires Valid(o, rank) && SameShape(o, n) && x in o && InSubtree(o, rank, start, x) && o[x].children != []
    requires forall y :: y in n && InSubtree(o, rank, start, y) ==> n[y].prob == PathProb(o, rank, start, y)
    ensures forall i :: 0 <= i < |n[x].children| ==> n[x].children[i] in n
    ensures ProbSum(n, n[x].children) == n[x].prob
  {
    assert Linked(o, rank, x);
    var cs := o[x].children;
    var k := |cs|;
    forall i | 0 <= i < k ensures cs[i] in n && n[cs[i]].prob == n[x].prob / (k as real) {
      var c := cs[i];
      assert c in cs;
      SubtreeChild(o, rank, start, x, c);
      ShareOfParent(o, rank, start, c);
    }
    EvenShares(n, cs, n[x].prob, k);
  }

  /** `InSubtree` is transitive. */
  lemma {:induction false} SubtreeTrans(m: Nodes, rank: Rank, a: int, b: int, x: int)
    requires Valid(m, rank) && b in m && x in m && InSubtree(m, rank, a, b) && InSubtree(m, rank, b, x)
    ensures InSubtree(m, rank, a, x)
    decreases rank[x]
  {
    if x != b {
      assert Linked(m, rank, x);
      SubtreeTrans(m, rank, a, b, m[x].parent.value);
    }
  }

  /**
   * Moving the root item from `r0` to its child `r1` and respreading: a node
   * the new spread reaches ends with exactly its new record, because the
   * old one was deleted first; the new root item loses its record; nodes
   * outside the old subtree, and the old root item, keep their bags.
   */
  lemma MoveRecords(m: Nodes, rank: Rank, r0: int, r1: int, thr: real, objectId: int, k: int,
                    bag: map<int, PredictedObjectRecord>)
    requires Valid(m, rank) && r0 in m && r1 in m[r0].children && k in m
    ensures var b := RegisterBag(m, rank, r1, thr, objectId, k, DeleteBag(m, rank, r0, objectId, k, bag));
      && (k != r1 && Reached(m, rank, r1, thr, k) ==>
            objectId in b && b[objectId] == PredictedObjectRecord(objectId, PathProb(m, rank, r1, k), m[k].dist))
      && (k == r1 ==> b == bag - {objectId})
      && (k == r0 || !InSubtree(m, rank, r0, k) ==> b == bag)
  {
    assert Linked(m, rank, r0);
    assert r1 in m && m[r1].parent == Some(r0);
    assert Linked(m, rank, r1);
    assert InSubtree(m, rank, r0, r1);
    if Reached(m, rank, r1, thr, k) {
      ReachedInSubtree(m, rank, r1, thr, k);
      SubtreeTrans(m, rank, r0, r1, k);
      SubtreeRank(m, rank, r1, k);
    }
  }

  /** Shares depend on the shape of the store only. */
  lemma {:induction false} PathProbShape(m: Nodes, n: Nodes, rank: Rank, start: int, x: int)
    requires Valid(m, rank) && SameShape(m, n) && x in m
    ensures Valid(n, rank) && x in n
    ensures PathProb(n, rank, start, x) == PathProb(m, rank, start, x)
    decreases rank[x]
  {
    ShapeValid(m, n, rank);
    if x != start && m[x].parent.Some? {
      assert Linked(m, rank, x);
      PathProbShape(m, n, rank, start, m[x].parent.value);
    }
  }

  /** So does the set of nodes the thresholded spread dequeues. */
  lemma {:induction false} ReachedShape(m: Nodes, n: Nodes, rank: Rank, start: int, thr: real, x: int)
    requires Valid(m, rank) && SameShape(m, n) && x in m
    ensures Valid(n, rank) && x in n
    ensures Reached(n, rank, start, thr, x) == Reached(m, rank, start, thr, x)
    decreases rank[x]
  {
    PathProbShape(m, n, rank, start, x);
    if x != start && m[x].parent.Some? {
      assert Linked(m, rank, x);
      ReachedShape(m, n, rank, start, thr, m[x].parent.value);
    }
  }

  /** And so does what the spread registers. */
  lemma RegisterShape(m: Nodes, n: Nodes, rank: Rank, r: int, thr: real, objectId: int, k: int,
                      bag: map<int, PredictedObjectRecord>)
    requires Valid(m, rank) && SameShape(m, n)
    ensures Valid(n, rank)
    ensures RegisterBag(n, rank, r, thr, objectId, k, bag) == RegisterBag(m, rank, r, thr, objectId, k, bag)
  {
    ShapeValid(m, n, rank);
    if k in m {
      ReachedShape(m, n, rank, r, thr, k);
      PathProbShape(m, n, rank, r, k);
    }
  }

  /** One step of `Reached` and `Assigned` below the start. */
  lemma ReachedUnfold(m: Nodes, rank: Rank, start: int, thr: real, x: int)
    requires Valid(m, rank) && x in m && x != start && m[x].parent.Some?
    ensures m[x].parent.value in m
    ensures Reached(m, rank, start, thr, x) <==>
      PathProb(m, rank, start, x) > thr && Reached(m, rank, start, thr, m[x].parent.value)
    ensures Assigned(m, rank, start, thr, x) <==> Reached(m, rank, start, thr, m[x].parent.value)
  {
    assert Linked(m, rank, x);
  }

  /** A dequeued node has received its probability. */
  lemma ReachedAssigned(m: Nodes, rank: Rank, start: int, thr: real, x: int)
    requires Valid(m, rank) && x in m && Reached(m, rank, start, thr, x)
    ensures Assigned(m, rank, start, thr, x)
  {
    assert Linked(m, rank, x);
  }

  /** Breadth-first order puts a node's parent before it, and the node's share follows from the parent's. */
  lemma ParentEarlier(m: Nodes, rank: Rank, start: int, order: seq<int>, i: int)
    requires Valid(m, rank) && start in m && 0 < i < |order| && order[0] == start && Distinct(order)
    requires forall x :: x in order <==> x in m && InSubtree(m, rank, start, x)
    requires ParentsEarlier(m, order)
    ensures order[i] in m && order[i] != start && order[i] !in order[..i]
    ensures m[order[i]].parent.Some? && m[order[i]].parent.value in order[..i]
    ensures var q := m[order[i]].parent.value;
      q in m && |m[q].children| > 0 &&
      PathProb(m, rank, start, order[i]) == PathProb(m, rank, start, q) / (|m[q].children| as real)
  {
    assert order[i] in order;
    assert order[i] != order[0];
    ShareOfParent(m, rank, start, order[i]);
  }

  /**
   * The probability pass of `ProbabilityExpansion` on the store alone:
   * `start` gets 1 and, in breadth-first order, every other node of its
   * subtree its parent's probability over the parent's child count.
   */
  method Spread(m: Nodes, ghost rank: Rank, start: int) returns (n: Nodes)
    requires Valid(m, rank) && start in m
    ensures SameShape(m, n)
    ensures forall x :: x in n ==>
      n[x].prob == if InSubtree(m, rank, start, x) then PathProb(m, rank, start, x) else m[x].prob
  {
    var order := TraverseSubtree(m, rank, start);
    n := m[start := m[start].(prob := 1.0)];
    var i := 1;
    while i < |order|
      invariant 1 <= i <= |order|
      invariant SameShape(m, n)
      invariant forall x :: x in n ==> n[x].prob == if x in order[..i] then PathProb(m, rank, start, x) else m[x].prob
    {
      var x := order[i];
      ParentEarlier(m, rank, start, order, i);
      var q := n[x].parent.value;
      n := n[x := n[x].(prob := n[q].prob / (|n[q].children| as real))];
      TakeOneMore(order, i);
      i := i + 1;
    }
    assert order[..i] == order;
  }
}
