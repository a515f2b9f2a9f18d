# Predictive forest and reachability trees

This project models the core of iRoad's prediction machinery. It covers the current revision (`iRoad/`) and the older one (`PredictiveForest/`). The Dafny model has five parts.

- **Road network.** Road nodes, directed edges, and the grid spatial index over the edges' bounding boxes. The grid answers two questions: "which node is nearest to this point" and "which nodes lie within this radius".
- **Reachability tree builder (`PredectiveTree`).** From one road node it grows, Dijkstra style, the tree of nodes within `range` kilometres. A priority queue keyed by distance drives the growth, with a side dictionary for decrease-key. The builder then spreads probability down the tree, and for a moving object it records the object at every node it is likely to reach.
- **Tree node.** `PredictiveTreeNode` in the current revision, `TreeNode` in the older one.
- **Predictive forest.** For a query region it looks up the candidate road nodes. It rebuilds the forest from one reachability tree per candidate, or narrows the forest it has to the candidates it already holds. It then assigns probabilities: `1 / |roots|` at every root in the current revision, and `1.0` in the older one. Below a root, each node splits its probability evenly among its children.
- **History.** Nodes dropped from the forest are remembered and never stored again.

The older builder, `PredictiveForest/PredictiveForest/PredictiveTree.cs`, is the current one line for line, over `TreeNode` instead of `PredictiveTreeNode`. So one model, `Reachability.PredectiveTree`, stands for both.

Both programs keep their trees as a dictionary from node id to a node object with `Parent` and `Children` links. The model keeps the same shape as a `map<int, Item>` whose links are ids (`ForestArena`). The forest and the builder are classes whose methods update that map in place. A ghost rank makes parent chains acyclic.

Alongside the operations, the model proves these properties:

- `TraverseSubtree` visits each node of a subtree exactly once, parents first.
- `Update` keeps exactly the nodes below a matched node. In the current revision it makes every matched node a root, and it sends every deleted id to history.
- `Build` computes exactly the fold `MergeTrees` of the roots' trees and fails exactly when that fold meets a missing parent. On the "conflict forest" trees, node 2 moves under the closer root (`ConflictForestMerge`).
- After probability assignment the children of a node share its probability exactly.
- In the builder, a node's share is the product of `1 / |children|` along its path (`PathProb`). The shares lie in [0, 1], and they are positive exactly on the subtree.
- The thresholded spread reaches exactly the nodes whose share exceeds the threshold.
- Moving the root item and respreading leaves every reached network node with exactly its new record.
- The spatial index files an edge under every cell its box overlaps, so a point on the edge maps to a cell that lists it.
- `Nearest` returns the first closest source node of the cell, and `GetNeighbors` the distinct source nodes within the radius in the order their edges are met. A cell's edges are a sequence in insertion order, and the neighbour dictionary is read back in insertion order; a dictionary that is only ever added to enumerates that way in .NET, though the framework does not promise it.

The grid quirk below is behaviour of the code as written; the model reproduces it.

- `Mapping` computes its result before clamping the row and column. The clamps never reach the result.
- Inside the box, a location therefore maps to the cell (row, column): `MappingInGrid`.
- A location on the east edge maps to the first cell of the next row: `MappingEastWraps`.

Distances (`DistanceInKM`) enter as a function parameter, and doubles are modelled as reals.

## Model

| member | source | states |
|---|---|---|
| RoadGraph.EndpointBox | iRoad/RoadNetworks/Edge.cs:80-105 | on each axis the box runs from the smaller endpoint coordinate minus 0.002 to the larger one plus 0.002 |
| RoadGraph.EndpointBoxContains | iRoad/RoadNetworks/Edge.cs:80-105 | the endpoint box is non-degenerate and contains both endpoints |
| RoadGraph.AddRecord | iRoad/RoadNetworks/RoadNetworkNode.cs:49-57 | the bag gains the object's id; an existing record is kept, a new id gets exactly the given record |
| RoadGraph.PredictedProbability | iRoad/RoadNetworks/RoadNetworkNode.cs:74-83 | the recorded probability of the object, 0 when the bag has no record for it |
| RoadGraph.ProbabilityAfterAdd | iRoad/RoadNetworks/RoadNetworkNode.cs:49-83 | after an add, the probability read back is the new one for a first record and the old one otherwise |
| RoadGraph.DeleteUndoesAdd | iRoad/RoadNetworks/RoadNetworkNode.cs:49-66 | deleting an object's record undoes adding it to a bag without it, and its probability reads 0 again |
| RoadGraph.RoadNetworkNode.constructor | iRoad/RoadNetworks/RoadNetworkNode.cs:27-36 | id and location as given, no edges, empty predicted and current object collections |
| RoadGraph.RoadNetworkNode.AddInEdge | iRoad/RoadNetworks/RoadNetworkNode.cs:38-41 | the edge is filed under its source; it succeeds exactly when no in-edge from that source exists, and nothing else changes |
| RoadGraph.RoadNetworkNode.AddOutEdge | iRoad/RoadNetworks/RoadNetworkNode.cs:43-46 | the edge is filed under its target; it succeeds exactly when no out-edge to that target exists, and nothing else changes |
| RoadGraph.RoadNetworkNode.AddPredictedObject | iRoad/RoadNetworks/RoadNetworkNode.cs:49-57 | the bag becomes `AddRecord` of the old bag: a first record is inserted, a repeated one ignored |
| RoadGraph.RoadNetworkNode.DeletePredictedObject | iRoad/RoadNetworks/RoadNetworkNode.cs:59-66 | the object's record is removed, and an absent object leaves the bag unchanged |
| RoadGraph.RoadNetworkNode.AddCurrentObject | iRoad/RoadNetworks/RoadNetworkNode.cs:85-88 | the object id is appended to the current objects |
| RoadGraph.RoadNetworkNode.DeleteCurrentObject | iRoad/RoadNetworks/RoadNetworkNode.cs:90-93 | only the first occurrence is removed (`List.Remove`), so the multiset loses exactly one copy |
| RoadGraph.RoadNetworkNode.EmptyPredictedObjects | iRoad/RoadNetworks/RoadNetworkNode.cs:100-103 | the predicted-object bag becomes empty and nothing else changes |
| RoadGraph.Edge.constructor | iRoad/RoadNetworks/Edge.cs:73-108 | endpoints and hourly cost as given, length the distance between the endpoints, no shape, and the endpoint box, which covers the edge |
| RoadGraph.Edge.WithTravelTime | PredictiveForest/PredictiveForest/Edge.cs:43-78 | the older constructor: a single travel time, the same box and length |
| RoadGraph.Edge.AddCoordinate | iRoad/RoadNetworks/Edge.cs:110-131 | the point is appended to the shape and the box grows just enough to contain it; the old box stays inside, and the box still covers endpoints and shape |
| Sequences.RemoveFirst | iRoad/RoadNetworks/RoadNetworkNode.cs:90-93 | `List.Remove`: an absent element changes nothing; a present one leaves one element fewer |
| Sequences.RemoveFirstCount | iRoad/RoadNetworks/RoadNetworkNode.cs:90-93 | removing a present element takes exactly one copy of it out of the multiset |
| Sequences.RemoveFirstAt | iRoad/RoadNetworks/RoadNetworkNode.cs:90-93 | removal takes out exactly the first occurrence and keeps the elements on both sides in order |
| Sequences.RemoveFirstIsWithout | PredictiveForest/PredictiveForest/PredictiveForest.cs:242-254 | on a child list without repetitions, removing the first occurrence equals removing all occurrences (`RemoveAll`) |
| Networks.Trunc | iRoad/RoadNetworks/RoadNetworks.cs:326-327 | the `(int)` cast truncates toward zero: the result lies within 1 of the argument, on the argument's side of 0 |
| Networks.TruncMonotone | iRoad/RoadNetworks/RoadNetworks.cs:284-297 | truncation is monotone, so the lower box corner yields the lower row or column |
| Networks.CellIdParts | iRoad/RoadNetworks/RoadNetworks.cs:314 | the id i·gridsize + j of a cell with 0 ≤ j < gridsize divides back into row i and column j |
| Networks.CellIdRange | iRoad/RoadNetworks/RoadNetworks.cs:270-277 | every cell created for 0 ≤ i, j < gridsize has an id in [0, gridsize²) |
| Networks.CellIdDecompose | iRoad/RoadNetworks/RoadNetworks.cs:270-277 | every id in [0, gridsize²) is the id of exactly one cell (row, column) of the grid |
| Networks.InboxIsOpen | iRoad/RoadNetworks/RoadNetworks.cs:122-132 | `inbox` is strict containment on both axes |
| Networks.Span | iRoad/RoadNetworks/RoadNetworks.cs:284-307 | the row (or column) range an edge occupies: the truncated lower ratio clamped at 0 and the truncated upper ratio clamped at gridsize − 1 |
| Networks.RatioBelow | iRoad/RoadNetworks/RoadNetworks.cs:264-265 | an offset strictly inside the box extent truncates to an index in [0, gridsize) |
| Networks.RoadNetworks.constructor | iRoad/RoadNetworks/RoadNetworks.cs:354-366 | empty node, edge and index dictionaries, and grid size 50 |
| Networks.RoadNetworks.SetBoundingBox | iRoad/RoadNetworks/RoadNetworks.cs:368-371 | the bounding box becomes the given corners and nothing else changes |
| Networks.RoadNetworks.InitializeSpatialIndex | iRoad/RoadNetworks/RoadNetworks.cs:262-278 | the cell sizes are the box extent over gridsize; exactly the ids 0 … gridsize² − 1 gain empty cells, and other cells are unchanged |
| Networks.RoadNetworks.InsertEdgeIndex | iRoad/RoadNetworks/RoadNetworks.cs:281-319 | the edge is appended to exactly the cells in its row and column spans, and every other cell is unchanged |
| Networks.RoadNetworks.MappingInGrid | iRoad/RoadNetworks/RoadNetworks.cs:321-352 | a location inside the box has row and column in range, and its cell id decodes to that (row, column) |
| Networks.RoadNetworks.MappingEastWraps | iRoad/RoadNetworks/RoadNetworks.cs:321-352 | because the clamps come after the result, a column equal to gridsize yields the first cell of the next row |
| Networks.RoadNetworks.RowCovered | iRoad/RoadNetworks/RoadNetworks.cs:284-295 | the row of a point of the edge's box lies in the row span under which the edge was filed |
| Networks.RoadNetworks.ColCovered | iRoad/RoadNetworks/RoadNetworks.cs:296-307 | the column of a point of the edge's box lies in the column span under which the edge was filed |
| Networks.RoadNetworks.InsertedCellCovers | iRoad/RoadNetworks/RoadNetworks.cs:281-352 | a point inside the grid and the edge's box maps to a cell that `insertEdgeIndex` fills with the edge |
| Networks.RoadNetworks.Nearest | iRoad/RoadNetworks/RoadNetworks.cs:161-192 | nothing exactly when the point's cell is missing or empty; otherwise the source node of the first edge at minimum distance, or the first edge's source when no distance is below `MaxValue` |
| Networks.RoadNetworks.InRangeMeans | iRoad/RoadNetworks/RoadNetworks.cs:218-227 | a node is in range exactly when it is the source of a scanned edge within `rangeInKM` |
| Networks.RoadNetworks.GetNeighbors | iRoad/RoadNetworks/RoadNetworks.cs:200-230 | nothing exactly when the centre's cell is missing or empty; otherwise the in-range source nodes of the cell's edges, each id once, in the order their edges are first met (`FirstMet`) |
| Networks.RoadNetworks.FirstMetNeighbours | iRoad/RoadNetworks/RoadNetworks.cs:209-226 | the first-met list of a scan has distinct ids, holds only in-range source nodes and misses no in-range edge's source |
| Networks.RoadNetworks.NearestOnEdge | iRoad/RoadNetworks/RoadNetworks.cs:149-159 | the endpoint of the edge closer to the point, `To` on a tie; nothing when the edge or an endpoint is unknown |
| Networks.RoadNetworks.CreateEdgeCost | iRoad/RoadNetworks/RoadNetworks.cs:74-83 | the table has exactly the hours 1 to 24, each mapped to the pair (cost, cost) |
| TreeNodes.TreeNode.constructor | iRoad/PredictiveTree/PredictiveTreeNode.cs:24-28 | id 0, no parent, no road node, probability 0 and no children |
| TreeNodes.TreeNode.FromRoadNode | iRoad/PredictiveTree/PredictiveTreeNode.cs:30-36 | the road node's id and the road node, probability 0 and no children |
| TreeNodes.TreeNode.EqualsAgreesWithHash | iRoad/PredictiveTree/PredictiveTreeNode.cs:53-61 | equality is symmetric, and two nodes are equal exactly when their hash codes agree |
| TreeNodes.TreeNode.AddChild | iRoad/PredictiveTree/PredictiveTreeNode.cs:38-43 | the child is appended and every other field is kept |
| TreeNodes.TreeNode.RemoveChild | iRoad/PredictiveTree/PredictiveTreeNode.cs:45-51 | the first child with the same id is cut out of the list, the rest keep their order, and the child loses its parent; the child keeps its id, road node, probability, distance and its own children, so a detached node keeps its subtree |
| TreeNodes.TreeNode.GetNextTreeNode | iRoad/PredictiveTree/PredictiveTreeNode.cs:63-74 | null exactly when no child has the id; otherwise the first child with it |
| TreeNodes.TreeNode.Clone | iRoad/PredictiveTree/PredictiveTreeNode.cs:76-86 | a fresh childless node with the same id, distance, road node and probability under the given parent |
| TreeNodes.TreeNode.CloneKeepingParent | PredictiveForest/PredictiveForest/TreeItem.cs:68-78 | the older clone: the same copy, keeping the original parent reference |
| ForestArena.Roots | iRoad/PredictiveForest/PredictiveForest.cs:29-32 | the roots are exactly the stored nodes without a parent |
| ForestArena.TraverseSubtree | iRoad/PredictiveForest/PredictiveForest.cs:205-215 | starts at the subtree root, visits every node of the subtree and no other node, each once, and every node after its parent |
| ForestArena.RootOfIsRoot | iRoad/PredictiveForest/PredictiveForest.cs:29-32 | following parents from any node ends at a root whose subtree contains the node |
| ForestArena.DetachIsCut | iRoad/PredictiveTree/PredictiveTreeNode.cs:45-51 | `RemoveChild` on a node's parent is the one-node detach used for `Update`'s bulk detaching |
| ForestArena.CutValid | iRoad/PredictiveForest/PredictiveForest.cs:118-142 | detaching any set of nodes from their parents keeps the store consistent |
| ForestArena.PruneValid | iRoad/PredictiveForest/PredictiveForest.cs:223-262 | deleting a set of nodes closed under children keeps the store consistent |
| ForestArena.AttachValid | iRoad/PredictiveForest/PredictiveForest.cs:268-282 | storing a childless node under a stored parent, or as a root, keeps the store consistent |
| ForestArena.CutSubtreeSound | iRoad/PredictiveForest/PredictiveForest.cs:118-130 | detaching never adds a node to a subtree |
| ForestArena.CutSubtreeComplete | iRoad/PredictiveForest/PredictiveForest.cs:118-130 | detaching keeps a node in a subtree unless a detached node lies between them |
| ForestArena.PruneSubtree | iRoad/PredictiveForest/PredictiveForest.cs:223-244 | deleting nodes closed under children leaves the subtree membership of the other nodes unchanged |
| ForestArena.EvenShares | iRoad/PredictiveForest/PredictiveForest.cs:90-107 | n equal shares of v / n add up to v / n times their number |
| Forest.NarrowedKeys | iRoad/PredictiveForest/PredictiveForest.cs:113-151 | what `Update` keeps is exactly the set of nodes below some matched node |
| Forest.NarrowedMatched | iRoad/PredictiveForest/PredictiveForest.cs:118-130 | in the current revision every matched node is kept, as a root |
| Forest.NarrowedLegacy | PredictiveForest/PredictiveForest/PredictiveForest.cs:131-162 | in the older revision a kept node is a root exactly when it was a root or its parent was not kept |
| Forest.UnreachedAll | iRoad/PredictiveForest/PredictiveForest.cs:145-148 | with no root left to visit, the ids dropped are exactly those not kept |
| Forest.ChildrenShareParent | iRoad/PredictiveForest/PredictiveForest.cs:90-107 | once probabilities are assigned, the probabilities of a node's children add up to its own |
| Forest.RootsCoverAll | iRoad/PredictiveForest/PredictiveForest.cs:90-107 | every node lies below one of the roots, so assigning root by root reaches every node |
| Forest.MergeStep | iRoad/PredictiveForest/PredictiveForest.cs:167-195 | the merge rule for one incoming node keeps the store consistent |
| Forest.MergeTrees | iRoad/PredictiveForest/PredictiveForest.cs:162-196 | merging the roots' trees breadth first, one root after the other, keeps the store consistent |
| Forest.MergeTreesFailed | iRoad/PredictiveForest/PredictiveForest.cs:162-196 | once a merge step fails, the later roots change nothing: the build ends there |
| Forest.ConflictForestMerge | iRoad.Test/PredectiveForestTests.cs:138-149 | merging the "conflict forest" trees of roots 0 and 1 succeeds and yields root 0 with child 3 and root 1 with children 2 and 4, node 2 moving under the closer root |
| Forest.NoRootsEmpty | iRoad/PredictiveForest/PredictiveForest.cs:90-107 | a consistent store without roots is empty |
| Forest.PredictiveForest.constructor | iRoad/PredictiveForest/PredictiveForest.cs:70-85 | an empty forest with no history and no region, keeping the network, time range, threshold and tree builder |
| Forest.PredictiveForest.GetNode | iRoad/PredictiveForest/PredictiveForest.cs:362-372 | nothing exactly when the id is absent, else the node stored under it, which carries that id and is a root exactly when it has no parent |
| Forest.PredictiveForest.Get | iRoad/PredictiveForest/PredictiveForest.cs:351-355 | the indexer's getter agrees with `GetNode` on a present id |
| Forest.PredictiveForest.Clear | iRoad/PredictiveForest/PredictiveForest.cs:316-321 | no nodes, no history and no region |
| Forest.PredictiveForest.RemoveNode | iRoad/PredictiveForest/PredictiveForest.cs:250-262 | a childless node is deleted and leaves its parent's child list; everything else is kept |
| Forest.PredictiveForest.LegacyRemoveNode | PredictiveForest/PredictiveForest/PredictiveForest.cs:242-254 | the older removal (`RemoveAll` on the parent's children) has the same effect |
| Forest.PredictiveForest.RemoveSubtree | iRoad/PredictiveForest/PredictiveForest.cs:223-244 | returns, without repetition, exactly the subtree's nodes that meet the condition, and deletes exactly those |
| Forest.PredictiveForest.Build | iRoad/PredictiveForest/PredictiveForest.cs:157-198 | every old id goes to history and the store is emptied; the resulting store and outcome are exactly the fold `MergeTrees` of the roots' trees, failing exactly when some step met a missing parent; only ids the trees offered are stored |
| Forest.PredictiveForest.MergeIncoming | iRoad/PredictiveForest/PredictiveForest.cs:167-195 | one merge step, equal to `MergeStep`: history ids are skipped; a new id is attached; a closer copy first removes the stored subtree; a farther copy is kept out, and only the tree's own root is explored |
| Forest.PredictiveForest.Update | iRoad/PredictiveForest/PredictiveForest.cs:113-151 | the new store is the narrowed store: exactly the nodes below the matched nodes, every matched node a root; every deleted id goes to history |
| Forest.PredictiveForest.LegacyUpdate | PredictiveForest/PredictiveForest/PredictiveForest.cs:131-162 | the same narrowing, except that matched nodes keep a parent that is kept |
| Forest.PredictiveForest.CollectMatched | iRoad/PredictiveForest/PredictiveForest.cs:118-130 | collects exactly the nodes below the matched nodes, and in the current revision detaches the matched nodes |
| Forest.PredictiveForest.DetachOrphans | iRoad/PredictiveForest/PredictiveForest.cs:133-142 | exactly the kept nodes whose parent is not kept are detached |
| Forest.PredictiveForest.DropUnreached | iRoad/PredictiveForest/PredictiveForest.cs:145-148 | exactly the nodes not kept are deleted and sent to history |
| Forest.PredictiveForest.ProbabilityAssignment | iRoad/PredictiveForest/PredictiveForest.cs:90-107 | only probabilities change; every root holds 1 / number of roots, every other node its parent's probability over the parent's child count |
| Forest.PredictiveForest.LegacyProbabilityExpansion | PredictiveForest/PredictiveForest/PredictiveForest.cs:106-129 | the same rule with 1.0 at every root |
| Forest.PredictiveForest.GetRegionNodes | iRoad/PredictiveForest/PredictiveForest.cs:289-293 | the neighbours, in first-met order, of the node nearest the region's centre, less history, so no id it returns is in history; nothing exactly when there is no current region or either lookup finds no cell |
| Forest.PredictiveForest.Predict | iRoad/PredictiveForest/PredictiveForest.cs:327-344 | the region is unavailable exactly when the centre's cell or the nearest node's cell is empty; the candidates are the nearest node's first-met neighbours less history; rebuilds exactly when the forest is empty or holds no candidate, the new store being the fold `MergeTrees` of the candidates' trees (aborted exactly when it fails), else narrows to the candidates held; then the probability rule holds with 1 / number of roots |
| Forest.PredictiveForest.LegacyPredict | PredictiveForest/PredictiveForest/PredictiveForest.cs:81-98 | the same lookups, candidates and rebuild by `MergeTrees`, with the older update and 1.0 at every root |
| Forest.PredictiveForest.AddNode | iRoad/PredictiveForest/PredictiveForest.cs:268-282 | a childless copy is stored and appended to its parent's children; it fails, storing nothing, exactly when the parent is missing |
| TreeShares.PathProb | iRoad/PredictiveTree/PredictiveTree.cs:266-289 | a node's share of the root item's 1 lies between 0 and 1 |
| TreeShares.PathProbPositive | iRoad/PredictiveTree/PredictiveTree.cs:266-289 | the share is positive exactly on the subtree below the root item |
| TreeShares.SharesSum | iRoad/PredictiveTree/PredictiveTree.cs:266-289 | after the spread, the children of a node of the subtree split its probability exactly |
| TreeShares.ReachedIff | iRoad/PredictiveTree/PredictiveTree.cs:353-381 | the thresholded spread dequeues exactly the root item and the nodes below it whose share exceeds the threshold |
| TreeShares.AssignedInSubtree | iRoad/PredictiveTree/PredictiveTree.cs:353-381 | only nodes below the root item receive a probability |
| TreeShares.MoveRecords | iRoad/PredictiveTree/PredictiveTree.cs:423-442 | after moving the root item to a child and respreading, each reached node holds exactly its new record, the new root item has none, and nodes outside the old subtree keep their bags |
| TreeShares.Spread | iRoad/PredictiveTree/PredictiveTree.cs:266-289 | the root item gets 1 and every node of its subtree its share; other nodes and the tree's shape are unchanged |
| Reachability.MinDist | iRoad/PredictiveTree/PredictiveTree.cs:144-157 | no queued key is smaller than the queue's smallest key |
| Reachability.FirstMin | iRoad/PredictiveTree/PredictiveTree.cs:159-169 | the dequeued entry has the smallest key, and every entry before it has a strictly larger key |
| Reachability.OfferView | iRoad/PredictiveTree/PredictiveTree.cs:171-205 | decrease-key: the queue keeps one entry per id, other ids keep their entry, and the offered id holds the strictly closer of the old and new entries |
| Reachability.EnqueueAll | iRoad/PredictiveTree/PredictiveTree.cs:76-85 | the queue is the connection list, in order, and the side dictionary mirrors it |
| Reachability.DeleteAll | iRoad/PredictiveTree/PredictiveTree.cs:444-460 | the object's record is deleted at exactly the network nodes of the listed ids |
| Reachability.RegisterAll | iRoad/PredictiveTree/PredictiveTree.cs:371-375 | the object is recorded with the node's probability and distance at exactly the network nodes of the listed ids |
| Reachability.SpreadReached | iRoad/PredictiveTree/PredictiveTree.cs:353-381 | the probability pass: exactly the assigned nodes get their share, and exactly the reached nodes other than the root item are dequeued |
| Reachability.RegisterReached | iRoad/PredictiveTree/PredictiveTree.cs:353-381 | from the shares and dequeued ids `SpreadReached` gives, each network node's bag becomes `RegisterBag`, with edges untouched |
| Reachability.OfferLowers | iRoad/PredictiveTree/PredictiveTree.cs:171-205 | offering a candidate never raises a queued distance, and afterwards its id is queued no farther than the candidate |
| Reachability.ConnectedCovered | iRoad/PredictiveTree/PredictiveTree.cs:90-109 | once every candidate from the out-edges is offered, every uncommitted out-neighbour is queued no farther than the node's distance plus the edge length |
| Reachability.RootCovered | iRoad/PredictiveTree/PredictiveTree.cs:67-88 | after `Initialization` every out-neighbour of the root other than the root is queued at the edge's length (`Covered`) |
| Reachability.CoveredPop | iRoad/PredictiveTree/PredictiveTree.cs:225-226 | popping an id keeps `Covered` once that id counts as handled |
| Reachability.CoveredCommit | iRoad/PredictiveTree/PredictiveTree.cs:230-244 | committing a popped id after offering its out-neighbours restores `Covered` for the grown tree |
| Reachability.CoveredExpanded | iRoad/PredictiveTree/PredictiveTree.cs:217-262 | when `Process` stops (empty queue, or nearest key at least `range`), every out-neighbour of a committed node reached within `range` is committed (`Expanded`) |
| Reachability.CoveredFrontier | iRoad/PredictiveTree/PredictiveTree.cs:212-264 | `Covered` over the network is `Frontier` over a snapshot of its out-edges |
| Reachability.RootSettling | iRoad/PredictiveTree/PredictiveTree.cs:67-88 | after `Initialization`, with no negative edge, the root alone at distance 0 is `Settling`: no key lies below 0, and the only committed edge is a self-loop of the root |
| Reachability.CommitSettled | iRoad/PredictiveTree/PredictiveTree.cs:225-244 | committing the popped id at the smallest key, with no key below it left, keeps every committed distance at most every queued key |
| Reachability.CommitRelaxed | iRoad/PredictiveTree/PredictiveTree.cs:225-244 | with no negative edge, committing the popped id at the smallest key keeps every edge between committed nodes relaxed: the target lies no farther than the source plus the edge |
| Reachability.NonNegativeAt | iRoad/PredictiveTree/PredictiveTree.cs:90-109 | with no negative edge in the snapshot, the edges out of a node of the network are non-negative, so its onward candidates are no nearer than it |
| Reachability.RelaxedShape | iRoad/PredictiveTree/PredictiveTree.cs:266-289 | the probability pass keeps `Relaxed`, since it changes neither nodes nor distances |
| Reachability.WalkNonNegative | iRoad/PredictiveTree/PredictiveTree.cs:212-264 | a walk over non-negative edges has non-negative length |
| Reachability.ReachedWithin | iRoad/PredictiveTree/PredictiveTree.cs:212-264 | with no negative edge, a walk from a committed node that ends less than `range` from the root ends at a committed node whose distance is at most the start's distance plus the walk's length; with the root as start, the committed distance is the shortest within `range` |
| Reachability.ExpandedShape | iRoad/PredictiveTree/PredictiveTree.cs:266-289 | the probability pass keeps `Expanded`, since it changes neither nodes nor distances |
| Reachability.PredectiveTree.constructor | iRoad/PredictiveTree/PredictiveTree.cs:33-50 | the root and the root item are the given road node and its id; tree, queue and `tempStorage` start empty, with the given range and threshold |
| Reachability.PredectiveTree.GetNextDistance | iRoad/PredictiveTree/PredictiveTree.cs:144-157 | the key `Peek` sees, which is no larger than any queued key, and 0 for an empty queue |
| Reachability.PredectiveTree.GetNextItem | iRoad/PredictiveTree/PredictiveTree.cs:159-169 | takes the first minimal entry off the queue and its id out of `tempStorage`; nothing else changes |
| Reachability.PredectiveTree.InsertQueue | iRoad/PredictiveTree/PredictiveTree.cs:171-205 | the queue becomes `Offer(old queue, candidate)` and `tempStorage` keeps mirroring it |
| Reachability.PredectiveTree.CreateMainQueue | iRoad/PredictiveTree/PredictiveTree.cs:207-210 | a new, empty queue; `tempStorage` and the tree are kept |
| Reachability.PredectiveTree.GetConnectedItems | iRoad/PredictiveTree/PredictiveTree.cs:90-109 | one candidate per out-neighbour not in the tree, each distinct, under the node, at its distance plus the edge length |
| Reachability.PredectiveTree.AddItem | iRoad/PredictiveTree/PredictiveTree.cs:52-65 | a committed id is ignored; otherwise the candidate is attached under its parent with probability 0, and the tree only grows |
| Reachability.PredectiveTree.Initialization | iRoad/PredictiveTree/PredictiveTree.cs:67-88 | the tree is the root item alone, and the queue holds one candidate per out-neighbour of the root at the length of the edge to it; every such neighbour is queued (`Covered`) |
| Reachability.PredectiveTree.RootQueue | iRoad/PredictiveTree/PredictiveTree.cs:73-85 | the root's connection list as a queue: one entry per out-neighbour other than the root, under the root, at the edge's length, mirrored by the side dictionary, and `Covered` |
| Reachability.PredectiveTree.Process | iRoad/PredictiveTree/PredictiveTree.cs:212-264 | the tree only grows; it stops with an empty queue or with the nearest key at least `range`; new nodes carry probability 0; without self-loops every new node lies within `range`; on exit every out-neighbour of a committed node at distance plus edge length below `range` is committed (`Expanded`); with no negative edge it keeps `Settling`: no committed distance exceeds a queued key and every edge between committed nodes is relaxed |
| Reachability.PredectiveTree.ProcessNext | iRoad/PredictiveTree/PredictiveTree.cs:222-246 | one pass of the loop: a stale entry is dropped and the tree is kept, or the nearest id is committed at its key with probability 0; `Covered`, and with no negative edge `Settling`, is kept either way |
| Reachability.PredectiveTree.Step | iRoad/PredictiveTree/PredictiveTree.cs:229-244 | the popped candidate's onward candidates are offered and it is committed at its distance with probability 0; the tree only grows, `Covered` is restored, and with no negative edge `Settling` is kept |
| Reachability.PredectiveTree.OfferConnected | iRoad/PredictiveTree/PredictiveTree.cs:229-242 | every uncommitted out-neighbour of the popped node ends up queued no farther than its distance plus the edge length, and no queued distance rises, and with non-negative edges out of the popped node no key drops below its distance |
| Reachability.PredectiveTree.PopNext | iRoad/PredictiveTree/PredictiveTree.cs:225-226 | the nearest entry leaves the queue with the smallest key; `Covered` holds once its id counts as handled; with no negative edge no key below it remains |
| Reachability.PredectiveTree.OfferAll | iRoad/PredictiveTree/PredictiveTree.cs:231-242 | every offered candidate not in the tree ends up queued no farther than its own distance, and no queued distance rises |
| Reachability.PredectiveTree.Expand | iRoad/PredictiveTree/PredictiveTree.cs:299-301 | `CreateMainQueue`, `Initialization`, `Process`: a tree rooted at the road node at distance 0, stopped with an empty queue or the nearest key at least `range`, closed under edges within `range` (`Expanded`), every probability 0; with no negative edge every edge between committed nodes is relaxed (`Relaxed`) |
| Reachability.PredectiveTree.ProbabilityExpansion | iRoad/PredictiveTree/PredictiveTree.cs:266-289 | the root item gets 1 and every node below it its share (`PathProb`); other nodes, and the tree's shape, are unchanged |
| Reachability.PredectiveTree.BuildTree | iRoad/PredictiveTree/PredictiveTree.cs:291-310 | a tree rooted at the road node at distance 0, expanded until the queue is exhausted or out of range and closed under edges within `range` (`Expanded`), every node holding its share; with no negative edge every edge between committed nodes is relaxed |
| Reachability.PredectiveTree.BuildQueryTree | iRoad/PredictiveTree/PredictiveTree.cs:312-325 | the same expansion, closed under edges within `range`, with every probability left at 0; with no negative edge every edge between committed nodes is relaxed |
| Reachability.PredectiveTree.BuildObjectTree | iRoad/PredictiveTree/PredictiveTree.cs:327-348 | the same expansion, closed under edges within `range`; then exactly the assigned nodes hold their share, and the object is recorded at exactly the reached network nodes; with no negative edge every edge between committed nodes is relaxed |
| Reachability.PredectiveTree.SpreadFromRoot | iRoad/PredictiveTree/PredictiveTree.cs:337 | the spread over an expanded tree whose probabilities are all 0: the shape and `Expanded` are kept, exactly the assigned nodes hold their share, and the object is recorded at exactly the reached network nodes |
| Reachability.PredectiveTree.DeleteFromPredictedObjects | iRoad/PredictiveTree/PredictiveTree.cs:444-460 | the object's record is deleted at every network node strictly below the root item, and only there |
| Reachability.PredectiveTree.ObjectProbabilityExpansion | iRoad/PredictiveTree/PredictiveTree.cs:353-381 | exactly the assigned nodes get their share, and each network node's bag becomes `RegisterBag`; tree shape and edges are unchanged |
| Reachability.PredectiveTree.GetNextTreeNode | iRoad/PredictiveTree/PredictiveTree.cs:431 | the root item's child with the id, when it has one |
| Reachability.PredectiveTree.IsChild | iRoad/PredictiveTree/PredictiveTree.cs:526-534 | true exactly when the id is a child of the root item |
| Reachability.PredectiveTree.SubtreeAt | iRoad/PredictiveTree/PredictiveTree.cs:499-510 | the root item moves to the given tree node when the tree holds it, and nothing else changes |
| Reachability.PredectiveTree.ObjectSubtree | iRoad/PredictiveTree/PredictiveTree.cs:462-481 | no node found, or one not in the tree, changes nothing; otherwise the root item moves there |
| Reachability.PredectiveTree.SubtreeByEdge | iRoad/PredictiveTree/PredictiveTree.cs:512-524 | the root item moves to the edge's target when the tree holds it |
| Reachability.PredectiveTree.RandomStep | iRoad/PredictiveTree/PredictiveTree.cs:483-497 | the root item moves to its child at the random number modulo the child count, and stays when it has no children |
| Reachability.PredectiveTree.UpdateObjectTree | iRoad/PredictiveTree/PredictiveTree.cs:423-442 | the old records below the old root item are deleted, the root item moves to the child if it has one, and the object is re-registered from the new root item |
| Reachability.PredectiveTree.AdvanceRoot | iRoad/PredictiveTree/PredictiveTree.cs:430-432 | the root item moves to its child `nextNodeId` exactly when it has that child; the tree and the bags are unchanged |

## Left out

- Reading the network files (`ReadRoadNetworks`, `ReadNodes`, `ReadEdgeConnection`, `ReadEdgeGeo`): file I/O. The payload of `ReadRoadNetworks` is modelled as `SetBoundingBox`, `InitializeSpatialIndex`, `AddInEdge`/`AddOutEdge`, `AddCoordinate` and `InsertEdgeIndex`.
- `DistanceInKM` (the haversine formula): trigonometry on doubles. It is a function parameter of the network, and edge lengths come from it.
- Floating point: doubles are reals, so there is no rounding. `double.MaxValue` is the constant `MaxDouble`.
- `PriorityQueue` is not part of this model. Its `Dequeue` and `Peek` are taken to pick the first-inserted of the entries with the smallest key (`FirstMin`).
- `GetDistanceFromNodeToTreeRoot`: its only write lands on the ancestor where its walk stops, never on the node passed in. So the records `ObjectProbabilityExpansion` makes carry the node's committed distance, as modelled. The overwritten distance of that ancestor is not modelled.
- Reachability.PredectiveTree.BuildObjectTree: ensures the root keeps distance 0, where the source's `GetDistanceFromNodeToTreeRoot` (PredictiveTree.cs:125-140) overwrites the distance of the ancestor its walk stops at, usually the root, with the summed in-edge lengths. The same gap holds for Reachability.PredectiveTree.ObjectProbabilityExpansion and Reachability.PredectiveTree.UpdateObjectTree, whose `SameShape` keeps every distance.
- `ObjectProbabilityExpansion_NMM`: the comparison model, used only in experiments.
- Stopwatches, `time` fields and timing: not behaviour.
- `RandomStep`'s random number: a parameter in [0, 100).
- Enumerators and the indexer's setter: the setter bypasses the forest's invariants, and the model has no use for it.
- The TPR-tree and the rest of the repository: not part of this model.
- Reachability.PredectiveTree.Process: two things are proved only for networks without self-loops:
  - that every node committed lies within `range`;
  - that no popped candidate is stale.

  With a self-loop the source pops a stale entry without refreshing its distance. It then commits the next entry without comparing its distance with `range`. That case is allowed but not constrained. Closure is stated (`Expanded`: every out-neighbour of a committed node within `range` is committed).
- Reachability.PredectiveTree.Process: that every edge between committed nodes is relaxed (`Relaxed`), and hence that committed distances are the shortest within `range` (`ReachedWithin`), is stated only when no edge length is negative. Edge lengths come from the distance function, a parameter of the network, so the model cannot rule out a negative one; with one, Dijkstra's order does not fix distances. The same condition applies to Expand, BuildTree, BuildQueryTree and BuildObjectTree. Distances are stated as bounds: each committed distance is at most the length of any walk from the root within `range`, and the distance is itself a sum of edge lengths along the parent chain (`PathLengths`).
- Reachability.PredectiveTree.GetConnectedItems: takes the out-edges in an arbitrary order, where the source walks the `OutEdges` dictionary in insertion order. The order decides which of two entries with equal keys pops first, and so a node's parent when two paths are equally short. It also decides the order of the child lists that `RandomStep` indexes.
- Reachability.PredectiveTree.AddItem: requires a candidate whose parent is committed. The source would throw on a missing parent.
- Reachability.PredectiveTree.BuildTree: requires an empty tree and empty `tempStorage`, as on a fresh builder. The same holds for BuildQueryTree and BuildObjectTree. `Initialization` would throw on a repeated root id.
- Reachability.PredectiveTree.SubtreeByEdge: requires a known edge id. The source throws `KeyNotFoundException` otherwise.
- Reachability.PredectiveTree.ObjectProbabilityExpansion: the object's records are added after the probability pass, not during it. Each network node gets at most one record per pass, so the final bags are the same.
- Reachability.PredectiveTree.ProbabilityExpansion: the threshold argument is unused in the source and in the model. The same holds for BuildQueryTree's depth argument.
- Reachability.PredectiveTree.GetNextTreeNode: modelled on the builder's store, as the id of the root item's child. `TreeNodes.TreeNode.GetNextTreeNode` is the object-level version.
- The builder's tree nodes are kept in the store, with their road nodes and the edges they were reached by. Several steps of the source are split into helper methods so that each can be proved alone:
  - `Expand`, `ProcessNext`, `Step` and `OfferAll` in the builder;
  - `AdvanceRoot` in `UpdateObjectTree`;
  - `SpreadVisit` in the spread.
- Networks.RoadNetworks.NearestOnEdge: returns nothing for an unknown edge, or for an endpoint outside `Nodes`, where the source throws `KeyNotFoundException`.
- Networks.RoadNetworks.InsertEdgeIndex: each cell is a sequence rather than a dictionary keyed by edge id. It requires that the edge's id is not yet in the index, because `Dictionary.Add` throws on a repeat.
- Networks.RoadNetworks.InitializeSpatialIndex: requires that none of the grid's cells exists yet. `Dictionary.Add` throws otherwise.
- Networks.RoadNetworks.Nearest: the model returns nothing for a missing or empty cell, where the source returns null.
- Networks.RoadNetworks.GetNeighbors: the model also returns nothing for a missing or empty cell, where the source returns null.
- RoadGraph.Edge.AddCoordinate: requires that the box covers the edge (`Covers`). Both constructors establish that, and only this method changes the box.
- TreeNodes.TreeNode.AddChild: the `Debug.Assert` checks become preconditions. The same holds for TreeNodes.TreeNode.RemoveChild.
- Forest.PredictiveForest.RemoveNode: the `Debug.Assert` checks become preconditions: the node is present and childless.
- Forest.PredictiveForest.AddNode: the new id must be absent and not in history (`Debug.Assert`). A missing parent (`KeyNotFoundException`) becomes a failure outcome that abandons `Build` and `Predict`.
- Forest.PredictiveForest.Update: requires every root to be in the forest (`Debug.Assert`). `Predict` only passes such roots.
- Forest.PredictiveForest.GetRegionNodes: the source dereferences null when the centre or its cell is missing. The model reports no region nodes, and `Predict` then leaves the forest unchanged.
- Forest.PredictiveForest.LegacyUpdate: the older `TreeNode` has no `RemoveChild`. The current revision's semantics are used: drop the first child with the id and clear its parent.
- Forest.PredictiveForest.Build: the tree-building strategy is a function from a root road node to a tree value. The default strategy, a `PredectiveTree` built and cloned, is modelled separately and not linked to the forest by proof.
- Networks.RoadNetworks.InsertEdgeIndex: requires a non-zero cell size (`difLat`, `difLng`). With a degenerate bounding box the source divides by zero and casts the resulting infinity or NaN to `int`; that case is not modelled.
- Networks.RoadNetworks.Mapping: requires a non-zero cell size, for the same reason. Its row, column and cell id are unbounded integers: the 32-bit range of C#'s `(int)` cast of a double and the wrap-around of `i * gridsize + j` in `int` are not modelled.
- Networks.Trunc: truncation toward zero on unbounded integers; the result of C#'s `(int)` cast outside the 32-bit range is not modelled.
- Networks.RoadNetworks.Row: requires a non-zero cell height; the same holds for Networks.RoadNetworks.Col, Networks.RoadNetworks.Rows, Networks.RoadNetworks.Cols and Networks.RoadNetworks.CellEmpty.
- Networks.RoadNetworks.Nearest: requires a non-zero cell size, where the source divides by zero.
- Networks.RoadNetworks.GetNeighbors: requires a non-zero cell size, where the source divides by zero.
- Forest.PredictiveForest.GetRegionNodes: requires a non-zero cell size of its network, where the source divides by zero.
- Forest.PredictiveForest.Predict: requires a non-zero cell size of its network, where the source divides by zero.
- Forest.PredictiveForest.LegacyPredict: requires a non-zero cell size of its network, where the source divides by zero. Its `AddNode` is the current revision's, which looks the parent up before storing the clone, so a failed merge stores nothing. The older revision's `AddNode` stores the clone first and then throws, leaving a node with a parent that lists no such child; that state is not modelled.
- RoadGraph.RoadNetworkNode.AddInEdge: a repeated source makes `Dictionary.Add` throw `ArgumentException`; the model returns `ok == false` and leaves the edges unchanged instead.
- RoadGraph.RoadNetworkNode.AddOutEdge: a repeated target makes `Dictionary.Add` throw `ArgumentException`; the model returns `ok == false` and leaves the edges unchanged instead.
