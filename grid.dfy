/**
 * The spatial grid index of the road network: the bounding box is cut into
 * gridsize × gridsize cells, cell (i, j) has id i·gridsize + j, and every
 * edge is listed in each cell its box overlaps. Point queries map a
 * location to one cell and scan the edges listed there.
 */
module Networks {
  import opened Wrappers
  import opened Sequences
  import opened RoadGraph

  /** `double.MaxValue`, the starting best distance of the nearest-node scan. */
  const MaxDouble: real := 1.7976931348623157e308

  /** The grid size the network constructor sets. */
  const DefaultGridSize: int := 50

  /** C#'s `(int)` conversion of a double: truncation toward zero. */
  function Trunc(x: real): (n: int)
    ensures x >= 0.0 ==> 0 <= n && n as real <= x < n as real + 1.0
    ensures x < 0.0 ==> n <= 0 && n as real - 1.0 < x <= n as real
  {
    if x >= 0.0 then x.Floor else -((-x).Floor)
  }

  /** Truncation never reverses an order. */
  lemma TruncMonotone(x: real, y: real)
    requires x <= y
    ensures Trunc(x) <= Trunc(y)
  {
    if x >= 0.0 {
      assert (x.Floor as real) <= y;
    } else if y < 0.0 {
      assert ((-y).Floor as real) <= -x;
    }
  }

  lemma MulAtLeast(a: int, g: int)
    requires a >= 1 && g > 0
    ensures a * g >= g
  {
  }

  lemma MulAtMost(a: int, g: int)
    requires a <= -1 && g > 0
    ensures a * g <= -g
  {
  }

  /** A cell id i·g + j (with 0 ≤ j < g) gives back its row and its column. */
  lemma CellIdParts(i: int, j: int, g: int)
    requires g > 0 && 0 <= j < g
    ensures (i * g + j) / g == i && (i * g + j) % g == j
  {
    var k := i * g + j;
    var q := k / g;
    var r := k % g;
    assert k == q * g + r;
    assert (q - i) * g == j - r by {
      assert (q - i) * g == q * g - i * g;
    }
    if q > i {
      MulAtLeast(q - i, g);
    } else if q < i {
      MulAtMost(q - i, g);
    }
  }

  /** The ids of the g × g grid are exactly 0 .. g² - 1. */
  lemma CellIdRange(i: int, j: int, g: int)
    requires 0 <= i < g && 0 <= j < g
    ensures 0 <= i * g + j < g * g
  {
    assert i * g + j < (i + 1) * g;
    assert (i + 1) * g <= g * g by {
      if i + 1 < g {
        MulAtLeast(g - (i + 1), g);
      }
    }
  }

  lemma CellIdDecompose(k: int, g: int)
    requires g > 0 && 0 <= k < g * g
    ensures 0 <= k / g < g && 0 <= k % g < g && (k / g) * g + k % g == k
  {
    var q := k / g;
    assert k == q * g + k % g;
    if q >= g {
      MulMonotone(q, g, g);
    }
  }

  lemma MulMonotone(a: int, b: int, g: int)
    requires a >= b && g > 0
    ensures a * g >= b * g
  {
    assert a * g - b * g == (a - b) * g;
  }

  lemma DivMonotone(a: real, b: real, d: real)
    requires a <= b && d > 0.0
    ensures a / d <= b / d
  {
    assert b / d - a / d == (b - a) / d;
  }

  /** `inbox`: strict containment on both axes. */
  predicate Inbox(loc: Coordinates, max: Coordinates, min: Coordinates) {
    loc.latitude < max.latitude && loc.latitude > min.latitude && loc.longitude < max.longitude && loc.longitude > min.longitude
  }

  /** `inbox` is the closed box test minus the boundary: points on an edge of the box are outside. */
  lemma InboxIsOpen(loc: Coordinates, max: Coordinates, min: Coordinates)
    ensures Inbox(loc, max, min) <==>
      InBox(loc, max, min) && loc.latitude != max.latitude && loc.latitude != min.latitude
        && loc.longitude != max.longitude && loc.longitude != min.longitude
  {
  }

  /** The clamped row (or column) range `insertEdgeIndex` gives an edge box from `lo` to `hi`. */
  function Span(lo: real, hi: real, origin: real, step: real, g: int): (s: (int, int))
    requires step != 0.0
    ensures s.0 == Larger(Trunc((lo - origin) / step) as real, 0.0).Floor
    ensures s.1 == if Trunc((hi - origin) / step) >= g then g - 1 else Trunc((hi - origin) / step)
    ensures 0 <= s.0 && s.1 <= g - 1
  {
    var first := Trunc((lo - origin) / step);
    var last := Trunc((hi - origin) / step);
    (if first <= 0 then 0 else first, if last >= g then g - 1 else last)
  }

  /** Cell `k` lies in the rectangle of rows `rows` and columns `cols`. */
  predicate InRect(k: int, rows: (int, int), cols: (int, int), g: int)
    requires g > 0
  {
    0 <= k && rows.0 <= k / g <= rows.1 && cols.0 <= k % g <= cols.1
  }

  /** The ids of the road nodes in `rs`. */
  function Ids(rs: seq<RoadNetworkNode>): set<int> {
    set i | 0 <= i < |rs| :: rs[i].id
  }

  lemma IdsSnoc(rs: seq<RoadNetworkNode>, t: int)
    requires 0 <= t < |rs|
    ensures Ids(rs[..t + 1]) == Ids(rs[..t]) + {rs[t].id}
  {
    assert rs[..t + 1] == rs[..t] + [rs[t]];
    forall x | x in Ids(rs[..t + 1]) ensures x in Ids(rs[..t]) + {rs[t].id} {
      var i :| 0 <= i < t + 1 && rs[..t + 1][i].id == x;
      if i < t {
        assert rs[..t][i] == rs[..t + 1][i];
      }
    }
    forall x | x in Ids(rs[..t]) ensures x in Ids(rs[..t + 1]) {
      var i :| 0 <= i < t && rs[..t][i].id == x;
      assert rs[..t + 1][i] == rs[..t][i];
    }
  }

  class RoadNetworks {
    var maxC: Coordinates
    var minC: Coordinates
    var allNodes: map<int, RoadNetworkNode>
    /** The inner nodes. */
    var nodes: map<int, RoadNetworkNode>
    /** The inner edges. */
    var edges: map<int, Edge>
    /** Cell id to the edges listed in that cell, in insertion order. */
    var spatialIndex: map<int, seq<Edge>>
    var gridsize: int
    var difLat: real
    var difLng: real
    /** The kilometre distance (`DistanceInKM`) between two points. */
    const distance: (Coordinates, Coordinates) -> real

    constructor(distance: (Coordinates, Coordinates) -> real)
      ensures nodes == map[] && allNodes == map[] && edges == map[] && spatialIndex == map[]
      ensures gridsize == DefaultGridSize && this.distance == distance
    {
      maxC := Coordinates(0.0, 0.0);
      minC := Coordinates(0.0, 0.0);
      nodes := map[];
      allNodes := map[];
      edges := map[];
      spatialIndex := map[];
      gridsize := DefaultGridSize;
      difLat := 0.0;
      difLng := 0.0;
      this.distance := distance;
    }

    /** The bounding box `ReadRoadNetworks` installs before the index is built. */
    method SetBoundingBox(max: Coordinates, min: Coordinates)
      modifies this
      ensures maxC == max && minC == min
      ensures nodes == old(nodes) && allNodes == old(allNodes) && edges == old(edges)
      ensures spatialIndex == old(spatialIndex) && gridsize == old(gridsize)
      ensures difLat == old(difLat) && difLng == old(difLng)
    {
      maxC := max;
      minC := min;
    }

    /** Every id of the grid has a cell. */
    ghost predicate Indexed()
      reads this
    {
      gridsize > 0 && forall k :: 0 <= k < gridsize * gridsize ==> k in spatialIndex
    }

    /** The cell sizes are the ones `initializeSpatialIndex` derives from the box, and the box is not empty. */
    ghost predicate GridOver()
      reads this
    {
      && gridsize > 0
      && minC.latitude < maxC.latitude && minC.longitude < maxC.longitude
      && difLat == (maxC.latitude - minC.latitude) / gridsize as real
      && difLng == (maxC.longitude - minC.longitude) / gridsize as real
    }

    /** Creates one empty cell for each id i·gridsize + j with 0 ≤ i, j < gridsize. */
    method InitializeSpatialIndex()
      requires gridsize > 0
      requires forall k :: 0 <= k < gridsize * gridsize ==> k !in spatialIndex
      modifies this
      ensures maxC == old(maxC) && minC == old(minC) && gridsize == old(gridsize)
      ensures difLat == (maxC.latitude - minC.latitude) / gridsize as real
      ensures difLng == (maxC.longitude - minC.longitude) / gridsize as real
      ensures forall k :: k in spatialIndex <==> k in old(spatialIndex) || 0 <= k < gridsize * gridsize
      ensures forall k :: k in spatialIndex ==>
        spatialIndex[k] == if 0 <= k < gridsize * gridsize then [] else old(spatialIndex)[k]
      ensures Indexed()
      ensures nodes == old(nodes) && allNodes == old(allNodes) && edges == old(edges)
    {
      difLat := (maxC.latitude - minC.latitude) / gridsize as real;
      difLng := (maxC.longitude - minC.longitude) / gridsize as real;
      var g := gridsize;
      var idx := spatialIndex;
      ghost var n := 0;
      var i := 0;
      while i < g
        invariant 0 <= i <= g && n == i * g
        invariant EmptyCellsBelow(idx, old(spatialIndex), n)
        modifies {}
      {
        var j := 0;
        while j < g
          invariant 0 <= j <= g && n == i * g + j
          invariant EmptyCellsBelow(idx, old(spatialIndex), n)
          modifies {}
        {
          CellIdRange(i, j, g);
          idx := idx[i * g + j := []];
          n := n + 1;
          j := j + 1;
        }
        assert i * g + g == (i + 1) * g;
        i := i + 1;
      }
      assert n == gridsize * gridsize;
      spatialIndex := idx;
    }

    /** The cells below `n` are there and empty, every other cell is as in `start`. */
    ghost predicate EmptyCellsBelow(idx: map<int, seq<Edge>>, start: map<int, seq<Edge>>, n: int) {
      && (forall k :: k in idx <==> k in start || 0 <= k < n)
      && (forall k :: k in idx ==> idx[k] == if 0 <= k < n then [] else start[k])
    }

    /** The clamped rows of the edge's box. */
    function Rows(e: Edge): (int, int)
      reads this, e
      requires difLat != 0.0
    {
      Span(e.min.latitude, e.max.latitude, minC.latitude, difLat, gridsize)
    }

    /** The clamped columns of the edge's box. */
    function Cols(e: Edge): (int, int)
      reads this, e
      requires difLng != 0.0
    {
      Span(e.min.longitude, e.max.longitude, minC.longitude, difLng, gridsize)
    }

    /** Lists `e` in every cell its clamped row and column ranges cover, and nowhere else. */
    method InsertEdgeIndex(e: Edge)
      requires Indexed() && difLat != 0.0 && difLng != 0.0
      requires forall k, x :: k in spatialIndex && x in spatialIndex[k] ==> x.id != e.id
      modifies this
      ensures maxC == old(maxC) && minC == old(minC) && gridsize == old(gridsize)
      ensures difLat == old(difLat) && difLng == old(difLng)
      ensures spatialIndex.Keys == old(spatialIndex).Keys
      ensures forall k :: k in spatialIndex ==>
        spatialIndex[k] == if InRect(k, Rows(e), Cols(e), gridsize) then old(spatialIndex)[k] + [e] else old(spatialIndex)[k]
      ensures Indexed()
      ensures nodes == old(nodes) && allNodes == old(allNodes) && edges == old(edges)
    {
      var rows := Rows(e);
      var cols := Cols(e);
      var g := gridsize;
      var idx := spatialIndex;
      ghost var start := spatialIndex;
      var i := rows.0;
      while i <= rows.1
        invariant rows.0 <= i && (i <= rows.1 + 1 || i == rows.0)
        invariant FilledUpTo(idx, start, e, rows, cols, g, i, cols.0)
        modifies {}
      {
        var j := cols.0;
        while j <= cols.1
          invariant cols.0 <= j && (j <= cols.1 + 1 || j == cols.0)
          invariant FilledUpTo(idx, start, e, rows, cols, g, i, j)
          modifies {}
        {
          CellIdRange(i, j, g);
          FillStep(idx, start, e, rows, cols, g, i, j);
          idx := idx[i * g + j := idx[i * g + j] + [e]];
          j := j + 1;
        }
        RowDone(idx, start, e, rows, cols, g, i, j);
        i := i + 1;
      }
      AllRowsDone(idx, start, e, rows, cols, g, i);
      spatialIndex := idx;
    }

    /** The row of `loc` before any clamping. */
    function Row(loc: Coordinates): int
      reads this
      requires difLat != 0.0
    {
      Trunc((loc.latitude - minC.latitude) / difLat)
    }

    /** The column of `loc` before any clamping. */
    function Col(loc: Coordinates): int
      reads this
      requires difLng != 0.0
    {
      Trunc((loc.longitude - minC.longitude) / difLng)
    }

    /**
     * `Mapping`, as written: the cell id is computed from the raw row and
     * column, and the clamps that follow it in the source only change the
     * local row and column variables, never the result.
     */
    function Mapping(loc: Coordinates): int
      reads this
      requires difLat != 0.0 && difLng != 0.0
    {
      Row(loc) * gridsize + Col(loc)
    }

    /** The cell `loc` maps to is missing or holds no edge: both lookups then yield nothing. */
    predicate CellEmpty(loc: Coordinates)
      reads this
      requires difLat != 0.0 && difLng != 0.0
    {
      Mapping(loc) !in spatialIndex || |spatialIndex[Mapping(loc)]| < 1
    }

    /** Inside the box, row and column are in range, so `Mapping` names the cell (row, column). */
    lemma MappingInGrid(loc: Coordinates)
      requires GridOver() && Inbox(loc, maxC, minC)
      ensures 0 <= Row(loc) < gridsize && 0 <= Col(loc) < gridsize
      ensures 0 <= Mapping(loc) < gridsize * gridsize
      ensures Mapping(loc) / gridsize == Row(loc) && Mapping(loc) % gridsize == Col(loc)
    {
      RatioBelow(loc.latitude - minC.latitude, maxC.latitude - minC.latitude, difLat, gridsize);
      RatioBelow(loc.longitude - minC.longitude, maxC.longitude - minC.longitude, difLng, gridsize);
      CellIdParts(Row(loc), Col(loc), gridsize);
      CellIdRange(Row(loc), Col(loc), gridsize);
    }

    /**
     * The missing clamp: a point one column east of the box (and within its
     * rows) maps to the first cell of the next row rather than to its own row.
     */
    lemma MappingEastWraps(loc: Coordinates)
      requires difLat != 0.0 && difLng != 0.0 && gridsize > 0
      requires 0 <= Row(loc) && Col(loc) == gridsize
      ensures Mapping(loc) == (Row(loc) + 1) * gridsize + 0
      ensures Mapping(loc) / gridsize == Row(loc) + 1 && Mapping(loc) % gridsize == 0
    {
      CellIdParts(Row(loc) + 1, 0, gridsize);
    }

    /** The row of a point on the edge lies in the edge's clamped rows. */
    lemma RowCovered(e: Edge, loc: Coordinates)
      requires GridOver() && Inbox(loc, maxC, minC) && e.InEdge(loc)
      ensures Rows(e).0 <= Row(loc) <= Rows(e).1
    {
      MappingInGrid(loc);
      DivMonotone(e.min.latitude - minC.latitude, loc.latitude - minC.latitude, difLat);
      DivMonotone(loc.latitude - minC.latitude, e.max.latitude - minC.latitude, difLat);
      TruncMonotone((e.min.latitude - minC.latitude) / difLat, (loc.latitude - minC.latitude) / difLat);
      TruncMonotone((loc.latitude - minC.latitude) / difLat, (e.max.latitude - minC.latitude) / difLat);
    }

    /** The column of a point on the edge lies in the edge's clamped columns. */
    lemma ColCovered(e: Edge, loc: Coordinates)
      requires GridOver() && Inbox(loc, maxC, minC) && e.InEdge(loc)
      ensures Cols(e).0 <= Col(loc) <= Cols(e).1
    {
      MappingInGrid(loc);
      DivMonotone(e.min.longitude - minC.longitude, loc.longitude - minC.longitude, difLng);
      DivMonotone(loc.longitude - minC.longitude, e.max.longitude - minC.longitude, difLng);
      TruncMonotone((e.min.longitude - minC.longitude) / difLng, (loc.longitude - minC.longitude) / difLng);
      TruncMonotone((loc.longitude - minC.longitude) / difLng, (e.max.longitude - minC.longitude) / difLng);
    }

    /** Every point of an edge's box that lies inside the network's box maps to a cell listing the edge. */
    lemma InsertedCellCovers(e: Edge, loc: Coordinates)
      requires GridOver() && Inbox(loc, maxC, minC) && e.InEdge(loc)
      ensures InRect(Mapping(loc), Rows(e), Cols(e), gridsize)
    {
      MappingInGrid(loc);
      RowCovered(e, loc);
      ColCovered(e, loc);
    }

    /** Distance from `c` to the source node of the cell's `i`-th edge. */
    function FromDistance(c: Coordinates, cell: seq<Edge>, i: int): real
      requires 0 <= i < |cell|
    {
      distance(c, cell[i].from.location)
    }

    /**
     * `n` is what the nearest-node scan of `cell` yields: the source node of
     * the first edge at minimum distance below `MaxDouble`, or, when no
     * distance is below `MaxDouble`, the source node of the first edge.
     */
    ghost predicate NearestIn(c: Coordinates, cell: seq<Edge>, n: RoadNetworkNode) {
      exists i :: 0 <= i < |cell| && n == cell[i].from &&
        ((&& FromDistance(c, cell, i) < MaxDouble
          && (forall j :: 0 <= j < |cell| ==> FromDistance(c, cell, i) <= FromDistance(c, cell, j))
          && (forall j :: 0 <= j < i ==> FromDistance(c, cell, i) < FromDistance(c, cell, j)))
         || (i == 0 && forall j :: 0 <= j < |cell| ==> FromDistance(c, cell, j) >= MaxDouble))
    }

    /** `Nearest(latitude, longitude)`: nothing for a missing or empty cell, else the closest source node. */
    method Nearest(latitude: real, longitude: real) returns (n: Option<RoadNetworkNode>)
      requires difLat != 0.0 && difLng != 0.0
      ensures var cell := Mapping(Coordinates(latitude, longitude));
        n.None? <==> cell !in spatialIndex || |spatialIndex[cell]| < 1
      ensures n.Some? ==> NearestIn(Coordinates(latitude, longitude), spatialIndex[Mapping(Coordinates(latitude, longitude))], n.value)
    {
      var c := Coordinates(latitude, longitude);
      var cellId := Mapping(c);
      if cellId !in spatialIndex || |spatialIndex[cellId]| < 1 {
        return None;
      }
      var cell := spatialIndex[cellId];
      var best: Option<RoadNetworkNode> := None;
      var bestDistance := MaxDouble;
      ghost var at := 0;
      var k := 0;
      while k < |cell|
        invariant 0 <= k <= |cell| && 0 <= at < |cell|
        invariant best.None? ==> bestDistance == MaxDouble && forall j :: 0 <= j < k ==> FromDistance(c, cell, j) >= MaxDouble
        invariant best.Some? ==>
          && at < k && best.value == cell[at].from && bestDistance == FromDistance(c, cell, at) < MaxDouble
          && (forall j :: 0 <= j < k ==> bestDistance <= FromDistance(c, cell, j))
          && (forall j :: 0 <= j < at ==> bestDistance < FromDistance(c, cell, j))
      {
        var node := cell[k].from;
        var d := distance(c, node.location);
        if bestDistance > d {
          bestDistance := d;
          best := Some(node);
          at := k;
        }
        k := k + 1;
      }
      if best.None? {
        at := 0;
        n := Some(cell[0].from);
      } else {
        n := best;
      }
    }

    /**
     * `found` is what the neighbour scan of `cell` yields around `c`: source
     * nodes of the cell's edges within `rangeInKM`, each such node (by id)
     * once.
     */
    ghost predicate NeighboursIn(c: Coordinates, cell: seq<Edge>, rangeInKM: real, found: seq<RoadNetworkNode>) {
      NeighboursUpTo(c, cell, rangeInKM, |cell|, found)
    }

    /** `NeighboursIn` for the first `k` edges of `cell`. */
    ghost predicate NeighboursUpTo(c: Coordinates, cell: seq<Edge>, rangeInKM: real, k: int, found: seq<RoadNetworkNode>)
      requires 0 <= k <= |cell|
    {
      && (forall a, b :: 0 <= a < b < |found| ==> found[a].id != found[b].id)
      && (forall a :: 0 <= a < |found| ==> found[a] in InRange(c, cell, rangeInKM, k))
      && (forall i :: 0 <= i < k && FromDistance(c, cell, i) <= rangeInKM ==> cell[i].from.id in Ids(found))
    }

    /** The source nodes of the first `k` edges of `cell` that lie within `rangeInKM` of `c`. */
    ghost function InRange(c: Coordinates, cell: seq<Edge>, rangeInKM: real, k: int): set<RoadNetworkNode>
      requires 0 <= k <= |cell|
    {
      if k == 0 then {}
      else InRange(c, cell, rangeInKM, k - 1) + (if FromDistance(c, cell, k - 1) <= rangeInKM then {cell[k - 1].from} else {})
    }

    /** `InRange` holds exactly the sources of the edges within range. */
    lemma {:induction false} InRangeMeans(c: Coordinates, cell: seq<Edge>, rangeInKM: real, k: int, x: RoadNetworkNode)
      requires 0 <= k <= |cell|
      ensures x in InRange(c, cell, rangeInKM, k) <==>
        exists i :: 0 <= i < k && cell[i].from == x && FromDistance(c, cell, i) <= rangeInKM
    {
      if k > 0 {
        InRangeMeans(c, cell, rangeInKM, k - 1, x);
        if x in InRange(c, cell, rangeInKM, k) && x !in InRange(c, cell, rangeInKM, k - 1) {
          assert cell[k - 1].from == x && FromDistance(c, cell, k - 1) <= rangeInKM;
        }
        if exists i :: 0 <= i < k && cell[i].from == x && FromDistance(c, cell, i) <= rangeInKM {
          var i :| 0 <= i < k && cell[i].from == x && FromDistance(c, cell, i) <= rangeInKM;
          if i < k - 1 {
            assert x in InRange(c, cell, rangeInKM, k - 1);
          }
        }
      }
    }

    /**
     * The scan's result in the order it is built: the source nodes of the
     * first `k` edges of `cell` within `rangeInKM` of `c`, a node appended
     * when its edge is met and its id is not there yet.
     */
    ghost function FirstMet(c: Coordinates, cell: seq<Edge>, rangeInKM: real, k: int): seq<RoadNetworkNode>
      requires 0 <= k <= |cell|
    {
      if k == 0 then []
      else
        var found := FirstMet(c, cell, rangeInKM, k - 1);
        if FromDistance(c, cell, k - 1) <= rangeInKM && cell[k - 1].from.id !in Ids(found)
        then found + [cell[k - 1].from]
        else found
    }

    /** `FirstMet` is what the neighbour scan yields: distinct ids, all in range, none missed. */
    lemma {:induction false} FirstMetNeighbours(c: Coordinates, cell: seq<Edge>, rangeInKM: real, k: int)
      requires 0 <= k <= |cell|
      ensures NeighboursUpTo(c, cell, rangeInKM, k, FirstMet(c, cell, rangeInKM, k))
    {
      if k > 0 {
        var found := FirstMet(c, cell, rangeInKM, k - 1);
        FirstMetNeighbours(c, cell, rangeInKM, k - 1);
        if FromDistance(c, cell, k - 1) <= rangeInKM && cell[k - 1].from.id !in Ids(found) {
          ScanAdds(c, cell, rangeInKM, k - 1, found);
        } else {
          ScanSkips(c, cell, rangeInKM, k - 1, found);
        }
      }
    }

    /** A node within range whose id is new joins the scan's result. */
    lemma ScanAdds(c: Coordinates, cell: seq<Edge>, rangeInKM: real, k: int, found: seq<RoadNetworkNode>)
      requires 0 <= k < |cell| && NeighboursUpTo(c, cell, rangeInKM, k, found)
      requires FromDistance(c, cell, k) <= rangeInKM && cell[k].from.id !in Ids(found)
      ensures NeighboursUpTo(c, cell, rangeInKM, k + 1, found + [cell[k].from])
      ensures Ids(found + [cell[k].from]) == Ids(found) + {cell[k].from.id}
    {
      var node := cell[k].from;
      var found' := found + [node];
      assert found'[..|found|] == found;
      assert found' == found'[..|found| + 1];
      IdsSnoc(found', |found|);
      forall a, b | 0 <= a < b < |found'| ensures found'[a].id != found'[b].id {
        assert found'[a] == found[a] || a == |found|;
        if b == |found| {
          assert found[a].id in Ids(found);
        } else {
          assert found'[b] == found[b];
        }
      }
      forall a | 0 <= a < |found'| ensures found'[a] in InRange(c, cell, rangeInKM, k + 1) {
        if a < |found| {
          assert found'[a] == found[a];
        }
      }
    }

    /** A node out of range, or one whose id is already there, leaves the result as it is. */
    lemma ScanSkips(c: Coordinates, cell: seq<Edge>, rangeInKM: real, k: int, found: seq<RoadNetworkNode>)
      requires 0 <= k < |cell| && NeighboursUpTo(c, cell, rangeInKM, k, found)
      requires FromDistance(c, cell, k) > rangeInKM || cell[k].from.id in Ids(found)
      ensures NeighboursUpTo(c, cell, rangeInKM, k + 1, found)
    {
    }

    /**
     * `GetNeighbors`: nothing for a missing or empty cell; otherwise the
     * source nodes of the cell's edges within `rangeInKM` of the centre, one
     * per node id, in the order they are first met.
     */
    method GetNeighbors(center: RoadNetworkNode, rangeInKM: real) returns (r: Option<seq<RoadNetworkNode>>)
      requires difLat != 0.0 && difLng != 0.0
      ensures var cell := Mapping(center.location);
        r.None? <==> cell !in spatialIndex || |spatialIndex[cell]| < 1
      ensures r.Some? ==> var cell := spatialIndex[Mapping(center.location)];
        && r.value == FirstMet(center.location, cell, rangeInKM, |cell|)
        && NeighboursIn(center.location, cell, rangeInKM, r.value)
    {
      var c := center.location;
      var cellId := Mapping(c);
      if cellId !in spatialIndex || |spatialIndex[cellId]| < 1 {
        return None;
      }
      var cell := spatialIndex[cellId];
      var found: seq<RoadNetworkNode> := [];
      var ids: set<int> := {};
      var k := 0;
      while k < |cell|
        invariant 0 <= k <= |cell|
        invariant found == FirstMet(c, cell, rangeInKM, k) && ids == Ids(found)
      {
        var node := cell[k].from;
        var d := distance(c, node.location);
        if d <= rangeInKM && node.id !in ids {
          IdsSnoc(found + [node], |found|);
          assert (found + [node])[..|found|] == found;
          found := found + [node];
          ids := ids + {node.id};
        }
        k := k + 1;
      }
      FirstMetNeighbours(c, cell, rangeInKM, |cell|);
      r := Some(found);
    }

    /** `Nearest(latitude, longitude, edgeId)`: the closer endpoint of the edge, `To` on a tie; nothing for an unknown id. */
    function NearestOnEdge(latitude: real, longitude: real, edgeId: int): (r: Option<RoadNetworkNode>)
      reads this
      ensures r.Some? <==> edgeId in edges && edges[edgeId].from.id in nodes && edges[edgeId].to.id in nodes
      ensures r.Some? ==>
        var e := edges[edgeId]; var p := Coordinates(latitude, longitude);
        var dFrom := distance(nodes[e.from.id].location, p); var dTo := distance(nodes[e.to.id].location, p);
        && (r.value == nodes[e.from.id] || r.value == nodes[e.to.id])
        && distance(r.value.location, p) <= dFrom && distance(r.value.location, p) <= dTo
        && (dFrom < dTo ==> r.value == nodes[e.from.id])
        && (dTo <= dFrom ==> r.value == nodes[e.to.id])
    {
      if edgeId in edges && edges[edgeId].from.id in nodes && edges[edgeId].to.id in nodes then
        var e := edges[edgeId];
        var p := Coordinates(latitude, longitude);
        var dFrom := distance(nodes[e.from.id].location, p);
        var dTo := distance(nodes[e.to.id].location, p);
        Some(if dFrom < dTo then nodes[e.from.id] else nodes[e.to.id])
      else None
    }

    /** `CreateEdgeCost`: hours 1 to 24, each with the pair (cost, cost). */
    method CreateEdgeCost(cost: int) returns (table: map<int, (int, int)>)
      ensures forall h :: h in table <==> 1 <= h <= 24
      ensures forall h :: h in table ==> table[h] == (cost, cost)
    {
      table := map[];
      var i := 1;
      while i <= 24
        invariant 1 <= i <= 25
        invariant forall h :: h in table <==> 1 <= h < i
        invariant forall h :: h in table ==> table[h] == (cost, cost)
      {
        table := table[i := (cost, cost)];
        i := i + 1;
      }
    }
  }

  /** A positive ratio below the box extent stays below the grid size. */
  lemma RatioBelow(offset: real, extent: real, step: real, g: int)
    requires g > 0 && 0.0 < offset < extent && step == extent / g as real
    ensures 0 <= Trunc(offset / step) < g
  {
    assert step > 0.0;
    assert offset / step * step == offset;
    assert step * g as real == extent;
    if offset / step >= g as real {
      assert offset / step * step >= g as real * step;
    }
  }

  /** Cell `k` comes before cell (i, j) in the row-by-row fill order. */
  predicate Before(k: int, i: int, j: int, g: int)
    requires g > 0
  {
    k / g < i || (k / g == i && k % g < j)
  }

  /** The index after the fill loops have visited the cells before (i, j). */
  ghost predicate FilledUpTo(idx: map<int, seq<Edge>>, start: map<int, seq<Edge>>, e: Edge,
                             rows: (int, int), cols: (int, int), g: int, i: int, j: int)
  {
    && g > 0
    && idx.Keys == start.Keys
    && forall k :: k in idx ==>
         idx[k] == if InRect(k, rows, cols, g) && Before(k, i, j, g) then start[k] + [e] else start[k]
  }

  lemma FillStep(idx: map<int, seq<Edge>>, start: map<int, seq<Edge>>, e: Edge,
                 rows: (int, int), cols: (int, int), g: int, i: int, j: int)
    requires FilledUpTo(idx, start, e, rows, cols, g, i, j)
    requires 0 <= rows.0 <= i <= rows.1 && 0 <= cols.0 <= j <= cols.1 < g && i * g + j in idx
    ensures FilledUpTo(idx[i * g + j := idx[i * g + j] + [e]], start, e, rows, cols, g, i, j + 1)
  {
    CellIdParts(i, j, g);
    var cell := i * g + j;
    var idx' := idx[cell := idx[cell] + [e]];
    forall k | k in idx'
      ensures idx'[k] == if InRect(k, rows, cols, g) && Before(k, i, j + 1, g) then start[k] + [e] else start[k]
    {
      assert k == (k / g) * g + k % g;
      if k == cell {
        assert InRect(k, rows, cols, g) && Before(k, i, j + 1, g) && !Before(k, i, j, g);
      }
    }
  }

  lemma RowDone(idx: map<int, seq<Edge>>, start: map<int, seq<Edge>>, e: Edge,
                rows: (int, int), cols: (int, int), g: int, i: int, j: int)
    requires FilledUpTo(idx, start, e, rows, cols, g, i, j) && j > cols.1
    ensures FilledUpTo(idx, start, e, rows, cols, g, i + 1, cols.0)
  {
  }

  lemma AllRowsDone(idx: map<int, seq<Edge>>, start: map<int, seq<Edge>>, e: Edge,
                    rows: (int, int), cols: (int, int), g: int, i: int)
    requires FilledUpTo(idx, start, e, rows, cols, g, i, cols.0) && i > rows.1
    ensures idx.Keys == start.Keys
    ensures forall k :: k in idx ==> idx[k] == if InRect(k, rows, cols, g) then start[k] + [e] else start[k]
  {
  }
}
