/**
 * The road network's value types, its nodes and its edges: a node's edge
 * dictionaries and its bags of predicted and current objects, and an edge's
 * bounding box, which always holds both endpoints and every shape point.
 */
module RoadGraph {
  import opened Sequences

  /** A point; `Latitude` and `Longitude` in degrees. */
  datatype Coordinates = Coordinates(latitude: real, longitude: real)

  /** What a node records about an object predicted to reach it. */
  datatype PredictedObjectRecord = PredictedObjectRecord(objectId: int, probability: real, distanceToNode: real)

  /** A circular query region: centre and radius in kilometres. */
  datatype Region = Region(center: Coordinates, radius: real)

  /** An edge's cost: the hourly table of the current revision or the single travel time of the older one. */
  datatype EdgeCost = Hourly(table: map<int, (int, int)>) | TravelTime(minutes: int)

  /** The margin the edge box keeps around its endpoints. */
  const Pad: real := 0.002

  function Larger(a: real, b: real): real { if a > b then a else b }
  function Smaller(a: real, b: real): real { if a < b then a else b }

  /** Closed-interval containment on both axes, as `inEdge` tests it. */
  predicate InBox(p: Coordinates, max: Coordinates, min: Coordinates) {
    && min.latitude <= p.latitude <= max.latitude
    && min.longitude <= p.longitude <= max.longitude
  }

  /**
   * The box the edge constructor computes from its two endpoints: on each
   * axis the larger coordinate plus `Pad` and the smaller one minus `Pad`.
   */
  function EndpointBox(a: Coordinates, b: Coordinates): (box: (Coordinates, Coordinates))
    ensures box.0 == Coordinates(Larger(a.latitude, b.latitude) + Pad, Larger(a.longitude, b.longitude) + Pad)
    ensures box.1 == Coordinates(Smaller(a.latitude, b.latitude) - Pad, Smaller(a.longitude, b.longitude) - Pad)
  {
    var (maxLat, minLat) := if a.latitude > b.latitude then (a.latitude + Pad, b.latitude - Pad) else (b.latitude + Pad, a.latitude - Pad);
    var (maxLng, minLng) := if a.longitude > b.longitude then (a.longitude + Pad, b.longitude - Pad) else (b.longitude + Pad, a.longitude - Pad);
    (Coordinates(maxLat, maxLng), Coordinates(minLat, minLng))
  }

  /** The endpoint box is non-degenerate and holds both endpoints. */
  lemma EndpointBoxContains(a: Coordinates, b: Coordinates)
    ensures var (max, min) := EndpointBox(a, b);
      && min.latitude < max.latitude && min.longitude < max.longitude
      && InBox(a, max, min) && InBox(b, max, min)
  {
  }

  /** `AddPredictedObject` on a bag: insert only when the object id is absent. */
  function AddRecord(bag: map<int, PredictedObjectRecord>, rec: PredictedObjectRecord): (r: map<int, PredictedObjectRecord>)
    ensures r.Keys == bag.Keys + {rec.objectId}
    ensures forall k :: k in bag ==> r[k] == bag[k]
    ensures rec.objectId !in bag ==> r[rec.objectId] == rec
  {
    if rec.objectId in bag then bag else bag[rec.objectId := rec]
  }

  /** `GetPredictedObjectProbability`: the recorded probability, 0 for an object with no record. */
  function PredictedProbability(bag: map<int, PredictedObjectRecord>, objectId: int): (p: real)
    ensures objectId !in bag ==> p == 0.0
    ensures objectId in bag ==> p == bag[objectId].probability
  {
    if objectId in bag then bag[objectId].probability else 0.0
  }

  /** A first record is read back; a later one for the same object changes nothing. */
  lemma ProbabilityAfterAdd(bag: map<int, PredictedObjectRecord>, rec: PredictedObjectRecord)
    ensures PredictedProbability(AddRecord(bag, rec), rec.objectId)
         == if rec.objectId in bag then PredictedProbability(bag, rec.objectId) else rec.probability
  {
  }

  /** Deleting an object's record undoes adding it to a bag that did not hold it. */
  lemma DeleteUndoesAdd(bag: map<int, PredictedObjectRecord>, rec: PredictedObjectRecord)
    requires rec.objectId !in bag
    ensures AddRecord(bag, rec) - {rec.objectId} == bag
    ensures PredictedProbability(AddRecord(bag, rec) - {rec.objectId}, rec.objectId) == 0.0
  {
  }

  /** A road network node: location, edge dictionaries, object bags. */
  class RoadNetworkNode {
    const id: int
    const location: Coordinates
    var flag: int
    /** Out-edges keyed by their target node. */
    var outEdges: map<RoadNetworkNode, Edge>
    /** In-edges keyed by their source node. */
    var inEdges: map<RoadNetworkNode, Edge>
    var predictedObjects: map<int, PredictedObjectRecord>
    /** The objects currently around this node, in arrival order, repetitions allowed. */
    var currentObjects: seq<int>

    constructor(id: int, lat: real, lng: real)
      ensures this.id == id && location == Coordinates(lat, lng) && flag == 0
      ensures outEdges == map[] && inEdges == map[]
      ensures predictedObjects == map[] && currentObjects == []
    {
      this.id := id;
      location := Coordinates(lat, lng);
      flag := 0;
      outEdges := map[];
      inEdges := map[];
      predictedObjects := map[];
      currentObjects := [];
    }

    /** `Dictionary.Add` keyed by the edge's source; a second edge from the same source fails (`ok` false). */
    method AddInEdge(e: Edge) returns (ok: bool)
      modifies this
      ensures ok <==> e.from !in old(inEdges)
      ensures inEdges == if ok then old(inEdges)[e.from := e] else old(inEdges)
      ensures outEdges == old(outEdges) && predictedObjects == old(predictedObjects)
      ensures currentObjects == old(currentObjects) && flag == old(flag)
    {
      ok := e.from !in inEdges;
      if ok {
        inEdges := inEdges[e.from := e];
      }
    }

    /** `Dictionary.Add` keyed by the edge's target; a second edge to the same target fails (`ok` false). */
    method AddOutEdge(e: Edge) returns (ok: bool)
      modifies this
      ensures ok <==> e.to !in old(outEdges)
      ensures outEdges == if ok then old(outEdges)[e.to := e] else old(outEdges)
      ensures inEdges == old(inEdges) && predictedObjects == old(predictedObjects)
      ensures currentObjects == old(currentObjects) && flag == old(flag)
    {
      ok := e.to !in outEdges;
      if ok {
        outEdges := outEdges[e.to := e];
      }
    }

    method AddPredictedObject(objectId: int, probability: real, distanceToRoot: real)
      modifies this
      ensures predictedObjects == AddRecord(old(predictedObjects), PredictedObjectRecord(objectId, probability, distanceToRoot))
      ensures outEdges == old(outEdges) && inEdges == old(inEdges)
      ensures currentObjects == old(currentObjects) && flag == old(flag)
    {
      if objectId !in predictedObjects {
        predictedObjects := predictedObjects[objectId := PredictedObjectRecord(objectId, probability, distanceToRoot)];
      }
    }

    /** Removes the object's record if there is one; otherwise nothing changes. */
    method DeletePredictedObject(objectId: int)
      modifies this
      ensures predictedObjects == old(predictedObjects) - {objectId}
      ensures objectId !in old(predictedObjects) ==> predictedObjects == old(predictedObjects)
      ensures outEdges == old(outEdges) && inEdges == old(inEdges)
      ensures currentObjects == old(currentObjects) && flag == old(flag)
    {
      if objectId in predictedObjects {
        predictedObjects := predictedObjects - {objectId};
      }
    }

    method AddCurrentObject(objectId: int)
      modifies this
      ensures currentObjects == old(currentObjects) + [objectId]
      ensures predictedObjects == old(predictedObjects)
      ensures outEdges == old(outEdges) && inEdges == old(inEdges) && flag == old(flag)
    {
      currentObjects := currentObjects + [objectId];
    }

    /** `List.Remove`: only the first occurrence goes (see `RemoveFirst` and `RemoveFirstAt`). */
    method DeleteCurrentObject(objectId: int)
      modifies this
      ensures currentObjects == RemoveFirst(old(currentObjects), objectId)
      ensures objectId in old(currentObjects) ==> multiset(currentObjects) == multiset(old(currentObjects)) - multiset{objectId}
      ensures predictedObjects == old(predictedObjects)
      ensures outEdges == old(outEdges) && inEdges == old(inEdges) && flag == old(flag)
    {
      if objectId in currentObjects {
        RemoveFirstCount(currentObjects, objectId);
      }
      currentObjects := RemoveFirst(currentObjects, objectId);
    }

    method EmptyPredictedObjects()
      modifies this
      ensures predictedObjects == map[]
      ensures currentObjects == old(currentObjects)
      ensures outEdges == old(outEdges) && inEdges == old(inEdges) && flag == old(flag)
    {
      predictedObjects := map[];
    }
  }

  /** A directed road segment with its shape and its bounding box. */
  class Edge {
    const id: int
    const from: RoadNetworkNode
    const to: RoadNetworkNode
    const cost: EdgeCost
    /** Length in kilometres between the endpoints, by the distance function the network uses. */
    const length: real
    var shape: seq<Coordinates>
    var max: Coordinates
    var min: Coordinates

    /** `inEdge`: closed containment in the current box. */
    predicate InEdge(p: Coordinates)
      reads this
    {
      InBox(p, max, min)
    }

    /** The box holds both endpoints and every shape point, and is non-degenerate. */
    ghost predicate Covers()
      reads this
    {
      && min.latitude < max.latitude && min.longitude < max.longitude
      && InEdge(from.location) && InEdge(to.location)
      && forall i :: 0 <= i < |shape| ==> InEdge(shape[i])
    }

    /** The current revision's constructor, with an hourly cost table. */
    constructor(id: int, from: RoadNetworkNode, to: RoadNetworkNode, cost: map<int, (int, int)>,
                distance: (Coordinates, Coordinates) -> real)
      ensures this.id == id && this.from == from && this.to == to && this.cost == Hourly(cost)
      ensures length == distance(from.location, to.location)
      ensures shape == [] && (max, min) == EndpointBox(from.location, to.location)
      ensures Covers()
    {
      this.id := id;
      this.from := from;
      this.to := to;
      this.cost := Hourly(cost);
      length := distance(from.location, to.location);
      shape := [];
      var box := EndpointBox(from.location, to.location);
      max := box.0;
      min := box.1;
      EndpointBoxContains(from.location, to.location);
    }

    /** The older revision's constructor, with a single travel time; the box is built the same way. */
    constructor WithTravelTime(id: int, from: RoadNetworkNode, to: RoadNetworkNode, cost: int,
                               distance: (Coordinates, Coordinates) -> real)
      ensures this.id == id && this.from == from && this.to == to && this.cost == TravelTime(cost)
      ensures length == distance(from.location, to.location)
      ensures shape == [] && (max, min) == EndpointBox(from.location, to.location)
      ensures Covers()
    {
      this.id := id;
      this.from := from;
      this.to := to;
      this.cost := TravelTime(cost);
      length := distance(from.location, to.location);
      shape := [];
      var box := EndpointBox(from.location, to.location);
      max := box.0;
      min := box.1;
      EndpointBoxContains(from.location, to.location);
    }

    /** Appends one shape point and widens the box just enough to hold it. */
    method AddCoordinate(lat: real, lng: real)
      requires Covers()
      modifies this
      ensures shape == old(shape) + [Coordinates(lat, lng)]
      ensures max == Coordinates(Larger(old(max).latitude, lat), Larger(old(max).longitude, lng))
      ensures min == Coordinates(Smaller(old(min).latitude, lat), Smaller(old(min).longitude, lng))
      ensures InEdge(Coordinates(lat, lng))
      ensures forall p :: InBox(p, old(max), old(min)) ==> InEdge(p)
      ensures Covers()
    {
      shape := shape + [Coordinates(lat, lng)];
      if lat > max.latitude {
        max := max.(latitude := lat);
      }
      if lat < min.latitude {
        min := min.(latitude := lat);
      }
      if lng > max.longitude {
        max := max.(longitude := lng);
      }
      if lng < min.longitude {
        min := min.(longitude := lng);
      }
    }
  }
}
