/**
 * Route requests (route_manager.py): a FIFO queue, and the answer to a request
 * from a start point to a destination — the nearest station to each, the path
 * between them, its length and the travel time.
 */
module RouteManager {
  import Pathfinder

  /** A first-in first-out queue over a list. */
  class Queue<T> {
    var content: seq<T>

    constructor ()
      ensures content == []
    {
      content := [];
    }

    function IsEmpty(): (empty: bool)
      reads this
      ensures empty <==> content == []
    {
      |content| == 0
    }

    /** Appends x at the back. */
    method Push(x: T)
      modifies this
      ensures content == old(content) + [x]
    {
      content := content + [x];
    }

    /** Removes and returns the front element; the rest keep their order. */
    method Pull() returns (x: T)
      requires content != []
      modifies this
      ensures x == old(content)[0] && content == old(content)[1..]
    {
      x := content[0];
      content := content[1..];
    }

    /** The front element; the queue is left as it is. */
    method Front() returns (x: T)
      requires content != []
      ensures x == content[0]
    {
      x := content[0];
    }
  }

  /** Two elements pushed on an empty queue come out in the order they went in. */
  method FirstInFirstOut<T>(x: T, y: T) returns (first: T, second: T, emptied: bool)
    ensures first == x && second == y && emptied
  {
    var q := new Queue<T>();
    q.Push(x);
    q.Push(y);
    first := q.Pull();
    second := q.Pull();
    emptied := q.IsEmpty();
  }

  /** A point of the plane, such as the place a request starts from. */
  datatype Point = Point(x: real, y: real)

  /** The position of the first smallest value: later values only win when strictly smaller. */
  function FirstArgMin(ds: seq<real>): (k: nat)
    requires |ds| > 0
    ensures k < |ds|
  {
    if |ds| == 1 then 0
    else
      var k := FirstArgMin(ds[..|ds| - 1]);
      if ds[|ds| - 1] < ds[k] then |ds| - 1 else k
  }

  /** FirstArgMin is a position of a smallest value, and every earlier value is strictly larger. */
  lemma {:induction false} FirstArgMinSpec(ds: seq<real>)
    requires |ds| > 0
    ensures forall j :: 0 <= j < |ds| ==> ds[FirstArgMin(ds)] <= ds[j]
    ensures forall j :: 0 <= j < FirstArgMin(ds) ==> ds[FirstArgMin(ds)] < ds[j]
  {
    if |ds| > 1 {
      var front := ds[..|ds| - 1];
      FirstArgMinSpec(front);
      assert forall j :: 0 <= j < |front| ==> front[j] == ds[j];
    }
  }

  /** Being a first smallest value pins the position down: it is FirstArgMin. */
  lemma FirstArgMinUnique(ds: seq<real>, k: nat)
    requires k < |ds|
    requires forall j :: 0 <= j < |ds| ==> ds[k] <= ds[j]
    requires forall j :: 0 <= j < k ==> ds[k] < ds[j]
    ensures k == FirstArgMin(ds)
  {
    FirstArgMinSpec(ds);
  }

  /**
   * One step of a left-to-right scan: with k the first smallest of the values
   * before position i (0 before the first), the scan moves to i only when ds[i]
   * is strictly smaller, and then holds the first smallest of ds[..i + 1].
   */
  lemma ScanStep(ds: seq<real>, i: nat, k: nat)
    requires i < |ds| && k < |ds|
    requires if i == 0 then k == 0 else k == FirstArgMin(ds[..i])
    ensures (if ds[i] < ds[k] then i else k) == FirstArgMin(ds[..i + 1])
  {
    if i > 0 {
      assert ds[..i + 1][..i] == ds[..i];
    }
  }

  /** The distances from p to each station, in list order. */
  function Distances(p: Point, stations: seq<Pathfinder.Node>, distance: (Point, Pathfinder.Node) -> real): (ds: seq<real>)
    ensures |ds| == |stations|
    ensures forall k :: 0 <= k < |stations| ==> ds[k] == distance(p, stations[k])
  {
    seq(|stations|, k requires 0 <= k < |stations| => distance(p, stations[k]))
  }

  /** The station nearest to p: the first one in list order among the nearest. */
  function Nearest(p: Point, stations: seq<Pathfinder.Node>, distance: (Point, Pathfinder.Node) -> real): (s: Pathfinder.Node)
    requires |stations| > 0
  {
    stations[FirstArgMin(Distances(p, stations, distance))]
  }

  /** Travel time for a path length: 60 time units per 50000 length units. */
  function TravelTime(totalDistance: real): (time: real)
    ensures time * 50000.0 == totalDistance * 60.0
  {
    totalDistance * 60.0 / 50000.0
  }

  /** Travel time is linear in the distance, and zero for a zero distance. */
  lemma TravelTimeLinear(a: real, b: real, c: real)
    ensures TravelTime(a + b) == TravelTime(a) + TravelTime(b)
    ensures TravelTime(c * a) == c * TravelTime(a)
    ensures TravelTime(0.0) == 0.0
  {
  }

  /** A request: the network to travel on, where the user starts, and where they want to go. */
  class RouteRequest {
    const network: Pathfinder.RoadNetwork
    const start: Point
    const destination: Point

    constructor (network: Pathfinder.RoadNetwork, startCoord: (real, real), destinationCoord: (real, real))
      ensures this.network == network
      ensures start == Point(startCoord.0, startCoord.1) && destination == Point(destinationCoord.0, destinationCoord.1)
    {
      this.network := network;
      start := Point(startCoord.0, startCoord.1);
      destination := Point(destinationCoord.0, destinationCoord.1);
    }

    /**
     * The scan in get_route_data: one pass over the stations keeps, for the start
     * point and for the destination, the nearest station seen so far, replacing it
     * only by a strictly nearer one.
     */
    method SelectStations(distance: (Point, Pathfinder.Node) -> real) returns (startStation: Pathfinder.Node, finalStation: Pathfinder.Node)
      requires |network.nodes| > 0
      ensures startStation == Nearest(start, network.nodes, distance)
      ensures finalStation == Nearest(destination, network.nodes, distance)
    {
      var stations := network.nodes;
      ghost var ds := Distances(start, stations, distance);
      ghost var dd := Distances(destination, stations, distance);
      ghost var ks: nat, kd: nat := 0, 0;
      startStation := stations[0];
      finalStation := stations[0];
      for i := 0 to |stations|
        invariant ks < |stations| && startStation == stations[ks]
        invariant kd < |stations| && finalStation == stations[kd]
        invariant if i == 0 then ks == 0 else ks == FirstArgMin(ds[..i])
        invariant if i == 0 then kd == 0 else kd == FirstArgMin(dd[..i])
      {
        var station := stations[i];
        ScanStep(ds, i, ks);
        ScanStep(dd, i, kd);
        if distance(start, station) < distance(start, startStation) {
          startStation, ks := station, i;
        }
        if distance(destination, station) < distance(destination, finalStation) {
          finalStation, kd := station, i;
        }
      }
      assert ds[..|stations|] == ds && dd[..|stations|] == dd;
    }

    /**
     * Path, length and travel time from the station nearest the start point to
     * the station nearest the destination. The path search and the path length
     * are supplied by the caller.
     */
    method GetRouteData(distance: (Point, Pathfinder.Node) -> real, search: (int, int) -> seq<int>, pathWeight: seq<int> -> real)
      returns (path: seq<int>, totalDistance: real, time: real)
      requires |network.nodes| > 0
      ensures path == search(Nearest(start, network.nodes, distance).id, Nearest(destination, network.nodes, distance).id)
      ensures totalDistance == pathWeight(path)
      ensures time * 50000.0 == totalDistance * 60.0
    {
      var startStation, finalStation := SelectStations(distance);
      path := search(startStation.id, finalStation.id);
      totalDistance := pathWeight(path);
      time := TravelTime(totalDistance);
    }
  }
}
