/**
 * The two loops of the vehicle routing program that apply the capacity rule:
 * the fitness function, which sums leg distances, and the route drawing,
 * which appends waypoint coordinates. Both are proved against the same
 * specification (Routing.Simulate and Routing.Route), so they force depot
 * returns at the same positions and the fitness is the length of the drawn
 * polyline.
 */
module Evaluator {
  import opened Routing

  /**
   * The fitness of a visiting order: start empty at the depot; for each
   * customer add its demand to the load, and on overflow drive back to the
   * depot and restart with that customer's demand; drive on to the customer;
   * finally drive back to the depot. dist is the leg distance (Euclidean in
   * the program, abstract here).
   */
  method CalculateTotalDistance(inst: Instance, dist: (Point, Point) -> real, order: seq<nat>)
    returns (totalDistance: real)
    requires ValidOrder(inst, order)
    ensures totalDistance == PathLength(dist, Waypoints(inst, order))
  {
    totalDistance := 0.0;
    var currentLocation := inst.depot;
    var vehicleLoad := 0;
    for i := 0 to |order|
      invariant var p := Simulate(inst, order[..i]);
        && vehicleLoad == p.load
        && currentLocation == Locate(inst, Last(p.stops))
        && totalDistance == PathLength(dist, Points(inst, p.stops))
    {
      ghost var before := Simulate(inst, order[..i]);
      var customerIndex := order[i];
      var nextLocation := inst.locations[customerIndex];
      StepLength(inst, dist, before, customerIndex);
      assert DropLast(order[..i + 1]) == order[..i];
      vehicleLoad := vehicleLoad + inst.demand[customerIndex];
      if vehicleLoad > inst.capacity {
        totalDistance := totalDistance + dist(currentLocation, inst.depot);
        currentLocation := inst.depot;
        vehicleLoad := inst.demand[customerIndex];
      }
      totalDistance := totalDistance + dist(currentLocation, nextLocation);
      currentLocation := nextLocation;
    }
    assert order[..|order|] == order;
    RouteLengthCloses(inst, dist, order);
    totalDistance := totalDistance + dist(currentLocation, inst.depot);
  }

  /**
   * The polyline the route drawing builds for a visiting order, as separate
   * x and y coordinate lists: the depot, then each customer in order with a
   * depot point inserted wherever the load overflows, then the depot again.
   */
  method PlotRoutePath(inst: Instance, order: seq<nat>) returns (xData: seq<int>, yData: seq<int>)
    requires ValidOrder(inst, order)
    ensures |xData| == |yData| == |Waypoints(inst, order)|
    ensures forall k :: 0 <= k < |xData| ==> Point(xData[k], yData[k]) == Waypoints(inst, order)[k]
  {
    var vehicleLoad := 0;
    xData, yData := [inst.depot.x], [inst.depot.y];
    for i := 0 to |order|
      invariant var p := Simulate(inst, order[..i]);
        && vehicleLoad == p.load
        && |xData| == |yData| == |p.stops|
        && forall k :: 0 <= k < |xData| ==> Point(xData[k], yData[k]) == Locate(inst, p.stops[k])
    {
      var customerIndex := order[i];
      var nextLocation := inst.locations[customerIndex];
      vehicleLoad := vehicleLoad + inst.demand[customerIndex];
      assert DropLast(order[..i + 1]) == order[..i];
      if vehicleLoad > inst.capacity {
        xData := xData + [inst.depot.x];
        yData := yData + [inst.depot.y];
        vehicleLoad := inst.demand[customerIndex];
      }
      xData := xData + [nextLocation.x];
      yData := yData + [nextLocation.y];
    }
    assert order[..|order|] == order;
    xData := xData + [inst.depot.x];
    yData := yData + [inst.depot.y];
  }
}
