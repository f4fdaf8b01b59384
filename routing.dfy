/**
 * The capacity-splitting route rule shared by the fitness function and the
 * route drawing of the vehicle routing program, stated as functions of the
 * problem instance and the order in which customers are visited.
 *
 * The state of the rule after a prefix of the order is a Progress value: the
 * running vehicle load and the waypoints (Stops) visited so far. Simulate
 * folds Step over the order from the left, exactly as the source's loops do;
 * Route closes the result with the final return to the depot.
 */
module Routing {

  /** An integer coordinate pair; the depot and every customer sit on one. */
  datatype Point = Point(x: int, y: int)

  /**
   * The problem instance: the depot location, the customer locations, the
   * customer demands and the vehicle capacity (module-level globals in the
   * source, parameters here).
   */
  datatype Instance = Instance(depot: Point, locations: seq<Point>, demand: seq<int>, capacity: int)

  /** One waypoint of a route: the depot, or the customer with the given index. */
  datatype Stop = Depot | Visit(customer: nat)

  /** The loop state after a prefix of the order: vehicle load and waypoints so far. */
  datatype Progress = Progress(load: int, stops: seq<Stop>)

  function Last<T>(s: seq<T>): T
    requires |s| > 0
  {
    s[|s| - 1]
  }

  function DropLast<T>(s: seq<T>): seq<T>
    requires |s| > 0
  {
    s[..|s| - 1]
  }

  /** Index c names a customer: it has both a location and a demand. */
  predicate IsCustomer(inst: Instance, c: nat)
  {
    c < |inst.locations| && c < |inst.demand|
  }

  /** Every entry of the visiting order names a customer. */
  predicate ValidOrder(inst: Instance, order: seq<nat>)
  {
    forall k :: 0 <= k < |order| ==> IsCustomer(inst, order[k])
  }

  /** Every customer waypoint names a customer. */
  predicate ValidStops(inst: Instance, stops: seq<Stop>)
  {
    forall k :: 0 <= k < |stops| && stops[k].Visit? ==> IsCustomer(inst, stops[k].customer)
  }

  /** The indices 0, 1, ..., n-1 in increasing order. */
  function Range(n: nat): (r: seq<nat>)
    ensures |r| == n
  {
    seq(n, i requires 0 <= i < n => i)
  }

  /** The order is a permutation of 0..n-1 (as produced by sampling n of range(n)). */
  predicate IsPermutation(order: seq<nat>, n: nat)
  {
    multiset(order) == multiset(Range(n))
  }

  /** The overflow test: adding customer c's demand to the load exceeds the capacity. */
  predicate Overflows(inst: Instance, load: int, c: nat)
    requires IsCustomer(inst, c)
  {
    load + inst.demand[c] > inst.capacity
  }

  /**
   * Serving customer c from state p. On overflow the vehicle first returns to
   * the depot and restarts carrying c's demand alone; otherwise c's demand is
   * added to the load. Either way the route then goes on to c.
   */
  function Step(inst: Instance, p: Progress, c: nat): (q: Progress)
    requires IsCustomer(inst, c)
    // the load stays within capacity, unless it was just reset to one customer's demand
    ensures q.load <= inst.capacity || (Overflows(inst, p.load, c) && q.load == inst.demand[c])
    // a demand is never split: c is served whole, on the current trip or on a fresh one
    ensures |q.stops| > |p.stops| && q.stops[..|p.stops|] == p.stops && Last(q.stops) == Visit(c)
  {
    if Overflows(inst, p.load, c) then
      Progress(inst.demand[c], p.stops + [Depot, Visit(c)])
    else
      Progress(p.load + inst.demand[c], p.stops + [Visit(c)])
  }

  /** The state of the rule after serving the whole order, starting empty at the depot. */
  function Simulate(inst: Instance, order: seq<nat>): (p: Progress)
    requires ValidOrder(inst, order)
    ensures |p.stops| >= 1 && p.stops[0] == Depot
    ensures ValidStops(inst, p.stops)
    ensures order != [] ==> Last(p.stops) == Visit(Last(order))
    decreases |order|
  {
    if order == [] then
      Progress(0, [Depot])
    else
      Step(inst, Simulate(inst, DropLast(order)), Last(order))
  }

  /** The complete route: the simulated waypoints, closed by the final return to the depot. */
  function Route(inst: Instance, order: seq<nat>): (r: seq<Stop>)
    requires ValidOrder(inst, order)
    ensures |r| >= 2 && r[0] == Depot && Last(r) == Depot
    ensures ValidStops(inst, r)
  {
    Simulate(inst, order).stops + [Depot]
  }

  /** The number of forced depot returns: positions where the overflow test fires. */
  function Returns(inst: Instance, order: seq<nat>): nat
    requires ValidOrder(inst, order)
    decreases |order|
  {
    if order == [] then 0
    else
      var before := Simulate(inst, DropLast(order));
      Returns(inst, DropLast(order)) + (if Overflows(inst, before.load, Last(order)) then 1 else 0)
  }

  /** The coordinates of a waypoint. */
  function Locate(inst: Instance, s: Stop): Point
    requires s.Visit? ==> IsCustomer(inst, s.customer)
  {
    match s
    case Depot => inst.depot
    case Visit(c) => inst.locations[c]
  }

  /** The coordinates of a sequence of waypoints, one point per waypoint. */
  function Points(inst: Instance, stops: seq<Stop>): (ps: seq<Point>)
    requires ValidStops(inst, stops)
  {
    seq(|stops|, k requires 0 <= k < |stops| => Locate(inst, stops[k]))
  }

  /** The polyline a route is drawn as. */
  function Waypoints(inst: Instance, order: seq<nat>): seq<Point>
    requires ValidOrder(inst, order)
  {
    Points(inst, Route(inst, order))
  }

  /** The sum of dist over consecutive pairs of points (a polyline's length). */
  function PathLength(dist: (Point, Point) -> real, ps: seq<Point>): real
    decreases |ps|
  {
    if |ps| < 2 then 0.0
    else PathLength(dist, DropLast(ps)) + dist(ps[|ps| - 2], Last(ps))
  }

  lemma PointsAppend(inst: Instance, a: seq<Stop>, b: seq<Stop>)
    requires ValidStops(inst, a) && ValidStops(inst, b)
    ensures ValidStops(inst, a + b)
    ensures Points(inst, a + b) == Points(inst, a) + Points(inst, b)
  {
  }

  /** Extending a polyline by one point adds the distance of the new leg. */
  lemma PathLengthSnoc(dist: (Point, Point) -> real, ps: seq<Point>, p: Point)
    requires |ps| >= 1
    ensures PathLength(dist, ps + [p]) == PathLength(dist, ps) + dist(Last(ps), p)
  {
    assert DropLast(ps + [p]) == ps;
  }

  /**
   * The cost of serving customer c: on overflow the leg back to the depot and
   * the leg from the depot to c, otherwise the leg straight to c.
   */
  lemma StepLength(inst: Instance, dist: (Point, Point) -> real, p: Progress, c: nat)
    requires IsCustomer(inst, c) && ValidStops(inst, p.stops) && |p.stops| >= 1
    ensures ValidStops(inst, Step(inst, p, c).stops)
    ensures var here := Locate(inst, Last(p.stops));
      PathLength(dist, Points(inst, Step(inst, p, c).stops))
      == PathLength(dist, Points(inst, p.stops))
         + if Overflows(inst, p.load, c)
           then dist(here, inst.depot) + dist(inst.depot, inst.locations[c])
           else dist(here, inst.locations[c])
  {
    var before := Points(inst, p.stops);
    assert Last(before) == Locate(inst, Last(p.stops));
    if Overflows(inst, p.load, c) {
      PointsAppend(inst, p.stops, [Depot, Visit(c)]);
      assert Points(inst, [Depot, Visit(c)]) == [inst.depot, inst.locations[c]];
      assert Last(before + [inst.depot]) == inst.depot;
      assert before + [inst.depot, inst.locations[c]] == (before + [inst.depot]) + [inst.locations[c]];
      PathLengthSnoc(dist, before, inst.depot);
      PathLengthSnoc(dist, before + [inst.depot], inst.locations[c]);
    } else {
      PointsAppend(inst, p.stops, [Visit(c)]);
      assert Points(inst, [Visit(c)]) == [inst.locations[c]];
      PathLengthSnoc(dist, before, inst.locations[c]);
    }
  }

  /** The route's length is the simulated path plus the final leg back to the depot. */
  lemma RouteLengthCloses(inst: Instance, dist: (Point, Point) -> real, order: seq<nat>)
    requires ValidOrder(inst, order)
    ensures var stops := Simulate(inst, order).stops;
      PathLength(dist, Waypoints(inst, order))
      == PathLength(dist, Points(inst, stops)) + dist(Locate(inst, Last(stops)), inst.depot)
  {
    var stops := Simulate(inst, order).stops;
    PointsAppend(inst, stops, [Depot]);
    PathLengthSnoc(dist, Points(inst, stops), inst.depot);
  }

  /** Joining two polylines adds the leg that connects them. */
  lemma {:induction false} PathLengthAppend(dist: (Point, Point) -> real, a: seq<Point>, b: seq<Point>)
    requires |a| >= 1 && |b| >= 1
    ensures PathLength(dist, a + b) == PathLength(dist, a) + dist(Last(a), b[0]) + PathLength(dist, b)
    decreases |b|
  {
    if |b| == 1 {
      assert b == [b[0]];
      PathLengthSnoc(dist, a, b[0]);
    } else {
      var b' := DropLast(b);
      assert a + b == (a + b') + [Last(b)];
      PathLengthAppend(dist, a, b');
      PathLengthSnoc(dist, a + b', Last(b));
      PathLengthSnoc(dist, b', Last(b));
      assert b' + [Last(b)] == b;
    }
  }

  /** The customers of a waypoint sequence, in the order they are visited (depots removed). */
  function Customers(stops: seq<Stop>): seq<nat>
    decreases |stops|
  {
    if stops == [] then []
    else Customers(DropLast(stops)) + (if Last(stops).Visit? then [Last(stops).customer] else [])
  }

  lemma {:induction false} CustomersAppend(a: seq<Stop>, b: seq<Stop>)
    ensures Customers(a + b) == Customers(a) + Customers(b)
    decreases |b|
  {
    if b == [] {
      assert a + b == a;
    } else {
      assert DropLast(a + b) == a + DropLast(b);
      CustomersAppend(a, DropLast(b));
    }
  }

  /**
   * With the depot points removed, the route visits exactly the customers of
   * the order, in that order.
   */
  lemma {:induction false} RouteVisitsInOrder(inst: Instance, order: seq<nat>)
    requires ValidOrder(inst, order)
    ensures Customers(Route(inst, order)) == order
    decreases |order|
  {
    var stops := Simulate(inst, order).stops;
    CustomersAppend(stops, [Depot]);
    assert Customers([Depot]) == [];
    SimulateVisitsInOrder(inst, order);
  }

  lemma {:induction false} SimulateVisitsInOrder(inst: Instance, order: seq<nat>)
    requires ValidOrder(inst, order)
    ensures Customers(Simulate(inst, order).stops) == order
    decreases |order|
  {
    if order == [] {
      assert Customers([Depot]) == Customers([]) + [];
    } else {
      var q := DropLast(order);
      var c := Last(order);
      var before := Simulate(inst, q);
      SimulateVisitsInOrder(inst, q);
      var added := if Overflows(inst, before.load, c) then [Depot, Visit(c)] else [Visit(c)];
      assert Simulate(inst, order).stops == before.stops + added;
      CustomersAppend(before.stops, added);
      StepCustomers(c, added);
      assert order == q + [c];
    }
  }

  /** The waypoints one step appends hold exactly the customer served. */
  lemma StepCustomers(c: nat, added: seq<Stop>)
    requires added == [Depot, Visit(c)] || added == [Visit(c)]
    ensures Customers(added) == [c]
  {
    assert DropLast([Depot, Visit(c)]) == [Depot];
    assert DropLast([Depot]) == [];
    assert DropLast([Visit(c)]) == [];
  }

  /** The route holds one waypoint per customer, two closing depots and one depot per forced return. */
  lemma {:induction false} RouteLength(inst: Instance, order: seq<nat>)
    requires ValidOrder(inst, order)
    ensures |Route(inst, order)| == |order| + 2 + Returns(inst, order)
    decreases |order|
  {
    if order != [] {
      RouteLength(inst, DropLast(order));
    }
  }

  /**
   * Each customer appears in the route as often as in the order, and the depot
   * appears once at each end plus once per forced return.
   */
  lemma RouteCounts(inst: Instance, order: seq<nat>)
    requires ValidOrder(inst, order)
    ensures forall c: nat :: multiset(Route(inst, order))[Visit(c)] == multiset(order)[c]
    ensures multiset(Route(inst, order))[Depot] == Returns(inst, order) + 2
  {
    forall c: nat
      ensures multiset(Route(inst, order))[Visit(c)] == multiset(order)[c]
    {
      SimulateCounts(inst, order, c);
    }
    SimulateCounts(inst, order, 0);
  }

  lemma {:induction false} SimulateCounts(inst: Instance, order: seq<nat>, c: nat)
    requires ValidOrder(inst, order)
    ensures multiset(Simulate(inst, order).stops)[Visit(c)] == multiset(order)[c]
    ensures multiset(Simulate(inst, order).stops)[Depot] == Returns(inst, order) + 1
    decreases |order|
  {
    if order != [] {
      var q := DropLast(order);
      var before := Simulate(inst, q);
      SimulateCounts(inst, q, c);
      assert multiset(order) == multiset(q) + multiset{Last(order)} by {
        assert order == q + [Last(order)];
      }
      var added := if Overflows(inst, before.load, Last(order)) then [Depot, Visit(Last(order))] else [Visit(Last(order))];
      assert Simulate(inst, order).stops == before.stops + added;
      assert multiset(Simulate(inst, order).stops) == multiset(before.stops) + multiset(added);
    }
  }

  /**
   * For a permutation of all n customers, the route visits every customer
   * exactly once and starts and ends at the depot.
   */
  lemma EachCustomerOnce(inst: Instance, order: seq<nat>, n: nat)
    requires ValidOrder(inst, order) && IsPermutation(order, n)
    ensures forall c: nat :: c < n ==> multiset(Route(inst, order))[Visit(c)] == 1
    ensures forall c: nat :: c >= n ==> Visit(c) !in Route(inst, order)
    ensures |Route(inst, order)| == n + 2 + Returns(inst, order)
  {
    RouteCounts(inst, order);
    RouteLength(inst, order);
    forall c: nat
      ensures multiset(Route(inst, order))[Visit(c)] == if c < n then 1 else 0
    {
      RangeCount(n, c);
    }
    assert |order| == |multiset(Range(n))| == n;
  }

  /** Each index below n occurs once in Range(n), and no other index occurs. */
  lemma {:induction false} RangeCount(n: nat, c: nat)
    ensures multiset(Range(n))[c] == if c < n then 1 else 0
    decreases n
  {
    if n > 0 {
      assert Range(n) == Range(n - 1) + [n - 1];
      RangeCount(n - 1, c);
    }
  }

  /**
   * The route's second waypoint is the depot (a depot-to-depot first leg)
   * exactly when the order is empty or its first customer alone overflows.
   */
  lemma {:induction false} FirstLegAtDepot(inst: Instance, order: seq<nat>)
    requires ValidOrder(inst, order)
    ensures Route(inst, order)[1] == Depot
            <==> (order == [] || inst.demand[order[0]] > inst.capacity)
    decreases |order|
  {
    if |order| == 1 {
      assert DropLast(order) == [];
    } else if |order| > 1 {
      var q := DropLast(order);
      FirstLegAtDepot(inst, q);
      var before := Simulate(inst, q).stops;
      var after := Simulate(inst, order).stops;
      assert |before| >= 2 && after[..|before|] == before;
      assert after[1] == before[1];
    }
  }

  /** A polyline's length is non-negative when every leg is. */
  lemma {:induction false} PathLengthNonNegative(dist: (Point, Point) -> real, ps: seq<Point>)
    requires forall p, q :: dist(p, q) >= 0.0
    ensures PathLength(dist, ps) >= 0.0
    decreases |ps|
  {
    if |ps| >= 2 {
      PathLengthNonNegative(dist, DropLast(ps));
    }
  }

  /** An empty order is the single depot-to-depot leg. */
  lemma EmptyOrder(inst: Instance, dist: (Point, Point) -> real)
    ensures Route(inst, []) == [Depot, Depot]
    ensures Returns(inst, []) == 0
    ensures Waypoints(inst, []) == [inst.depot, inst.depot]
    ensures PathLength(dist, Waypoints(inst, [])) == dist(inst.depot, inst.depot)
  {
  }

  /**
   * Demands [3, 3, 3], capacity 5, order [0, 1, 2]: the test 3 + 3 > 5 fires
   * before customer 1 and again before customer 2 (the load was reset to 3),
   * so there are two forced returns and none before customer 0.
   */
  lemma WorkedExample(depot: Point, locations: seq<Point>)
    requires |locations| == 3
    ensures var inst := Instance(depot, locations, [3, 3, 3], 5);
      && Route(inst, [0, 1, 2]) == [Depot, Visit(0), Depot, Visit(1), Depot, Visit(2), Depot]
      && Returns(inst, [0, 1, 2]) == 2
  {
    var inst := Instance(depot, locations, [3, 3, 3], 5);
    assert DropLast([0, 1, 2]) == [0, 1];
    assert DropLast([0, 1]) == [0];
    assert DropLast([0]) == [];
    assert Simulate(inst, [0]) == Progress(3, [Depot, Visit(0)]);
    assert Simulate(inst, [0, 1]) == Progress(3, [Depot, Visit(0), Depot, Visit(1)]);
    assert Simulate(inst, [0, 1, 2]).stops == [Depot, Visit(0), Depot, Visit(1), Depot, Visit(2)];
  }
}
