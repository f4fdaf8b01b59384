/**
 * The route read as a sequence of vehicle trips. A trip is the run of
 * customers served between two visits to the depot; the route is the depot,
 * then each trip followed by a return to the depot.
 *
 * Trips computes the split from the demands carried on the current trip
 * rather than from a running load. TripsMatchRoute ties it to the loop-level
 * rule of Routing; TripsAreGreedy and GreedySplitIsUnique characterize it
 * without reference to the rule: it is the one split of the order in which
 * no trip overflows except by a single customer, and every trip is ended
 * only by a customer that would not have fitted.
 */
module TripPlan {
  import opened Routing

  /** The total demand of a run of customers. */
  function Sum(inst: Instance, t: seq<nat>): int
    requires ValidOrder(inst, t)
    decreases |t|
  {
    if t == [] then 0 else Sum(inst, DropLast(t)) + inst.demand[Last(t)]
  }

  /** Every trip names customers only. */
  predicate ValidTrips(inst: Instance, ts: seq<seq<nat>>)
  {
    forall i :: 0 <= i < |ts| ==> ValidOrder(inst, ts[i])
  }

  /** The customers of all trips, trip after trip. */
  function Concat(ts: seq<seq<nat>>): seq<nat>
    decreases |ts|
  {
    if ts == [] then [] else Concat(DropLast(ts)) + Last(ts)
  }

  /** The waypoints of one trip's customers. */
  function Visits(t: seq<nat>): seq<Stop>
  {
    seq(|t|, k requires 0 <= k < |t| => Visit(t[k]))
  }

  /** The route of a sequence of trips: the depot, then each trip followed by the depot. */
  function Layout(ts: seq<seq<nat>>): seq<Stop>
    decreases |ts|
  {
    if ts == [] then [Depot] else Layout(DropLast(ts)) + Visits(Last(ts)) + [Depot]
  }

  /**
   * The trips of an order: each customer joins the current trip when its
   * demand fits beside what that trip already carries, and starts a new trip
   * otherwise. The first trip starts empty and may stay empty.
   */
  function Trips(inst: Instance, order: seq<nat>): (ts: seq<seq<nat>>)
    requires ValidOrder(inst, order)
    ensures |ts| >= 1 && ValidTrips(inst, ts)
    decreases |order|
  {
    if order == [] then [[]]
    else
      var ts := Trips(inst, DropLast(order));
      var c := Last(order);
      if Sum(inst, Last(ts)) + inst.demand[c] > inst.capacity then ts + [[c]]
      else DropLast(ts) + [Last(ts) + [c]]
  }

  /**
   * The running demand of trip t stays within capacity from its from-th
   * customer on (from 1 for the first trip; from 2 for later trips, whose
   * first customer may overflow alone).
   */
  predicate FitsFrom(inst: Instance, t: seq<nat>, from: nat)
    requires ValidOrder(inst, t)
  {
    forall j :: from <= j <= |t| ==> Sum(inst, t[..j]) <= inst.capacity
  }

  /** Only the first trip may be empty. */
  predicate OnlyFirstEmpty(ts: seq<seq<nat>>)
  {
    forall i :: 1 <= i < |ts| ==> ts[i] != []
  }

  /** Within every trip the load never overflows, except by a lone first customer of a later trip. */
  predicate TripsFit(inst: Instance, ts: seq<seq<nat>>)
    requires ValidTrips(inst, ts)
  {
    forall i :: 0 <= i < |ts| ==> FitsFrom(inst, ts[i], if i == 0 then 1 else 2)
  }

  /** A trip ends only where the next trip's first customer would not fit beside it. */
  predicate TripsMaximal(inst: Instance, ts: seq<seq<nat>>)
    requires ValidTrips(inst, ts) && OnlyFirstEmpty(ts)
  {
    forall i :: 1 <= i < |ts| ==> Sum(inst, ts[i - 1]) + inst.demand[ts[i][0]] > inst.capacity
  }

  /** A greedy split of the order into trips, described without the loop. */
  predicate GreedySplit(inst: Instance, order: seq<nat>, ts: seq<seq<nat>>)
  {
    && |ts| >= 1
    && ValidTrips(inst, ts)
    && Concat(ts) == order
    && OnlyFirstEmpty(ts)
    && TripsFit(inst, ts)
    && TripsMaximal(inst, ts)
  }

  lemma ConcatSnoc(ts: seq<seq<nat>>, t: seq<nat>)
    ensures Concat(ts + [t]) == Concat(ts) + t
  {
    assert DropLast(ts + [t]) == ts;
  }

  lemma LayoutSnoc(ts: seq<seq<nat>>, t: seq<nat>)
    ensures Layout(ts + [t]) == Layout(ts) + Visits(t) + [Depot]
  {
    assert DropLast(ts + [t]) == ts;
  }

  lemma SumSnoc(inst: Instance, t: seq<nat>, c: nat)
    requires ValidOrder(inst, t) && IsCustomer(inst, c)
    ensures ValidOrder(inst, t + [c])
    ensures Sum(inst, t + [c]) == Sum(inst, t) + inst.demand[c]
  {
    assert DropLast(t + [c]) == t;
  }

  /**
   * The trip view and the loop view agree: the route is the layout of the
   * trips, and the running load is what the last trip carries.
   */
  lemma {:induction false} TripsMatchRoute(inst: Instance, order: seq<nat>)
    requires ValidOrder(inst, order)
    ensures Route(inst, order) == Layout(Trips(inst, order))
    ensures Simulate(inst, order).load == Sum(inst, Last(Trips(inst, order)))
    decreases |order|
  {
    if order == [] {
      assert Visits([]) == [];
    } else {
      TripsMatchRoute(inst, DropLast(order));
      TripsMatchStep(inst, Simulate(inst, DropLast(order)), Trips(inst, DropLast(order)), Last(order));
      TripsSnoc(inst, order);
    }
  }

  /** One step of the rule keeps the loop view and the trip view in agreement. */
  lemma TripsMatchStep(inst: Instance, p: Progress, ts: seq<seq<nat>>, c: nat)
    requires IsCustomer(inst, c) && |ts| >= 1 && ValidTrips(inst, ts)
    requires p.stops + [Depot] == Layout(ts) && p.load == Sum(inst, Last(ts))
    ensures var ts' := if Sum(inst, Last(ts)) + inst.demand[c] > inst.capacity then ts + [[c]]
                       else DropLast(ts) + [Last(ts) + [c]];
      && Step(inst, p, c).stops + [Depot] == Layout(ts')
      && ValidOrder(inst, Last(ts'))
      && Step(inst, p, c).load == Sum(inst, Last(ts'))
  {
    var L := Last(ts);
    assert DropLast(ts) + [L] == ts;
    LayoutSnoc(DropLast(ts), L);
    var prefix := Layout(DropLast(ts)) + Visits(L);
    assert p.stops == prefix by {
      assert p.stops == (p.stops + [Depot])[..|p.stops|];
      assert (prefix + [Depot])[..|prefix|] == prefix;
    }
    if Overflows(inst, p.load, c) {
      LayoutSnoc(ts, [c]);
      assert Visits([c]) == [Visit(c)];
      assert Sum(inst, [c]) == inst.demand[c] by {
        assert DropLast([c]) == [];
      }
    } else {
      LayoutSnoc(DropLast(ts), L + [c]);
      assert Visits(L + [c]) == Visits(L) + [Visit(c)];
      SumSnoc(inst, L, c);
    }
  }

  /** The number of forced depot returns is the number of trips after the first. */
  lemma {:induction false} ReturnsCountTrips(inst: Instance, order: seq<nat>)
    requires ValidOrder(inst, order)
    ensures Returns(inst, order) == |Trips(inst, order)| - 1
    decreases |order|
  {
    if order != [] {
      ReturnsCountTrips(inst, DropLast(order));
      TripsMatchRoute(inst, DropLast(order));
    }
  }

  /** The split that Trips computes satisfies every clause of GreedySplit. */
  lemma {:induction false} TripsAreGreedy(inst: Instance, order: seq<nat>)
    requires ValidOrder(inst, order)
    ensures GreedySplit(inst, order, Trips(inst, order))
    decreases |order|
  {
    if order != [] {
      var q := DropLast(order);
      var c := Last(order);
      var ts := Trips(inst, q);
      TripsAreGreedy(inst, q);
      assert order == q + [c];
      if Sum(inst, Last(ts)) + inst.demand[c] > inst.capacity {
        GreedyOpen(inst, q, ts, c);
      } else {
        GreedyExtend(inst, q, ts, c);
      }
    }
  }

  /** Starting a new trip with a customer that does not fit keeps a split greedy. */
  lemma GreedyOpen(inst: Instance, q: seq<nat>, ts: seq<seq<nat>>, c: nat)
    requires IsCustomer(inst, c) && GreedySplit(inst, q, ts)
    requires Sum(inst, Last(ts)) + inst.demand[c] > inst.capacity
    ensures GreedySplit(inst, q + [c], ts + [[c]])
  {
    var ts' := ts + [[c]];
    ConcatSnoc(ts, [c]);
    assert ValidTrips(inst, ts') by {
      forall i | 0 <= i < |ts'|
        ensures ValidOrder(inst, ts'[i])
      {
        if i < |ts| { assert ts'[i] == ts[i]; }
      }
    }
    assert OnlyFirstEmpty(ts') by {
      forall i | 1 <= i < |ts'|
        ensures ts'[i] != []
      {
        if i < |ts| { assert ts'[i] == ts[i]; }
      }
    }
    assert TripsFit(inst, ts') by {
      forall i | 0 <= i < |ts'|
        ensures FitsFrom(inst, ts'[i], if i == 0 then 1 else 2)
      {
        if i < |ts| { assert ts'[i] == ts[i]; }
      }
    }
    assert TripsMaximal(inst, ts') by {
      forall i | 1 <= i < |ts'|
        ensures Sum(inst, ts'[i - 1]) + inst.demand[ts'[i][0]] > inst.capacity
      {
        assert ts'[i - 1] == ts[i - 1];
        if i < |ts| { assert ts'[i] == ts[i]; }
      }
    }
  }

  /** Adding a customer that fits to the last trip keeps a split greedy. */
  lemma GreedyExtend(inst: Instance, q: seq<nat>, ts: seq<seq<nat>>, c: nat)
    requires IsCustomer(inst, c) && GreedySplit(inst, q, ts)
    requires Sum(inst, Last(ts)) + inst.demand[c] <= inst.capacity
    ensures GreedySplit(inst, q + [c], DropLast(ts) + [Last(ts) + [c]])
  {
    var L := Last(ts);
    var n := |ts| - 1;
    var ts' := DropLast(ts) + [L + [c]];
    ConcatSnoc(DropLast(ts), L + [c]);
    ConcatSnoc(DropLast(ts), L);
    assert DropLast(ts) + [L] == ts;
    SumSnoc(inst, L, c);
    assert ts[n] == L;
    assert ValidTrips(inst, ts') by {
      forall i | 0 <= i < |ts'|
        ensures ValidOrder(inst, ts'[i])
      {
        if i < n { assert ts'[i] == ts[i]; }
      }
    }
    assert OnlyFirstEmpty(ts') by {
      forall i | 1 <= i < |ts'|
        ensures ts'[i] != []
      {
        if i < n { assert ts'[i] == ts[i]; }
      }
    }
    assert TripsFit(inst, ts') by {
      forall i | 0 <= i < |ts'|
        ensures FitsFrom(inst, ts'[i], if i == 0 then 1 else 2)
      {
        if i < n {
          assert ts'[i] == ts[i];
        } else {
          assert FitsFrom(inst, ts[n], if n == 0 then 1 else 2);
          ExtendFits(inst, L, c, if i == 0 then 1 else 2);
        }
      }
    }
    assert TripsMaximal(inst, ts') by {
      forall i | 1 <= i < |ts'|
        ensures Sum(inst, ts'[i - 1]) + inst.demand[ts'[i][0]] > inst.capacity
      {
        assert ts'[i - 1] == ts[i - 1];
        if i < n {
          assert ts'[i] == ts[i];
        } else {
          assert ts'[i][0] == ts[i][0];
        }
      }
    }
  }

  /** A trip that fits stays fitting when a customer that fits is appended. */
  lemma ExtendFits(inst: Instance, t: seq<nat>, c: nat, from: nat)
    requires ValidOrder(inst, t) && IsCustomer(inst, c)
    requires FitsFrom(inst, t, from) && from <= |t| + 1
    requires Sum(inst, t) + inst.demand[c] <= inst.capacity
    ensures ValidOrder(inst, t + [c]) && FitsFrom(inst, t + [c], from)
  {
    SumSnoc(inst, t, c);
    forall j | from <= j <= |t| + 1
      ensures Sum(inst, (t + [c])[..j]) <= inst.capacity
    {
      if j <= |t| {
        assert (t + [c])[..j] == t[..j];
      } else {
        assert (t + [c])[..j] == t + [c];
      }
    }
  }

  /** Dropping a trip's last customer keeps it fitting. */
  lemma ShrinkFits(inst: Instance, t: seq<nat>, from: nat)
    requires ValidOrder(inst, t) && |t| >= 1 && FitsFrom(inst, t, from)
    ensures ValidOrder(inst, DropLast(t)) && FitsFrom(inst, DropLast(t), from)
  {
    forall j | from <= j <= |t| - 1
      ensures Sum(inst, DropLast(t)[..j]) <= inst.capacity
    {
      assert DropLast(t)[..j] == t[..j];
    }
  }

  /** No trip holds more customers than the whole order. */
  lemma {:induction false} ConcatCovers(ts: seq<seq<nat>>, k: nat)
    requires k < |ts|
    ensures |ts[k]| <= |Concat(ts)|
    decreases |ts|
  {
    ConcatSnoc(DropLast(ts), Last(ts));
    assert DropLast(ts) + [Last(ts)] == ts;
    if k < |ts| - 1 {
      ConcatCovers(DropLast(ts), k);
    }
  }

  /** A greedy split whose last trip is a lone customer: the trips before it split the rest greedily. */
  lemma GreedyDropTrip(inst: Instance, order: seq<nat>, ts: seq<seq<nat>>)
    requires GreedySplit(inst, order, ts) && |ts| >= 2 && |Last(ts)| == 1
    ensures order != [] && Last(ts) == [Last(order)]
    ensures GreedySplit(inst, DropLast(order), DropLast(ts))
    ensures Sum(inst, Last(DropLast(ts))) + inst.demand[Last(order)] > inst.capacity
  {
    var rest := DropLast(ts);
    var L := Last(ts);
    ConcatSnoc(rest, L);
    assert rest + [L] == ts;
    assert order == Concat(rest) + L;
    assert ValidTrips(inst, rest) by {
      forall i | 0 <= i < |rest|
        ensures ValidOrder(inst, rest[i])
      {
        assert rest[i] == ts[i];
      }
    }
    assert OnlyFirstEmpty(rest) by {
      forall i | 1 <= i < |rest|
        ensures rest[i] != []
      {
        assert rest[i] == ts[i];
      }
    }
    assert TripsFit(inst, rest) by {
      forall i | 0 <= i < |rest|
        ensures FitsFrom(inst, rest[i], if i == 0 then 1 else 2)
      {
        assert rest[i] == ts[i];
      }
    }
    assert TripsMaximal(inst, rest) by {
      forall i | 1 <= i < |rest|
        ensures Sum(inst, rest[i - 1]) + inst.demand[rest[i][0]] > inst.capacity
      {
        assert rest[i] == ts[i] && rest[i - 1] == ts[i - 1];
      }
    }
    assert ts[|ts| - 1] == L && ts[|ts| - 2] == Last(rest);
  }

  /**
   * A greedy split of a non-empty order whose last trip is not a lone later
   * customer: without the last customer it is still greedy, and that customer
   * fitted beside the rest of its trip.
   */
  lemma GreedyShrink(inst: Instance, order: seq<nat>, ts: seq<seq<nat>>)
    requires GreedySplit(inst, order, ts) && order != []
    requires |ts| == 1 || |Last(ts)| != 1
    ensures Last(ts) != [] && Last(Last(ts)) == Last(order)
    ensures GreedySplit(inst, DropLast(order), DropLast(ts) + [DropLast(Last(ts))])
    ensures Sum(inst, DropLast(Last(ts))) + inst.demand[Last(order)] <= inst.capacity
  {
    var L := Last(ts);
    var n := |ts| - 1;
    ConcatSnoc(DropLast(ts), L);
    assert DropLast(ts) + [L] == ts;
    assert ts[n] == L;
    assert L != [];
    var L' := DropLast(L);
    var ts' := DropLast(ts) + [L'];
    var from := if n == 0 then 1 else 2;
    assert L' + [Last(L)] == L;
    ConcatSnoc(DropLast(ts), L');
    assert Concat(ts') == DropLast(order);
    assert FitsFrom(inst, L, from);
    assert Sum(inst, L) <= inst.capacity by {
      assert L[..|L|] == L;
    }
    ShrinkFits(inst, L, from);
    assert ValidTrips(inst, ts') by {
      forall i | 0 <= i < |ts'|
        ensures ValidOrder(inst, ts'[i])
      {
        if i < n { assert ts'[i] == ts[i]; }
      }
    }
    assert OnlyFirstEmpty(ts') by {
      forall i | 1 <= i < |ts'|
        ensures ts'[i] != []
      {
        if i < n { assert ts'[i] == ts[i]; }
      }
    }
    assert TripsFit(inst, ts') by {
      forall i | 0 <= i < |ts'|
        ensures FitsFrom(inst, ts'[i], if i == 0 then 1 else 2)
      {
        if i < n { assert ts'[i] == ts[i]; }
      }
    }
    assert TripsMaximal(inst, ts') by {
      forall i | 1 <= i < |ts'|
        ensures Sum(inst, ts'[i - 1]) + inst.demand[ts'[i][0]] > inst.capacity
      {
        assert ts'[i - 1] == ts[i - 1];
        if i < n {
          assert ts'[i] == ts[i];
        } else {
          assert ts'[i][0] == ts[i][0];
        }
      }
    }
  }

  /**
   * The greedy split is unique: any split of the order that satisfies
   * GreedySplit is the one Trips computes. With TripsAreGreedy, a depot
   * return falls before a customer if and only if its demand does not fit
   * beside what the current trip already carries.
   */
  lemma {:induction false} GreedySplitIsUnique(inst: Instance, order: seq<nat>, ts: seq<seq<nat>>)
    requires ValidOrder(inst, order)
    requires GreedySplit(inst, order, ts)
    ensures ts == Trips(inst, order)
    decreases |order|
  {
    if order == [] {
      GreedyEmpty(inst, ts);
    } else {
      var q := DropLast(order);
      var c := Last(order);
      var rest := DropLast(ts);
      var L := Last(ts);
      assert rest + [L] == ts;
      TripsSnoc(inst, order);
      if |ts| >= 2 && |L| == 1 {
        GreedyDropTrip(inst, order, ts);
        GreedySplitIsUnique(inst, q, rest);
      } else {
        GreedyShrink(inst, order, ts);
        var shorter := rest + [DropLast(L)];
        GreedySplitIsUnique(inst, q, shorter);
        ExtendedTripIsTrips(inst, order, ts);
      }
    }
  }

  /** The only greedy split of the empty order is one empty trip. */
  lemma GreedyEmpty(inst: Instance, ts: seq<seq<nat>>)
    requires GreedySplit(inst, [], ts)
    ensures ts == [[]]
  {
    if |ts| > 1 {
      ConcatCovers(ts, 1);
      assert false;
    }
    ConcatCovers(ts, 0);
  }

  /** If the split without the last customer is Trips', and that customer fitted, the split is Trips. */
  lemma ExtendedTripIsTrips(inst: Instance, order: seq<nat>, ts: seq<seq<nat>>)
    requires ValidOrder(inst, order) && order != [] && |ts| >= 1
    requires Last(ts) != [] && Last(Last(ts)) == Last(order)
    requires DropLast(ts) + [DropLast(Last(ts))] == Trips(inst, DropLast(order))
    requires ValidOrder(inst, DropLast(Last(ts)))
    requires Sum(inst, DropLast(Last(ts))) + inst.demand[Last(order)] <= inst.capacity
    ensures ts == Trips(inst, order)
  {
    var L := Last(ts);
    var shorter := DropLast(ts) + [DropLast(L)];
    TripsSnoc(inst, order);
    assert DropLast(shorter) == DropLast(ts) && Last(shorter) == DropLast(L);
    assert DropLast(L) + [Last(order)] == L;
    assert DropLast(ts) + [L] == ts;
  }

  /** One step of Trips, written out. */
  lemma TripsSnoc(inst: Instance, order: seq<nat>)
    requires ValidOrder(inst, order) && order != []
    ensures var ts := Trips(inst, DropLast(order));
      var c := Last(order);
      Trips(inst, order)
      == if Sum(inst, Last(ts)) + inst.demand[c] > inst.capacity then ts + [[c]]
         else DropLast(ts) + [Last(ts) + [c]]
  {
  }

  /**
   * The split of an order is greedy exactly when it is the split the rule
   * computes: both directions of the characterization.
   */
  lemma TripsCharacterized(inst: Instance, order: seq<nat>, ts: seq<seq<nat>>)
    requires ValidOrder(inst, order)
    ensures GreedySplit(inst, order, ts) <==> ts == Trips(inst, order)
  {
    TripsAreGreedy(inst, order);
    if GreedySplit(inst, order, ts) {
      GreedySplitIsUnique(inst, order, ts);
    }
  }

  /**
   * Every non-empty trip carries at most the capacity, or is a single
   * customer whose demand alone exceeds it.
   */
  lemma TripLoads(inst: Instance, order: seq<nat>)
    requires ValidOrder(inst, order)
    ensures var ts := Trips(inst, order);
      forall i :: 0 <= i < |ts| && ts[i] != [] ==>
        Sum(inst, ts[i]) <= inst.capacity || (|ts[i]| == 1 && inst.demand[ts[i][0]] > inst.capacity)
  {
    var ts := Trips(inst, order);
    TripsAreGreedy(inst, order);
    forall i | 0 <= i < |ts| && ts[i] != []
      ensures Sum(inst, ts[i]) <= inst.capacity || (|ts[i]| == 1 && inst.demand[ts[i][0]] > inst.capacity)
    {
      var t := ts[i];
      assert FitsFrom(inst, t, if i == 0 then 1 else 2);
      assert t[..|t|] == t;
      if |t| == 1 {
        assert DropLast(t) == [];
      }
    }
  }

  /** A trip driven as a closed tour: depot, its customers, depot. */
  function Tour(inst: Instance, t: seq<nat>): seq<Point>
    requires ValidOrder(inst, t)
  {
    [inst.depot] + seq(|t|, k requires 0 <= k < |t| => inst.locations[t[k]]) + [inst.depot]
  }

  /** The summed lengths of the trips' closed tours. */
  function ToursLength(inst: Instance, dist: (Point, Point) -> real, ts: seq<seq<nat>>): real
    requires ValidTrips(inst, ts)
    decreases |ts|
  {
    if ts == [] then 0.0
    else ToursLength(inst, dist, DropLast(ts)) + PathLength(dist, Tour(inst, Last(ts)))
  }

  lemma {:induction false} LayoutValid(inst: Instance, ts: seq<seq<nat>>)
    requires ValidTrips(inst, ts)
    ensures ValidStops(inst, Layout(ts)) && Last(Layout(ts)) == Depot
    decreases |ts|
  {
    if ts != [] {
      LayoutValid(inst, DropLast(ts));
    }
  }

  /** The points of a layout: those of the earlier trips' layout, then the last trip and the depot. */
  lemma LayoutPoints(inst: Instance, ts: seq<seq<nat>>)
    requires ValidTrips(inst, ts) && ts != []
    ensures ValidStops(inst, Layout(ts)) && ValidStops(inst, Layout(DropLast(ts)))
    ensures ValidStops(inst, Visits(Last(ts)) + [Depot])
    ensures var tail := Points(inst, Visits(Last(ts)) + [Depot]);
      && Points(inst, Layout(ts)) == Points(inst, Layout(DropLast(ts))) + tail
      && Tour(inst, Last(ts)) == [inst.depot] + tail
      && Last(Points(inst, Layout(DropLast(ts)))) == inst.depot
  {
    LayoutValid(inst, ts);
    LayoutValid(inst, DropLast(ts));
    var tail := Visits(Last(ts)) + [Depot];
    assert ValidStops(inst, tail);
    assert Layout(ts) == Layout(DropLast(ts)) + tail;
    PointsAppend(inst, Layout(DropLast(ts)), tail);
  }

  /** The length of a layout of trips is the sum of the trips' tour lengths. */
  lemma {:induction false} LayoutLength(inst: Instance, dist: (Point, Point) -> real, ts: seq<seq<nat>>)
    requires ValidTrips(inst, ts)
    ensures ValidStops(inst, Layout(ts))
    ensures PathLength(dist, Points(inst, Layout(ts))) == ToursLength(inst, dist, ts)
    decreases |ts|
  {
    LayoutValid(inst, ts);
    if ts != [] {
      LayoutLength(inst, dist, DropLast(ts));
      LayoutPoints(inst, ts);
      var A := Points(inst, Layout(DropLast(ts)));
      var B := Points(inst, Visits(Last(ts)) + [Depot]);
      PathLengthAppend(dist, A, B);
      PathLengthAppend(dist, [inst.depot], B);
    }
  }

  /**
   * The fitness splits by trip: the route's length is the sum of the lengths
   * of the closed tours depot, trip, depot.
   */
  lemma RouteLengthByTrips(inst: Instance, dist: (Point, Point) -> real, order: seq<nat>)
    requires ValidOrder(inst, order)
    ensures PathLength(dist, Waypoints(inst, order)) == ToursLength(inst, dist, Trips(inst, order))
  {
    TripsMatchRoute(inst, order);
    LayoutLength(inst, dist, Trips(inst, order));
  }
}
