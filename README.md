# Capacity-splitting route evaluator of a GA vehicle router

The program optimizes delivery routes for one depot and a fleet of vehicles of
one capacity (a capacitated vehicle routing problem) with a genetic algorithm.
An individual is an order of all customer indices. This project models the
one algorithm the program itself implements: the rule that turns an order into
a route by splitting it into vehicle trips wherever the load would overflow.
The rule appears twice in `main.py`:

- `calculate_total_distance` is the fitness. It walks the order with a running
  load. When a customer's demand pushes the load over the capacity, it drives
  back to the depot and restarts with that customer's demand. It then drives to
  the customer. At the end it drives back to the depot.
- `update_plot` builds the waypoint lists `x_data`/`y_data` of the drawn route
  with the same test and the same reset.

Files:

- `routing.dfy` (module `Routing`): the instance (depot, locations, demands,
  capacity, passed as parameters rather than globals) and waypoints. `Step` is
  one iteration of the loops and `Simulate` folds it over the order. `Route`
  closes the result with the final return to the depot. Also here: the
  polyline length `PathLength` over an abstract leg distance `dist`, and the
  lemmas about the shape, size and contents of the route.
- `evaluator.dfy` (module `Evaluator`): the two loops as methods.
  `CalculateTotalDistance` is proved to return the length of `Waypoints`.
  `PlotRoutePath` is proved to return exactly the coordinates of `Waypoints`.
  So the two copies of the rule force depot returns at the same positions, and
  the fitness is the length of the drawn polyline.
- `trip_plan.dfy` (module `TripPlan`): the route read as a sequence of trips.
  `Trips` computes the split from what each trip carries. `TripsMatchRoute`
  proves that it agrees with the loop-level rule. `GreedySplit` characterizes the
  split independently of the loop: only the first trip may be empty, no trip
  overflows except through a single customer, and a trip ends only where the
  next customer does not fit. `TripsCharacterized` proves that these conditions
  hold of `Trips` and of no other split. `RouteLengthByTrips` proves that the
  fitness is the sum of the trips' closed-tour lengths.

The leg distance is Euclidean in the program. Here it is a parameter
`dist: (Point, Point) -> real`, and no property of it is assumed except
non-negativity where stated.

With demands [3, 3, 3], capacity 5 and order [0, 1, 2], the test 3 + 3 > 5
fires before customer 1. The load is then reset to 3, so the test fires again
before customer 2. That gives two forced returns and none before customer 0
(`Routing.WorkedExample`).

## Model

| member | source | states |
|---|---|---|
| `Routing.Step` | main.py:26-30 | after serving a customer the load is at most the capacity, unless the overflow test fired and the load was reset to that customer's demand alone; the waypoints so far are kept and the customer is served whole as the last waypoint |
| `Routing.Simulate` | main.py:21-33 | the walk starts at the depot, every customer waypoint it produces has an index within both the locations and the demands, and after a non-empty order the last waypoint is the last customer of the order |
| `Routing.Route` | main.py:82-100 | the drawn route has at least two waypoints and starts and ends at the depot |
| `Routing.RouteVisitsInOrder` | main.py:84-100 | with the depot waypoints removed, the route is exactly the order, in order |
| `Routing.RouteLength` | main.py:84-100 | the route has n + 2 + (number of forced returns) waypoints for an order of n customers |
| `Routing.RouteCounts` | main.py:84-100 | each customer occurs in the route as often as in the order, and the depot occurs twice plus once per forced return |
| `Routing.EachCustomerOnce` | main.py:84-100 | for an order that is a permutation of 0..n-1, every customer is visited exactly once, no other index appears, and the route has n + 2 + returns waypoints |
| `Routing.StepLength` | main.py:24-33 | serving a customer adds the leg back to the depot plus the leg from the depot to the customer when the overflow test fires, and only the direct leg otherwise |
| `Routing.RouteLengthCloses` | main.py:35-36 | the route's length is the walked path plus the final leg back to the depot |
| `Routing.PathLengthNonNegative` | main.py:21-36 | when every leg distance is non-negative, the total distance is non-negative |
| `Routing.FirstLegAtDepot` | main.py:26-30 | the route's second waypoint is the depot (a depot-to-depot first leg) if and only if the order is empty or its first customer's demand alone exceeds the capacity |
| `Routing.EmptyOrder` | main.py:20-37 | an empty order gives the route depot, depot with no forced return, and its distance is the single depot-to-depot leg |
| `Routing.WorkedExample` | main.py:26-30 | demands [3, 3, 3], capacity 5, order [0, 1, 2] give the route depot, 0, depot, 1, depot, 2, depot: two forced returns, none before customer 0 |
| `Evaluator.CalculateTotalDistance` | main.py:20-37 | the fitness loop returns the sum of dist over consecutive waypoints of the route |
| `Evaluator.PlotRoutePath` | main.py:82-100 | the drawing loop's x and y lists have one entry per route waypoint and give that waypoint's coordinates, in order |
| `TripPlan.Trips` | main.py:22-33 | the split into trips has at least one trip, and every trip names customers only |
| `TripPlan.TripsMatchRoute` | main.py:86-100 | the route is the depot followed by each trip and a return to the depot, and the running load equals the total demand of the current trip |
| `TripPlan.ReturnsCountTrips` | main.py:89-92 | the number of forced returns is the number of trips after the first |
| `TripPlan.TripsAreGreedy` | main.py:24-33 | the computed trips concatenate to the order, only the first may be empty, no trip overflows except through a lone first customer, and each trip ends only where the next customer's demand does not fit |
| `TripPlan.GreedySplitIsUnique` | main.py:24-33 | any split of the order with those properties is the computed one |
| `TripPlan.TripsCharacterized` | main.py:26-30 | a split is greedy if and only if it is the computed split, so a depot return falls before a customer exactly when its demand does not fit beside the current trip's |
| `TripPlan.TripLoads` | main.py:22-33 | every non-empty trip carries at most the capacity, or is a single customer whose demand alone exceeds it |
| `TripPlan.RouteLengthByTrips` | main.py:21-36 | the fitness of an order is the sum of the lengths of the closed tours depot, trip, depot over its trips |

## Left out

- The genetic-algorithm machinery (`creator` registration, ordered crossover, shuffle mutation, tournament selection, hall of fame, `varAnd`, statistics): library code that is not part of this model.
- The `run_ga` generation loop: it only orchestrates library calls and records one snapshot per generation.
- Random instance generation and seeding (`random.seed`, `random.randint`, `random.sample`): the depot, locations, demands, capacity and orders are parameters.
- Floating-point Euclidean distance (`np.linalg.norm`): the leg distance is an abstract parameter `dist` with real values, so no rounding is modelled.
- The `np.min`/`np.mean` statistics, plotting, annotation, animation and printing: output only.
- `calculate_total_distance` returns a one-element tuple for the GA library; the method returns the number itself.
- `update_plot` assigns `current_location` but never reads it; the method has no such variable.
- Python's negative indices: the model requires every index in the order to name a customer (`ValidOrder`), as the orders the program builds do.
- The demands are positive in the program; no property here needs that, so the model allows any integer demand and capacity.
