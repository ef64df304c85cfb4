/**
 The simulation server's runtime state and its periodic update, done in place
 as the server does it: two maps keyed by bus id, updated entry by entry while
 the rows of the active-bus query are visited in order. Each method is proved
 to do what the functions of module Simulation describe.
 */
module Engine {
  import opened RouteCatalog
  import opened Simulation

  class Simulator {
    /** Cached route of each bus seen so far. */
    var busRoutes: map<BusId, seq<Point>>
    /** Cursor (index of the last waypoint reached) of each bus seen so far. */
    var busPositions: map<BusId, nat>

    function State(): Runtime
      reads this
    {
      Runtime(busRoutes, busPositions)
    }

    ghost predicate Valid()
      reads this
    {
      Simulation.Valid(State())
    }

    /** At start-up no bus has been seen. */
    constructor ()
      ensures Valid()
      ensures busRoutes == map[] && busPositions == map[]
    {
      busRoutes := map[];
      busPositions := map[];
    }

    /** One bus's turn: lazy initialisation, then either one waypoint forward
        or a reset to the route start with a fresh route. `issued` counts the
        route requests already sent in this tick. */
    method UpdateBus(bus: BusRow, fetch: Fetch, issued: nat)
      returns (write: Write, event: Event, requests: seq<RouteDef>)
      requires Consistent(State())
      modifies this
      ensures var o := StepBus(old(State()), bus, fetch, issued);
        State() == o.rt && write == o.write && event == o.event && requests == o.requests
    {
      var routeKey := RouteKeyFor(bus.number);
      var def := Routes[routeKey];
      requests := [];
      if bus.id !in busRoutes {
        busRoutes := busRoutes[bus.id := fetch(issued, def.start, def.end)];
        busPositions := busPositions[bus.id := Resume(bus.stepIndex)];
        requests := [def];
      }
      var route := busRoutes[bus.id];
      if |route| > 0 && busPositions[bus.id] < |route| - 1 {
        busPositions := busPositions[bus.id := busPositions[bus.id] + 1];
        var nextStop := route[busPositions[bus.id]];
        write := Write(bus.id, nextStop, busPositions[bus.id]);
        event := Event(bus.id, bus.number, nextStop, Active);
      } else {
        write := Write(bus.id, def.start, 0);
        busRoutes := busRoutes[bus.id := fetch(issued + |requests|, def.start, def.end)];
        requests := requests + [def];
        busPositions := busPositions[bus.id := 0];
        event := Event(bus.id, bus.number, def.start, Active);
      }
    }

    /** One tick. `rows` is the answer of the active-bus query, `None` when
        the query failed: then nothing is written, emitted or fetched and the
        state is left as it was. Otherwise every row gets one turn, in order. */
    method UpdateBusLocations(rows: Option<seq<BusRow>>, fetch: Fetch)
      returns (writes: seq<Write>, events: seq<Event>, requests: seq<RouteDef>)
      requires Valid()
      modifies this
      ensures Valid()
      ensures rows.None? ==> State() == old(State()) && writes == [] && events == [] && requests == []
      ensures rows.Some? ==>
        var t := RunTick(old(State()), rows.value, fetch);
        State() == t.rt && writes == t.writes && events == t.events && requests == t.requests
    {
      writes, events, requests := [], [], [];
      if rows.None? {
        return;
      }
      var buses := rows.value;
      ghost var start := State();
      var i := 0;
      while i < |buses|
        invariant 0 <= i <= |buses|
        invariant Consistent(State())
        invariant var t := RunTick(start, buses[..i], fetch);
          State() == t.rt && writes == t.writes && events == t.events && requests == t.requests
      {
        assert buses[..i + 1][..i] == buses[..i];
        var w, e, asked := UpdateBus(buses[i], fetch, |requests|);
        writes, events, requests := writes + [w], events + [e], requests + asked;
        i := i + 1;
      }
      assert buses[..|buses|] == buses;
    }
  }
}
