/**
 The position-simulation step of the server, as values: what one bus's turn
 in a tick does to the two runtime maps (cached route and cursor per bus id),
 which database write and which broadcast event it produces, and which route
 requests it sends to the route provider. The class in engine.dfy performs
 the same step in place and is proved equal to these functions.
 */
module Simulation {
  import opened RouteCatalog

  type BusId = int

  datatype Option<T> = None | Some(value: T)

  /** One row of the active-bus query: id, bus number and the stored step
      index, which may be NULL. */
  datatype BusRow = BusRow(id: BusId, number: string, stepIndex: Option<nat>)

  /** The intended database update: new position and step index of a bus. */
  datatype Write = Write(id: BusId, position: Point, stepIndex: nat)

  /** The broadcast change event. */
  datatype Event = Event(id: BusId, number: string, position: Point, status: string)

  const Active: string := "active"

  /** The route provider, seen from one tick: the answer to the k-th request
      of the tick for the given endpoints. Any answer, the empty route
      included, is possible. */
  type Fetch = (nat, Point, Point) -> seq<Point>

  /** The runtime maps: cached route and cursor, keyed by bus id. */
  datatype Runtime = Runtime(routes: map<BusId, seq<Point>>, positions: map<BusId, nat>)

  /** Both maps are filled together, so they have the same keys. */
  predicate Consistent(rt: Runtime)
  {
    rt.routes.Keys == rt.positions.Keys
  }

  /** The cursor of a bus after its turn: back at the start, or on a waypoint
      of the cached route other than the first. */
  predicate Settled(route: seq<Point>, cursor: nat)
  {
    cursor == 0 || 1 <= cursor <= |route| - 1
  }

  /** Every cached bus is settled. */
  predicate Valid(rt: Runtime)
  {
    Consistent(rt) && forall id :: id in rt.routes ==> Settled(rt.routes[id], rt.positions[id])
  }

  /** `id` is untouched from `rt` to `rt'`. */
  predicate SameEntry(rt: Runtime, rt': Runtime, id: BusId)
  {
    (id in rt.routes <==> id in rt'.routes) &&
    (id in rt.positions <==> id in rt'.positions) &&
    (id in rt.routes ==> rt'.routes[id] == rt.routes[id]) &&
    (id in rt.positions ==> rt'.positions[id] == rt.positions[id])
  }

  /** The cursor a bus resumes from: its stored step index, 0 when NULL. */
  function Resume(stepIndex: Option<nat>): (cursor: nat)
    ensures stepIndex.None? ==> cursor == 0
    ensures stepIndex.Some? ==> cursor == stepIndex.value
  {
    match stepIndex
    case None => 0
    case Some(k) => k
  }

  /** Whether the bus moves on this turn rather than being reset. */
  predicate CanAdvance(route: seq<Point>, cursor: nat)
  {
    |route| > 0 && cursor < |route| - 1
  }

  /** The result of one bus's turn. */
  datatype Outcome = Outcome(rt: Runtime, write: Write, event: Event, requests: seq<RouteDef>)

  /** Lazy initialisation: a bus id seen for the first time gets its route
      fetched and its cursor resumed from the stored step index. */
  function LazyInit(rt: Runtime, bus: BusRow, fetch: Fetch, issued: nat): (rt': Runtime)
    requires Consistent(rt)
    ensures Consistent(rt') && bus.id in rt'.routes
    ensures bus.id in rt.routes ==> rt' == rt
    ensures bus.id !in rt.routes ==>
      var def := RouteFor(bus.number);
      rt'.routes[bus.id] == fetch(issued, def.start, def.end) &&
      rt'.positions[bus.id] == Resume(bus.stepIndex)
    ensures forall id :: id != bus.id ==> SameEntry(rt, rt', id)
  {
    if bus.id in rt.routes then rt
    else
      var def := RouteFor(bus.number);
      Runtime(rt.routes[bus.id := fetch(issued, def.start, def.end)],
              rt.positions[bus.id := Resume(bus.stepIndex)])
  }

  /** One bus's turn in a tick. `issued` is the number of route requests
      already sent in this tick. */
  function StepBus(rt: Runtime, bus: BusRow, fetch: Fetch, issued: nat): (o: Outcome)
    requires Consistent(rt)
    ensures Consistent(o.rt)
    ensures bus.id in o.rt.routes && Settled(o.rt.routes[bus.id], o.rt.positions[bus.id])
    ensures forall id :: id != bus.id ==> SameEntry(rt, o.rt, id)
    ensures o.write.id == bus.id && o.write.stepIndex == o.rt.positions[bus.id]
    ensures o.event == Event(bus.id, bus.number, o.write.position, Active)
    ensures |o.requests| <= 2 && forall r :: r in o.requests ==> r == RouteFor(bus.number)
  {
    var def := RouteFor(bus.number);
    var asked := if bus.id in rt.routes then [] else [def];
    var rt1 := LazyInit(rt, bus, fetch, issued);
    var route := rt1.routes[bus.id];
    var cursor := rt1.positions[bus.id];
    if CanAdvance(route, cursor) then
      var next := route[cursor + 1];
      Outcome(Runtime(rt1.routes, rt1.positions[bus.id := cursor + 1]),
              Write(bus.id, next, cursor + 1),
              Event(bus.id, bus.number, next, Active),
              asked)
    else
      Outcome(Runtime(rt1.routes[bus.id := fetch(issued + |asked|, def.start, def.end)],
                      rt1.positions[bus.id := 0]),
              Write(bus.id, def.start, 0),
              Event(bus.id, bus.number, def.start, Active),
              asked + [def])
  }

  /** A bus whose route is cached and whose cursor is short of the last
      waypoint moves exactly one waypoint, keeps its route, reports the
      waypoint it reached and sends no request. */
  lemma AdvanceStep(rt: Runtime, bus: BusRow, fetch: Fetch, issued: nat)
    requires Consistent(rt) && bus.id in rt.routes
    requires CanAdvance(rt.routes[bus.id], rt.positions[bus.id])
    ensures var o := StepBus(rt, bus, fetch, issued);
      var c := rt.positions[bus.id];
      o.rt.routes == rt.routes &&
      o.rt.positions[bus.id] == c + 1 &&
      o.write == Write(bus.id, rt.routes[bus.id][c + 1], c + 1) &&
      o.requests == []
  {
  }

  /** A bus whose route is cached but empty, or whose cursor is at or past
      the last waypoint, is written back to the route start with step 0 and
      its route is fetched again; this holds whatever the provider answers. */
  lemma ResetStep(rt: Runtime, bus: BusRow, fetch: Fetch, issued: nat)
    requires Consistent(rt) && bus.id in rt.routes
    requires !CanAdvance(rt.routes[bus.id], rt.positions[bus.id])
    ensures var o := StepBus(rt, bus, fetch, issued);
      var def := RouteFor(bus.number);
      o.rt.positions[bus.id] == 0 &&
      o.rt.routes[bus.id] == fetch(issued, def.start, def.end) &&
      o.write == Write(bus.id, def.start, 0) &&
      o.requests == [def]
  {
  }

  /** An empty cached route never lets a bus stand still: it is reset. */
  lemma EmptyRouteResets(rt: Runtime, bus: BusRow, fetch: Fetch, issued: nat)
    requires Consistent(rt) && bus.id in rt.routes && rt.routes[bus.id] == []
    ensures StepBus(rt, bus, fetch, issued).write == Write(bus.id, RouteFor(bus.number).start, 0)
    ensures StepBus(rt, bus, fetch, issued).requests == [RouteFor(bus.number)]
  {
  }

  /** A bus seen for the first time: its route is fetched with the tick's
      `issued`-th request, its cursor resumed from the stored step index, and
      the turn then continues as for a cached bus. */
  lemma FirstSightStep(rt: Runtime, bus: BusRow, fetch: Fetch, issued: nat)
    requires Consistent(rt) && bus.id !in rt.routes
    ensures var def := RouteFor(bus.number);
      var route := fetch(issued, def.start, def.end);
      var rt1 := Runtime(rt.routes[bus.id := route], rt.positions[bus.id := Resume(bus.stepIndex)]);
      var o := StepBus(rt, bus, fetch, issued);
      var o1 := StepBus(rt1, bus, fetch, issued + 1);
      o.rt == o1.rt && o.write == o1.write && o.event == o1.event && o.requests == [def] + o1.requests
  {
  }

  /** The runtime maps after some ticks and the positions reported, in order. */
  datatype Trace = Trace(rt: Runtime, positions: seq<Point>)

  /** One bus alone over `k` consecutive ticks. Tick j (counted from 0) sees
      the provider as `fetches(j)`, so the provider may answer differently on
      every tick: a request that failed may succeed later. */
  function Ticks(rt: Runtime, bus: BusRow, fetches: nat -> Fetch, k: nat): (tr: Trace)
    requires Consistent(rt)
    ensures Consistent(tr.rt) && |tr.positions| == k
    ensures k > 0 ==> bus.id in tr.rt.routes
  {
    if k == 0 then Trace(rt, [])
    else
      var prev := Ticks(rt, bus, fetches, k - 1);
      var o := StepBus(prev.rt, bus, fetches(k - 1), 0);
      Trace(o.rt, prev.positions + [o.event.position])
  }

  /** A cached bus at cursor c on a route of length n, ticked k times with
      c + k <= n - 1, visits the waypoints c+1 .. c+k one per tick and keeps
      its route. */
  lemma {:induction false} Journey(rt: Runtime, bus: BusRow, fetches: nat -> Fetch, k: nat)
    requires Consistent(rt) && bus.id in rt.routes
    requires rt.positions[bus.id] + k <= |rt.routes[bus.id]| - 1
    ensures var tr := Ticks(rt, bus, fetches, k);
      var c := rt.positions[bus.id];
      bus.id in tr.rt.routes &&
      tr.rt.routes[bus.id] == rt.routes[bus.id] &&
      tr.rt.positions[bus.id] == c + k &&
      tr.positions == rt.routes[bus.id][c + 1..c + k + 1]
  {
    if k > 0 {
      Journey(rt, bus, fetches, k - 1);
      var prev := Ticks(rt, bus, fetches, k - 1);
      AdvanceStep(prev.rt, bus, fetches(k - 1), 0);
    }
  }

  /** A full lap: from cursor 0 on a cached route of n >= 1 waypoints, the
      bus reports waypoints 1 .. n-1 on the first n-1 ticks, and on the n-th
      it is back at the route start with cursor 0 and a freshly fetched
      route. */
  lemma FullLap(rt: Runtime, bus: BusRow, fetches: nat -> Fetch)
    requires Consistent(rt) && bus.id in rt.routes
    requires rt.positions[bus.id] == 0 && |rt.routes[bus.id]| >= 1
    ensures var n := |rt.routes[bus.id]|;
      var def := RouteFor(bus.number);
      var tr := Ticks(rt, bus, fetches, n);
      tr.positions == rt.routes[bus.id][1..] + [def.start] &&
      tr.rt.positions[bus.id] == 0 &&
      tr.rt.routes[bus.id] == fetches(n - 1)(0, def.start, def.end)
  {
    var n := |rt.routes[bus.id]|;
    Journey(rt, bus, fetches, n - 1);
    var prev := Ticks(rt, bus, fetches, n - 1);
    ResetStep(prev.rt, bus, fetches(n - 1), 0);
  }

  /** A failed fetch is retried: a bus whose cached route is empty is reset
      on the first tick and caches that tick's answer; when the answer has at
      least two waypoints, the second tick moves it to waypoint 1. */
  lemma {:induction false} RetryAfterEmpty(rt: Runtime, bus: BusRow, fetches: nat -> Fetch)
    requires Consistent(rt) && bus.id in rt.routes && rt.routes[bus.id] == []
    ensures var def := RouteFor(bus.number);
      var route := fetches(0)(0, def.start, def.end);
      var tr := Ticks(rt, bus, fetches, 2);
      Ticks(rt, bus, fetches, 1).rt.routes[bus.id] == route &&
      Ticks(rt, bus, fetches, 1).rt.positions[bus.id] == 0 &&
      (|route| >= 2 ==> tr.positions == [def.start, route[1]] && tr.rt.positions[bus.id] == 1)
  {
    var one := Ticks(rt, bus, fetches, 1);
    assert Ticks(rt, bus, fetches, 0) == Trace(rt, []);
    ResetStep(rt, bus, fetches(0), 0);
    var def := RouteFor(bus.number);
    if |fetches(0)(0, def.start, def.end)| >= 2 {
      AdvanceStep(one.rt, bus, fetches(1), 0);
    }
  }

  /** Bus 1, number "Juja-42", resumed at step 0 on a cached three-waypoint
      route [a, b, c]: the first tick reports b, the second c, and the third
      puts it back at Juja, the start of its route, with cursor 0. */
  lemma ThreeWaypointScenario(a: Point, b: Point, c: Point, fetches: nat -> Fetch)
    ensures var bus := BusRow(1, "Juja-42", Some(0));
      var rt := Runtime(map[1 := [a, b, c]], map[1 := 0]);
      var tr := Ticks(rt, bus, fetches, 3);
      tr.positions == [b, c, JujaPoint] && tr.rt.positions[1] == 0
  {
    var bus := BusRow(1, "Juja-42", Some(0));
    var rt := Runtime(map[1 := [a, b, c]], map[1 := 0]);
    ClassifyExamples("Juja-42", "Juja-42");
    FullLap(rt, bus, fetches);
    assert [a, b, c][1..] == [b, c];
  }

  /** The result of a whole tick. */
  datatype TickResult = TickResult(rt: Runtime, writes: seq<Write>, events: seq<Event>, requests: seq<RouteDef>)

  /** Some row of `buses` has this id. */
  predicate Listed(buses: seq<BusRow>, id: BusId)
  {
    exists i :: 0 <= i < |buses| && buses[i].id == id
  }

  /** The ids listed in `buses + [bus]` are those of `buses` and `bus.id`. */
  lemma ListedSnoc(buses: seq<BusRow>, bus: BusRow)
    ensures forall id :: Listed(buses + [bus], id) <==> Listed(buses, id) || id == bus.id
  {
    var all := buses + [bus];
    forall id | Listed(buses, id) ensures Listed(all, id) {
      var i :| 0 <= i < |buses| && buses[i].id == id;
      assert all[i].id == id;
    }
    forall id | Listed(all, id) ensures Listed(buses, id) || id == bus.id {
      var i :| 0 <= i < |all| && all[i].id == id;
      if i < |buses| { assert buses[i].id == id; }
    }
    assert all[|buses|].id == bus.id;
  }

  /** One tick over the rows of the active-bus query, in order: each row gets
      one turn, one write and one event; buses not listed are untouched. */
  function RunTick(rt: Runtime, buses: seq<BusRow>, fetch: Fetch): (t: TickResult)
    requires Consistent(rt)
    ensures Consistent(t.rt)
    ensures |t.writes| == |buses| && |t.events| == |buses|
    ensures forall i :: 0 <= i < |buses| ==>
      t.writes[i].id == buses[i].id &&
      t.events[i] == Event(buses[i].id, buses[i].number, t.writes[i].position, Active)
    ensures forall id :: !Listed(buses, id) ==> SameEntry(rt, t.rt, id)
    ensures forall id :: Listed(buses, id) ==> id in t.rt.routes && Settled(t.rt.routes[id], t.rt.positions[id])
    ensures Valid(rt) ==> Valid(t.rt)
    decreases |buses|
  {
    if buses == [] then TickResult(rt, [], [], [])
    else
      var init := buses[..|buses| - 1];
      var bus := buses[|buses| - 1];
      var prev := RunTick(rt, init, fetch);
      var o := StepBus(prev.rt, bus, fetch, |prev.requests|);
      ListedSnoc(init, bus);
      assert init + [bus] == buses;
      TickResult(o.rt, prev.writes + [o.write], prev.events + [o.event], prev.requests + o.requests)
  }
}
