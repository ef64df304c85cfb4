# Real-time bus tracking: position simulation and client update

This project models the two pieces of logic at the heart of the real-time bus
tracker.

- **The server's position simulation** (`server.js`). A timer calls
  `updateBusLocations`. It visits every active bus in turn (bus numbers are
  taken to be non-NULL; see "Left out"). The bus number picks
  one of two directional routes, Juja-Nairobi or Nairobi-Juja. The first time a
  bus id is seen, the server fetches that route's waypoints from the route
  provider and caches them. It also resumes the bus's cursor from the stored
  step index. On each turn the bus then does one of two things:
  - it moves exactly one waypoint, or
  - when its route is empty or its cursor is at or past the last waypoint, it
    goes back to the route start with cursor 0 and its route is fetched again.

  Either way the server writes the new position and step index to the database
  and broadcasts a `busUpdate` event.
- **The client's event handler** (`src/BusTracking.js`). The handler replaces
  every displayed bus whose id matches the incoming event's id with the event's
  record.

Modules:

- `RouteCatalog` (`route_catalog.dfy`) holds:
  - the route table;
  - substring search (`Includes`), proved against an occurrence-based definition;
  - the number-to-route classification.
- `Simulation` (`simulation.dfy`) describes as values:
  - one bus's turn (`StepBus`);
  - one tick (`RunTick`);
  - one bus alone over several ticks (`Ticks`).

  It also proves the lemmas about them. The runtime state is the pair of maps
  `busRoutes`/`busPositions`, keyed by bus id. Database updates and broadcast
  events become the `Write` and `Event` records that a turn returns. The route
  provider is an oracle `fetch(k, start, end)`: its answer to the k-th request of
  the tick. Any answer is possible, including the empty route. Every request sent
  is recorded in the `requests` sequence the turn returns. Over several ticks, each tick gets its own oracle, so a request that
  failed on one tick can succeed on a later one.
- `Engine` (`engine.dfy`) holds the class `Simulator`, which has the two maps as
  fields. `UpdateBus` and `UpdateBusLocations` update those maps in place, as the
  server does. They are proved equal to `StepBus` and `RunTick`. A failed
  active-bus query (`None`) ends the tick with no effect.
- `BusTracking` (`bus_tracking.dfy`) holds the client's replace-by-id map and
  its algebra: length and ids kept, absent ids ignored, idempotence, last write
  wins, and commutation for different ids.

A bus whose route provider returned nothing does not stand still. A cached
empty route fails the test `route.length > 0` (server.js:87), so the bus takes
the reset branch. It is written back to the route start with step 0, a reset
event is emitted and the route is fetched again (`EmptyRouteResets`). The empty
array is truthy, so such a bus is never initialised a second time. A later
tick's fetch can succeed, and the bus then moves on (`RetryAfterEmpty`).

## Model

| member | source | states |
|---|---|---|
| `RouteCatalog.RoutesAreReverses` | server.js:38-41 | The table has exactly the two keys. Each route's start is the other's end and the other way round, and a route's start and end differ. |
| `RouteCatalog.IncludesIffOccurs` | server.js:76 | The substring test used on the bus number holds exactly when the token occurs at some index of the number. |
| `RouteCatalog.RouteKeyFor` | server.js:76 | The chosen route key is always in the table. Its route starts at Juja exactly when the number contains "Juja", and at Nairobi exactly when it does not. |
| `RouteCatalog.RouteFor` | server.js:76-77 | The lookup of the chosen key never fails. It yields one of the table's routes, whose start and end differ. |
| `RouteCatalog.ClassifyByOccurrence` | server.js:76 | A number gets Juja-Nairobi exactly when "Juja" occurs in it, and Nairobi-Juja exactly when it does not. |
| `RouteCatalog.ClassifyExamples` | server.js:76 | Two numbers get the same route exactly when both contain "Juja" or neither does. "Juja-42" gets Juja-Nairobi and "KBX 001" gets Nairobi-Juja. |
| `Simulation.Resume` | server.js:82 | The resumed cursor is 0 for a NULL step index and the stored value otherwise. |
| `Simulation.LazyInit` | server.js:80-83 | A bus id already cached leaves the state as it is. A new id gets the route fetched for its own endpoints and the resumed cursor. Every other id is untouched. |
| `Simulation.StepBus` | server.js:73-125 | After a turn, the bus is cached and its cursor is 0 or between 1 and the route length minus 1. Other buses' entries are unchanged. The write carries the bus id and the new cursor. The event carries the bus's id and number, the written position and status "active". At most two requests are sent, all for the bus's own route. |
| `Simulation.AdvanceStep` | server.js:87-104 | On a non-empty route with cursor below length minus 1, the cursor goes up by exactly 1 and the route is kept. The written point is the waypoint at the new cursor. No request is sent. |
| `Simulation.ResetStep` | server.js:106-125 | Otherwise the cursor becomes 0 and the written point is the route start with step 0. The cached route becomes the provider's next answer, whatever it is, and one request is sent for the bus's own endpoints. |
| `Simulation.EmptyRouteResets` | server.js:85-115 | A cached empty route does not hold the bus still. The bus is written back to its route start with step 0, and the route is requested again. |
| `Simulation.FirstSightStep` | server.js:80-87 | For a new bus id, the turn is the turn of a cached bus whose route is the first answer and whose cursor is the resumed step index. One extra request comes first. |
| `Simulation.Ticks` | server.js:130-131 | Ticking one bus k times reports k positions, and once ticked the bus is cached. Each tick consults its own provider oracle. |
| `Simulation.Journey` | server.js:87-104 | From cursor c, k ticks with c + k at most length minus 1 keep the route and end at cursor c + k. The positions reported are exactly waypoints c+1 to c+k, in order. |
| `Simulation.FullLap` | server.js:87-125 | From cursor 0 on a route of n waypoints, the first n-1 ticks report waypoints 1 to n-1. The n-th tick reports the route start and leaves cursor 0 with the route that tick's provider returned. |
| `Simulation.RetryAfterEmpty` | server.js:87-125 | A bus with an empty cached route is reset on the next tick and caches that tick's answer. When the answer has at least two waypoints, the following tick moves it to waypoint 1. |
| `Simulation.ThreeWaypointScenario` | server.js:76-125 | Bus "Juja-42" at step 0 on route [a, b, c] reports b, then c, then the Juja start, and ends at cursor 0. |
| `Simulation.RunTick` | server.js:72-126 | A tick gives one write and one event per row, in row order, each with that row's id and number and status "active". Buses not listed are untouched. Every listed bus ends settled, and a valid state stays valid. |
| `Engine.Simulator.constructor` | server.js:44-45 | The runtime maps start empty. |
| `Engine.Simulator.UpdateBus` | server.js:73-125 | The in-place update of the two maps produces the state, write, event and requests of `StepBus`. |
| `Engine.Simulator.UpdateBusLocations` | server.js:65-128 | A failed query changes nothing and outputs nothing. Otherwise the loop over the rows produces exactly `RunTick`'s state, writes, events and requests. The invariant that every cached cursor is settled is kept. |
| `BusTracking.ReplaceById` | src/BusTracking.js:39-41 | The new list has the old length. Every element with the event's id, duplicates included, becomes the event's record. Every other element stays as it was at the same index. |
| `BusTracking.ReplaceKeepsIds` | src/BusTracking.js:40 | The list's ids are the same, in the same order: nothing is added, dropped or moved. |
| `BusTracking.ReplaceAbsent` | src/BusTracking.js:39-41 | An event whose id is not on the list leaves the list unchanged. The unknown bus is not appended. |
| `BusTracking.ReplacePresent` | src/BusTracking.js:39-41 | The event's record is on the new list exactly when its id was on the old one. |
| `BusTracking.ReplaceIdempotent` | src/BusTracking.js:39-41 | Handling the same event twice gives the same list as handling it once. |
| `BusTracking.ReplaceLastWins` | src/BusTracking.js:39-41 | Of two events for the same id, the later one determines the list. |
| `BusTracking.ReplaceCommutes` | src/BusTracking.js:39-41 | Events for different ids give the same list in either order. |

## Left out

- The HTTP request to the route provider and the unpacking of its GeoJSON answer (server.js:48-63). They are replaced by the oracle `fetch`. A failed request is one of the oracle's possible answers: the empty route.
- The MySQL connection, the active-bus query and the `UPDATE` statements (server.js:22-35, 66, 92-95, 108-111). The query's rows, or its failure, are a parameter of `UpdateBusLocations`. The updates are the returned `Write` records.
- The socket.io server, `io.emit`, the snapshot sent on connection, the Express read endpoint and `server.listen` (server.js:13, 98, 118, 135-162). Events are returned as `Event` records.
- `setInterval` scheduling and the `await`s inside the loop (server.js:81, 114, 131). Overlapping ticks and their interleavings are not modelled. A tick is one sequential pass over the given rows.
- Floating-point coordinates. Points are pairs of exact decimals that are only compared and copied.
- NULL bus numbers. `includes` at server.js:76 would throw on such a row and end the tick's loop, so the later rows would get no turn, write or event. The model takes every bus number to be a string, so every row gets its turn.
- Negative or non-integer stored step indices. The step index is a NULL-able natural number, and the server only ever stores such values.
- The page's React state, Leaflet setup, map rendering and the initial GET of the bus list (src/BusTracking.js:1-37, 43-78). Only the pure list update inside the `busUpdate` handler is modelled.
