/**
 The tracking page's handler for a broadcast change event: the displayed bus
 list is replaced by one in which every bus with the event's id is the event's
 record and every other bus is kept where it was.
 */
module BusTracking {
  import opened RouteCatalog

  /** A bus as the page displays it. */
  datatype Bus = Bus(id: int, number: string, position: Point, status: string)

  /** Maps the list, swapping in `updated` wherever the id matches. */
  function ReplaceById(prev: seq<Bus>, updated: Bus): (next: seq<Bus>)
    ensures |next| == |prev|
    ensures forall i :: 0 <= i < |prev| && prev[i].id == updated.id ==> next[i] == updated
    ensures forall i :: 0 <= i < |prev| && prev[i].id != updated.id ==> next[i] == prev[i]
  {
    if prev == [] then []
    else [if prev[0].id == updated.id then updated else prev[0]] + ReplaceById(prev[1..], updated)
  }

  /** The ids, in order, of a list of buses. */
  function Ids(buses: seq<Bus>): (ids: seq<int>)
    ensures |ids| == |buses| && forall i :: 0 <= i < |buses| ==> ids[i] == buses[i].id
  {
    seq(|buses|, i requires 0 <= i < |buses| => buses[i].id)
  }

  /** The list keeps its ids in the same order: nothing is added, dropped or
      moved. */
  lemma ReplaceKeepsIds(prev: seq<Bus>, updated: Bus)
    ensures Ids(ReplaceById(prev, updated)) == Ids(prev)
  {
  }

  /** An event for a bus that is not on the list leaves the list as it is;
      the bus is not appended. */
  lemma ReplaceAbsent(prev: seq<Bus>, updated: Bus)
    requires updated.id !in Ids(prev)
    ensures ReplaceById(prev, updated) == prev
  {
  }

  /** Afterwards the event's record is on the list exactly when its id was. */
  lemma ReplacePresent(prev: seq<Bus>, updated: Bus)
    ensures updated in ReplaceById(prev, updated) <==> updated.id in Ids(prev)
  {
  }

  /** Handling the same event twice is the same as handling it once. */
  lemma ReplaceIdempotent(prev: seq<Bus>, updated: Bus)
    ensures ReplaceById(ReplaceById(prev, updated), updated) == ReplaceById(prev, updated)
  {
  }

  /** Of two events for the same bus, the later one wins. */
  lemma ReplaceLastWins(prev: seq<Bus>, first: Bus, second: Bus)
    requires first.id == second.id
    ensures ReplaceById(ReplaceById(prev, first), second) == ReplaceById(prev, second)
  {
  }

  /** Events for different buses can be handled in either order. */
  lemma ReplaceCommutes(prev: seq<Bus>, a: Bus, b: Bus)
    requires a.id != b.id
    ensures ReplaceById(ReplaceById(prev, a), b) == ReplaceById(ReplaceById(prev, b), a)
  {
  }
}
