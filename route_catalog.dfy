/**
 The static route table of the simulation server and the rule that assigns
 each bus, from its number, one of the two directional routes.
 */
module RouteCatalog {

  /** A geographic point. Coordinates are exact decimals here; the model only
      ever compares and copies points, it never computes with them. */
  datatype Point = Point(lat: real, lng: real)

  /** The two endpoints of a directional route. */
  datatype RouteDef = RouteDef(start: Point, end: Point)

  const JujaPoint: Point := Point(-1.1278, 36.9707)
  const NairobiPoint: Point := Point(-1.286389, 36.817223)

  const JujaNairobi: string := "Juja-Nairobi"
  const NairobiJuja: string := "Nairobi-Juja"

  /** The route table, keyed by route name. */
  const Routes: map<string, RouteDef> :=
    map[JujaNairobi := RouteDef(JujaPoint, NairobiPoint),
        NairobiJuja := RouteDef(NairobiPoint, JujaPoint)]

  /** The two routes run between the same endpoints in opposite directions. */
  lemma RoutesAreReverses()
    ensures JujaNairobi in Routes && NairobiJuja in Routes
    ensures Routes[JujaNairobi].start == Routes[NairobiJuja].end
    ensures Routes[JujaNairobi].end == Routes[NairobiJuja].start
    ensures Routes[JujaNairobi].start != Routes[JujaNairobi].end
    ensures Routes.Keys == {JujaNairobi, NairobiJuja}
  {
  }

  /** `t` occurs in `s` starting at index `i`. */
  ghost predicate OccursAt(s: string, t: string, i: nat)
  {
    i + |t| <= |s| && s[i..i + |t|] == t
  }

  /** Substring search, as a string's `includes` does it: the empty string
      occurs in every string. */
  function Includes(s: string, t: string): bool
    decreases |s|
  {
    if |s| < |t| then false
    else if s[..|t|] == t then true
    else Includes(s[1..], t)
  }

  /** `Includes` finds `t` exactly when `t` occurs somewhere in `s`. */
  lemma {:induction false} IncludesIffOccurs(s: string, t: string)
    ensures Includes(s, t) <==> exists i: nat :: OccursAt(s, t, i)
    decreases |s|
  {
    if |s| < |t| {
      forall i: nat ensures !OccursAt(s, t, i) { }
    } else if s[..|t|] == t {
      assert OccursAt(s, t, 0);
    } else {
      IncludesIffOccurs(s[1..], t);
      if Includes(s[1..], t) {
        var i: nat :| OccursAt(s[1..], t, i);
        assert s[1..][i..i + |t|] == s[i + 1..i + 1 + |t|];
        assert OccursAt(s, t, i + 1);
      } else {
        forall i: nat | OccursAt(s, t, i) ensures false {
          if i > 0 {
            assert s[1..][i - 1..i - 1 + |t|] == s[i..i + |t|];
            assert OccursAt(s[1..], t, i - 1);
          }
        }
      }
    }
  }

  /** The name of the route a bus with this number is assigned: numbers that
      mention Juja start from Juja, every other number starts from Nairobi. */
  function RouteKeyFor(number: string): (key: string)
    ensures key in Routes
    ensures Routes[key].start == JujaPoint <==> Includes(number, "Juja")
    ensures Routes[key].start == NairobiPoint <==> !Includes(number, "Juja")
  {
    if Includes(number, "Juja") then JujaNairobi else NairobiJuja
  }

  /** The route definition a bus with this number follows; the lookup never
      fails because the chosen key is always in the table. */
  function RouteFor(number: string): (def: RouteDef)
    ensures def in Routes.Values
    ensures def.start != def.end
  {
    Routes[RouteKeyFor(number)]
  }

  /** Classification depends on nothing but whether "Juja" occurs in the
      number. */
  lemma ClassifyByOccurrence(number: string)
    ensures RouteKeyFor(number) == JujaNairobi <==> exists i: nat :: OccursAt(number, "Juja", i)
    ensures RouteKeyFor(number) == NairobiJuja <==> !exists i: nat :: OccursAt(number, "Juja", i)
  {
    IncludesIffOccurs(number, "Juja");
  }

  /** Two bus numbers get the same route exactly when both or neither mention
      Juja; the number "Juja-42" is sent from Juja to Nairobi. */
  lemma ClassifyExamples(a: string, b: string)
    ensures RouteKeyFor(a) == RouteKeyFor(b) <==> (Includes(a, "Juja") <==> Includes(b, "Juja"))
    ensures RouteKeyFor("Juja-42") == JujaNairobi
    ensures RouteKeyFor("KBX 001") == NairobiJuja
  {
    assert "Juja-42"[..4] == "Juja";
    var n := "KBX 001";
    assert n[..4][0] != 'J' && n[1..][..4][0] != 'J' && n[2..][..4][0] != 'J' && n[3..][..4][0] != 'J';
    assert !Includes(n[4..], "Juja");
    assert n[4..] == n[1..][1..][1..][1..];
  }
}
