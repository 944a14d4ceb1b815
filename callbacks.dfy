/** Runs of callbacks: a stream of location results, a stream of light
    readings, and any interleaving of all the screen's events. */
module Callbacks {
  import opened Geo
  import opened Overlays
  import opened SessionSpec

  /** The session after the location callback has run on each result in turn. */
  function Track(s: Session, fixes: seq<Option<Coordinate>>, dist: Distance): Session
    decreases |fixes|
  {
    if fixes == [] then s else Track(OnLocationResult(s, fixes[0], dist), fixes[1..], dist)
  }

  /** The fixes the movement filter lets through, in order, when the last
      accepted location is `last` to begin with. */
  function Accepted(last: Option<Coordinate>, fixes: seq<Option<Coordinate>>, dist: Distance): (r: seq<Coordinate>)
    ensures |r| <= |fixes|
    ensures forall x :: x in r ==> Some(x) in fixes
    ensures last.None? && |fixes| > 0 && fixes[0].Some? ==> |r| > 0 && r[0] == fixes[0].value
    decreases |fixes|
  {
    if fixes == [] then []
    else
      var rest := fixes[1..];
      assert forall x :: Some(x) in rest ==> Some(x) in fixes;
      match fixes[0]
      case None => Accepted(last, rest, dist)
      case Some(loc) =>
        if Accepts(last, loc, dist) then [loc] + Accepted(Some(loc), rest, dist)
        else Accepted(last, rest, dist)
  }

  /** Each location is farther than the threshold from the one before it;
      the first one from `last`, when there is a last location. */
  predicate Spaced(last: Option<Coordinate>, locs: seq<Coordinate>, dist: Distance)
  {
    (forall i :: 0 < i < |locs| ==> dist(locs[i], locs[i - 1]) > MIN_DISTANCE_CHANGE_METERS) &&
    (last.Some? && |locs| > 0 ==> dist(locs[0], last.value) > MIN_DISTANCE_CHANGE_METERS)
  }

  /** With no previous location, the first fix that is present is the first
      one accepted, however many absent results come before it. */
  lemma {:induction false} AcceptedFirstPresent(fixes: seq<Option<Coordinate>>, k: nat, dist: Distance)
    requires k < |fixes| && fixes[k].Some?
    requires forall j :: 0 <= j < k ==> fixes[j].None?
    ensures var a := Accepted(None, fixes, dist); |a| > 0 && a[0] == fixes[k].value
    decreases k
  {
    if k > 0 {
      var rest := fixes[1..];
      assert Accepted(None, fixes, dist) == Accepted(None, rest, dist);
      AcceptedFirstPresent(rest, k - 1, dist);
    }
  }

  /** Consecutive accepted fixes are more than 30 m apart (the first one only
      when there was a location before). */
  lemma {:induction false} AcceptedAreSpaced(last: Option<Coordinate>, fixes: seq<Option<Coordinate>>, dist: Distance)
    ensures Spaced(last, Accepted(last, fixes, dist), dist)
    decreases |fixes|
  {
    if fixes != [] {
      var rest := fixes[1..];
      match fixes[0]
      case None => AcceptedAreSpaced(last, rest, dist);
      case Some(loc) =>
        if Accepts(last, loc, dist) {
          AcceptedAreSpaced(Some(loc), rest, dist);
          var tail := Accepted(Some(loc), rest, dist);
          var a := [loc] + tail;
          forall i | 0 < i < |a|
            ensures dist(a[i], a[i - 1]) > MIN_DISTANCE_CHANGE_METERS
          {
            if i > 1 {
              assert a[i] == tail[i - 1] && a[i - 1] == tail[i - 2];
            }
          }
        } else {
          AcceptedAreSpaced(last, rest, dist);
        }
    }
  }

  /** A run of location results leaves as last location the last accepted
      fix (the old one if none was accepted). The target, the route and the
      style stay as they were. */
  lemma {:induction false} TrackFollowsAccepted(s: Session, fixes: seq<Option<Coordinate>>, dist: Distance)
    ensures var r := Track(s, fixes, dist);
      var a := Accepted(s.lastLocation, fixes, dist);
      r.lastLocation == (if a == [] then s.lastLocation else Some(a[|a| - 1])) &&
      r.targetMarker == s.targetMarker && r.roadOverlay == s.roadOverlay &&
      r.darkApplied == s.darkApplied && r.tileFilter == s.tileFilter
    decreases |fixes|
  {
    if fixes != [] {
      var rest := fixes[1..];
      var s1 := OnLocationResult(s, fixes[0], dist);
      TrackFollowsAccepted(s1, rest, dist);
      assert Track(s, fixes, dist) == Track(s1, rest, dist);
      var a1 := Accepted(s1.lastLocation, rest, dist);
      if fixes[0].Some? && Accepts(s.lastLocation, fixes[0].value, dist) {
        assert s1.lastLocation == fixes[0];
        assert Accepted(s.lastLocation, fixes, dist) == [fixes[0].value] + a1;
      } else {
        assert s1 == s;
        assert Accepted(s.lastLocation, fixes, dist) == a1;
      }
    }
  }

  /** A run of location results keeps the invariant, so the current marker
      ends at the last accepted fix. */
  lemma {:induction false} TrackKeepsValid(s: Session, fixes: seq<Option<Coordinate>>, dist: Distance)
    requires Valid(s)
    ensures Valid(Track(s, fixes, dist))
    decreases |fixes|
  {
    if fixes != [] {
      OnLocationResultValid(s, fixes[0], dist);
      TrackKeepsValid(OnLocationResult(s, fixes[0], dist), fixes[1..], dist);
    }
  }

  /** The session after the light callback has run on each reading in turn. */
  function Sense(s: Session, readings: seq<real>): Session
    decreases |readings|
  {
    if readings == [] then s else Sense(OnSensorChanged(s, readings[0]), readings[1..])
  }

  /** How many of those readings changed the session (switched the style). */
  function StyleChanges(s: Session, readings: seq<real>): (n: nat)
    ensures n <= |readings|
    decreases |readings|
  {
    if readings == [] then 0
    else
      var next := OnSensorChanged(s, readings[0]);
      (if next != s then 1 else 0) + StyleChanges(next, readings[1..])
  }

  /** How many times the requested style differs from the one before it,
      starting from `dark`: the readings alone, without any session. */
  function Flips(dark: bool, readings: seq<real>): nat
    decreases |readings|
  {
    if readings == [] then 0
    else
      var want := readings[0] < LUX_THRESHOLD;
      (if want != dark then 1 else 0) + Flips(want, readings[1..])
  }

  /** A reading changes the session exactly when its request differs from the
      style in force, so the session changes as often as the requests flip. */
  lemma {:induction false} StyleChangesAreFlips(s: Session, readings: seq<real>)
    ensures StyleChanges(s, readings) == Flips(s.darkApplied, readings)
    decreases |readings|
  {
    if readings != [] {
      StyleChangesAreFlips(OnSensorChanged(s, readings[0]), readings[1..]);
    }
  }

  /** No reading changes the session exactly when every reading asks for the
      style already in force. */
  lemma {:induction false} NoChangeIffSteady(s: Session, readings: seq<real>)
    ensures StyleChanges(s, readings) == 0 <==>
            forall i :: 0 <= i < |readings| ==> (readings[i] < LUX_THRESHOLD) == s.darkApplied
    decreases |readings|
  {
    StyleChangesAreFlips(s, readings);
    FlipsZero(s.darkApplied, readings);
  }

  lemma {:induction false} FlipsZero(dark: bool, readings: seq<real>)
    ensures Flips(dark, readings) == 0 <==>
            forall i :: 0 <= i < |readings| ==> (readings[i] < LUX_THRESHOLD) == dark
    decreases |readings|
  {
    if readings != [] {
      var rest := readings[1..];
      FlipsZero(readings[0] < LUX_THRESHOLD, rest);
      FlipsZero(dark, rest);
      if Flips(dark, readings) == 0 {
        forall i | 0 <= i < |readings|
          ensures (readings[i] < LUX_THRESHOLD) == dark
        {
          if i > 0 { assert readings[i] == rest[i - 1]; }
        }
      }
      if forall i :: 0 <= i < |readings| ==> (readings[i] < LUX_THRESHOLD) == dark {
        forall i | 0 <= i < |rest|
          ensures (rest[i] < LUX_THRESHOLD) == dark
        {
          assert rest[i] == readings[i + 1];
        }
      }
    }
  }

  /** The style ends as the last reading asks, and it has switched an even
      number of times exactly when it ends where it started. */
  lemma {:induction false} StyleFollowsReadings(s: Session, readings: seq<real>)
    ensures |readings| > 0 ==> Sense(s, readings).darkApplied == (readings[|readings| - 1] < LUX_THRESHOLD)
    ensures StyleChanges(s, readings) % 2 == 0 <==> Sense(s, readings).darkApplied == s.darkApplied
    decreases |readings|
  {
    if readings != [] {
      var next := OnSensorChanged(s, readings[0]);
      StyleFollowsReadings(next, readings[1..]);
    }
  }

  /** The light callback keeps the invariant over any run of readings. */
  lemma {:induction false} SenseValid(s: Session, readings: seq<real>)
    requires Valid(s)
    ensures Valid(Sense(s, readings))
    decreases |readings|
  {
    if readings != [] {
      ApplyDarkStyleValid(s, readings[0] < LUX_THRESHOLD);
      SenseValid(OnSensorChanged(s, readings[0]), readings[1..]);
    }
  }

  /** Readings 1200, 1200, 500, 500, 1200 lux from the light style switch the
      style twice: to dark on the third and back on the fifth. */
  lemma SampleReadings(s: Session)
    requires !s.darkApplied
    ensures StyleChanges(s, [1200.0, 1200.0, 500.0, 500.0, 1200.0]) == 2
    ensures !Sense(s, [1200.0, 1200.0, 500.0, 500.0, 1200.0]).darkApplied
  {
  }

  /** Anything the screen reacts to, with the answer of the external service
      it consults. */
  datatype Event =
    | LocationResult(fix: Option<Coordinate>)
    | LightReading(lux: real)
    | AddressDone(text: string, lookup: GeocoderResult<Coordinate>)
    | LongPress(point: Coordinate, reverse: GeocoderResult<string>)

  function Step(s: Session, e: Event, dist: Distance, router: Router): Session
  {
    match e
    case LocationResult(fix) => OnLocationResult(s, fix, dist)
    case LightReading(lux) => OnSensorChanged(s, lux)
    case AddressDone(text, lookup) => OnAddressSubmitted(s, text, lookup, dist, router).session
    case LongPress(p, reverse) => AddMarkerByPosition(s, p, reverse, dist, router).session
  }

  function Run(s: Session, events: seq<Event>, dist: Distance, router: Router): Session
    decreases |events|
  {
    if events == [] then s else Run(Step(s, events[0], dist, router), events[1..], dist, router)
  }

  /** Whatever happens on the screen, there is exactly one events overlay and
      at most one current marker, one target marker and one route, each the
      one its field names. */
  lemma {:induction false} RunKeepsValid(s: Session, events: seq<Event>, dist: Distance, router: Router)
    requires Valid(s)
    ensures var r := Run(s, events, dist, router);
      Valid(r) &&
      Count(r.overlays, EventsKind) == 1 && Count(r.overlays, CurrentKind) <= 1 &&
      Count(r.overlays, TargetKind) <= 1 && Count(r.overlays, RouteKind) <= 1
    decreases |events|
  {
    if events != [] {
      var e := events[0];
      match e {
        case LocationResult(fix) => OnLocationResultValid(s, fix, dist);
        case LightReading(lux) => ApplyDarkStyleValid(s, lux < LUX_THRESHOLD);
        case AddressDone(text, lookup) =>
          if !IsBlank(text) { AddressFlow(s, text, lookup, dist, router); }
        case LongPress(p, reverse) => LongPressFlow(s, p, reverse, dist, router);
      }
      RunKeepsValid(Step(s, e, dist, router), events[1..], dist, router);
    } else {
      var r := Run(s, events, dist, router);
      assert r == s;
    }
  }
}
