/** The activity's session fields and its callbacks, written as the activity
    runs them: fields assigned one by one and the overlay list changed with
    `remove` and `add`. Each method is proved to end in the state the
    matching function of SessionSpec gives, and to keep SessionSpec.Valid. */
module MapActivity {
  import opened Geo
  import opened Overlays
  import SessionSpec

  class MapSession {
    var lastLocation: Option<Coordinate>
    var currentMarker: Option<Marker>
    var targetMarker: Option<Marker>
    var roadOverlay: Option<Polyline>
    var darkApplied: bool
    /** The colour filter of the map's tiles overlay. */
    var tileFilter: SessionSpec.TileFilter
    /** `mapView.overlays`. */
    var overlays: seq<Overlay>

    function State(): SessionSpec.Session
      reads this
    {
      SessionSpec.Session(lastLocation, currentMarker, targetMarker, roadOverlay,
                          darkApplied, tileFilter, overlays)
    }

    ghost predicate Valid()
      reads this
    {
      SessionSpec.Valid(State())
    }

    /** The field initialisers and `onCreate` adding the events overlay. */
    constructor ()
      ensures Valid() && State() == SessionSpec.Init()
    {
      lastLocation := None;
      currentMarker := None;
      targetMarker := None;
      roadOverlay := None;
      darkApplied := false;
      tileFilter := SessionSpec.NoFilter;
      overlays := [];
      overlays := overlays + [EventsOverlay];
    }

    /** `locationCallback.onLocationResult`. */
    method OnLocationResult(fix: Option<Coordinate>, dist: Distance)
      requires Valid()
      modifies this
      ensures Valid()
      ensures State() == SessionSpec.OnLocationResult(old(State()), fix, dist)
    {
      SessionSpec.OnLocationResultValid(State(), fix, dist);
      if fix.None? {
        return;
      }
      var loc := fix.value;
      if lastLocation.None? || dist(loc, lastLocation.value) > SessionSpec.MIN_DISTANCE_CHANGE_METERS {
        lastLocation := Some(loc);
        UpdateCurrentMarker(loc);
      }
    }

    /** `updateCurrentMarker`: remove the old current marker, add the new one. */
    method UpdateCurrentMarker(p: Coordinate)
      requires SessionSpec.OverlaysValid(State())
      modifies this
      ensures SessionSpec.OverlaysValid(State())
      ensures State() == SessionSpec.UpdateCurrentMarker(old(State()), p)
    {
      ghost var before := State();
      if currentMarker.Some? {
        overlays := RemoveFirst(overlays, CurrentMarker(currentMarker.value));
        assert overlays == Without(before.overlays, CurrentKind) by {
          RemoveFirstIsWithout(before.overlays, CurrentMarker(before.currentMarker.value));
        }
      } else {
        assert overlays == Without(before.overlays, CurrentKind) by {
          WithoutAbsent(before.overlays, CurrentKind);
        }
      }
      var m := Marker(p, SessionSpec.CURRENT_TITLE);
      currentMarker := Some(m);
      overlays := overlays + [CurrentMarker(m)];
      assert State() == SessionSpec.UpdateCurrentMarker(before, p);
      SessionSpec.UpdateCurrentMarkerReplaces(before, p);
    }

    /** `setTargetMarker`: remove the old target marker, add the new one. */
    method SetTargetMarker(p: Coordinate, title: string)
      requires Valid()
      modifies this
      ensures Valid()
      ensures State() == SessionSpec.SetTargetMarker(old(State()), p, title)
    {
      ghost var before := State();
      if targetMarker.Some? {
        overlays := RemoveFirst(overlays, TargetMarker(targetMarker.value));
        assert overlays == Without(before.overlays, TargetKind) by {
          RemoveFirstIsWithout(before.overlays, TargetMarker(before.targetMarker.value));
        }
      } else {
        assert overlays == Without(before.overlays, TargetKind) by {
          WithoutAbsent(before.overlays, TargetKind);
        }
      }
      var m := Marker(p, title);
      targetMarker := Some(m);
      overlays := overlays + [TargetMarker(m)];
      assert State() == SessionSpec.SetTargetMarker(before, p, title);
      SessionSpec.SetTargetMarkerReplaces(before, p, title);
    }

    /** `drawRouteFromMyLocationTo`: ask the road manager for the road from the
        last location to dest and put its polyline in place of the old one. */
    method DrawRouteFromMyLocationTo(dest: Coordinate, router: Router)
      requires Valid()
      modifies this
      ensures Valid()
      ensures State() == SessionSpec.DrawRoute(old(State()), dest, router)
    {
      ghost var before := State();
      if lastLocation.None? {
        return;
      }
      var start := lastLocation.value;
      var road := router(start, dest);
      if roadOverlay.Some? {
        overlays := RemoveFirst(overlays, RoadOverlay(roadOverlay.value));
        assert overlays == Without(before.overlays, RouteKind) by {
          RemoveFirstIsWithout(before.overlays, RoadOverlay(before.roadOverlay.value));
        }
      } else {
        assert overlays == Without(before.overlays, RouteKind) by {
          WithoutAbsent(before.overlays, RouteKind);
        }
      }
      var line := Polyline(road.shape, Red, SessionSpec.ROUTE_WIDTH);
      roadOverlay := Some(line);
      overlays := overlays + [RoadOverlay(line)];
      assert State() == SessionSpec.DrawRoute(before, dest, router);
      SessionSpec.DrawRouteReplaces(before, dest, router);
    }

    /** `lightListener.onSensorChanged`. */
    method OnSensorChanged(lux: real)
      requires Valid()
      modifies this
      ensures Valid()
      ensures State() == SessionSpec.OnSensorChanged(old(State()), lux)
    {
      var dark := lux < SessionSpec.LUX_THRESHOLD;
      ApplyDarkStyle(dark);
    }

    /** `applyDarkStyle`. The route polyline is one object shared by the
        field and the list; its new colour is written in both places here. */
    method ApplyDarkStyle(enable: bool)
      requires Valid()
      modifies this
      ensures Valid()
      ensures State() == SessionSpec.ApplyDarkStyle(old(State()), enable)
    {
      ghost var before := State();
      if enable == darkApplied {
        return;
      }
      tileFilter := if enable then SessionSpec.InvertColors else SessionSpec.NoFilter;
      darkApplied := enable;
      if roadOverlay.Some? {
        var c := if enable then Yellow else Red;
        roadOverlay := Some(roadOverlay.value.(color := c));
        overlays := Recolor(overlays, c);
      }
      assert State() == SessionSpec.ApplyDarkStyle(before, enable);
      SessionSpec.ApplyDarkStyleValid(before, enable);
    }

    /** `toastDistanceTo`: reads the last location and changes nothing. */
    method ToastDistanceTo(gp: Coordinate, dist: Distance) returns (toast: SessionSpec.Toast)
      ensures toast == SessionSpec.DistanceToast(lastLocation, gp, dist)
      ensures lastLocation.None? <==> toast == SessionSpec.Message(SessionSpec.NO_LOCATION)
    {
      if lastLocation.Some? {
        var meters := dist(lastLocation.value, gp);
        if meters < 1000.0 {
          toast := SessionSpec.DistanceMeters(meters);
        } else {
          toast := SessionSpec.DistanceKilometers(meters / 1000.0);
        }
      } else {
        toast := SessionSpec.Message(SessionSpec.NO_LOCATION);
      }
    }

    /** `geocodeAndAddMarker`, with the geocoder's answer for `address`. */
    method GeocodeAndAddMarker(address: string, lookup: GeocoderResult<Coordinate>,
                               dist: Distance, router: Router) returns (toast: SessionSpec.Toast)
      requires Valid()
      modifies this
      ensures Valid()
      ensures SessionSpec.Outcome(State(), Some(toast)) ==
              SessionSpec.GeocodeAndAddMarker(old(State()), address, lookup, dist, router)
    {
      match lookup {
        case Threw =>
          toast := SessionSpec.Message(SessionSpec.GEOCODE_ERROR);
        case Answered(results) =>
          if |results| > 0 {
            var gp := results[0];
            SetTargetMarker(gp, address);
            toast := ToastDistanceTo(gp, dist);
            DrawRouteFromMyLocationTo(gp, router);
          } else {
            toast := SessionSpec.Message(SessionSpec.ADDRESS_NOT_FOUND);
          }
      }
    }

    /** `addMarkerByPosition`, with the reverse geocoder's answer for gp. */
    method AddMarkerByPosition(gp: Coordinate, reverse: GeocoderResult<string>,
                               dist: Distance, router: Router) returns (toast: SessionSpec.Toast)
      requires Valid()
      modifies this
      ensures Valid()
      ensures SessionSpec.Outcome(State(), Some(toast)) ==
              SessionSpec.AddMarkerByPosition(old(State()), gp, reverse, dist, router)
    {
      match reverse {
        case Threw =>
          toast := SessionSpec.Message(SessionSpec.REVERSE_GEOCODE_ERROR);
        case Answered(lines) =>
          var title := if |lines| > 0 then lines[0] else SessionSpec.FALLBACK_TITLE;
          SetTargetMarker(gp, title);
          toast := ToastDistanceTo(gp, dist);
          DrawRouteFromMyLocationTo(gp, router);
      }
    }

    /** The address field's "done" action: geocode unless the text is blank. */
    method OnAddressSubmitted(text: string, lookup: GeocoderResult<Coordinate>,
                              dist: Distance, router: Router) returns (toast: Option<SessionSpec.Toast>)
      requires Valid()
      modifies this
      ensures Valid()
      ensures SessionSpec.Outcome(State(), toast) ==
              SessionSpec.OnAddressSubmitted(old(State()), text, lookup, dist, router)
    {
      if SessionSpec.IsBlank(text) {
        toast := None;
      } else {
        var t := GeocodeAndAddMarker(text, lookup, dist, router);
        toast := Some(t);
      }
    }
  }
}
