/** The session state of the map screen and one function per callback or
    helper of the activity, each giving the state after the call in terms of
    the state before it. The class in map_activity.dfy is proved to follow
    these functions step by step; the properties are proved here. */
module SessionSpec {
  import opened Geo
  import opened Overlays

  /** A new fix must be farther than this from the last accepted one. */
  const MIN_DISTANCE_CHANGE_METERS: real := 30.0
  /** A light reading below this many lux asks for the dark style. */
  const LUX_THRESHOLD: real := 1000.0
  const ROUTE_WIDTH: real := 10.0

  const CURRENT_TITLE: string := "Ubicación actual"
  const FALLBACK_TITLE: string := "Marcador"
  const NO_LOCATION: string := "Aún sin ubicación actual"
  const ADDRESS_NOT_FOUND: string := "Dirección no encontrada"
  const GEOCODE_ERROR: string := "Error al geocodificar"
  const REVERSE_GEOCODE_ERROR: string := "Error al invertir geocodificación"

  /** The colour filter of the tiles overlay: none, or inverted colours. */
  datatype TileFilter = NoFilter | InvertColors

  /** A toast shown to the user. Distances keep their number; how it is
      rendered ("%.0f m", "%.2f km") is not modelled. */
  datatype Toast =
    | Message(text: string)
    | DistanceMeters(meters: real)
    | DistanceKilometers(kilometers: real)

  /** The fields of the activity that the callbacks read and write, and the
      map view's overlay list. */
  datatype Session = Session(
    lastLocation: Option<Coordinate>,
    currentMarker: Option<Marker>,
    targetMarker: Option<Marker>,
    roadOverlay: Option<Polyline>,
    darkApplied: bool,
    tileFilter: TileFilter,
    overlays: seq<Overlay>)

  /** The session after a user-driven flow and the toast it showed, if any. */
  datatype Outcome = Outcome(session: Session, toast: Option<Toast>)

  function CurrentEntry(s: Session): Option<Overlay>
  {
    match s.currentMarker
    case None => None
    case Some(m) => Some(CurrentMarker(m))
  }

  function TargetEntry(s: Session): Option<Overlay>
  {
    match s.targetMarker
    case None => None
    case Some(m) => Some(TargetMarker(m))
  }

  function RouteEntry(s: Session): Option<Overlay>
  {
    match s.roadOverlay
    case None => None
    case Some(l) => Some(RoadOverlay(l))
  }

  function FilterFor(dark: bool): TileFilter
  {
    if dark then InvertColors else NoFilter
  }

  function RouteColorFor(dark: bool): Color
  {
    if dark then Yellow else Red
  }

  function CurrentMarkerAt(p: Coordinate): Marker
  {
    Marker(p, CURRENT_TITLE)
  }

  /** Each field that references an overlay names the one entry of its kind in
      the list (or there is none), and the events overlay is there once. */
  predicate OverlaysValid(s: Session)
  {
    Holds(s.overlays, EventsKind, Some(EventsOverlay)) &&
    Holds(s.overlays, CurrentKind, CurrentEntry(s)) &&
    Holds(s.overlays, TargetKind, TargetEntry(s)) &&
    Holds(s.overlays, RouteKind, RouteEntry(s))
  }

  /** The invariant every callback keeps: the overlay slots agree with the
      list, the tile filter is inverted exactly in dark mode, and the current
      marker sits at the last accepted location. */
  predicate Valid(s: Session)
  {
    OverlaysValid(s) &&
    s.tileFilter == FilterFor(s.darkApplied) &&
    s.currentMarker == (match s.lastLocation
                        case None => None
                        case Some(p) => Some(CurrentMarkerAt(p)))
  }

  /** The state once the screen is created: no location, no markers, no
      route, light style, and the long-press events overlay in the list. */
  function Init(): (s: Session)
    ensures Valid(s)
    ensures s.lastLocation.None? && s.targetMarker.None? && s.roadOverlay.None? && !s.darkApplied
  {
    Session(None, None, None, None, false, NoFilter, [EventsOverlay])
  }

  /** The movement filter of the location callback. */
  predicate Accepts(last: Option<Coordinate>, loc: Coordinate, dist: Distance)
  {
    last.None? || dist(loc, last.value) > MIN_DISTANCE_CHANGE_METERS
  }

  /** `updateCurrentMarker`: the current-position marker moves to p. */
  function UpdateCurrentMarker(s: Session, p: Coordinate): (r: Session)
    ensures r.currentMarker == Some(CurrentMarkerAt(p))
    ensures r.(currentMarker := s.currentMarker, overlays := s.overlays) == s
  {
    var m := CurrentMarkerAt(p);
    s.(currentMarker := Some(m), overlays := Without(s.overlays, CurrentKind) + [CurrentMarker(m)])
  }

  /** The location callback for one `LocationResult` whose last fix (if any)
      is `fix`. */
  function OnLocationResult(s: Session, fix: Option<Coordinate>, dist: Distance): (r: Session)
    ensures fix.None? ==> r == s
    ensures fix.Some? && !Accepts(s.lastLocation, fix.value, dist) ==> r == s
    ensures fix.Some? && Accepts(s.lastLocation, fix.value, dist) ==>
              r.lastLocation == fix && r.currentMarker == Some(CurrentMarkerAt(fix.value)) &&
              r.(lastLocation := s.lastLocation, currentMarker := s.currentMarker, overlays := s.overlays) == s
  {
    match fix
    case None => s
    case Some(loc) =>
      if Accepts(s.lastLocation, loc, dist) then UpdateCurrentMarker(s.(lastLocation := Some(loc)), loc)
      else s
  }

  /** `setTargetMarker`: the target marker moves to p with the given title. */
  function SetTargetMarker(s: Session, p: Coordinate, title: string): (r: Session)
    ensures r.targetMarker == Some(Marker(p, title))
    ensures r.(targetMarker := s.targetMarker, overlays := s.overlays) == s
  {
    var m := Marker(p, title);
    s.(targetMarker := Some(m), overlays := Without(s.overlays, TargetKind) + [TargetMarker(m)])
  }

  /** `drawRouteFromMyLocationTo`: without a location nothing happens;
      otherwise the route from the last location to dest replaces the old
      one, drawn red and 10 wide. */
  function DrawRoute(s: Session, dest: Coordinate, router: Router): (r: Session)
    ensures s.lastLocation.None? ==> r == s
    ensures s.lastLocation.Some? ==>
              r.roadOverlay == Some(Polyline(router(s.lastLocation.value, dest).shape, Red, ROUTE_WIDTH))
    ensures r.(roadOverlay := s.roadOverlay, overlays := s.overlays) == s
  {
    match s.lastLocation
    case None => s
    case Some(loc) =>
      var line := Polyline(router(loc, dest).shape, Red, ROUTE_WIDTH);
      s.(roadOverlay := Some(line), overlays := Without(s.overlays, RouteKind) + [RoadOverlay(line)])
  }

  /** `applyDarkStyle`: a no-op when the style asked for is the one applied;
      otherwise it switches the tile filter and recolours the route, if any. */
  function ApplyDarkStyle(s: Session, enable: bool): (r: Session)
    ensures enable == s.darkApplied ==> r == s
    ensures r.darkApplied == enable
    ensures enable != s.darkApplied ==> r.tileFilter == FilterFor(enable)
    ensures s.roadOverlay.None? ==> r.roadOverlay.None? && r.overlays == s.overlays
    ensures enable != s.darkApplied && s.roadOverlay.Some? ==>
              r.roadOverlay == Some(s.roadOverlay.value.(color := RouteColorFor(enable)))
    ensures r.(darkApplied := s.darkApplied, tileFilter := s.tileFilter,
               roadOverlay := s.roadOverlay, overlays := s.overlays) == s
  {
    if enable == s.darkApplied then s
    else
      var c := RouteColorFor(enable);
      s.(tileFilter := FilterFor(enable), darkApplied := enable,
         roadOverlay := if s.roadOverlay.Some? then Some(s.roadOverlay.value.(color := c)) else None,
         overlays := if s.roadOverlay.Some? then Recolor(s.overlays, c) else s.overlays)
  }

  /** The light sensor callback: dark iff the reading is below the threshold. */
  function OnSensorChanged(s: Session, lux: real): (r: Session)
    ensures r.darkApplied <==> lux < LUX_THRESHOLD
    ensures r != s <==> (lux < LUX_THRESHOLD) != s.darkApplied
  {
    ApplyDarkStyle(s, lux < LUX_THRESHOLD)
  }

  /** The distance in meters that a distance toast reports, if it is one. */
  function ReportedMeters(t: Toast): Option<real>
  {
    match t
    case Message(_) => None
    case DistanceMeters(m) => Some(m)
    case DistanceKilometers(km) => Some(km * 1000.0)
  }

  /** `toastDistanceTo`: the distance from the last location to gp, in meters
      below 1000 m and in kilometers from there on. */
  function DistanceToast(last: Option<Coordinate>, gp: Coordinate, dist: Distance): (t: Toast)
    ensures t == Message(NO_LOCATION) <==> last.None?
    ensures last.Some? ==> ReportedMeters(t) == Some(dist(last.value, gp))
    ensures last.Some? ==> (t.DistanceMeters? <==> dist(last.value, gp) < 1000.0)
    ensures t.DistanceKilometers? ==> t.kilometers >= 1.0
  {
    match last
    case None => Message(NO_LOCATION)
    case Some(loc) =>
      var meters := dist(loc, gp);
      if meters < 1000.0 then DistanceMeters(meters) else DistanceKilometers(meters / 1000.0)
  }

  /** `geocodeAndAddMarker`: the first forward-geocoding result becomes the
      target, labelled with the address as typed, and the route is drawn. */
  function GeocodeAndAddMarker(s: Session, address: string, lookup: GeocoderResult<Coordinate>,
                               dist: Distance, router: Router): (o: Outcome)
    ensures lookup.Threw? ==> o == Outcome(s, Some(Message(GEOCODE_ERROR)))
    ensures lookup.Answered? && |lookup.results| == 0 ==> o == Outcome(s, Some(Message(ADDRESS_NOT_FOUND)))
    ensures lookup.Answered? && |lookup.results| > 0 ==>
              o.session.targetMarker == Some(Marker(lookup.results[0], address))
  {
    match lookup
    case Threw => Outcome(s, Some(Message(GEOCODE_ERROR)))
    case Answered(results) =>
      if |results| == 0 then Outcome(s, Some(Message(ADDRESS_NOT_FOUND)))
      else
        var gp := results[0];
        var withTarget := SetTargetMarker(s, gp, address);
        var toast := DistanceToast(withTarget.lastLocation, gp, dist);
        Outcome(DrawRoute(withTarget, gp, router), Some(toast))
  }

  /** `addMarkerByPosition`: the long-pressed point becomes the target,
      labelled with the first reverse-geocoded address line or "Marcador". */
  function AddMarkerByPosition(s: Session, gp: Coordinate, reverse: GeocoderResult<string>,
                               dist: Distance, router: Router): (o: Outcome)
    ensures reverse.Threw? ==> o == Outcome(s, Some(Message(REVERSE_GEOCODE_ERROR)))
    ensures reverse.Answered? ==>
              o.session.targetMarker ==
                Some(Marker(gp, if |reverse.results| > 0 then reverse.results[0] else FALLBACK_TITLE))
  {
    match reverse
    case Threw => Outcome(s, Some(Message(REVERSE_GEOCODE_ERROR)))
    case Answered(lines) =>
      var title := if |lines| > 0 then lines[0] else FALLBACK_TITLE;
      var withTarget := SetTargetMarker(s, gp, title);
      var toast := DistanceToast(withTarget.lastLocation, gp, dist);
      Outcome(DrawRoute(withTarget, gp, router), Some(toast))
  }

  /** Kotlin's `Char.isWhitespace`: Java's `Character.isWhitespace` or
      `Character.isSpaceChar`. */
  predicate IsWhitespace(c: char)
  {
    c == '\t' || c == '\n' || c == '\U{0B}' || c == '\U{0C}' || c == '\r' ||
    ('\U{1C}' <= c <= '\U{1F}') || c == ' ' || c == '\U{A0}' || c == '\U{1680}' ||
    ('\U{2000}' <= c <= '\U{200A}') || c == '\U{2028}' || c == '\U{2029}' ||
    c == '\U{202F}' || c == '\U{205F}' || c == '\U{3000}'
  }

  predicate IsBlank(text: string)
  {
    forall i :: 0 <= i < |text| ==> IsWhitespace(text[i])
  }

  /** The address field's "done" action: a blank text is ignored, any other
      text is geocoded. */
  function OnAddressSubmitted(s: Session, text: string, lookup: GeocoderResult<Coordinate>,
                              dist: Distance, router: Router): (o: Outcome)
    ensures IsBlank(text) ==> o == Outcome(s, None)
    ensures !IsBlank(text) ==> o.toast.Some?
  {
    if IsBlank(text) then Outcome(s, None) else GeocodeAndAddMarker(s, text, lookup, dist, router)
  }

  /** Putting entry e in the place of its kind keeps every other slot and the
      other entries of the list, in order. */
  lemma ReplaceEntry(s: Session, e: Overlay)
    requires OverlaysValid(s)
    ensures var ov := Without(s.overlays, KindOf(e)) + [e];
      Holds(ov, KindOf(e), Some(e)) &&
      (KindOf(e) != EventsKind ==> Holds(ov, EventsKind, Some(EventsOverlay))) &&
      (KindOf(e) != CurrentKind ==> Holds(ov, CurrentKind, CurrentEntry(s))) &&
      (KindOf(e) != TargetKind ==> Holds(ov, TargetKind, TargetEntry(s))) &&
      (KindOf(e) != RouteKind ==> Holds(ov, RouteKind, RouteEntry(s))) &&
      Without(ov, KindOf(e)) == Without(s.overlays, KindOf(e))
  {
    ReplaceHolds(s.overlays, e, EventsKind, Some(EventsOverlay));
    ReplaceHolds(s.overlays, e, CurrentKind, CurrentEntry(s));
    ReplaceHolds(s.overlays, e, TargetKind, TargetEntry(s));
    ReplaceHolds(s.overlays, e, RouteKind, RouteEntry(s));
    ReplaceKeepsOthers(s.overlays, e);
  }

  /** After `updateCurrentMarker(p)` the list holds exactly one current
      marker, at p and titled "Ubicación actual"; every other entry is kept,
      in its order. */
  lemma UpdateCurrentMarkerReplaces(s: Session, p: Coordinate)
    requires OverlaysValid(s)
    ensures var r := UpdateCurrentMarker(s, p);
      OverlaysValid(r) &&
      Count(r.overlays, CurrentKind) == 1 && CurrentMarker(CurrentMarkerAt(p)) in r.overlays &&
      Without(r.overlays, CurrentKind) == Without(s.overlays, CurrentKind)
  {
    ReplaceEntry(s, CurrentMarker(CurrentMarkerAt(p)));
  }

  /** An accepted fix moves the current marker and keeps the invariant; a
      rejected one leaves everything as it was. */
  lemma OnLocationResultValid(s: Session, fix: Option<Coordinate>, dist: Distance)
    requires Valid(s)
    ensures var r := OnLocationResult(s, fix, dist);
      Valid(r) &&
      Without(r.overlays, CurrentKind) == Without(s.overlays, CurrentKind) &&
      (fix.Some? && Accepts(s.lastLocation, fix.value, dist) ==>
         Count(r.overlays, CurrentKind) == 1 && CurrentMarker(CurrentMarkerAt(fix.value)) in r.overlays)
  {
    if fix.Some? && Accepts(s.lastLocation, fix.value, dist) {
      UpdateCurrentMarkerReplaces(s.(lastLocation := fix), fix.value);
    }
  }

  /** After `setTargetMarker(p, title)` there is exactly one target marker,
      at p with that title; the current marker, the route, the events overlay
      and their order are untouched. */
  lemma SetTargetMarkerReplaces(s: Session, p: Coordinate, title: string)
    requires Valid(s)
    ensures var r := SetTargetMarker(s, p, title);
      Valid(r) &&
      Count(r.overlays, TargetKind) == 1 && TargetMarker(Marker(p, title)) in r.overlays &&
      Without(r.overlays, TargetKind) == Without(s.overlays, TargetKind)
  {
    ReplaceEntry(s, TargetMarker(Marker(p, title)));
  }

  /** With a location, the route is the road from it to dest, red and 10
      wide whatever the style, the only route in the list, and nothing else
      in the list moved. */
  lemma DrawRouteReplaces(s: Session, dest: Coordinate, router: Router)
    requires Valid(s)
    ensures var r := DrawRoute(s, dest, router);
      Valid(r) &&
      Without(r.overlays, RouteKind) == Without(s.overlays, RouteKind) &&
      (s.lastLocation.Some? ==>
         var line := Polyline(router(s.lastLocation.value, dest).shape, Red, ROUTE_WIDTH);
         Count(r.overlays, RouteKind) == 1 && RoadOverlay(line) in r.overlays)
  {
    if s.lastLocation.Some? {
      ReplaceEntry(s, RoadOverlay(Polyline(router(s.lastLocation.value, dest).shape, Red, ROUTE_WIDTH)));
    }
  }

  /** Switching the style keeps the invariant: the route entry in the list
      takes the route's new colour and no other entry changes. */
  lemma ApplyDarkStyleValid(s: Session, enable: bool)
    requires Valid(s)
    ensures var r := ApplyDarkStyle(s, enable);
      Valid(r) && Without(r.overlays, RouteKind) == Without(s.overlays, RouteKind)
  {
    if enable != s.darkApplied && s.roadOverlay.Some? {
      var c := RouteColorFor(enable);
      RecolorHolds(s.overlays, c, EventsKind, Some(EventsOverlay));
      RecolorHolds(s.overlays, c, CurrentKind, CurrentEntry(s));
      RecolorHolds(s.overlays, c, TargetKind, TargetEntry(s));
      RecolorHoldsRoute(s.overlays, c, s.roadOverlay);
      RecolorKeepsOthers(s.overlays, c);
    }
  }

  /** Applying the same style twice is the same as applying it once. */
  lemma ApplyDarkStyleIdempotent(s: Session, enable: bool)
    ensures ApplyDarkStyle(ApplyDarkStyle(s, enable), enable) == ApplyDarkStyle(s, enable)
  {
  }

  /** Both ways of setting a target and drawing the route: the target is set,
      the route is replaced when there is a location and kept otherwise, the
      location, the current marker and the style stay, and the list changes
      only in its target and route entries. */
  lemma TargetAndRoute(s: Session, gp: Coordinate, title: string, router: Router)
    requires Valid(s)
    ensures var r := DrawRoute(SetTargetMarker(s, gp, title), gp, router);
      Valid(r) &&
      r.targetMarker == Some(Marker(gp, title)) &&
      r.roadOverlay == (if s.lastLocation.Some?
                        then Some(Polyline(router(s.lastLocation.value, gp).shape, Red, ROUTE_WIDTH))
                        else s.roadOverlay) &&
      r.lastLocation == s.lastLocation && r.currentMarker == s.currentMarker &&
      r.darkApplied == s.darkApplied && r.tileFilter == s.tileFilter &&
      Count(r.overlays, TargetKind) == 1 && TargetMarker(Marker(gp, title)) in r.overlays &&
      Without(Without(r.overlays, TargetKind), RouteKind) == Without(Without(s.overlays, TargetKind), RouteKind)
  {
    var t := SetTargetMarker(s, gp, title);
    SetTargetMarkerReplaces(s, gp, title);
    DrawRouteReplaces(t, gp, router);
    var r := DrawRoute(t, gp, router);
    if s.lastLocation.Some? {
      var e := RoadOverlay(Polyline(router(s.lastLocation.value, gp).shape, Red, ROUTE_WIDTH));
      CountAppend(Without(t.overlays, RouteKind), [e], TargetKind);
      CountWithout(t.overlays, RouteKind, TargetKind);
      WithoutCommutes(r.overlays, TargetKind, RouteKind);
      WithoutCommutes(t.overlays, TargetKind, RouteKind);
      assert TargetMarker(Marker(gp, title)) in Without(t.overlays, RouteKind);
    }
  }

  /** The address flow: an empty answer or a failed lookup leaves the session
      as it was; otherwise the target is the first result, labelled with the
      address as typed, the route is attempted, and the distance is toasted. */
  lemma AddressFlow(s: Session, address: string, lookup: GeocoderResult<Coordinate>,
                    dist: Distance, router: Router)
    requires Valid(s)
    ensures var o := GeocodeAndAddMarker(s, address, lookup, dist, router);
      Valid(o.session) &&
      (lookup.Answered? && |lookup.results| > 0 ==>
         var gp := lookup.results[0];
         o.session == DrawRoute(SetTargetMarker(s, gp, address), gp, router) &&
         o.toast == Some(DistanceToast(s.lastLocation, gp, dist)) &&
         Count(o.session.overlays, TargetKind) == 1 && TargetMarker(Marker(gp, address)) in o.session.overlays)
  {
    if lookup.Answered? && |lookup.results| > 0 {
      TargetAndRoute(s, lookup.results[0], address, router);
    }
  }

  /** The long-press flow: a failed reverse lookup sets no target; otherwise
      the target is the pressed point, titled with the first address line or
      "Marcador", and the route is attempted. */
  lemma LongPressFlow(s: Session, gp: Coordinate, reverse: GeocoderResult<string>,
                      dist: Distance, router: Router)
    requires Valid(s)
    ensures var o := AddMarkerByPosition(s, gp, reverse, dist, router);
      Valid(o.session) &&
      (reverse.Answered? ==>
         var title := if |reverse.results| > 0 then reverse.results[0] else FALLBACK_TITLE;
         o.session == DrawRoute(SetTargetMarker(s, gp, title), gp, router) &&
         o.toast == Some(DistanceToast(s.lastLocation, gp, dist)) &&
         Count(o.session.overlays, TargetKind) == 1 && TargetMarker(Marker(gp, title)) in o.session.overlays)
  {
    if reverse.Answered? {
      var title := if |reverse.results| > 0 then reverse.results[0] else FALLBACK_TITLE;
      TargetAndRoute(s, gp, title, router);
    }
  }
}
