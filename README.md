# Map screen session model

This project models the session logic of `MapActivity`, the map screen of the
taller2 Android app. The screen tracks the device's position and keeps one
"Ubicación actual" marker at that position. It sets one target marker from a
typed address or a long-press. It draws one OSRM route from the position to
the target. It switches the map to a dark style when the light sensor reads
below 1000 lux.

Nothing of this runs in the model. Android, osmdroid and the network become
parameters:

- `Location.distanceTo` is a function `Distance`.
- The OSRM road manager is a function `Router` from start and destination to a road.
- Each geocoder call is passed in as its answer: a result list, or `Threw` for an exception.

The model has five parts:

- `geo.dfy` (module `Geo`): coordinates, roads, geocoder answers, `Option`.
- `overlays.dfy` (module `Overlays`): the map view's overlay list. Its entries
  are the long-press events overlay, the current marker, the target marker and
  the route polyline, each tagged with its role. The module also has
  `List.remove` (`RemoveFirst`), the kind-based view of the list (`Count`,
  `Without`), and the route recolouring.
- `session_spec.dfy` (module `SessionSpec`): the activity's session fields as
  a value. It has one function per callback or helper, giving the state after
  the call from the state before it. It also has the invariant `Valid` (each
  field that refers to an overlay names the only entry of its kind in the list;
  the tile filter is inverted exactly in dark mode; the current marker sits at
  the last accepted location) and the lemmas that each step keeps it and does
  what the code promises.
- `callbacks.dfy` (module `Callbacks`): runs of callbacks. These are a stream of
  location results, a stream of light readings, and any mix of all the
  screen's events.
- `map_activity.dfy` (module `MapActivity`): class `MapSession` with the
  activity's mutable fields and the overlay list. Its methods are written as
  the Kotlin code runs, assigning fields one by one and changing the list with
  `remove` and then `add`. Each method that changes the session is proved to
  end in the state that the matching `SessionSpec` function gives. All of them
  keep `Valid` except `UpdateCurrentMarker`, which keeps only its overlay part
  (`OverlaysValid`): it runs after `lastLocation` has already been reassigned,
  so the marker briefly lags the location. `ToastDistanceTo` changes nothing
  and returns the toast `SessionSpec.DistanceToast` gives.

The model follows the code on these points:

- There is no staleness check on fixes, and no location history.
- The address flow labels the target with the text the user typed, not with a
  formatted address.
- A reverse-geocoding exception sets no target (the "Marcador" title is used
  only for an empty answer).
- A new route is always drawn red, even in dark mode. Only `applyDarkStyle`
  recolours an existing route.
- An in-flight route result is never discarded.

## Model

| member | source | states |
|---|---|---|
| `SessionSpec.Init` | app/src/main/java/com/example/taller2_icm/MapActivity.kt:42-75 | The initial session (no location, no markers, no route, light style, only the events overlay) satisfies the session invariant |
| `MapActivity.MapSession.constructor` | app/src/main/java/com/example/taller2_icm/MapActivity.kt:42-75 | The field initialisers plus the events overlay added in `onCreate` give exactly `Init()` and the invariant |
| `SessionSpec.OnLocationResult` | app/src/main/java/com/example/taller2_icm/MapActivity.kt:147-156 | No fix, or a fix within 30 m of `lastLocation`, leaves the whole session unchanged. An accepted fix (no `lastLocation`, or more than 30 m from it) becomes `lastLocation` and moves the current marker there, and nothing else changes |
| `SessionSpec.OnLocationResultValid` | app/src/main/java/com/example/taller2_icm/MapActivity.kt:147-165 | The location callback keeps the invariant and leaves every non-current overlay in place and in order. After an accepted fix the list holds exactly one current marker, at the fix |
| `MapActivity.MapSession.OnLocationResult` | app/src/main/java/com/example/taller2_icm/MapActivity.kt:147-156 | The imperative callback ends in `SessionSpec.OnLocationResult` of the old state and keeps the invariant |
| `SessionSpec.UpdateCurrentMarker` | app/src/main/java/com/example/taller2_icm/MapActivity.kt:158-165 | The current marker becomes "Ubicación actual" at p. No field other than the marker and the list changes |
| `SessionSpec.UpdateCurrentMarkerReplaces` | app/src/main/java/com/example/taller2_icm/MapActivity.kt:158-165 | After the call there is exactly one current-marker entry, at p with the fixed title. The list of all other entries (events overlay, target, route) is unchanged, order included |
| `MapActivity.MapSession.UpdateCurrentMarker` | app/src/main/java/com/example/taller2_icm/MapActivity.kt:158-165 | Removing the old marker by `remove` and appending the new one gives exactly the spec's state, and keeps the overlay slots consistent |
| `Overlays.RemoveFirst` | app/src/main/java/com/example/taller2_icm/MapActivity.kt:159 | `remove(x)` drops one occurrence of x when present: the length drops by one, the multiset loses one x, and the list is unchanged when x is absent |
| `Overlays.RemoveFirstIsWithout` | app/src/main/java/com/example/taller2_icm/MapActivity.kt:159 | When x is the only entry of its kind, removing x by value equals taking out every entry of that kind |
| `Overlays.ReplaceKeepsOthers` | app/src/main/java/com/example/taller2_icm/MapActivity.kt:208-214 | Remove-then-add of an entry of kind k leaves the subsequence of entries of other kinds unchanged |
| `SessionSpec.SetTargetMarker` | app/src/main/java/com/example/taller2_icm/MapActivity.kt:207-215 | The target marker becomes (p, title). No field other than the target and the list changes |
| `SessionSpec.SetTargetMarkerReplaces` | app/src/main/java/com/example/taller2_icm/MapActivity.kt:207-215 | After the call there is exactly one target entry, at p with the given title. The current marker, the route and the events overlay are untouched and keep their order. The invariant holds |
| `MapActivity.MapSession.SetTargetMarker` | app/src/main/java/com/example/taller2_icm/MapActivity.kt:207-215 | The remove/add implementation ends in the spec's state and keeps the invariant |
| `SessionSpec.DrawRoute` | app/src/main/java/com/example/taller2_icm/MapActivity.kt:238-250 | Without `lastLocation`, the call is a complete no-op whatever the router answers. Otherwise the route is the router's road from `lastLocation` to the destination, red, width 10, and only the route and the list change |
| `SessionSpec.DrawRouteReplaces` | app/src/main/java/com/example/taller2_icm/MapActivity.kt:238-250 | With a location there is exactly one route entry, the new red polyline, whatever the style. No other entry moves. The invariant holds |
| `MapActivity.MapSession.DrawRouteFromMyLocationTo` | app/src/main/java/com/example/taller2_icm/MapActivity.kt:238-251 | The early return and the remove/add reach the spec's state and keep the invariant |
| `SessionSpec.ApplyDarkStyle` | app/src/main/java/com/example/taller2_icm/MapActivity.kt:262-275 | No-op when `enable == darkApplied`. Otherwise `darkApplied := enable`, the tile filter is inverted iff `enable`, and an existing route turns yellow iff `enable`, else red. With no route, the route field and the list stay as they were. No other field changes |
| `SessionSpec.ApplyDarkStyleValid` | app/src/main/java/com/example/taller2_icm/MapActivity.kt:262-272 | The style switch keeps the invariant (the list's route entry carries the route's new colour) and changes no non-route entry |
| `Overlays.RecolorAt` | app/src/main/java/com/example/taller2_icm/MapActivity.kt:270-272 | Recolouring acts entry by entry: each route entry takes the new colour, every other entry is kept as it was, at the same position |
| `SessionSpec.ApplyDarkStyleIdempotent` | app/src/main/java/com/example/taller2_icm/MapActivity.kt:263 | Applying the same style twice equals applying it once |
| `MapActivity.MapSession.ApplyDarkStyle` | app/src/main/java/com/example/taller2_icm/MapActivity.kt:262-275 | The imperative toggle ends in the spec's state and keeps the invariant |
| `SessionSpec.OnSensorChanged` | app/src/main/java/com/example/taller2_icm/MapActivity.kt:254-258 | After a reading, dark mode is on iff lux < 1000. The session changes iff that request differs from the applied style |
| `MapActivity.MapSession.OnSensorChanged` | app/src/main/java/com/example/taller2_icm/MapActivity.kt:254-258 | The sensor callback ends in the spec's state and keeps the invariant |
| `Callbacks.StyleFollowsReadings` | app/src/main/java/com/example/taller2_icm/MapActivity.kt:254-267 | After any non-empty run of readings, the style is the one the last reading asks for. The number of style changes is even iff the style ends where it began |
| `Callbacks.SampleReadings` | app/src/main/java/com/example/taller2_icm/MapActivity.kt:53-54 | From the light style, readings 1200, 1200, 500, 500, 1200 change the session exactly twice and end in the light style |
| `Callbacks.StyleChangesAreFlips` | app/src/main/java/com/example/taller2_icm/MapActivity.kt:256-263 | For every run of readings, the number of readings that change the session equals the number of times the requested style (lux < 1000) differs from the one in force before it, starting from the applied style |
| `Callbacks.NoChangeIffSteady` | app/src/main/java/com/example/taller2_icm/MapActivity.kt:256-263 | A run of readings changes the session not once exactly when every reading asks for the style already applied |
| `Callbacks.SenseValid` | app/src/main/java/com/example/taller2_icm/MapActivity.kt:254-275 | Any run of light readings keeps the invariant |
| `SessionSpec.DistanceToast` | app/src/main/java/com/example/taller2_icm/MapActivity.kt:223-235 | "Aún sin ubicación actual" iff there is no `lastLocation`. Otherwise meters iff the distance is under 1000, else kilometres (at least 1). The reported quantity converted back to meters is exactly the distance |
| `MapActivity.MapSession.ToastDistanceTo` | app/src/main/java/com/example/taller2_icm/MapActivity.kt:223-235 | The read-only helper returns the spec's toast, and the no-location message iff there is no location |
| `SessionSpec.GeocodeAndAddMarker` | app/src/main/java/com/example/taller2_icm/MapActivity.kt:171-189 | An exception leaves the session unchanged and reports "Error al geocodificar". An empty answer leaves it unchanged and reports "Dirección no encontrada". Otherwise the target is the first result's coordinate, labelled with the typed address |
| `SessionSpec.AddressFlow` | app/src/main/java/com/example/taller2_icm/MapActivity.kt:174-183 | For a non-empty answer the flow is set-target, then distance toast, then route attempt. Exactly one target entry results. Every outcome keeps the invariant |
| `MapActivity.MapSession.GeocodeAndAddMarker` | app/src/main/java/com/example/taller2_icm/MapActivity.kt:171-189 | The method's state and toast are those of the spec flow, and the invariant holds |
| `SessionSpec.OnAddressSubmitted` | app/src/main/java/com/example/taller2_icm/MapActivity.kt:105-111 | A blank text (Kotlin `isBlank`) leaves the session unchanged with no toast, whatever the geocoder would answer (no lookup). Any other text always shows a toast |
| `MapActivity.MapSession.OnAddressSubmitted` | app/src/main/java/com/example/taller2_icm/MapActivity.kt:105-111 | The editor action ends in the spec's outcome and keeps the invariant |
| `SessionSpec.AddMarkerByPosition` | app/src/main/java/com/example/taller2_icm/MapActivity.kt:192-205 | A reverse-lookup exception sets no target, leaves the session unchanged and reports "Error al invertir geocodificación". Otherwise the target is the pressed point, titled with the first address line or "Marcador" when there is none |
| `SessionSpec.LongPressFlow` | app/src/main/java/com/example/taller2_icm/MapActivity.kt:195-200 | For an answered lookup the flow is set-target, then toast, then route attempt. Exactly one target entry results. The invariant holds |
| `MapActivity.MapSession.AddMarkerByPosition` | app/src/main/java/com/example/taller2_icm/MapActivity.kt:192-205 | The method's state and toast are those of the spec flow, and the invariant holds |
| `SessionSpec.TargetAndRoute` | app/src/main/java/com/example/taller2_icm/MapActivity.kt:178-200 | Setting a target then drawing the route leaves location, current marker and style unchanged. The route is replaced iff there is a location. Only target and route entries change in the list |
| `Callbacks.Accepted` | app/src/main/java/com/example/taller2_icm/MapActivity.kt:149-154 | The fixes the filter lets through all come from the input, and there are at most as many. With no previous location, a first fix that is present is always accepted |
| `Callbacks.AcceptedFirstPresent` | app/src/main/java/com/example/taller2_icm/MapActivity.kt:149-150 | With no previous location, the first present fix of a run is the first accepted, whatever number of absent results precede it |
| `Callbacks.AcceptedAreSpaced` | app/src/main/java/com/example/taller2_icm/MapActivity.kt:149-154 | Consecutive accepted fixes are more than 30 m apart. The first is more than 30 m from the previous location when there was one |
| `Callbacks.TrackFollowsAccepted` | app/src/main/java/com/example/taller2_icm/MapActivity.kt:147-156 | After any run of location results, `lastLocation` is the last accepted fix (or the old one if none was accepted). Target, route and style are unchanged |
| `Callbacks.TrackKeepsValid` | app/src/main/java/com/example/taller2_icm/MapActivity.kt:147-165 | Any run of location results keeps the invariant, so the current marker ends at the last accepted location |
| `Callbacks.RunKeepsValid` | app/src/main/java/com/example/taller2_icm/MapActivity.kt:158-249 | After any sequence of screen events there is exactly one events overlay and at most one current marker, one target marker and one route, each the one its field names |

## Left out

- Android lifecycle, permissions and UI wiring (`onCreate` setup other than
  the events overlay, `onRequestPermissionsResult`, `startLocationUpdates`,
  `onResume`, `onPause`, `onDestroy`, the body of `createOverlayEvents`):
  these are platform plumbing.
- Camera movement and redraws (`animateTo`, `setZoom`, `focusAndZoom`,
  `invalidate`) and marker anchors: they never change the session state.
- Toasts: a toast is an output value. Its number formatting (`%.0f m`,
  `%.2f km`) is not modelled, only the choice of unit.
- `Location.distanceTo`, the geocoder and the OSRM road manager are foreign
  library and network calls. They are parameters. No property of geodesic
  distance is assumed.
- Floats: distances, lux, coordinates and the stroke width are `real`. Float
  rounding in the 30 m and 1000 lux comparisons and in `meters / 1000` is not
  modelled.
- Threading: `runOnUiThread`, the main looper and the `StrictMode` override are
  left out. Each callback is one atomic step, and `lastLocation` and the marker
  update happen together.
- Exceptions: only the geocoder calls can throw. An exception thrown later in
  the same `try` block would leave the target set without a route; it is not
  modelled.
- `getAddressLine(0)` returning `null`, and `getFromLocationName` returning
  `null`: the first is not modelled; the second is treated as an empty list.
- MapActivity.MapSession.ApplyDarkStyle: the Kotlin route polyline is one
  object shared by `roadOverlay` and the overlay list, and its paint is
  mutated in place. The model writes the new colour into both copies, so it
  does not capture aliasing.
- MapActivity.MapSession.OnAddressSubmitted: models the "done" action only.
  The listener's check of the IME action id and its boolean return value are
  not modelled.
- Callbacks.RunKeepsValid: one distance function and one router serve the
  whole run; the road the service returns cannot vary over time for the same
  endpoints.
- CameraActivity.kt and ContactActivity.kt are intent, media-store and
  content-resolver I/O with no session logic. build.gradle.kts is build
  configuration. None of them are part of this model.
