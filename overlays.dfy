/** The map view's overlay list. Each entry is tagged with the role it plays
    in the activity (the long-press events overlay, the current-position
    marker, the target marker, the route polyline); the tag stands for the
    object identity the activity uses when it removes an entry. */
module Overlays {
  import opened Geo

  datatype Color = Red | Yellow

  /** An osmdroid `Marker`: where it is drawn and its title. */
  datatype Marker = Marker(position: Coordinate, title: string)

  /** The route `Polyline`: its points and its outline paint. */
  datatype Polyline = Polyline(points: seq<Coordinate>, color: Color, width: real)

  datatype Overlay =
    | EventsOverlay
    | CurrentMarker(marker: Marker)
    | TargetMarker(marker: Marker)
    | RoadOverlay(line: Polyline)

  datatype Kind = EventsKind | CurrentKind | TargetKind | RouteKind

  function KindOf(o: Overlay): Kind
  {
    match o
    case EventsOverlay => EventsKind
    case CurrentMarker(_) => CurrentKind
    case TargetMarker(_) => TargetKind
    case RoadOverlay(_) => RouteKind
  }

  /** Number of entries of kind k. */
  function Count(ov: seq<Overlay>, k: Kind): (n: nat)
    ensures n <= |ov|
  {
    if ov == [] then 0
    else (if KindOf(ov[0]) == k then 1 else 0) + Count(ov[1..], k)
  }

  /** The list with every entry of kind k taken out, the others in order. */
  function Without(ov: seq<Overlay>, k: Kind): (r: seq<Overlay>)
    ensures |r| + Count(ov, k) == |ov|
  {
    if ov == [] then []
    else (if KindOf(ov[0]) == k then [] else [ov[0]]) + Without(ov[1..], k)
  }

  /** `MutableList.remove(x)`: drops the first entry equal to x, if any. */
  function RemoveFirst(ov: seq<Overlay>, x: Overlay): (r: seq<Overlay>)
    ensures x in ov ==> |r| == |ov| - 1
    ensures x !in ov ==> r == ov
    ensures multiset(r) == multiset(ov) - multiset{x}
  {
    if ov == [] then []
    else
      assert ov == [ov[0]] + ov[1..];
      if ov[0] == x then ov[1..]
      else [ov[0]] + RemoveFirst(ov[1..], x)
  }

  /** Sets the outline colour of each route entry; the other entries stay. */
  function Recolor(ov: seq<Overlay>, c: Color): (r: seq<Overlay>)
    ensures |r| == |ov|
  {
    if ov == [] then []
    else
      var head := if ov[0].RoadOverlay? then RoadOverlay(ov[0].line.(color := c)) else ov[0];
      [head] + Recolor(ov[1..], c)
  }

  /** The entries of kind k are exactly the one entry e (Some) or none (None):
      a single slot of the activity and its entry in the list agree. */
  predicate Holds(ov: seq<Overlay>, k: Kind, e: Option<Overlay>)
  {
    match e
    case None => Count(ov, k) == 0
    case Some(o) => KindOf(o) == k && Count(ov, k) == 1 && o in ov
  }

  lemma {:induction false} CountAppend(a: seq<Overlay>, b: seq<Overlay>, k: Kind)
    ensures Count(a + b, k) == Count(a, k) + Count(b, k)
  {
    if a == [] {
      assert a + b == b;
    } else {
      assert (a + b)[1..] == a[1..] + b;
      CountAppend(a[1..], b, k);
    }
  }

  lemma {:induction false} WithoutAppend(a: seq<Overlay>, b: seq<Overlay>, k: Kind)
    ensures Without(a + b, k) == Without(a, k) + Without(b, k)
  {
    if a == [] {
      assert a + b == b;
    } else {
      assert (a + b)[1..] == a[1..] + b;
      WithoutAppend(a[1..], b, k);
    }
  }

  /** Removing a kind that is not there changes nothing. */
  lemma {:induction false} WithoutAbsent(ov: seq<Overlay>, k: Kind)
    requires Count(ov, k) == 0
    ensures Without(ov, k) == ov
  {
    if ov != [] {
      WithoutAbsent(ov[1..], k);
    }
  }

  /** Removing one kind leaves the counts of the other kinds as they were. */
  lemma {:induction false} CountWithout(ov: seq<Overlay>, k: Kind, j: Kind)
    ensures Count(Without(ov, k), j) == if j == k then 0 else Count(ov, j)
  {
    if ov != [] {
      var rest := Without(ov[1..], k);
      CountWithout(ov[1..], k, j);
      if KindOf(ov[0]) == k {
        assert Without(ov, k) == rest;
      } else {
        var w := [ov[0]] + rest;
        assert Without(ov, k) == w;
        assert w[0] == ov[0] && w[1..] == rest;
        assert Count(w, j) == (if KindOf(ov[0]) == j then 1 else 0) + Count(rest, j);
      }
    }
  }

  /** Taking out two kinds gives the same list in either order. */
  lemma {:induction false} WithoutCommutes(ov: seq<Overlay>, k: Kind, j: Kind)
    ensures Without(Without(ov, k), j) == Without(Without(ov, j), k)
  {
    if ov != [] {
      var h := ov[0];
      WithoutCommutes(ov[1..], k, j);
      WithoutAppend(if KindOf(h) == k then [] else [h], Without(ov[1..], k), j);
      WithoutAppend(if KindOf(h) == j then [] else [h], Without(ov[1..], j), k);
    }
  }

  /** Replacing the entry of kind k (take out, append a new one of kind k)
      leaves the list of the other entries, in order, as it was. */
  lemma ReplaceKeepsOthers(ov: seq<Overlay>, e: Overlay)
    ensures Without(Without(ov, KindOf(e)) + [e], KindOf(e)) == Without(ov, KindOf(e))
  {
    var k := KindOf(e);
    WithoutAppend(Without(ov, k), [e], k);
    CountWithout(ov, k, k);
    WithoutAbsent(Without(ov, k), k);
  }

  /** After a replacement the slot of kind k holds exactly the new entry, and
      every other slot still holds what it held. */
  lemma ReplaceHolds(ov: seq<Overlay>, e: Overlay, j: Kind, f: Option<Overlay>)
    requires Holds(ov, j, f)
    ensures Holds(Without(ov, KindOf(e)) + [e], KindOf(e), Some(e))
    ensures j != KindOf(e) ==> Holds(Without(ov, KindOf(e)) + [e], j, f)
  {
    var k := KindOf(e);
    var r := Without(ov, k) + [e];
    CountAppend(Without(ov, k), [e], k);
    CountWithout(ov, k, k);
    assert [e][1..] == [];
    CountAppend(Without(ov, k), [e], j);
    CountWithout(ov, k, j);
    if f.Some? {
      WithoutMember(ov, k, f.value);
    }
    assert e in r;
  }

  /** The entries that stay are those not of kind k. */
  lemma {:induction false} WithoutMember(ov: seq<Overlay>, k: Kind, o: Overlay)
    ensures o in Without(ov, k) <==> o in ov && KindOf(o) != k
  {
    if ov != [] {
      WithoutMember(ov[1..], k, o);
    }
  }

  /** An entry in the list is counted in its kind. */
  lemma {:induction false} CountMember(ov: seq<Overlay>, o: Overlay)
    requires o in ov
    ensures Count(ov, KindOf(o)) >= 1
  {
    if ov[0] != o {
      CountMember(ov[1..], o);
    }
  }

  /** `remove` of the one entry of its kind is the same as taking out its
      whole kind: the identity-based removal of the activity and the
      kind-based view of the model agree. */
  lemma {:induction false} RemoveFirstIsWithout(ov: seq<Overlay>, x: Overlay)
    requires Count(ov, KindOf(x)) == 1 && x in ov
    ensures RemoveFirst(ov, x) == Without(ov, KindOf(x))
  {
    var k := KindOf(x);
    if ov[0] == x {
      WithoutAbsent(ov[1..], k);
    } else {
      CountMember(ov[1..], x);
      assert KindOf(ov[0]) != k;
      RemoveFirstIsWithout(ov[1..], x);
    }
  }

  lemma {:induction false} CountRecolor(ov: seq<Overlay>, c: Color, k: Kind)
    ensures Count(Recolor(ov, c), k) == Count(ov, k)
  {
    if ov != [] {
      CountRecolor(ov[1..], c, k);
    }
  }

  /** Recolouring touches no entry but the route's. */
  lemma {:induction false} RecolorKeepsOthers(ov: seq<Overlay>, c: Color)
    ensures Without(Recolor(ov, c), RouteKind) == Without(ov, RouteKind)
  {
    if ov != [] {
      RecolorKeepsOthers(ov[1..], c);
    }
  }

  /** The route entry of the list is the recoloured old one. */
  lemma {:induction false} RecolorMember(ov: seq<Overlay>, c: Color, l: Polyline)
    requires RoadOverlay(l) in ov
    ensures RoadOverlay(l.(color := c)) in Recolor(ov, c)
  {
    if ov[0] != RoadOverlay(l) {
      RecolorMember(ov[1..], c, l);
    }
  }

  /** Recolouring is entry by entry: a route entry gets colour c, every other
      entry stays as it was. */
  lemma {:induction false} RecolorAt(ov: seq<Overlay>, c: Color, i: nat)
    requires i < |ov|
    ensures Recolor(ov, c)[i] ==
            if ov[i].RoadOverlay? then RoadOverlay(ov[i].line.(color := c)) else ov[i]
    decreases i
  {
    if i > 0 {
      RecolorAt(ov[1..], c, i - 1);
    }
  }

  /** Recolouring keeps each slot's entry, the route slot with its new colour. */
  lemma RecolorHolds(ov: seq<Overlay>, c: Color, k: Kind, e: Option<Overlay>)
    requires Holds(ov, k, e)
    requires k != RouteKind
    ensures Holds(Recolor(ov, c), k, e)
  {
    CountRecolor(ov, c, k);
    if e.Some? {
      CountWithout(ov, RouteKind, k);
      RecolorKeepsOthers(ov, c);
      WithoutMember(ov, RouteKind, e.value);
      WithoutMember(Recolor(ov, c), RouteKind, e.value);
    }
  }

  lemma RecolorHoldsRoute(ov: seq<Overlay>, c: Color, l: Option<Polyline>)
    requires Holds(ov, RouteKind, if l.Some? then Some(RoadOverlay(l.value)) else None)
    ensures Holds(Recolor(ov, c), RouteKind, if l.Some? then Some(RoadOverlay(l.value.(color := c))) else None)
  {
    CountRecolor(ov, c, RouteKind);
    if l.Some? {
      RecolorMember(ov, c, l.value);
    }
  }
}
