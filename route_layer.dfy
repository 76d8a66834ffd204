/**
 * The popup's route layer (frontend/popup.js, `addMultiplePolylines`): the
 * lines and markers drawn for a route made of legs. Decoding an encoded leg
 * is done by the map library; here each leg arrives already decoded, or as
 * `None` when decoding threw (the leg is then skipped). Drawing on the map
 * is left out: the layer is the two lists the function fills.
 */
module RouteLayer {
  import opened Wrappers
  import Seqs

  /** A map point. */
  datatype Point = Point(lat: int, lng: int)

  /** The three kinds of route marker. */
  datatype MarkerKind = Start | End | Waypoint

  datatype Marker = Marker(point: Point, kind: MarkerKind)

  datatype Polyline = Polyline(path: seq<Point>, color: string)

  /** The alternating leg colours: blue, then gold. */
  const Colors: seq<string> := ["#003366", "#B8860B"]

  /** The colour of leg `i`. */
  function LegColor(i: nat): (c: string)
    ensures c == Colors[i % 2]
  {
    Colors[i % |Colors|]
  }

  /** The lines leg `i` adds: one when it decoded, even when its path is empty. */
  function LegLines(i: nat, leg: Option<seq<Point>>): seq<Polyline>
  {
    match leg
    case Some(path) => [Polyline(path, LegColor(i))]
    case None => []
  }

  /** The markers leg `i` of `n` adds, in the order the source adds them: start, end, waypoint. */
  function LegMarkers(i: nat, n: nat, leg: Option<seq<Point>>): seq<Marker>
  {
    match leg
    case None => []
    case Some(path) =>
      if |path| == 0 then []
      else
        (if i == 0 then [Marker(path[0], Start)] else []) +
        (if i == n - 1 then [Marker(path[|path| - 1], End)] else []) +
        (if i > 0 then [Marker(path[0], Waypoint)] else [])
  }

  /** The lines of the first `k` legs. */
  function Lines(legs: seq<Option<seq<Point>>>, k: nat): seq<Polyline>
    requires k <= |legs|
  {
    if k == 0 then [] else Lines(legs, k - 1) + LegLines(k - 1, legs[k - 1])
  }

  /** The markers of the first `k` legs. */
  function Marks(legs: seq<Option<seq<Point>>>, k: nat): seq<Marker>
    requires k <= |legs|
  {
    if k == 0 then [] else Marks(legs, k - 1) + LegMarkers(k - 1, |legs|, legs[k - 1])
  }

  /** The lines and markers currently on the map. */
  class Layer {
    var polylines: seq<Polyline>
    var markers: seq<Marker>

    constructor()
      ensures polylines == [] && markers == []
    {
      polylines := [];
      markers := [];
    }

    /** `addMultiplePolylines`: clear the layer, then draw every leg in turn. */
    method AddMultiplePolylines(legs: seq<Option<seq<Point>>>)
      modifies this
      ensures polylines == Lines(legs, |legs|)
      ensures markers == Marks(legs, |legs|)
    {
      polylines := [];
      markers := [];
      var index := 0;
      while index < |legs|
        invariant 0 <= index <= |legs|
        invariant polylines == Lines(legs, index)
        invariant markers == Marks(legs, index)
      {
        match legs[index] {
          case None =>
          case Some(path) =>
            polylines := polylines + [Polyline(path, Colors[index % |Colors|])];
            ghost var before := markers;
            if index == 0 && |path| > 0 {
              markers := markers + [Marker(path[0], Start)];
            }
            ghost var withStart := markers;
            if index == |legs| - 1 && |path| > 0 {
              markers := markers + [Marker(path[|path| - 1], End)];
            }
            ghost var withEnd := markers;
            if index > 0 && |path| > 0 {
              markers := markers + [Marker(path[0], Waypoint)];
            }
            AppendedParts(before, withStart, withEnd, markers, index, |legs|, path);
        }
        index := index + 1;
      }
    }
  }

  /** Appending a leg's start, end and waypoint markers one at a time appends its markers. */
  lemma AppendedParts(before: seq<Marker>, withStart: seq<Marker>, withEnd: seq<Marker>, after: seq<Marker>,
                      i: nat, n: nat, path: seq<Point>)
    requires withStart == before + (if i == 0 && |path| > 0 then [Marker(path[0], Start)] else [])
    requires withEnd == withStart + (if i == n - 1 && |path| > 0 then [Marker(path[|path| - 1], End)] else [])
    requires after == withEnd + (if i > 0 && |path| > 0 then [Marker(path[0], Waypoint)] else [])
    ensures after == before + LegMarkers(i, n, Some(path))
  {
    if |path| == 0 {
      assert after == before;
    } else {
      var s := if i == 0 then [Marker(path[0], Start)] else [];
      var e := if i == n - 1 then [Marker(path[|path| - 1], End)] else [];
      var w := if i > 0 then [Marker(path[0], Waypoint)] else [];
      Seqs.AppendAssoc(before, s, e);
      Seqs.AppendAssoc(before, s + e, w);
    }
  }

  /** Whether every leg decoded. */
  predicate AllDecoded(legs: seq<Option<seq<Point>>>)
  {
    forall i :: 0 <= i < |legs| ==> legs[i].Some?
  }

  /**
   * When every leg decoded, there is one line per leg, carrying that leg's
   * path, and neighbouring legs get different colours.
   */
  lemma {:induction false} LinesPerLeg(legs: seq<Option<seq<Point>>>, k: nat)
    requires k <= |legs| && AllDecoded(legs)
    ensures |Lines(legs, k)| == k
    ensures forall i :: 0 <= i < k ==> Lines(legs, k)[i] == Polyline(legs[i].value, Colors[i % 2])
    ensures forall i :: 0 < i < k ==> Lines(legs, k)[i].color != Lines(legs, k)[i - 1].color
  {
    if k > 0 {
      LinesPerLeg(legs, k - 1);
      assert Lines(legs, k) == Lines(legs, k - 1) + [Polyline(legs[k - 1].value, LegColor(k - 1))];
    }
  }

  /** A leg whose decoding threw adds nothing; a leg with an empty path adds a line and no marker. */
  lemma SkippedAndEmptyLegs(i: nat, n: nat, leg: Option<seq<Point>>)
    ensures leg.None? ==> LegLines(i, leg) == [] && LegMarkers(i, n, leg) == []
    ensures leg == Some([]) ==> LegLines(i, leg) == [Polyline([], LegColor(i))] && LegMarkers(i, n, leg) == []
  {
  }

  /** Whether every leg decoded to a non-empty path. */
  predicate AllNonEmpty(legs: seq<Option<seq<Point>>>)
  {
    forall i :: 0 <= i < |legs| ==> legs[i].Some? && |legs[i].value| > 0
  }

  /** Marker `m` is where its kind says on the route `legs`. */
  predicate MarkerAt(legs: seq<Option<seq<Point>>>, m: Marker)
  {
    |legs| > 0 &&
    match m.kind
    case Start => legs[0].Some? && |legs[0].value| > 0 && m.point == legs[0].value[0]
    case End =>
      var last := legs[|legs| - 1];
      last.Some? && |last.value| > 0 && m.point == last.value[|last.value| - 1]
    case Waypoint =>
      exists i :: 0 < i < |legs| && legs[i].Some? && |legs[i].value| > 0 && m.point == legs[i].value[0]
  }

  /** The markers of leg `i` are where their kinds say. */
  lemma LegMarkersAt(legs: seq<Option<seq<Point>>>, i: nat)
    requires i < |legs|
    ensures forall j :: 0 <= j < |LegMarkers(i, |legs|, legs[i])| ==> MarkerAt(legs, LegMarkers(i, |legs|, legs[i])[j])
  {
    var ms := LegMarkers(i, |legs|, legs[i]);
    forall j | 0 <= j < |ms|
      ensures MarkerAt(legs, ms[j])
    {
      if ms[j].kind == Waypoint {
        assert 0 < i && ms[j].point == legs[i].value[0];
      }
    }
  }

  /** Every marker of the first `k` legs is where its kind says. */
  lemma {:induction false} MarksAt(legs: seq<Option<seq<Point>>>, k: nat)
    requires k <= |legs|
    ensures forall j :: 0 <= j < |Marks(legs, k)| ==> MarkerAt(legs, Marks(legs, k)[j])
  {
    if k > 0 {
      MarksAt(legs, k - 1);
      LegMarkersAt(legs, k - 1);
      var prev := Marks(legs, k - 1);
      var leg := LegMarkers(k - 1, |legs|, legs[k - 1]);
      assert Marks(legs, k) == prev + leg;
      forall j | 0 <= j < |prev + leg|
        ensures MarkerAt(legs, (prev + leg)[j])
      {
        if j >= |prev| {
          assert (prev + leg)[j] == leg[j - |prev|];
        }
      }
    }
  }

  /**
   * Every marker of the route is where its kind says: the start at the first
   * point of the first leg, the end at the last point of the last leg, and
   * each waypoint at the first point of a later leg.
   */
  lemma MarkersPlaced(legs: seq<Option<seq<Point>>>)
    ensures forall m :: m in Marks(legs, |legs|) && m.kind == Start ==>
      legs[0].Some? && |legs[0].value| > 0 && m.point == legs[0].value[0]
    ensures forall m :: m in Marks(legs, |legs|) && m.kind == End ==>
      var last := legs[|legs| - 1];
      last.Some? && |last.value| > 0 && m.point == last.value[|last.value| - 1]
    ensures forall m :: m in Marks(legs, |legs|) && m.kind == Waypoint ==>
      exists i :: 0 < i < |legs| && legs[i].Some? && |legs[i].value| > 0 && m.point == legs[i].value[0]
  {
    MarksAt(legs, |legs|);
    forall m | m in Marks(legs, |legs|)
      ensures MarkerAt(legs, m)
    {
      var j :| 0 <= j < |Marks(legs, |legs|)| && Marks(legs, |legs|)[j] == m;
    }
  }

  /** A leg with a non-empty path adds a start if first, an end if last, and a waypoint if not first. */
  lemma LegMarkerCount(i: nat, n: nat, leg: Option<seq<Point>>)
    requires leg.Some? && |leg.value| > 0
    ensures |LegMarkers(i, n, leg)| == (if i == 0 then 1 else 0) + (if i == n - 1 then 1 else 0) + (if i > 0 then 1 else 0)
    ensures i == 0 ==> LegMarkers(i, n, leg)[0] == Marker(leg.value[0], Start)
  {
  }

  /**
   * When every leg decoded to a non-empty path, the first marker is the
   * start, each later leg adds one waypoint, and the last leg also adds the
   * end: a route of `n` legs has `n + 1` markers, none merged with another.
   */
  lemma {:induction false} MarkerCount(legs: seq<Option<seq<Point>>>, k: nat)
    requires k <= |legs| && AllNonEmpty(legs)
    ensures |Marks(legs, k)| == (if k == 0 then 0 else if k == |legs| then k + 1 else k)
    ensures k > 0 ==> Marks(legs, k)[0] == Marker(legs[0].value[0], Start)
  {
    if k > 0 {
      MarkerCount(legs, k - 1);
      LegMarkerCount(k - 1, |legs|, legs[k - 1]);
      assert Marks(legs, k) == Marks(legs, k - 1) + LegMarkers(k - 1, |legs|, legs[k - 1]);
    }
  }

  /** A one-leg route gets exactly a start marker and an end marker, in that order. */
  lemma OneLeg(path: seq<Point>)
    requires |path| > 0
    ensures Marks([Some(path)], 1) == [Marker(path[0], Start), Marker(path[|path| - 1], End)]
  {
    assert Marks([Some(path)], 1) == [] + LegMarkers(0, 1, Some(path));
  }

  /**
   * In a two-leg route the last leg adds its end marker before its waypoint,
   * and a waypoint is added even where it lies on the previous leg's end.
   */
  lemma TwoLegs(p: seq<Point>, q: seq<Point>)
    requires |p| > 0 && |q| > 0
    ensures Marks([Some(p), Some(q)], 2) ==
      [Marker(p[0], Start), Marker(q[|q| - 1], End), Marker(q[0], Waypoint)]
  {
    var legs := [Some(p), Some(q)];
    assert Marks(legs, 1) == [] + LegMarkers(0, 2, Some(p));
    assert Marks(legs, 2) == Marks(legs, 1) + LegMarkers(1, 2, Some(q));
  }

  /** No leg adds more than one line. */
  lemma {:induction false} LinesBound(legs: seq<Option<seq<Point>>>, k: nat)
    requires k <= |legs|
    ensures |Lines(legs, k)| <= k
  {
    if k > 0 {
      LinesBound(legs, k - 1);
    }
  }
}
