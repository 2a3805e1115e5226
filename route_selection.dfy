/**
 * The route highlight state kept by the directions task: the polylines
 * drawn for the decoded routes, each with a colour and a z-index, and the
 * reference to the primary polyline. Each polyline is identified by its
 * position in the list; a colour is a packed ARGB value.
 */
module RouteSelection {
  import opened Wrappers
  import opened PolylineCodec

  /** `Color.parseColor("#1A73E8")`, the highlight colour. */
  const Blue: int := 0xFF1A73E8
  /** `Color.parseColor("#7A7878")`, the colour of an alternative route. */
  const Grey: int := 0xFF7A7878
  /** `Color.GRAY`, the colour the reset operation paints. */
  const SystemGray: int := 0xFF888888

  datatype Style = Style(color: int, zIndex: int)

  const PrimaryStyle := Style(Blue, 1)
  const AlternativeStyle := Style(Grey, 0)

  /** One polyline on the map: the route's points and how it is drawn. */
  datatype Line = Line(points: seq<Point>, style: Style)

  predicate Highlighted(l: Line) {
    l.style == PrimaryStyle
  }

  /** The positions of the highlighted polylines. */
  function HighlightedSet(ls: seq<Line>): set<nat> {
    set j: nat | j < |ls| && Highlighted(ls[j])
  }

  predicate AtMostOneHighlighted(ls: seq<Line>) {
    forall i, j :: 0 <= i < |ls| && 0 <= j < |ls| && Highlighted(ls[i]) && Highlighted(ls[j]) ==> i == j
  }

  function Points(ls: seq<Line>): (r: seq<seq<Point>>)
    ensures |r| == |ls|
  {
    seq(|ls|, j requires 0 <= j < |ls| => ls[j].points)
  }

  /** The decoded routes that are not empty, in order. */
  function NonEmptyRoutes(ds: seq<seq<Point>>): seq<seq<Point>> {
    if ds == [] then []
    else (if ds[0] == [] then [] else [ds[0]]) + NonEmptyRoutes(ds[1..])
  }

  // ---------------------------------------------------------------------
  // Building the polylines for freshly decoded routes
  // ---------------------------------------------------------------------

  /**
   * The polylines after the building loop over `ds`: one per non-empty
   * route, route 0 drawn as the primary, every later route as an
   * alternative.
   */
  function BuildLines(ds: seq<seq<Point>>): (r: seq<Line>)
    ensures |r| <= |ds|
  {
    if ds == [] then []
    else
      var i := |ds| - 1;
      BuildLines(ds[..i])
        + (if ds[i] == [] then [] else [Line(ds[i], if i == 0 then PrimaryStyle else AlternativeStyle)])
  }

  lemma {:induction false} NonEmptyRoutesSnoc(ds: seq<seq<Point>>, d: seq<Point>)
    ensures NonEmptyRoutes(ds + [d]) == NonEmptyRoutes(ds) + (if d == [] then [] else [d])
    decreases |ds|
  {
    if ds == [] {
      assert ds + [d] == [d];
      assert [d][1..] == [];
    } else {
      assert (ds + [d])[0] == ds[0];
      assert (ds + [d])[1..] == ds[1..] + [d];
      NonEmptyRoutesSnoc(ds[1..], d);
    }
  }

  /** The polylines carry exactly the non-empty routes, in order. */
  lemma {:induction false} BuildLinesRoutes(ds: seq<seq<Point>>)
    ensures Points(BuildLines(ds)) == NonEmptyRoutes(ds)
    decreases |ds|
  {
    if ds != [] {
      var i := |ds| - 1;
      BuildLinesRoutes(ds[..i]);
      NonEmptyRoutesSnoc(ds[..i], ds[i]);
      assert ds[..i] + [ds[i]] == ds;
    }
  }

  /**
   * The style of every polyline: only the one drawn for route 0, and only
   * when route 0 is not empty, is the primary; all others are
   * alternatives. No polyline is drawn for an empty route.
   */
  lemma {:induction false} BuildLinesStyles(ds: seq<seq<Point>>)
    ensures forall j :: 0 <= j < |BuildLines(ds)| ==>
      BuildLines(ds)[j].points != [] &&
      BuildLines(ds)[j].style == (if j == 0 && ds[0] != [] then PrimaryStyle else AlternativeStyle)
    decreases |ds|
  {
    if ds != [] {
      var i := |ds| - 1;
      var prefix := ds[..i];
      BuildLinesStyles(prefix);
      if i > 0 {
        assert prefix[0] == ds[0];
      }
      if |BuildLines(prefix)| == 0 && i > 0 && ds[i] != [] {
        // the previous routes were all empty, so route 0 was one of them
        BuildLinesRoutes(prefix);
        assert i > 0 ==> NonEmptyRoutes(prefix) == (if prefix[0] == [] then [] else [prefix[0]]) + NonEmptyRoutes(prefix[1..]);
      }
    }
  }

  /** After building, the only highlighted polyline is route 0's, if it was drawn. */
  lemma BuildLinesHighlighted(ds: seq<seq<Point>>)
    ensures HighlightedSet(BuildLines(ds)) == if ds != [] && ds[0] != [] then {0} else {}
    ensures AtMostOneHighlighted(BuildLines(ds))
  {
    BuildLinesStyles(ds);
    var ls := BuildLines(ds);
    if ds != [] && ds[0] != [] {
      BuildLinesRoutes(ds);
      assert NonEmptyRoutes(ds) == [ds[0]] + NonEmptyRoutes(ds[1..]);
      assert Points(ls)[0] == ds[0];
      assert Highlighted(ls[0]);
    }
  }

  // ---------------------------------------------------------------------
  // Clicking a polyline
  // ---------------------------------------------------------------------

  /**
   * The polylines after a click on the one at position `k`: it is drawn as
   * the primary and every other one as an alternative. A `k` outside the
   * list stands for a polyline that is not in it.
   */
  function ClickLines(ls: seq<Line>, k: int): (r: seq<Line>)
    ensures |r| == |ls|
  {
    seq(|ls|, j requires 0 <= j < |ls| => Line(ls[j].points, if j == k then PrimaryStyle else AlternativeStyle))
  }

  /**
   * A click highlights exactly the clicked polyline and no other. The
   * second clause only spells out, for callers, the style `ClickLines`
   * gives every other polyline.
   */
  lemma ClickHighlights(ls: seq<Line>, k: int)
    ensures HighlightedSet(ClickLines(ls, k)) == if 0 <= k < |ls| then {k} else {}
    ensures forall j :: 0 <= j < |ls| && j != k ==> ClickLines(ls, k)[j].style == AlternativeStyle
    ensures AtMostOneHighlighted(ClickLines(ls, k))
  {
    var r := ClickLines(ls, k);
    if 0 <= k < |ls| {
      assert Highlighted(r[k]);
    }
  }

  /** Clicking the same polyline twice leaves the state of one click. */
  lemma ClickIdempotent(ls: seq<Line>, k: int)
    ensures ClickLines(ClickLines(ls, k), k) == ClickLines(ls, k)
  {
  }

  /** A click changes no route's points. */
  lemma ClickKeepsPoints(ls: seq<Line>, k: int)
    ensures Points(ClickLines(ls, k)) == Points(ls)
  {
  }

  // ---------------------------------------------------------------------
  // Resetting the colours
  // ---------------------------------------------------------------------

  /**
   * The polylines after the reset loop: every polyline other than the
   * primary gets the system grey colour and keeps its z-index; the primary
   * is left as it was. `primary` is None when the primary reference points
   * to none of the polylines in the list.
   */
  function ResetLines(ls: seq<Line>, primary: Option<nat>): (r: seq<Line>)
    ensures |r| == |ls|
  {
    seq(|ls|, j requires 0 <= j < |ls| =>
      if primary == Some(j) then ls[j] else Line(ls[j].points, Style(SystemGray, ls[j].style.zIndex)))
  }

  /**
   * After the reset only the primary can still be highlighted. The first
   * clause only unfolds `ResetLines` element by element for callers: the
   * primary is untouched, every other polyline system grey with its
   * z-index unchanged.
   */
  lemma ResetGreys(ls: seq<Line>, primary: Option<nat>)
    ensures forall j :: 0 <= j < |ls| ==>
      ResetLines(ls, primary)[j] ==
        if primary == Some(j) then ls[j] else Line(ls[j].points, Style(SystemGray, ls[j].style.zIndex))
    ensures HighlightedSet(ResetLines(ls, primary)) ==
      HighlightedSet(ls) * (if primary.Some? then {primary.value} else {})
    ensures AtMostOneHighlighted(ResetLines(ls, primary))
  {
    var r := ResetLines(ls, primary);
    forall j: nat | j < |ls|
      ensures Highlighted(r[j]) <==> Highlighted(ls[j]) && primary == Some(j)
    {
      assert SystemGray != Blue;
    }
  }

  /** Resetting twice is the same as resetting once. */
  lemma ResetIdempotent(ls: seq<Line>, primary: Option<nat>)
    ensures ResetLines(ResetLines(ls, primary), primary) == ResetLines(ls, primary)
  {
  }

  /** The reset changes no route's points. */
  lemma ResetKeepsPoints(ls: seq<Line>, primary: Option<nat>)
    ensures Points(ResetLines(ls, primary)) == Points(ls)
  {
  }

  /**
   * Clicking a polyline and then resetting leaves a highlighted polyline
   * only when the clicked one is the primary: a click on an alternative
   * route followed by a reset leaves no route highlighted.
   */
  lemma ClickThenReset(ls: seq<Line>, k: int, primary: Option<nat>)
    ensures HighlightedSet(ResetLines(ClickLines(ls, k), primary)) ==
      if 0 <= k < |ls| && primary == Some(k) then {k} else {}
  {
    ClickHighlights(ls, k);
    ResetGreys(ClickLines(ls, k), primary);
  }

  // ---------------------------------------------------------------------
  // The state itself
  // ---------------------------------------------------------------------

  class RouteMap {
    /** The routes last decoded. */
    var decodedPolylines: seq<seq<Point>>
    /** The polylines on the map, in the order they were added. */
    var polylines: seq<Line>
    /**
     * The position of the primary polyline in `polylines`; None when the
     * primary reference is unset or refers to a polyline no longer listed.
     */
    var primary: Option<nat>

    /**
     * The invariant every operation keeps: the polylines carry exactly the
     * non-empty decoded routes, the primary can only be route 0's polyline,
     * and at most one polyline is highlighted.
     */
    ghost predicate Valid()
      reads this
    {
      && Points(polylines) == NonEmptyRoutes(decodedPolylines)
      && (primary.Some? ==> primary == Some(0) && decodedPolylines != [] && decodedPolylines[0] != [])
      && (primary.Some? ==> primary.value < |polylines|)
      && AtMostOneHighlighted(polylines)
    }

    constructor ()
      ensures decodedPolylines == [] && polylines == [] && primary == None
      ensures Valid()
    {
      decodedPolylines := [];
      polylines := [];
      primary := None;
    }

    /**
     * Stores the decoded routes, clears the list and draws one polyline per
     * non-empty route. `obtained` is the route handed on as the primary
     * route; with no routes at all the source fails on `get(0)` after the
     * list was cleared, and this returns None with the list empty.
     */
    method OnPostExecute(ds: seq<seq<Point>>) returns (obtained: Option<seq<Point>>)
      modifies this
      ensures decodedPolylines == ds
      ensures polylines == BuildLines(ds)
      ensures primary == if ds != [] && ds[0] != [] then Some(0) else None
      ensures obtained == if ds == [] then None else Some(ds[0])
      ensures Valid()
    {
      decodedPolylines := ds;
      polylines := [];
      // the old primary reference now names no listed polyline
      primary := None;
      if ds == [] {
        BuildLinesHighlighted(ds);
        return None;
      }
      obtained := Some(ds[0]);
      for i := 0 to |ds|
        invariant decodedPolylines == ds
        invariant polylines == BuildLines(ds[..i])
        invariant primary == if i > 0 && ds[0] != [] then Some(0) else None
      {
        assert ds[..i + 1][..i] == ds[..i];
        var route := ds[i];
        if route != [] {
          var style := if i == 0 then PrimaryStyle else AlternativeStyle;
          if i == 0 {
            primary := Some(|polylines|);
          }
          polylines := polylines + [Line(route, style)];
        }
      }
      assert ds[..|ds|] == ds;
      BuildLinesHighlighted(ds);
      BuildLinesRoutes(ds);
    }

    /**
     * The click listener: repaints every listed polyline, the clicked one
     * as the primary and all others as alternatives. `refresh` is the points
     * of the clicked polyline that the safety-data fetches are asked for.
     */
    method OnPolylineClick(k: int) returns (refresh: Option<seq<Point>>)
      requires Valid()
      modifies this
      ensures polylines == ClickLines(old(polylines), k)
      ensures primary == old(primary) && decodedPolylines == old(decodedPolylines)
      ensures refresh == if 0 <= k < |polylines| then Some(polylines[k].points) else None
      ensures Valid()
    {
      ghost var before := polylines;
      for j := 0 to |polylines|
        invariant |polylines| == |before|
        invariant forall m :: 0 <= m < j ==> polylines[m] == ClickLines(before, k)[m]
        invariant forall m :: j <= m < |polylines| ==> polylines[m] == before[m]
        invariant primary == old(primary) && decodedPolylines == old(decodedPolylines)
      {
        var line := polylines[j];
        if j == k {
          line := Line(line.points, PrimaryStyle);
        } else {
          line := Line(line.points, AlternativeStyle);
        }
        polylines := polylines[j := line];
      }
      ClickHighlights(before, k);
      ClickKeepsPoints(before, k);
      refresh := if 0 <= k < |polylines| then Some(polylines[k].points) else None;
    }

    /** Paints every polyline other than the primary system grey. */
    method ResetPolylinesColor()
      requires Valid()
      modifies this
      ensures polylines == ResetLines(old(polylines), primary)
      ensures primary == old(primary) && decodedPolylines == old(decodedPolylines)
      ensures Valid()
    {
      ghost var before := polylines;
      for j := 0 to |polylines|
        invariant |polylines| == |before|
        invariant forall m :: 0 <= m < j ==> polylines[m] == ResetLines(before, primary)[m]
        invariant forall m :: j <= m < |polylines| ==> polylines[m] == before[m]
        invariant primary == old(primary) && decodedPolylines == old(decodedPolylines)
      {
        var line := polylines[j];
        if primary != Some(j) {
          polylines := polylines[j := Line(line.points, Style(SystemGray, line.style.zIndex))];
        }
      }
      ResetGreys(before, primary);
      ResetKeepsPoints(before, primary);
    }
  }
}
