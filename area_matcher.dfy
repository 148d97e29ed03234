/** Assigning a taxi position to the planning area that contains it.

    The areas are scanned in the order in which they were fetched and the
    first one whose boundary is present and contains the point wins; a point
    no area contains is unassigned. Boundaries and points are left abstract:
    `G` is a parsed boundary, `P` a taxi position, and `contains` the
    geometry library's point-in-polygon test. */
module AreaMatcher {
  import opened Wrappers

  /** A fetched planning area: its name and its parsed boundary, or None when
      the boundary's GeoJSON could not be parsed. */
  datatype Area<G> = Area(name: string, boundary: Option<G>)

  /** The assignment of one taxi: the name of its planning area, or None. */
  type Label = Option<string>

  /** The guard of the scan: the boundary is present and contains the point. */
  predicate Matches<G, P>(area: Area<G>, contains: (G, P) -> bool, p: P) {
    area.boundary.Some? && contains(area.boundary.value, p)
  }

  /** `i` is the position of the first area, in fetch order, that matches `p`. */
  ghost predicate IsFirstMatch<G, P>(areas: seq<Area<G>>, contains: (G, P) -> bool, p: P, i: int) {
    && 0 <= i < |areas|
    && Matches(areas[i], contains, p)
    && forall j | 0 <= j < i :: !Matches(areas[j], contains, p)
  }

  /** The planning area of `p`: the name of the first matching area, if any. */
  function PlanningArea<G, P>(areas: seq<Area<G>>, contains: (G, P) -> bool, p: P): Label {
    if areas == [] then None
    else if Matches(areas[0], contains, p) then Some(areas[0].name)
    else PlanningArea(areas[1..], contains, p)
  }

  /** A point is unassigned exactly when no area with a parsed boundary contains it. */
  lemma {:induction false} UnassignedIffNoMatch<G, P>(areas: seq<Area<G>>, contains: (G, P) -> bool, p: P)
    ensures PlanningArea(areas, contains, p) == None
            <==> forall i | 0 <= i < |areas| :: !Matches(areas[i], contains, p)
  {
    if areas != [] && !Matches(areas[0], contains, p) {
      UnassignedIffNoMatch(areas[1..], contains, p);
      assert forall i | 1 <= i < |areas| :: areas[i] == areas[1..][i - 1];
    }
  }

  /** First match wins: the first matching area is chosen even when later
      areas contain the point too. */
  lemma {:induction false} FirstMatchWins<G, P>(areas: seq<Area<G>>, contains: (G, P) -> bool, p: P, i: int)
    requires IsFirstMatch(areas, contains, p, i)
    ensures PlanningArea(areas, contains, p) == Some(areas[i].name)
  {
    if i > 0 {
      assert !Matches(areas[0], contains, p);
      assert IsFirstMatch(areas[1..], contains, p, i - 1);
      FirstMatchWins(areas[1..], contains, p, i - 1);
    }
  }

  /** An assigned name is always the name of the first matching area. */
  lemma {:induction false} AssignedIsFirstMatch<G, P>(areas: seq<Area<G>>, contains: (G, P) -> bool, p: P)
    requires PlanningArea(areas, contains, p).Some?
    ensures exists i :: IsFirstMatch(areas, contains, p, i)
                        && areas[i].name == PlanningArea(areas, contains, p).value
  {
    if Matches(areas[0], contains, p) {
      assert IsFirstMatch(areas, contains, p, 0);
    } else {
      AssignedIsFirstMatch(areas[1..], contains, p);
      var j :| IsFirstMatch(areas[1..], contains, p, j)
               && areas[1..][j].name == PlanningArea(areas[1..], contains, p).value;
      assert IsFirstMatch(areas, contains, p, j + 1);
    }
  }

  /** An area whose boundary failed to parse never influences any assignment:
      dropping it from the list changes nothing. */
  lemma {:induction false} UnparsedAreaIsSkipped<G, P>(areas: seq<Area<G>>, contains: (G, P) -> bool, p: P, i: int)
    requires 0 <= i < |areas| && areas[i].boundary.None?
    ensures PlanningArea(areas[..i] + areas[i + 1..], contains, p) == PlanningArea(areas, contains, p)
  {
    if i == 0 {
      assert areas[..0] + areas[1..] == areas[1..];
    } else {
      UnparsedAreaIsSkipped(areas[1..], contains, p, i - 1);
      var rest := areas[1..][..i - 1] + areas[1..][i..];
      assert areas[..i] + areas[i + 1..] == [areas[0]] + rest;
      assert ([areas[0]] + rest)[1..] == rest;
    }
  }

  /** The scan itself: a loop over the areas in fetch order that returns at
      the first area whose boundary is present and contains the point. */
  method GetPlanningArea<G, P>(areas: seq<Area<G>>, contains: (G, P) -> bool, p: P) returns (r: Label)
    ensures r == PlanningArea(areas, contains, p)
    ensures r.None? <==> forall i | 0 <= i < |areas| :: !Matches(areas[i], contains, p)
    ensures r.Some? ==> exists i :: IsFirstMatch(areas, contains, p, i) && areas[i].name == r.value
  {
    UnassignedIffNoMatch(areas, contains, p);
    for i := 0 to |areas|
      invariant forall j | 0 <= j < i :: !Matches(areas[j], contains, p)
    {
      var area := areas[i];
      if area.boundary.Some? && contains(area.boundary.value, p) {
        assert IsFirstMatch(areas, contains, p, i);
        FirstMatchWins(areas, contains, p, i);
        return Some(area.name);
      }
    }
    return None;
  }

  /** The assignment column: one label per taxi, in the taxis' order. */
  function Labels<G, P>(areas: seq<Area<G>>, contains: (G, P) -> bool, points: seq<P>): (labels: seq<Label>)
    ensures |labels| == |points|
    ensures forall k | 0 <= k < |points| :: labels[k] == PlanningArea(areas, contains, points[k])
  {
    seq(|points|, k requires 0 <= k < |points| => PlanningArea(areas, contains, points[k]))
  }
}
