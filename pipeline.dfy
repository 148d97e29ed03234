/** The analysis run end to end: assign every taxi, count and rank the
    areas, prepare one entry per ranked area, collect the descriptions, and
    pair each entry with its description into the rows of the table. */
module Pipeline {
  import opened Wrappers
  import opened AreaMatcher
  import opened Aggregator
  import opened Enricher

  /** One prepared entry: its 1-based rank, the area, its count, and the taxis
      whose mean position is the area's location (and map link). */
  datatype AreaInfo<P> = AreaInfo(rank: nat, name: string, count: nat, members: seq<P>)

  /** One row of the table. */
  datatype Row<P> = Row(rank: nat, area: string, count: nat, description: string, members: seq<P>)

  /** The taxis selected by the mask `planning_area == name`, in their order. */
  function Group<P>(points: seq<P>, labels: seq<Label>, name: string): (group: seq<P>)
    requires |points| == |labels|
    ensures |group| == Count(labels, name)
  {
    var rows := Members(labels, name);
    seq(|rows|, j requires 0 <= j < |rows| => points[rows[j]])
  }

  /** The group of a ranked area holds exactly the taxis assigned to it, each
      once, and is never empty: its mean is always defined. */
  lemma GroupOfRankedArea<P>(points: seq<P>, labels: seq<Label>, counts: seq<AreaCount>, topK: int, i: int)
    requires |points| == |labels| && IsValueCounts(labels, counts)
    requires 0 <= i < |TopK(counts, topK)|
    ensures var entry := TopK(counts, topK)[i];
            var rows := Members(labels, entry.name);
      && |Group(points, labels, entry.name)| == entry.count >= 1
      && (forall k | 0 <= k < |labels| :: k in rows <==> labels[k] == Some(entry.name))
      && (forall j | 0 <= j < |rows| :: Group(points, labels, entry.name)[j] == points[rows[j]])
  {
    TopKIsRanking(labels, counts, topK);
  }

  /** The append loop over the ranked areas: entry `i` gets rank `i + 1`, the
      area and its count, and the area's group of taxis. */
  method BuildAreaInfo<P>(ranked: seq<AreaCount>, labels: seq<Label>, points: seq<P>)
    returns (info: seq<AreaInfo<P>>)
    requires |points| == |labels|
    ensures |info| == |ranked|
    ensures forall i | 0 <= i < |ranked| ::
      && info[i].rank == i + 1
      && info[i].name == ranked[i].name
      && info[i].count == ranked[i].count
      && info[i].members == Group(points, labels, ranked[i].name)
  {
    info := [];
    var idx := 1;
    for i := 0 to |ranked|
      invariant |info| == i && idx == i + 1
      invariant forall j | 0 <= j < i ::
        info[j] == AreaInfo(j + 1, ranked[j].name, ranked[j].count, Group(points, labels, ranked[j].name))
    {
      var entry := ranked[i];
      var members := Group(points, labels, entry.name);
      info := info + [AreaInfo(idx, entry.name, entry.count, members)];
      idx := idx + 1;
    }
  }

  /** The area column shows "Unknown" for an empty name. */
  function AreaLabel(name: string): (shown: string)
    ensures shown != ""
    ensures name == "" ==> shown == Unknown
    ensures name != "" ==> shown == name
  {
    if name == "" then Unknown else name
  }

  function MakeRow<P>(entry: AreaInfo<P>, description: string): Row<P> {
    Row(entry.rank, AreaLabel(entry.name), entry.count, description, entry.members)
  }

  /** The rows: entries zipped with descriptions (stopping at the shorter). */
  function Rows<P>(info: seq<AreaInfo<P>>, descriptions: seq<string>): seq<Row<P>> {
    if info == [] || descriptions == [] then []
    else [MakeRow(info[0], descriptions[0])] + Rows(info[1..], descriptions[1..])
  }

  /** With as many descriptions as entries nothing is dropped, and row `i`
      pairs entry `i` with description `i`. */
  lemma {:induction false} RowsAligned<P>(info: seq<AreaInfo<P>>, descriptions: seq<string>)
    requires |info| == |descriptions|
    ensures |Rows(info, descriptions)| == |info|
    ensures forall i | 0 <= i < |info| :: Rows(info, descriptions)[i] == MakeRow(info[i], descriptions[i])
  {
    if info != [] {
      RowsAligned(info[1..], descriptions[1..]);
    }
  }

  /** Rows built from a valid ranking are ordered by count, at most `top_k`
      of them, and each count is at least 1 and is the size of the row's group. */
  lemma RowsFollowRanking<P>(labels: seq<Label>, points: seq<P>, counts: seq<AreaCount>, topK: int, rows: seq<Row<P>>)
    requires |points| == |labels| && IsValueCounts(labels, counts)
    requires var ranked := TopK(counts, topK);
      && |rows| == |ranked|
      && forall i | 0 <= i < |ranked| ::
           rows[i].count == ranked[i].count && rows[i].members == Group(points, labels, ranked[i].name)
    ensures topK >= 0 ==> |rows| <= topK
    ensures forall i, j | 0 <= i < j < |rows| :: rows[i].count >= rows[j].count
    ensures forall i | 0 <= i < |rows| :: 1 <= rows[i].count == |rows[i].members|
  {
    TopKIsRanking(labels, counts, topK);
  }

  /** What the run shows: the number of taxis and the table rows. */
  datatype Report<P> = Report(total: nat, rows: seq<Row<P>>)

  /** One run of the analysis. `counts` is the result of `value_counts()` on
      the assignments: any result `IsValueCounts` admits, so the order among
      equal counts (which decides who is kept at the `top_k` cut) is left open;
      `ValueCountsMeetsSpec` shows that `ValueCounts` is one. `lookup` gives
      the outcome of the lookup task for a group's mean position, and `order`
      the order in which the tasks complete. */
  method Analyze<G, P>(areas: seq<Area<G>>, contains: (G, P) -> bool, points: seq<P>,
                       counts: seq<AreaCount>, topK: int, lookup: seq<P> -> TaskOutcome, order: seq<nat>)
    returns (report: Report<P>)
    requires IsValueCounts(Labels(areas, contains, points), counts)
    requires IsCompletionOrder(order, |TopK(counts, topK)|)
    ensures report.total == |points|
    ensures var labels := Labels(areas, contains, points);
            var ranked := TopK(counts, topK);
      && |report.rows| == |ranked|
      && forall i | 0 <= i < |ranked| ::
           var members := Group(points, labels, ranked[i].name);
           report.rows[i] == Row(i + 1, AreaLabel(ranked[i].name), ranked[i].count,
                                 SlotText(lookup(members)), members)
    ensures topK >= 0 ==> |report.rows| <= topK
    ensures forall i, j | 0 <= i < j < |report.rows| :: report.rows[i].count >= report.rows[j].count
    ensures forall i | 0 <= i < |report.rows| ::
      1 <= report.rows[i].count == |report.rows[i].members|
  {
    var labels := Labels(areas, contains, points);
    var ranked := TopK(counts, topK);
    var info := BuildAreaInfo(ranked, labels, points);
    var outcomes := seq(|info|, i requires 0 <= i < |info| => lookup(info[i].members));
    assert |outcomes| == |ranked|;
    var descriptions, _, _ := FetchDescriptions(outcomes, order);
    var rows := Rows(info, descriptions);
    report := Report(|points|, rows);

    RowsAligned(info, descriptions);
    assert |rows| == |info| == |ranked|;
    forall i | 0 <= i < |ranked|
      ensures rows[i] == Row(i + 1, AreaLabel(ranked[i].name), ranked[i].count,
                             SlotText(lookup(info[i].members)), info[i].members)
    {
      assert rows[i] == MakeRow(info[i], descriptions[i]);
      assert descriptions[i] == SlotText(outcomes[i]);
    }
    RowsFollowRanking(labels, points, counts, topK, rows);
  }

  // ---------------------------------------------------------------------------
  // A worked example, on integer coordinates doubled so that they stay whole.

  datatype Box = Box(x0: int, y0: int, x1: int, y1: int)

  function InBox(b: Box, p: (int, int)): bool {
    b.x0 <= p.0 <= b.x1 && b.y0 <= p.1 <= b.y1
  }

  const ExampleAreas: seq<Area<Box>> := [Area("A", Some(Box(0, 0, 2, 2))), Area("B", Some(Box(4, 4, 6, 6)))]
  const ExamplePoints: seq<(int, int)> := [(1, 1), (1, 1), (5, 5), (18, 18)]
  const ExampleLabels: seq<Label> := [Some("A"), Some("A"), Some("B"), None]

  lemma ExampleAssignment()
    ensures Labels(ExampleAreas, InBox, ExamplePoints) == ExampleLabels
  {
    var areas, points := ExampleAreas, ExamplePoints;
    var labels := Labels(areas, InBox, points);
    assert areas[1..] == [areas[1]] && areas[1..][1..] == [];
    assert labels[0] == Some("A") && labels[1] == Some("A");
    assert labels[2] == Some("B") by {
      assert !Matches(areas[0], InBox, points[2]);
    }
    assert labels[3] == None by {
      assert !Matches(areas[0], InBox, points[3]);
      assert !Matches(areas[1], InBox, points[3]);
    }
  }

  lemma ExampleCounting()
    ensures Count(ExampleLabels, "A") == 2 && Count(ExampleLabels, "B") == 1
    ensures Unassigned(ExampleLabels) == 1
  {
    var labels := ExampleLabels;
    var l1, l2, l3 := labels[..1], labels[..2], labels[..3];
    assert l3 == labels[..3] == [Some("A"), Some("A"), Some("B")];
    assert l2 == l3[..2] == [Some("A"), Some("A")];
    assert l1 == l2[..1] == [Some("A")] && l1[..0] == [];
    assert Count(l1, "A") == 1 && Count(l2, "A") == 2 && Count(l3, "A") == 2;
    assert Count(l1, "B") == 0 && Count(l2, "B") == 0 && Count(l3, "B") == 1;
    assert Unassigned(l1) == 0 && Unassigned(l2) == 0 && Unassigned(l3) == 0;
  }

  lemma ExampleNames()
    ensures FirstOccurrences(ExampleLabels) == ["A", "B"]
  {
    var labels := ExampleLabels;
    var l1, l2, l3 := labels[..1], labels[..2], labels[..3];
    assert l3 == labels[..3] == [Some("A"), Some("A"), Some("B")];
    assert l2 == l3[..2] == [Some("A"), Some("A")];
    assert l1 == l2[..1] == [Some("A")] && l1[..0] == [];
    assert FirstOccurrences(l1) == ["A"];
    assert FirstOccurrences(l2) == ["A"];
    assert FirstOccurrences(l3) == ["A", "B"];
  }

  lemma SortTwo(a: AreaCount, b: AreaCount)
    requires a.count >= b.count
    ensures SortByCount([a, b]) == [a, b]
  {
    assert [a, b][1..] == [b] && [b][1..] == [];
    assert SortByCount([b]) == Insert(b, []) == [b];
    assert InsertPosition(a, [b]) == 0;
  }

  lemma ExampleRanking(labels: seq<Label>)
    requires FirstOccurrences(labels) == ["A", "B"]
    requires Count(labels, "A") == 2 && Count(labels, "B") == 1
    ensures ValueCounts(labels) == [AreaCount("A", 2), AreaCount("B", 1)]
  {
    assert Tally(["A", "B"], labels) == [AreaCount("A", 2), AreaCount("B", 1)];
    SortTwo(AreaCount("A", 2), AreaCount("B", 1));
  }

  /** Areas A and B, two taxis in A, one in B and one outside both: the
      counts are A 2, B 1, with one taxi unassigned; top 2 keeps both, top 0
      keeps none. */
  lemma WorkedExample()
    ensures var labels := Labels(ExampleAreas, InBox, ExamplePoints);
      && labels == [Some("A"), Some("A"), Some("B"), None]
      && ValueCounts(labels) == [AreaCount("A", 2), AreaCount("B", 1)]
      && Unassigned(labels) == 1
      && TopK(ValueCounts(labels), 2) == [AreaCount("A", 2), AreaCount("B", 1)]
      && TopK(ValueCounts(labels), 0) == []
  {
    ExampleAssignment();
    ExampleCounting();
    ExampleNames();
    ExampleRanking(ExampleLabels);
  }
}
