/** Counting taxis per planning area and ranking the areas.

    This is `value_counts()` on the assignment column (unassigned taxis are
    dropped, the named areas are ordered by count, most first), `.head(top_k)`
    on the result, and the boolean mask that selects the taxis of one area
    for its representative location. */
module Aggregator {
  import opened Wrappers
  import opened AreaMatcher

  /** One entry of the counts: a planning area and its number of taxis. */
  datatype AreaCount = AreaCount(name: string, count: nat)

  /** Number of taxis assigned to `name`. */
  function Count(labels: seq<Label>, name: string): nat {
    if labels == [] then 0
    else Count(labels[..|labels| - 1], name) + (if labels[|labels| - 1] == Some(name) then 1 else 0)
  }

  /** Number of taxis no planning area contains. */
  function Unassigned(labels: seq<Label>): nat {
    if labels == [] then 0
    else Unassigned(labels[..|labels| - 1]) + (if labels[|labels| - 1].None? then 1 else 0)
  }

  /** Number of taxis assigned to some area in `names`. */
  function CountIn(labels: seq<Label>, names: set<string>): nat {
    if labels == [] then 0
    else
      var last := labels[|labels| - 1];
      CountIn(labels[..|labels| - 1], names) + (if last.Some? && last.value in names then 1 else 0)
  }

  /** The names of the areas that at least one taxi was assigned to. */
  function AssignedNames(labels: seq<Label>): set<string> {
    set k | 0 <= k < |labels| && labels[k].Some? :: labels[k].value
  }

  /** The area names appearing in a list of counts. */
  function Names(counts: seq<AreaCount>): set<string> {
    set i | 0 <= i < |counts| :: counts[i].name
  }

  /** The total of a list of counts. */
  function SumCounts(counts: seq<AreaCount>): nat {
    if counts == [] then 0 else counts[0].count + SumCounts(counts[1..])
  }

  ghost predicate DistinctNames(counts: seq<AreaCount>) {
    forall i, j | 0 <= i < j < |counts| :: counts[i].name != counts[j].name
  }

  /** Ordered by count, most first; the order among equal counts is left open. */
  ghost predicate SortedByCount(counts: seq<AreaCount>) {
    forall i, j | 0 <= i < j < |counts| :: counts[i].count >= counts[j].count
  }

  /** What `value_counts()` promises of its result: one entry per assigned
      area (unassigned taxis are dropped), each with that area's number of
      taxis, ordered by count, most first. */
  ghost predicate IsValueCounts(labels: seq<Label>, counts: seq<AreaCount>) {
    && DistinctNames(counts)
    && SortedByCount(counts)
    && Names(counts) == AssignedNames(labels)
    && forall i | 0 <= i < |counts| :: counts[i].count == Count(labels, counts[i].name)
  }

  // ---------------------------------------------------------------------------
  // Counting lemmas

  lemma {:induction false} AssignedNamesOfPrefix(labels: seq<Label>)
    requires labels != []
    ensures var init := labels[..|labels| - 1];
            var last := labels[|labels| - 1];
            AssignedNames(labels) == AssignedNames(init) + (if last.Some? then {last.value} else {})
  {
    var init := labels[..|labels| - 1];
    assert forall k | 0 <= k < |init| :: init[k] == labels[k];
  }

  /** Every assigned area has at least one taxi, and only assigned areas have any. */
  lemma {:induction false} CountPositiveIffAssigned(labels: seq<Label>, name: string)
    ensures Count(labels, name) >= 1 <==> name in AssignedNames(labels)
  {
    if labels != [] {
      AssignedNamesOfPrefix(labels);
      CountPositiveIffAssigned(labels[..|labels| - 1], name);
    }
  }

  lemma {:induction false} CountInAddName(labels: seq<Label>, names: set<string>, name: string)
    requires name !in names
    ensures CountIn(labels, names + {name}) == CountIn(labels, names) + Count(labels, name)
  {
    if labels != [] {
      CountInAddName(labels[..|labels| - 1], names, name);
    }
  }

  lemma {:induction false} CountInEmpty(labels: seq<Label>)
    ensures CountIn(labels, {}) == 0
  {
    if labels != [] {
      CountInEmpty(labels[..|labels| - 1]);
    }
  }

  lemma {:induction false} SumCountsIsCountIn(labels: seq<Label>, counts: seq<AreaCount>)
    requires DistinctNames(counts)
    requires forall i | 0 <= i < |counts| :: counts[i].count == Count(labels, counts[i].name)
    ensures SumCounts(counts) == CountIn(labels, Names(counts))
  {
    if counts == [] {
      assert Names(counts) == {};
      CountInEmpty(labels);
    } else {
      var rest := counts[1..];
      SumCountsIsCountIn(labels, rest);
      assert Names(counts) == Names(rest) + {counts[0].name} by {
        assert forall i | 1 <= i < |counts| :: counts[i] == rest[i - 1];
      }
      CountInAddName(labels, Names(rest), counts[0].name);
    }
  }

  lemma {:induction false} CountInCoversAssigned(labels: seq<Label>, names: set<string>)
    requires AssignedNames(labels) <= names
    ensures CountIn(labels, names) + Unassigned(labels) == |labels|
  {
    if labels != [] {
      AssignedNamesOfPrefix(labels);
      CountInCoversAssigned(labels[..|labels| - 1], names);
    }
  }

  /** Conservation of taxis: the counts of all named areas plus the number of
      unassigned taxis is the number of taxis. */
  lemma PointsConserved(labels: seq<Label>, counts: seq<AreaCount>)
    requires IsValueCounts(labels, counts)
    ensures SumCounts(counts) + Unassigned(labels) == |labels|
  {
    SumCountsIsCountIn(labels, counts);
    CountInCoversAssigned(labels, Names(counts));
  }

  lemma {:induction false} DistinctNamesCardinality(counts: seq<AreaCount>)
    requires DistinctNames(counts)
    ensures |Names(counts)| == |counts|
  {
    if counts != [] {
      var rest := counts[1..];
      DistinctNamesCardinality(rest);
      assert Names(counts) == Names(rest) + {counts[0].name} by {
        assert forall i | 1 <= i < |counts| :: counts[i] == rest[i - 1];
      }
      assert counts[0].name !in Names(rest);
    }
  }

  // ---------------------------------------------------------------------------
  // A concrete value_counts: distinct names in first-occurrence order, their
  // counts, then a stable sort by count, most first.

  /** The assigned area names, each once, in order of first occurrence. */
  function FirstOccurrences(labels: seq<Label>): (names: seq<string>)
    ensures forall i, j | 0 <= i < j < |names| :: names[i] != names[j]
    ensures forall n :: n in names <==> n in AssignedNames(labels)
  {
    if labels == [] then []
    else
      var init := labels[..|labels| - 1];
      var last := labels[|labels| - 1];
      AssignedNamesOfPrefix(labels);
      var names := FirstOccurrences(init);
      if last.Some? && last.value !in names then names + [last.value] else names
  }

  function Tally(names: seq<string>, labels: seq<Label>): (counts: seq<AreaCount>)
    ensures |counts| == |names|
    ensures forall i | 0 <= i < |counts| :: counts[i] == AreaCount(names[i], Count(labels, names[i]))
  {
    seq(|names|, i requires 0 <= i < |names| => AreaCount(names[i], Count(labels, names[i])))
  }

  /** Where `e` goes in a list sorted by count: after every strictly larger
      count, before the first count not larger. */
  function InsertPosition(e: AreaCount, sorted: seq<AreaCount>): (p: nat)
    ensures p <= |sorted|
    ensures forall i | 0 <= i < p :: sorted[i].count > e.count
    ensures p < |sorted| ==> sorted[p].count <= e.count
  {
    if sorted == [] || sorted[0].count <= e.count then 0
    else 1 + InsertPosition(e, sorted[1..])
  }

  function Insert(e: AreaCount, sorted: seq<AreaCount>): seq<AreaCount> {
    var p := InsertPosition(e, sorted);
    sorted[..p] + [e] + sorted[p..]
  }

  lemma InsertKeepsSorted(e: AreaCount, sorted: seq<AreaCount>)
    requires SortedByCount(sorted)
    ensures SortedByCount(Insert(e, sorted))
  {
    var p := InsertPosition(e, sorted);
    var r := Insert(e, sorted);
    forall i, j | 0 <= i < j < |r| ensures r[i].count >= r[j].count {
      if j < p {
        assert r[i] == sorted[i] && r[j] == sorted[j];
      } else if j == p {
        assert r[i] == sorted[i];
      } else if i < p {
        assert r[i] == sorted[i] && r[j] == sorted[j - 1];
      } else if i == p {
        assert r[j] == sorted[j - 1];
        assert sorted[p].count >= sorted[j - 1].count;
      } else {
        assert r[i] == sorted[i - 1] && r[j] == sorted[j - 1];
      }
    }
  }

  lemma InsertKeepsDistinct(e: AreaCount, sorted: seq<AreaCount>)
    requires DistinctNames(sorted) && e.name !in Names(sorted)
    ensures DistinctNames(Insert(e, sorted))
    ensures Names(Insert(e, sorted)) == Names(sorted) + {e.name}
  {
    var p := InsertPosition(e, sorted);
    var r := Insert(e, sorted);
    assert forall i | 0 <= i < p :: r[i] == sorted[i];
    assert r[p] == e;
    assert forall i | p < i < |r| :: r[i] == sorted[i - 1];
    forall i, j | 0 <= i < j < |r| ensures r[i].name != r[j].name {
      if i == p {
        assert r[j].name in Names(sorted);
      } else if j == p {
        assert r[i].name in Names(sorted);
      }
    }
    forall n | n in Names(r) ensures n in Names(sorted) + {e.name} {
      var i :| 0 <= i < |r| && r[i].name == n;
      if i < p { assert sorted[i].name == n; } else if i > p { assert sorted[i - 1].name == n; }
    }
    forall n | n in Names(sorted) ensures n in Names(r) {
      var i :| 0 <= i < |sorted| && sorted[i].name == n;
      if i < p { assert r[i].name == n; } else { assert r[i + 1].name == n; }
    }
  }

  lemma InsertElements(e: AreaCount, sorted: seq<AreaCount>)
    ensures multiset(Insert(e, sorted)) == multiset(sorted) + multiset{e}
  {
    var p := InsertPosition(e, sorted);
    assert sorted == sorted[..p] + sorted[p..];
  }

  /** Insertion sort by count, most first; equal counts keep their order. */
  function SortByCount(counts: seq<AreaCount>): (sorted: seq<AreaCount>)
    ensures multiset(sorted) == multiset(counts)
    ensures SortedByCount(sorted)
  {
    if counts == [] then []
    else
      var rest := SortByCount(counts[1..]);
      InsertKeepsSorted(counts[0], rest);
      InsertElements(counts[0], rest);
      assert counts == [counts[0]] + counts[1..];
      Insert(counts[0], rest)
  }

  lemma {:induction false} SortKeepsNames(counts: seq<AreaCount>)
    requires DistinctNames(counts)
    ensures DistinctNames(SortByCount(counts))
    ensures Names(SortByCount(counts)) == Names(counts)
  {
    if counts != [] {
      var rest := counts[1..];
      SortKeepsNames(rest);
      assert Names(counts) == Names(rest) + {counts[0].name} by {
        assert forall i | 1 <= i < |counts| :: counts[i] == rest[i - 1];
      }
      assert counts[0].name !in Names(rest);
      InsertKeepsDistinct(counts[0], SortByCount(rest));
    }
  }

  /** `value_counts()` of the assignment column. */
  function ValueCounts(labels: seq<Label>): seq<AreaCount> {
    SortByCount(Tally(FirstOccurrences(labels), labels))
  }

  /** The concrete value_counts meets everything `value_counts()` promises. */
  lemma ValueCountsMeetsSpec(labels: seq<Label>)
    ensures IsValueCounts(labels, ValueCounts(labels))
  {
    var names := FirstOccurrences(labels);
    var tally := Tally(names, labels);
    var vc := ValueCounts(labels);
    assert Names(tally) == AssignedNames(labels) by {
      forall n | n in AssignedNames(labels) ensures n in Names(tally) {
        var i :| 0 <= i < |names| && names[i] == n;
        assert tally[i].name == n;
      }
    }
    SortKeepsNames(tally);
    forall i | 0 <= i < |vc| ensures vc[i].count == Count(labels, vc[i].name) {
      assert vc[i] in multiset(tally);
    }
  }

  // ---------------------------------------------------------------------------
  // Ties: the concrete value_counts keeps equal counts in first-occurrence order

  /** Position of the first taxi assigned to `name`, or the number of taxis
      when there is none. */
  function FirstIndex(labels: seq<Label>, name: string): (k: nat)
    ensures k <= |labels|
    ensures k < |labels| <==> name in AssignedNames(labels)
    ensures k < |labels| ==> labels[k] == Some(name)
    ensures forall j | 0 <= j < k && j < |labels| :: labels[j] != Some(name)
  {
    if labels == [] then 0
    else
      var init := labels[..|labels| - 1];
      AssignedNamesOfPrefix(labels);
      var k := FirstIndex(init, name);
      if k < |init| || labels[|labels| - 1] == Some(name) then k else |labels|
  }

  /** Names strictly increasing by `rank`. */
  ghost predicate IncreasingBy(counts: seq<AreaCount>, rank: string -> nat) {
    forall i, j | 0 <= i < j < |counts| :: rank(counts[i].name) < rank(counts[j].name)
  }

  /** Entries with equal counts strictly increasing by `rank`. */
  ghost predicate TiesIncreasingBy(counts: seq<AreaCount>, rank: string -> nat) {
    forall i, j | 0 <= i < j < |counts| && counts[i].count == counts[j].count ::
      rank(counts[i].name) < rank(counts[j].name)
  }

  /** `names` are listed in order of their first occurrence in `labels`. */
  ghost predicate InFirstOccurrenceOrder(labels: seq<Label>, names: seq<string>) {
    forall i, j | 0 <= i < j < |names| :: FirstIndex(labels, names[i]) < FirstIndex(labels, names[j])
  }

  /** The distinct names come in order of their first occurrence. */
  lemma {:induction false} FirstOccurrencesInOrder(labels: seq<Label>)
    ensures InFirstOccurrenceOrder(labels, FirstOccurrences(labels))
  {
    if labels != [] {
      var init := labels[..|labels| - 1];
      var last := labels[|labels| - 1];
      FirstOccurrencesInOrder(init);
      var before := FirstOccurrences(init);
      assert InFirstOccurrenceOrder(init, before);
      var names := FirstOccurrences(labels);
      assert names[..|before|] == before;
      forall i | 0 <= i < |before|
        ensures names[i] == before[i] && FirstIndex(labels, before[i]) == FirstIndex(init, before[i]) < |init|
      {
        assert names[..|before|][i] == names[i];
        assert before[i] in before;
      }
      if |names| > |before| {
        assert last.Some? && last.value !in before && names == before + [last.value];
        assert last.value !in AssignedNames(init);
        assert FirstIndex(labels, last.value) == |init|;
        assert names[|before|] == last.value;
      }
      forall i, j | 0 <= i < j < |names| ensures FirstIndex(labels, names[i]) < FirstIndex(labels, names[j]) {
        assert FirstIndex(labels, names[i]) == FirstIndex(init, before[i]) < |init|;
        if j < |before| {
          assert FirstIndex(labels, names[j]) == FirstIndex(init, before[j]);
          assert FirstIndex(init, before[i]) < FirstIndex(init, before[j]) by {
            assert InFirstOccurrenceOrder(init, before);
          }
        } else {
          assert j == |before| && names[j] == last.value;
          assert FirstIndex(labels, names[j]) == |init|;
        }
      }
    }
  }

  lemma InsertKeepsTiesOrdered(e: AreaCount, sorted: seq<AreaCount>, rank: string -> nat)
    requires TiesIncreasingBy(sorted, rank)
    requires forall i | 0 <= i < |sorted| :: rank(e.name) < rank(sorted[i].name)
    ensures TiesIncreasingBy(Insert(e, sorted), rank)
  {
    var p := InsertPosition(e, sorted);
    var r := Insert(e, sorted);
    forall i, j | 0 <= i < j < |r| && r[i].count == r[j].count
      ensures rank(r[i].name) < rank(r[j].name)
    {
      if j < p {
        assert r[i] == sorted[i] && r[j] == sorted[j];
      } else if i < p && p < j {
        assert r[i] == sorted[i] && r[j] == sorted[j - 1];
      } else if i == p {
        assert r[j] == sorted[j - 1];
      } else if p < i {
        assert r[i] == sorted[i - 1] && r[j] == sorted[j - 1];
      }
    }
  }

  /** The insertion sort is stable: entries with equal counts keep the order
      they had in the input. */
  lemma {:induction false} SortIsStable(counts: seq<AreaCount>, rank: string -> nat)
    requires IncreasingBy(counts, rank)
    ensures TiesIncreasingBy(SortByCount(counts), rank)
  {
    if counts != [] {
      var rest := counts[1..];
      SortIsStable(rest, rank);
      var sorted := SortByCount(rest);
      forall i | 0 <= i < |sorted| ensures rank(counts[0].name) < rank(sorted[i].name) {
        assert sorted[i] in multiset(rest);
        var j :| 0 <= j < |rest| && rest[j] == sorted[i];
        assert rest[j] == counts[j + 1];
      }
      InsertKeepsTiesOrdered(counts[0], sorted, rank);
    }
  }

  /** Among areas with equal counts, the concrete value_counts lists first
      the area whose first taxi comes first. */
  lemma ValueCountsTieOrder(labels: seq<Label>)
    ensures var counts := ValueCounts(labels);
      forall i, j | 0 <= i < j < |counts| && counts[i].count == counts[j].count ::
        FirstIndex(labels, counts[i].name) < FirstIndex(labels, counts[j].name)
  {
    var rank := (n: string) => FirstIndex(labels, n);
    FirstOccurrencesInOrder(labels);
    var names := FirstOccurrences(labels);
    var tally := Tally(names, labels);
    forall i, j | 0 <= i < j < |tally| ensures rank(tally[i].name) < rank(tally[j].name) {
      assert tally[i].name == names[i] && tally[j].name == names[j];
      assert rank(names[i]) == FirstIndex(labels, names[i]) && rank(names[j]) == FirstIndex(labels, names[j]);
      assert FirstIndex(labels, names[i]) < FirstIndex(labels, names[j]);
    }
    SortIsStable(tally, rank);
  }

  // ---------------------------------------------------------------------------
  // head(top_k) and the ranking

  /** Number of rows `head(n)` keeps of `len`: the first `n`, or for a negative
      `n` all but the last `-n`. */
  function HeadLength(len: nat, n: int): (k: nat)
    ensures k <= len
    ensures n >= 0 ==> k == if n < len then n else len
    ensures n < 0 ==> k + (if -n < len then -n else len) == len
  {
    if n >= 0 then (if n < len then n else len)
    else if -n < len then len + n else 0
  }

  /** `.head(top_k)` of the counts. */
  function TopK(counts: seq<AreaCount>, topK: int): (top: seq<AreaCount>)
    ensures |top| == HeadLength(|counts|, topK) && top == counts[..|top|]
  {
    counts[..HeadLength(|counts|, topK)]
  }

  lemma TopKEntriesAreAssigned(labels: seq<Label>, counts: seq<AreaCount>, topK: int)
    requires IsValueCounts(labels, counts)
    ensures var top := TopK(counts, topK);
      forall i | 0 <= i < |top| ::
        && top[i].name in AssignedNames(labels)
        && top[i].count == Count(labels, top[i].name)
        && top[i].count >= 1
  {
    var top := TopK(counts, topK);
    forall i | 0 <= i < |top|
      ensures top[i].name in AssignedNames(labels) && top[i].count == Count(labels, top[i].name) >= 1
    {
      assert top[i] == counts[i];
      assert counts[i].name in Names(counts);
      CountPositiveIffAssigned(labels, top[i].name);
    }
  }

  lemma TopKOmitsOnlySmaller(labels: seq<Label>, counts: seq<AreaCount>, topK: int)
    requires IsValueCounts(labels, counts)
    ensures var top := TopK(counts, topK);
      forall i, n | 0 <= i < |top| && n in AssignedNames(labels) && n !in Names(top) ::
        Count(labels, n) <= top[i].count
  {
    var top := TopK(counts, topK);
    forall i, n | 0 <= i < |top| && n in AssignedNames(labels) && n !in Names(top)
      ensures Count(labels, n) <= top[i].count
    {
      var j :| 0 <= j < |counts| && counts[j].name == n;
      assert counts[i] == top[i];
    }
  }

  /** The top-K list is a ranking: no longer than top_k (when top_k is not
      negative) nor than the number of assigned areas, empty for top_k = 0,
      ordered by count, each entry a distinct assigned area with its true
      count, no left-out area outranks a kept one, and a top_k at least the
      number of assigned areas keeps them all. */
  lemma TopKIsRanking(labels: seq<Label>, counts: seq<AreaCount>, topK: int)
    requires IsValueCounts(labels, counts)
    ensures var top := TopK(counts, topK);
      && (topK >= 0 ==> |top| <= topK)
      && (topK >= 0 ==> |top| == if topK < |AssignedNames(labels)| then topK else |AssignedNames(labels)|)
      && (topK == 0 ==> top == [])
      && |top| <= |AssignedNames(labels)|
      && SortedByCount(top)
      && DistinctNames(top)
      && (forall i | 0 <= i < |top| ::
            && top[i].name in AssignedNames(labels)
            && top[i].count == Count(labels, top[i].name)
            && top[i].count >= 1)
      && (forall i, n | 0 <= i < |top| && n in AssignedNames(labels) && n !in Names(top) ::
            Count(labels, n) <= top[i].count)
      && (topK >= |AssignedNames(labels)| ==> Names(top) == AssignedNames(labels))
  {
    DistinctNamesCardinality(counts);
    TopKEntriesAreAssigned(labels, counts, topK);
    TopKOmitsOnlySmaller(labels, counts, topK);
  }

  // ---------------------------------------------------------------------------
  // The boolean mask that selects one area's taxis

  /** Positions of the taxis assigned to `name`, in increasing order: the rows
      `df["planning_area"] == name` selects. */
  function Members(labels: seq<Label>, name: string): (rows: seq<nat>)
    ensures |rows| == Count(labels, name)
    ensures forall j | 0 <= j < |rows| :: rows[j] < |labels| && labels[rows[j]] == Some(name)
    ensures forall j, j' | 0 <= j < j' < |rows| :: rows[j] < rows[j']
    ensures forall k | 0 <= k < |labels| && labels[k] == Some(name) :: k in rows
  {
    if labels == [] then []
    else
      var init := labels[..|labels| - 1];
      var rows := Members(init, name);
      if labels[|labels| - 1] == Some(name) then rows + [|labels| - 1] else rows
  }
}
