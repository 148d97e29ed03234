# Taxi availability by planning area — a Dafny model

This project models the analysis core of a small command-line tool that
counts available taxis in Singapore by planning area. The tool fetches the
planning-area boundaries and the current taxi positions, assigns every taxi
to the first planning area (in fetch order) whose boundary contains it,
counts taxis per area, keeps the `top_k` areas with the most taxis, ranks
them from 1, computes each ranked area's mean taxi position, looks up a
human-readable description of that position with a thread pool of
reverse-geocoding requests, and prints one table row per ranked area.

The model covers the steps between the fetches and the printing:

- `AreaMatcher` (`area_matcher.dfy`): the first-match scan of
  `get_planning_area`, as a specification function `PlanningArea` and as the
  loop itself, `GetPlanningArea`, plus the assignment column (`Labels`).
  Boundaries and positions are type parameters and the point-in-polygon
  test is a parameter `contains`; a boundary that failed to parse is `None`.
- `Aggregator` (`aggregator.dfy`): `value_counts()` of the assignment
  column, specified by `IsValueCounts` (one entry per assigned area, its
  count, ordered by count, most first) and realised by `ValueCounts`;
  `.head(top_k)` as `TopK`; and the boolean mask that selects one area's
  taxis, as `Members`.
- `Enricher` (`enricher.dfy`): the outcome logic of `get_area_description`
  (`DescribeArea`), the text that ends up in a description slot
  (`SlotText`), and the collection loop that writes each completed lookup
  into the slot of its own index (`FetchDescriptions`), run over an
  arbitrary completion order.
- `Pipeline` (`pipeline.dfy`): the `area_info` append loop
  (`BuildAreaInfo`), the zip of entries with descriptions into rows
  (`Rows`), and one whole run (`Analyze`), plus a worked example.

Details of the code's behaviour the model keeps:

- `top_k` is any integer, as the command line accepts. For a negative
  `top_k`, `.head(top_k)` keeps all rows except the last `-top_k`; the model
  does the same (`HeadLength`), so "at most `top_k` entries" is proved only
  for `top_k >= 0`.
- The code does not break ties between equal counts itself; their order is
  whatever `value_counts()` produces, and when tied areas straddle the
  `top_k` cut it decides which of them are reported. `Analyze` therefore
  takes the `value_counts()` result as an input `counts`, constrained only by
  `IsValueCounts`, and every ranking property, the whole run included, is
  proved for any order that `IsValueCounts` admits. The model's own
  `ValueCounts` is one such result (`ValueCountsMeetsSpec`); it tallies names
  in order of first occurrence and sorts stably by count, so its ties keep
  first-occurrence order (`ValueCountsTieOrder`), which is a property of the
  model's choice and not a promise of `value_counts()`.
- A failed lookup yields `"Unknown"` (non-200 status, a body that is not
  JSON or not an object, a transport error) or `"Unknown"` when the object
  has no `display_name`; only an exception escaping the lookup function
  yields `"Error: ..."`.

## Model

| member | source | states |
|---|---|---|
| `AreaMatcher.GetPlanningArea` | main.py:73-79 | The scan returns None exactly when no area with a parsed boundary contains the point; otherwise it returns the name of the first matching area in fetch order; it agrees with `PlanningArea`. |
| `AreaMatcher.UnassignedIffNoMatch` | main.py:76-79 | A taxi is unassigned if and only if no area whose boundary is present contains it. |
| `AreaMatcher.FirstMatchWins` | main.py:76-78 | When area `i` is the first match, its name is the assignment, even if later areas contain the point too. |
| `AreaMatcher.AssignedIsFirstMatch` | main.py:76-78 | Any assigned name is the name of the first matching area. |
| `AreaMatcher.UnparsedAreaIsSkipped` | main.py:77 | Removing an area whose GeoJSON failed to parse changes no assignment: such an area never matches. |
| `AreaMatcher.Labels` | main.py:122 | The assignment column has one entry per taxi, and entry `k` is the planning area of taxi `k`. |
| `Aggregator.CountPositiveIffAssigned` | main.py:124 | An area has a non-zero count if and only if some taxi was assigned to it. |
| `Aggregator.PointsConserved` | main.py:122-124 | For any result meeting `IsValueCounts`, the counts of all named areas plus the unassigned taxis equal the number of taxis. |
| `Aggregator.FirstOccurrences` | main.py:124 | The distinct names are each listed once and are exactly the assigned areas. |
| `Aggregator.SortByCount` | main.py:124 | The sorted counts are a permutation of the input and are ordered by count, most first. |
| `Aggregator.ValueCountsMeetsSpec` | main.py:124 | The concrete `value_counts()` is a valid result: distinct, complete, correct counts, ordered by count. |
| `Aggregator.FirstOccurrencesInOrder` | main.py:124 | The distinct names are listed in the order in which each area's first taxi appears. |
| `Aggregator.SortIsStable` | main.py:124 | Sorting by count keeps the input order among entries with equal counts. |
| `Aggregator.ValueCountsTieOrder` | main.py:124 | Among areas with equal counts, the model's `ValueCounts` lists first the area whose first taxi comes first (one admissible order; `value_counts()` does not promise it). |
| `Aggregator.HeadLength` | main.py:124 | `head(n)` keeps `min(n, len)` rows for `n >= 0`, and all but the last `-n` rows for a negative `n`. |
| `Aggregator.TopK` | main.py:124 | The top-K list is the prefix of the counts whose length `head(top_k)` keeps. |
| `Aggregator.TopKIsRanking` | main.py:124 | The top-K list has at most `top_k` entries (when `top_k >= 0`) and at most one per assigned area; for `top_k >= 0` it has exactly the smaller of `top_k` and the number of assigned areas. It is empty for `top_k = 0` and ordered by count. Its entries are distinct assigned areas, each with its true count of at least 1. No left-out area has a larger count than a kept one. A `top_k` at least the number of assigned areas keeps them all. |
| `Aggregator.TopKEntriesAreAssigned` | main.py:124 | Every kept entry is an assigned area with its true count, which is at least 1. |
| `Aggregator.TopKOmitsOnlySmaller` | main.py:124 | No area left out of the top-K list has more taxis than any area kept in it. |
| `Aggregator.Members` | main.py:135 | The mask `planning_area == area` selects exactly the positions of the taxis assigned to that area, each once, in increasing order; their number is the area's count. |
| `Enricher.DescribeArea` | main.py:82-100 | The description is the display name of a status-200 JSON object that carries one; every other status, body or failure gives "Unknown". |
| `Enricher.SlotText` | main.py:158-163 | A slot holds the lookup's description when the task returned, and "Error: " followed by the message when an exception escaped it. |
| `Enricher.Descriptions` | main.py:143-164 | The descriptions have one slot per entry, and slot `i` holds the text of task `i`'s outcome. |
| `Enricher.FailureIsIsolated` | main.py:160-163 | Changing one task's outcome (a failure, say) changes only that task's slot. |
| `Enricher.CompletionOrderCoversAll` | main.py:158 | An order in which each of the `n` tasks completes once contains every index below `n`. |
| `Enricher.FetchDescriptions` | main.py:143-164 | Whatever the completion order, every slot is written exactly once, with its own task's result, the progress count reaches the number of tasks, and the result equals `Descriptions`. |
| `Pipeline.Group` | main.py:135 | The taxis whose mean is an area's location are as many as the area's count. |
| `Pipeline.GroupOfRankedArea` | main.py:134-135 | For each ranked area, the group of taxis averaged is non-empty, has the area's count, and holds exactly the taxis assigned to that area. |
| `Pipeline.BuildAreaInfo` | main.py:133-138 | Entry `i` of `area_info` has rank `i + 1`, the `i`-th ranked area and count, and that area's group of taxis. |
| `Pipeline.AreaLabel` | main.py:170 | The area column is never empty: an empty name is shown as "Unknown", any other name as itself. |
| `Pipeline.RowsAligned` | main.py:166-171 | With one description per entry, the zip drops nothing and row `i` pairs entry `i` with description `i`. |
| `Pipeline.RowsFollowRanking` | main.py:133-138 | Rows built from a valid ranking are ordered by count, at most `top_k` of them, and each count is at least 1 and equals the size of the row's group. |
| `Pipeline.Analyze` | main.py:122-171 | For any `value_counts()` result that `IsValueCounts` admits, whatever its order among ties, a run reports the number of taxis and one row per ranked area. Row `i` has rank `i + 1`, the area's label, count and group, and the description of its own group's lookup. Rows are ordered by count, each count is at least 1 and equals the group size, and there are at most `top_k` rows. |
| `Pipeline.WorkedExample` | main.py:122-124 | Two boxes A and B, two taxis in A, one in B and one in neither: the counts are A 2 and B 1, one taxi is unassigned, top 2 keeps both and top 0 keeps none. |

## Left out

- The network fetches (`fetch_planning_areas`, `fetch_taxi_availability`, main.py:34-70) are not modelled: their results are the inputs `areas` and `points`, and their failures end the run before the core starts.
- The reverse-geocoding HTTP request (main.py:84-87) is not modelled; its result is the input `Lookup` (status and body, or a transport error such as the 20-second timeout).
- `get_config` (main.py:18-31) reads the environment and exits the process; it is not modelled.
- GeoJSON parsing and the point-in-polygon test are foreign library calls on floating point; boundaries are the type parameter `G`, a failed parse is `None`, and containment is the parameter `contains`.
- `AreaMatcher.Matches` treats any parsed boundary as present, whereas the geometry library also treats an empty geometry as false; since an empty geometry contains no point, the result is the same for any `contains` that never holds for an empty boundary.
- The mean latitude and longitude and the Google Maps link (main.py:135-137) are floating-point arithmetic and string formatting; the model keeps the group of taxis that is averaged.
- The thread pool with two workers and its scheduling (main.py:153-158) are not modelled: the completion order is an input permutation. The 20-second request timeout (main.py:87) is not modelled either: a timeout is a `TransportError` outcome.
- The progress spinner (main.py:144-152, 164) is kept only as the `completed` count.
- Warning and error messages printed to the console (main.py:47, 92-99) are not modelled.
- The command-line wiring, the table rendering with `str()` of rank and count, and the fatal-error exit (main.py:103-131, 169-180) are not modelled; `Report` stands for the table.
- `Enricher.DescribeArea`: a JSON `null` display name would be returned as `None` by the source; the model's display name is either absent or a string.
- The order among equal counts in `value_counts()` is not fixed: `Analyze` and the ranking lemmas hold for every order `IsValueCounts` admits; only the model's `ValueCounts` is shown to keep first-occurrence order, see above.
- The integration tests call the live services and have no logic to model.
