/** Describing the ranked areas by reverse geocoding, and collecting the
    descriptions in rank order whatever order the lookups finish in.

    The HTTP call is not modelled; what it produced is an input, as a tagged
    outcome. The thread pool is not modelled either; the order in which its
    lookups complete is an input, a permutation of the entry indices. */
module Enricher {
  import opened Wrappers

  /** The JSON body of a reverse-geocoding response. */
  datatype Body =
    | JsonObject(displayName: Option<string>)  // an object, with or without "display_name"
    | OtherJson                                // valid JSON that is not an object
    | NotJson                                  // not valid JSON at all

  /** What the HTTP request produced. */
  datatype Lookup =
    | Answered(status: int, body: Body)
    | TransportError                           // timeout, connection error, ...

  /** What a lookup task delivered to the thread pool. */
  datatype TaskOutcome =
    | Returned(lookup: Lookup)                 // the description function returned
    | Escaped(message: string)                 // an exception escaped it

  const Unknown: string := "Unknown"

  /** A successful lookup: status 200 and a JSON object carrying a display name. */
  predicate HasDisplayName(lookup: Lookup) {
    lookup.Answered? && lookup.status == 200 && lookup.body.JsonObject? && lookup.body.displayName.Some?
  }

  /** The description of one location: the display name of a successful
      lookup, "Unknown" for every other status, body or failure. A JSON body
      that is not an object makes the name lookup raise, and a body that is
      not JSON makes decoding raise; both are caught and give "Unknown". */
  function DescribeArea(lookup: Lookup): (description: string)
    ensures HasDisplayName(lookup) ==> description == lookup.body.displayName.value
    ensures !HasDisplayName(lookup) ==> description == Unknown
  {
    if lookup.Answered? && lookup.status == 200 then
      match lookup.body
      case JsonObject(displayName) => displayName.GetOr(Unknown)
      case OtherJson => Unknown
      case NotJson => Unknown
    else
      Unknown
  }

  /** The text stored in one description slot. */
  function SlotText(outcome: TaskOutcome): (text: string)
    ensures outcome.Escaped? ==> text == "Error: " + outcome.message
    ensures outcome.Returned? ==> text == DescribeArea(outcome.lookup)
  {
    match outcome
    case Returned(lookup) => DescribeArea(lookup)
    case Escaped(message) => "Error: " + message
  }

  /** The descriptions in entry order: slot `i` holds the text of task `i`'s
      outcome and of no other. */
  function Descriptions(outcomes: seq<TaskOutcome>): (texts: seq<string>)
    ensures |texts| == |outcomes|
    ensures forall i | 0 <= i < |texts| :: texts[i] == SlotText(outcomes[i])
  {
    seq(|outcomes|, i requires 0 <= i < |outcomes| => SlotText(outcomes[i]))
  }

  /** A failed lookup affects only its own slot: changing one task's outcome
      changes no other description. */
  lemma FailureIsIsolated(outcomes: seq<TaskOutcome>, j: int, other: TaskOutcome)
    requires 0 <= j < |outcomes|
    ensures var changed := Descriptions(outcomes[j := other]);
      && |changed| == |outcomes|
      && changed[j] == SlotText(other)
      && forall i | 0 <= i < |outcomes| && i != j :: changed[i] == Descriptions(outcomes)[i]
  {
  }

  /** An order in which the `n` lookups can complete: every index below `n`,
      each exactly once. */
  ghost predicate IsCompletionOrder(order: seq<nat>, n: nat) {
    && |order| == n
    && (forall k | 0 <= k < |order| :: order[k] < n)
    && (forall k, l | 0 <= k < l < |order| :: order[k] != order[l])
  }

  /** The indices below `n`. */
  function Below(n: nat): (indices: set<nat>)
    ensures forall i: nat :: i in indices <==> i < n
  {
    if n == 0 then {} else Below(n - 1) + {n - 1}
  }

  lemma {:induction false} BelowCardinality(n: nat)
    ensures |Below(n)| == n
  {
    if n > 0 {
      var smaller := Below(n - 1);
      BelowCardinality(n - 1);
      assert n - 1 !in smaller;
      assert |smaller + {n - 1}| == n;
    }
  }

  lemma {:induction false} DistinctCardinality(order: seq<nat>)
    requires forall k, l | 0 <= k < l < |order| :: order[k] != order[l]
    ensures |set k | 0 <= k < |order| :: order[k]| == |order|
  {
    if order != [] {
      var init := order[..|order| - 1];
      DistinctCardinality(init);
      var s := set k | 0 <= k < |order| :: order[k];
      var t := set k | 0 <= k < |init| :: init[k];
      assert s == t + {order[|order| - 1]};
      assert order[|order| - 1] !in t;
    }
  }

  /** Every index completes: a completion order of `n` lookups contains every
      index below `n`. */
  lemma CompletionOrderCoversAll(order: seq<nat>, n: nat)
    requires IsCompletionOrder(order, n)
    ensures forall i | 0 <= i < n :: i in order
  {
    var s := set k | 0 <= k < |order| :: order[k];
    DistinctCardinality(order);
    BelowCardinality(n);
    assert s <= Below(n);
    assert |Below(n) - s| == 0;
    assert s == Below(n);
    forall i | 0 <= i < n ensures i in order {
      assert i in s;
    }
  }

  /** The collection loop: slots start empty and, as each lookup completes
      (in `order`), its result is written into the slot of its own index. At
      the end every slot has been written exactly once, `completed` counts
      every lookup, and the descriptions are in entry order whatever the
      completion order was. */
  method FetchDescriptions(outcomes: seq<TaskOutcome>, order: seq<nat>)
    returns (descriptions: seq<string>, completed: nat, ghost writes: seq<nat>)
    requires IsCompletionOrder(order, |outcomes|)
    ensures descriptions == Descriptions(outcomes)
    ensures completed == |outcomes|
    ensures |writes| == |outcomes| && forall i | 0 <= i < |writes| :: writes[i] == 1
  {
    var n := |outcomes|;
    var slots := new string[n](_ => "");
    writes := seq(n, _ => 0);
    completed := 0;
    var k := 0;
    while k < n
      invariant 0 <= k <= n && completed == k
      invariant |writes| == n
      invariant forall i | 0 <= i < n ::
        if i in order[..k] then slots[i] == SlotText(outcomes[i]) && writes[i] == 1
        else slots[i] == "" && writes[i] == 0
    {
      var idx := order[k];
      assert order[..k + 1] == order[..k] + [idx];
      assert idx !in order[..k];
      slots[idx] := SlotText(outcomes[idx]);
      writes := writes[idx := writes[idx] + 1];
      completed := completed + 1;
      k := k + 1;
    }
    CompletionOrderCoversAll(order, n);
    assert order[..n] == order;
    descriptions := slots[..];
  }
}
