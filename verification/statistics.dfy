/**
 * The report of `get_statistics`: the total number of alerts, the per-type
 * counts, and one summary per alert type in the order in which the types
 * were first seen (the insertion order of the per-type count dictionary).
 */
module Statistics {
  import opened Counting

  datatype TypeSummary = TypeSummary(
    alertType: string,
    totalAlerts: nat,
    uniquePatterns: nat,
    repetitionRatio: real)

  datatype Report = Report(
    totalAlerts: nat,
    alertsByType: map<string, nat>,
    typeDistribution: seq<TypeSummary>)

  predicate NoDuplicates(order: seq<string>)
  {
    forall i, j :: 0 <= i < j < |order| ==> order[i] != order[j]
  }

  /** `sum(counts.values())` when `order` lists the keys of `counts`. */
  function SumOver(order: seq<string>, counts: map<string, nat>): nat
    decreases |order|
  {
    if order == [] then 0
    else SumOver(order[..|order| - 1], counts) + Count(counts, order[|order| - 1])
  }

  /** The summary of one type: its alert count, its distinct patterns and their ratio. */
  function SummaryOf(t: string, typeCounts: map<string, nat>, alertCounts: map<string, map<string, nat>>): (s: TypeSummary)
    requires t in typeCounts && t in alertCounts && |alertCounts[t]| > 0
    ensures s.alertType == t
    ensures s.totalAlerts == typeCounts[t] && s.uniquePatterns == |alertCounts[t]|
    ensures s.repetitionRatio * (s.uniquePatterns as real) == s.totalAlerts as real
  {
    TypeSummary(t, typeCounts[t], |alertCounts[t]|, typeCounts[t] as real / |alertCounts[t]| as real)
  }

  /** The type distribution: one summary per type, in `order`. */
  function Summarize(order: seq<string>, typeCounts: map<string, nat>, alertCounts: map<string, map<string, nat>>)
    : (r: seq<TypeSummary>)
    requires forall t :: t in order ==> t in typeCounts && t in alertCounts && |alertCounts[t]| > 0
    ensures |r| == |order|
    ensures forall i :: 0 <= i < |r| ==> r[i] == SummaryOf(order[i], typeCounts, alertCounts)
    decreases |order|
  {
    if order == [] then []
    else Summarize(order[..|order| - 1], typeCounts, alertCounts) + [SummaryOf(order[|order| - 1], typeCounts, alertCounts)]
  }

  /** The sum only looks at the keys listed in `order`. */
  lemma {:induction false} SumOverFrame(order: seq<string>, c1: map<string, nat>, c2: map<string, nat>)
    requires forall t :: t in order ==> Count(c1, t) == Count(c2, t)
    ensures SumOver(order, c1) == SumOver(order, c2)
    decreases |order|
  {
    if order != [] {
      SumOverFrame(order[..|order| - 1], c1, c2);
    }
  }

  /** Recording the first alert of a new type adds one to the total. */
  lemma SumOverNewKey(order: seq<string>, counts: map<string, nat>, t: string)
    requires t !in order
    ensures SumOver(order + [t], counts[t := 1]) == SumOver(order, counts) + 1
  {
    assert (order + [t])[..|order|] == order;
    SumOverFrame(order, counts, counts[t := 1]);
  }

  /** Recording one more alert of a known type adds one to the total. */
  lemma {:induction false} SumOverIncrement(order: seq<string>, counts: map<string, nat>, t: string)
    requires t in order && NoDuplicates(order)
    ensures SumOver(order, Increment(counts, t)) == SumOver(order, counts) + 1
    decreases |order|
  {
    var init, last := order[..|order| - 1], order[|order| - 1];
    if last == t {
      assert t !in init;
      SumOverFrame(init, counts, Increment(counts, t));
    } else {
      assert t in init;
      SumOverIncrement(init, counts, t);
    }
  }

  /** A type never has more distinct patterns than alerts, so its repetition ratio is at least 1. */
  lemma RatioAtLeastOne(s: TypeSummary)
    requires 0 < s.uniquePatterns <= s.totalAlerts
    requires s.repetitionRatio * (s.uniquePatterns as real) == s.totalAlerts as real
    ensures s.repetitionRatio >= 1.0
  {
    var u := s.uniquePatterns as real;
    assert (s.repetitionRatio - 1.0) * u == s.totalAlerts as real - u;
  }

  /** Recording one alert of type `t`, new or known, adds one to the total. */
  lemma RecordingAddsOne(order: seq<string>, counts: map<string, nat>, t: string)
    requires NoDuplicates(order)
    requires forall x :: x in counts <==> x in order
    ensures SumOver(if t in order then order else order + [t], Increment(counts, t)) == SumOver(order, counts) + 1
  {
    if t in order {
      SumOverIncrement(order, counts, t);
    } else {
      assert Increment(counts, t) == counts[t := 1];
      SumOverNewKey(order, counts, t);
    }
  }

  /** Every type in the distribution has a repetition ratio of at least 1. */
  lemma SummariesRatios(order: seq<string>, typeCounts: map<string, nat>, alertCounts: map<string, map<string, nat>>)
    requires forall t :: t in order ==> t in typeCounts && t in alertCounts && 0 < |alertCounts[t]| <= typeCounts[t]
    ensures forall i :: 0 <= i < |order| ==> Summarize(order, typeCounts, alertCounts)[i].repetitionRatio >= 1.0
  {
    var r := Summarize(order, typeCounts, alertCounts);
    forall i | 0 <= i < |order| ensures r[i].repetitionRatio >= 1.0 {
      assert r[i] == SummaryOf(order[i], typeCounts, alertCounts);
      RatioAtLeastOne(r[i]);
    }
  }
}
