/**
 Normalized cumulative curves (`save_normalized_comparison_data`).

 For each retained event the depths are accumulated in series order, then
 elapsed time is rescaled to a percentage of the event's time span and the
 running depth to a percentage of the event's total. An event whose time span
 or total depth is zero is skipped.
 */
module Normalization {
  import opened Series

  /** One retained event as handed to the normalizer: its id and its samples. */
  datatype EventData = EventData(eventId: nat, samples: seq<Sample>)

  datatype NormalizedRow = NormalizedRow(eventId: nat, percentDuration: real, percentCumulativeRainfall: real)

  /** `prcp.cumsum()`: a running total carried from each sample to the next. */
  function CumSum(xs: seq<Sample>): (c: seq<real>)
    ensures |c| == |xs|
  {
    if xs == [] then []
    else
      var c := CumSum(xs[..|xs| - 1]);
      c + [(if c == [] then 0.0 else c[|c| - 1]) + xs[|xs| - 1].prcp]
  }

  /** Entry i of the running total is the depth of samples 0 through i. */
  lemma {:induction false} CumSumIsPrefixDepth(xs: seq<Sample>)
    ensures forall i :: 0 <= i < |xs| ==> CumSum(xs)[i] == Depth(xs[..i + 1])
  {
    if xs != [] {
      var init := xs[..|xs| - 1];
      CumSumIsPrefixDepth(init);
      var c := CumSum(init);
      forall i | 0 <= i < |xs|
        ensures CumSum(xs)[i] == Depth(xs[..i + 1])
      {
        if i < |init| {
          assert init[..i + 1] == xs[..i + 1];
        } else if c != [] {
          assert init[..|init|] == init;
          assert xs[..i + 1] == xs;
        } else {
          assert xs[..i + 1] == xs;
        }
      }
    }
  }

  /** The last running total is the event's total depth. */
  lemma CumSumLast(xs: seq<Sample>)
    requires xs != []
    ensures CumSum(xs)[|xs| - 1] == Depth(xs)
  {
    CumSumIsPrefixDepth(xs);
    assert xs[..|xs|] == xs;
  }

  /** part as a percentage of whole. */
  function Percent(part: real, whole: real): real
    requires whole != 0.0
  {
    part / whole * 100.0
  }

  /** One row of the table: the time as a percentage of the span [lo, hi]
      and the running depth as a percentage of the total. */
  function NormalizedPoint(eventId: nat, time: int, lo: int, hi: int, running: real, total: real): NormalizedRow
    requires hi != lo && total != 0.0
  {
    NormalizedRow(eventId, Percent((time - lo) as real, (hi - lo) as real), Percent(running, total))
  }

  /** An event the normalizer skips: zero time span or zero total depth. */
  predicate IsDegenerate(ev: EventData)
    requires ev.samples != []
  {
    MaxTime(ev.samples) == MinTime(ev.samples) || Depth(ev.samples) == 0.0
  }

  /** The rows one event contributes: none when it is degenerate, otherwise
      one per sample, in order. */
  function NormalizeEvent(ev: EventData): (r: seq<NormalizedRow>)
    requires ev.samples != []
    ensures IsDegenerate(ev) ==> r == []
    ensures !IsDegenerate(ev) ==> |r| == |ev.samples|
    ensures forall i :: 0 <= i < |r| ==> r[i].eventId == ev.eventId
  {
    var xs := ev.samples;
    var cum := CumSum(xs);
    var lo, hi := MinTime(xs), MaxTime(xs);
    CumSumLast(xs);
    if hi - lo == 0 || cum[|cum| - 1] == 0.0 then []
    else
      seq(|xs|, i requires 0 <= i < |xs| => NormalizedPoint(ev.eventId, xs[i].time, lo, hi, cum[i], cum[|cum| - 1]))
  }

  /** The whole comparison table: the events' rows one after the other. */
  function NormalizedAll(events: seq<EventData>): seq<NormalizedRow>
    requires forall k :: 0 <= k < |events| ==> events[k].samples != []
  {
    if events == [] then []
    else NormalizedAll(events[..|events| - 1]) + NormalizeEvent(events[|events| - 1])
  }

  /** `save_normalized_comparison_data`, without the CSV write: a loop over
      the events that skips the degenerate ones and appends one row per sample
      of the others. */
  method SaveNormalizedComparisonData(events: seq<EventData>) returns (normalizedRows: seq<NormalizedRow>)
    requires forall k :: 0 <= k < |events| ==> events[k].samples != []
    ensures normalizedRows == NormalizedAll(events)
  {
    normalizedRows := [];
    for k := 0 to |events|
      invariant normalizedRows == NormalizedAll(events[..k])
    {
      var ev := events[k];
      NormalizedAllStep(events, k);
      ghost var expected := NormalizeEvent(ev);
      var xs := ev.samples;
      var cum := CumSum(xs);
      var lo, hi := MinTime(xs), MaxTime(xs);
      var duration := hi - lo;
      CumSumLast(xs);
      if duration == 0 || cum[|cum| - 1] == 0.0 {
        assert IsDegenerate(ev);
        continue;
      }
      var total := cum[|cum| - 1];
      assert !IsDegenerate(ev);
      var eventRows: seq<NormalizedRow> := [];
      for i := 0 to |xs|
        invariant eventRows == expected[..i]
      {
        var row := NormalizedPoint(ev.eventId, xs[i].time, lo, hi, cum[i], total);
        assert expected[i] == row;
        TakeOneMore(expected, i);
        eventRows := eventRows + [row];
      }
      assert expected[..|xs|] == expected;
      normalizedRows := normalizedRows + eventRows;
    }
    assert events[..|events|] == events;
  }

  lemma NormalizedAllStep(events: seq<EventData>, k: nat)
    requires forall k :: 0 <= k < |events| ==> events[k].samples != []
    requires k < |events|
    ensures NormalizedAll(events[..k + 1]) == NormalizedAll(events[..k]) + NormalizeEvent(events[k])
  {
    assert events[..k + 1][..k] == events[..k];
  }

  lemma TakeOneMore<T>(s: seq<T>, i: nat)
    requires i < |s|
    ensures s[..i + 1] == s[..i] + [s[i]]
  {
  }

  /** Percentages of a part between 0 and the whole lie in [0, 100]. */
  lemma PercentBounds(part: real, whole: real)
    requires 0.0 <= part <= whole && whole > 0.0
    ensures 0.0 <= Percent(part, whole) <= 100.0
  {
    assert part / whole <= 1.0;
  }

  lemma PercentEnds(whole: real)
    requires whole > 0.0
    ensures Percent(0.0, whole) == 0.0
    ensures Percent(whole, whole) == 100.0
  {
  }

  lemma PercentMonotone(a: real, b: real, whole: real)
    requires a <= b && whole > 0.0
    ensures Percent(a, whole) <= Percent(b, whole)
  {
    assert a / whole <= b / whole;
  }

  /** Row i of a non-degenerate event, spelled out. */
  lemma NormalizeEventAt(ev: EventData, i: nat)
    requires ev.samples != [] && !IsDegenerate(ev)
    requires i < |ev.samples|
    ensures var xs := ev.samples;
      var lo, hi := MinTime(xs), MaxTime(xs);
      hi - lo > 0 && Depth(xs) != 0.0 && CumSum(xs)[|xs| - 1] == Depth(xs) &&
      NormalizeEvent(ev)[i] == NormalizedPoint(ev.eventId, xs[i].time, lo, hi, CumSum(xs)[i], Depth(xs))
  {
    CumSumLast(ev.samples);
  }

  /** The time percentage of row i. */
  lemma DurationAt(ev: EventData, i: nat)
    requires ev.samples != [] && !IsDegenerate(ev)
    requires i < |ev.samples|
    ensures 0.0 <= NormalizeEvent(ev)[i].percentDuration <= 100.0
    ensures ev.samples[i].time == MinTime(ev.samples) ==> NormalizeEvent(ev)[i].percentDuration == 0.0
    ensures ev.samples[i].time == MaxTime(ev.samples) ==> NormalizeEvent(ev)[i].percentDuration == 100.0
  {
    NormalizeEventAt(ev, i);
    var xs := ev.samples;
    var lo, hi := MinTime(xs), MaxTime(xs);
    PercentBounds((xs[i].time - lo) as real, (hi - lo) as real);
    PercentEnds((hi - lo) as real);
  }

  /** With no negative depth the running total starts at or above 0, never
      decreases, and never exceeds the total. */
  lemma CumSumBounds(xs: seq<Sample>, i: nat, j: nat)
    requires NonNegative(xs)
    requires i <= j < |xs|
    ensures 0.0 <= CumSum(xs)[i] <= CumSum(xs)[j] <= Depth(xs)
  {
    CumSumIsPrefixDepth(xs);
    assert xs[..|xs|] == xs;
    DepthNonNegative(xs[..i + 1]);
    DepthPrefixMonotone(xs, i + 1, j + 1);
    DepthPrefixMonotone(xs, j + 1, |xs|);
  }

  /** The cumulative percentage of row i, and its order against row j. */
  lemma RainfallAt(ev: EventData, i: nat, j: nat)
    requires ev.samples != [] && !IsDegenerate(ev)
    requires NonNegative(ev.samples)
    requires i <= j < |ev.samples|
    ensures 0.0 <= NormalizeEvent(ev)[i].percentCumulativeRainfall <= 100.0
    ensures NormalizeEvent(ev)[i].percentCumulativeRainfall <= NormalizeEvent(ev)[j].percentCumulativeRainfall
    ensures i == |ev.samples| - 1 ==> NormalizeEvent(ev)[i].percentCumulativeRainfall == 100.0
  {
    var xs := ev.samples;
    NormalizeEventAt(ev, i);
    NormalizeEventAt(ev, j);
    CumSumBounds(xs, i, j);
    var a, b, total := CumSum(xs)[i], CumSum(xs)[j], Depth(xs);
    PercentBounds(a, total);
    PercentMonotone(a, b, total);
    PercentEnds(total);
  }

  /** The cumulative percentage of a non-degenerate event with no negative
      depth lies in [0, 100], never decreases and ends at exactly 100. */
  lemma NormalizedRainfallShape(ev: EventData)
    requires ev.samples != [] && !IsDegenerate(ev)
    requires NonNegative(ev.samples)
    ensures |NormalizeEvent(ev)| == |ev.samples|
    ensures forall i :: 0 <= i < |ev.samples| ==> 0.0 <= NormalizeEvent(ev)[i].percentCumulativeRainfall <= 100.0
    ensures forall i, j :: 0 <= i <= j < |ev.samples| ==>
              NormalizeEvent(ev)[i].percentCumulativeRainfall <= NormalizeEvent(ev)[j].percentCumulativeRainfall
    ensures NormalizeEvent(ev)[|ev.samples| - 1].percentCumulativeRainfall == 100.0
  {
    forall i, j | 0 <= i <= j < |ev.samples|
      ensures 0.0 <= NormalizeEvent(ev)[i].percentCumulativeRainfall <= 100.0
      ensures NormalizeEvent(ev)[i].percentCumulativeRainfall <= NormalizeEvent(ev)[j].percentCumulativeRainfall
    {
      RainfallAt(ev, i, j);
    }
    RainfallAt(ev, |ev.samples| - 1, |ev.samples| - 1);
  }

  /** The time percentage of a non-degenerate event lies in [0, 100]; it is 0
      at the earliest sample and 100 at the latest, which are the first and
      the last sample when times ascend. */
  lemma NormalizedDurationShape(ev: EventData)
    requires ev.samples != [] && !IsDegenerate(ev)
    ensures |NormalizeEvent(ev)| == |ev.samples|
    ensures forall i :: 0 <= i < |ev.samples| ==> 0.0 <= NormalizeEvent(ev)[i].percentDuration <= 100.0
    ensures forall i :: 0 <= i < |ev.samples| && ev.samples[i].time == MinTime(ev.samples) ==>
              NormalizeEvent(ev)[i].percentDuration == 0.0
    ensures forall i :: 0 <= i < |ev.samples| && ev.samples[i].time == MaxTime(ev.samples) ==>
              NormalizeEvent(ev)[i].percentDuration == 100.0
    ensures TimesAscending(ev.samples) ==>
              NormalizeEvent(ev)[0].percentDuration == 0.0 &&
              NormalizeEvent(ev)[|ev.samples| - 1].percentDuration == 100.0
  {
    forall i | 0 <= i < |ev.samples|
      ensures 0.0 <= NormalizeEvent(ev)[i].percentDuration <= 100.0
      ensures ev.samples[i].time == MinTime(ev.samples) ==> NormalizeEvent(ev)[i].percentDuration == 0.0
      ensures ev.samples[i].time == MaxTime(ev.samples) ==> NormalizeEvent(ev)[i].percentDuration == 100.0
    {
      DurationAt(ev, i);
    }
    if TimesAscending(ev.samples) {
      EndpointsOfAscending(ev.samples);
    }
  }
}
