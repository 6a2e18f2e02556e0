/**
 Segmentation of the series into numbered rainfall events (`identify_events`).

 The source walks the series once, keeping an event counter and a counter of
 consecutive dry samples. Here the value each counter holds after the first k
 samples is a recursive function of that prefix (DryRunBefore, OpenedBefore),
 the id of every sample follows from them (Label), and the loop in
 IdentifyEvents is proved to produce exactly those ids. Gaps are counted in
 samples: the timestamps play no part in segmentation.
 */
module Segmentation {
  import opened Series

  /** The number of consecutive dry samples that end just before index k:
      the value of the gap counter once the first k samples are processed. */
  function DryRunBefore(xs: seq<Sample>, rainfallThresh: real, k: nat): (n: nat)
    requires k <= |xs|
    ensures n <= k
    ensures forall m :: k - n <= m < k ==> !IsWet(xs[m], rainfallThresh)
    ensures n < k ==> IsWet(xs[k - n - 1], rainfallThresh)
  {
    if k == 0 || IsWet(xs[k - 1], rainfallThresh) then 0
    else DryRunBefore(xs, rainfallThresh, k - 1) + 1
  }

  /** Sample i opens a new event: it is wet and more than gapThresh dry
      samples come right before it. */
  predicate Opens(xs: seq<Sample>, rainfallThresh: real, gapThresh: int, i: nat)
    requires i < |xs|
  {
    IsWet(xs[i], rainfallThresh) && DryRunBefore(xs, rainfallThresh, i) > gapThresh
  }

  /** How many of the first k samples open an event: the value of the event
      counter once they are processed. The counter starts at 0. */
  function OpenedBefore(xs: seq<Sample>, rainfallThresh: real, gapThresh: int, k: nat): (n: nat)
    requires k <= |xs|
    ensures n <= k
  {
    if k == 0 then 0
    else OpenedBefore(xs, rainfallThresh, gapThresh, k - 1) + (if Opens(xs, rainfallThresh, gapThresh, k - 1) then 1 else 0)
  }

  /** The event id of sample i: a wet sample, or a dry one whose dry run so far
      is at most gapThresh long, carries the current event counter; any other
      dry sample carries None. */
  function Label(xs: seq<Sample>, rainfallThresh: real, gapThresh: int, i: nat): Option<nat>
    requires i < |xs|
  {
    if IsWet(xs[i], rainfallThresh) || DryRunBefore(xs, rainfallThresh, i + 1) <= gapThresh
    then Some(OpenedBefore(xs, rainfallThresh, gapThresh, i + 1))
    else None
  }

  /** The series with its event id column. */
  function Segment(xs: seq<Sample>, rainfallThresh: real, gapThresh: int): seq<Row>
  {
    seq(|xs|, i requires 0 <= i < |xs| => Row(xs[i], Label(xs, rainfallThresh, gapThresh, i)))
  }

  /** `identify_events`: one pass over the series with the two counters. */
  method IdentifyEvents(xs: seq<Sample>, rainfallThresh: real, gapThresh: int) returns (rows: seq<Row>)
    ensures rows == Segment(xs, rainfallThresh, gapThresh)
    ensures |rows| == |xs|
    ensures forall i :: 0 <= i < |xs| ==> rows[i].sample == xs[i]
    ensures forall i :: 0 <= i < |xs| && IsWet(xs[i], rainfallThresh) ==>
              rows[i].eventId == Some(OpenedBefore(xs, rainfallThresh, gapThresh, i + 1))
    ensures forall i :: 0 <= i < |xs| && !IsWet(xs[i], rainfallThresh) ==>
              (rows[i].eventId == None <==> DryRunBefore(xs, rainfallThresh, i + 1) > gapThresh)
  {
    var eventId: nat := 0;
    var gapCounter: nat := 0;
    var eventIds: seq<Option<nat>> := [];
    for i := 0 to |xs|
      invariant |eventIds| == i
      invariant eventId == OpenedBefore(xs, rainfallThresh, gapThresh, i)
      invariant gapCounter == DryRunBefore(xs, rainfallThresh, i)
      invariant forall j :: 0 <= j < i ==> eventIds[j] == Label(xs, rainfallThresh, gapThresh, j)
    {
      if xs[i].prcp >= rainfallThresh {
        if gapCounter > gapThresh {
          eventId := eventId + 1;
        }
        gapCounter := 0;
        eventIds := eventIds + [Some(eventId)];
      } else {
        gapCounter := gapCounter + 1;
        if gapCounter <= gapThresh {
          eventIds := eventIds + [Some(eventId)];
        } else {
          eventIds := eventIds + [None];
        }
      }
    }
    rows := seq(|xs|, i requires 0 <= i < |xs| => Row(xs[i], eventIds[i]));
  }

  /** Inside a stretch of dry samples that starts at the series start or right
      after a wet sample, the dry run grows by one per sample. */
  lemma {:induction false} DryRunInStretch(xs: seq<Sample>, rainfallThresh: real, lo: nat, m: nat)
    requires lo <= m <= |xs|
    requires lo == 0 || IsWet(xs[lo - 1], rainfallThresh)
    requires forall p :: lo <= p < m ==> !IsWet(xs[p], rainfallThresh)
    ensures DryRunBefore(xs, rainfallThresh, m) == m - lo
  {
    if m > lo {
      DryRunInStretch(xs, rainfallThresh, lo, m - 1);
    }
  }

  /** No event opens inside a stretch of dry samples. */
  lemma {:induction false} NoOpeningInDryStretch(xs: seq<Sample>, rainfallThresh: real, gapThresh: int, lo: nat, m: nat)
    requires lo <= m <= |xs|
    requires forall p :: lo <= p < m ==> !IsWet(xs[p], rainfallThresh)
    ensures OpenedBefore(xs, rainfallThresh, gapThresh, m) == OpenedBefore(xs, rainfallThresh, gapThresh, lo)
  {
    if m > lo {
      NoOpeningInDryStretch(xs, rainfallThresh, gapThresh, lo, m - 1);
    }
  }

  /** The event counter never decreases and rises by at most one per sample. */
  lemma {:induction false} OpenedMonotone(xs: seq<Sample>, rainfallThresh: real, gapThresh: int, k1: nat, k2: nat)
    requires k1 <= k2 <= |xs|
    ensures OpenedBefore(xs, rainfallThresh, gapThresh, k1) <= OpenedBefore(xs, rainfallThresh, gapThresh, k2)
    ensures OpenedBefore(xs, rainfallThresh, gapThresh, k2) <= OpenedBefore(xs, rainfallThresh, gapThresh, k1) + (k2 - k1)
  {
    if k1 < k2 {
      OpenedMonotone(xs, rainfallThresh, gapThresh, k1, k2 - 1);
    }
  }

  /** Event ids never decrease along the series. */
  lemma LabelsNonDecreasing(xs: seq<Sample>, rainfallThresh: real, gapThresh: int, i: nat, j: nat)
    requires i < j < |xs|
    requires Label(xs, rainfallThresh, gapThresh, i).Some? && Label(xs, rainfallThresh, gapThresh, j).Some?
    ensures Label(xs, rainfallThresh, gapThresh, i).value <= Label(xs, rainfallThresh, gapThresh, j).value
  {
    OpenedMonotone(xs, rainfallThresh, gapThresh, i + 1, j + 1);
  }

  /** With a non-negative gap tolerance, two neighbouring samples that both
      carry an id carry the same one: a new id only ever follows a sample with
      None. */
  lemma NeighboursShareEvent(xs: seq<Sample>, rainfallThresh: real, gapThresh: int, i: nat)
    requires gapThresh >= 0
    requires i + 1 < |xs|
    requires Label(xs, rainfallThresh, gapThresh, i).Some? && Label(xs, rainfallThresh, gapThresh, i + 1).Some?
    ensures Label(xs, rainfallThresh, gapThresh, i) == Label(xs, rainfallThresh, gapThresh, i + 1)
  {
    assert !Opens(xs, rainfallThresh, gapThresh, i + 1);
  }

  /** After a sample with None, each later sample either already lies past
      the opening of a new event or continues the over-long dry run. */
  lemma {:induction false} HoleSeparatesEvents(xs: seq<Sample>, rainfallThresh: real, gapThresh: int, p: nat, m: nat)
    requires p <= m < |xs|
    requires Label(xs, rainfallThresh, gapThresh, p) == None
    ensures OpenedBefore(xs, rainfallThresh, gapThresh, m + 1) > OpenedBefore(xs, rainfallThresh, gapThresh, p + 1) ||
            (!IsWet(xs[m], rainfallThresh) && DryRunBefore(xs, rainfallThresh, m + 1) > gapThresh)
    decreases m - p
  {
    if p < m {
      HoleSeparatesEvents(xs, rainfallThresh, gapThresh, p, m - 1);
      OpenedMonotone(xs, rainfallThresh, gapThresh, p + 1, m);
    }
  }

  /** Events are contiguous: a sample between two samples of the same event
      belongs to that event too. */
  lemma EventsContiguous(xs: seq<Sample>, rainfallThresh: real, gapThresh: int, i: nat, p: nat, j: nat)
    requires i < p < j < |xs|
    requires Label(xs, rainfallThresh, gapThresh, i).Some?
    requires Label(xs, rainfallThresh, gapThresh, i) == Label(xs, rainfallThresh, gapThresh, j)
    ensures Label(xs, rainfallThresh, gapThresh, p) == Label(xs, rainfallThresh, gapThresh, i)
  {
    OpenedMonotone(xs, rainfallThresh, gapThresh, i + 1, p + 1);
    OpenedMonotone(xs, rainfallThresh, gapThresh, p + 1, j + 1);
    if Label(xs, rainfallThresh, gapThresh, p) == None {
      HoleSeparatesEvents(xs, rainfallThresh, gapThresh, p, j);
      assert false;
    }
  }

  /** Every id from 1 up to the final counter is opened by a wet sample, and
      no earlier sample carries that id: no id is skipped. */
  lemma {:induction false} EveryIdIsOpened(xs: seq<Sample>, rainfallThresh: real, gapThresh: int, k: nat, v: nat)
    requires k <= |xs|
    requires 1 <= v <= OpenedBefore(xs, rainfallThresh, gapThresh, k)
    ensures exists i :: 0 <= i < k && Opens(xs, rainfallThresh, gapThresh, i) &&
              Label(xs, rainfallThresh, gapThresh, i) == Some(v) &&
              forall p :: 0 <= p < i ==> Label(xs, rainfallThresh, gapThresh, p) != Some(v)
  {
    if v == OpenedBefore(xs, rainfallThresh, gapThresh, k) && Opens(xs, rainfallThresh, gapThresh, k - 1) {
      assert Label(xs, rainfallThresh, gapThresh, k - 1) == Some(v);
      forall p | 0 <= p < k - 1
        ensures Label(xs, rainfallThresh, gapThresh, p) != Some(v)
      {
        OpenedMonotone(xs, rainfallThresh, gapThresh, p + 1, k - 1);
      }
    } else {
      EveryIdIsOpened(xs, rainfallThresh, gapThresh, k - 1, v);
    }
  }

  /** A dry sample p that follows wet sample i with only dry samples between
      keeps i's event while its dry run is at most gapThresh long and carries
      None after that. */
  lemma DryAfterWet(xs: seq<Sample>, rainfallThresh: real, gapThresh: int, i: nat, p: nat)
    requires i < p < |xs|
    requires IsWet(xs[i], rainfallThresh)
    requires forall q :: i < q <= p ==> !IsWet(xs[q], rainfallThresh)
    ensures Label(xs, rainfallThresh, gapThresh, p) ==
              if p - i <= gapThresh then Label(xs, rainfallThresh, gapThresh, i) else None
  {
    DryRunInStretch(xs, rainfallThresh, i + 1, p + 1);
    NoOpeningInDryStretch(xs, rainfallThresh, gapThresh, i + 1, p + 1);
  }

  /** The gap tolerance boundary. Take two wet samples i < j with only dry
      samples between them, g = j - i - 1 of them. If g <= gapThresh the whole
      stretch from i to j is one event; if g > gapThresh, j opens the next
      event, and in either case a dry sample between them carries None exactly
      when it lies more than gapThresh samples after i. */
  lemma GapBoundary(xs: seq<Sample>, rainfallThresh: real, gapThresh: int, i: nat, j: nat)
    requires i < j < |xs|
    requires IsWet(xs[i], rainfallThresh) && IsWet(xs[j], rainfallThresh)
    requires forall p :: i < p < j ==> !IsWet(xs[p], rainfallThresh)
    ensures Label(xs, rainfallThresh, gapThresh, i).Some?
    ensures j - i - 1 <= gapThresh ==>
              forall p :: i < p <= j ==> Label(xs, rainfallThresh, gapThresh, p) == Label(xs, rainfallThresh, gapThresh, i)
    ensures j - i - 1 > gapThresh ==>
              Label(xs, rainfallThresh, gapThresh, j) == Some(Label(xs, rainfallThresh, gapThresh, i).value + 1)
    ensures forall p :: i < p < j ==>
              (Label(xs, rainfallThresh, gapThresh, p) == None <==> p - i > gapThresh)
  {
    forall p | i < p < j
      ensures Label(xs, rainfallThresh, gapThresh, p) ==
                if p - i <= gapThresh then Label(xs, rainfallThresh, gapThresh, i) else None
    {
      DryAfterWet(xs, rainfallThresh, gapThresh, i, p);
    }
    DryRunInStretch(xs, rainfallThresh, i + 1, j);
    NoOpeningInDryStretch(xs, rainfallThresh, gapThresh, i + 1, j);
  }

  /** A dry sample p with only dry samples before it joins event 0 while it is
      at most gapThresh samples into the series, and carries None after that. */
  lemma LeadingDry(xs: seq<Sample>, rainfallThresh: real, gapThresh: int, p: nat)
    requires p < |xs|
    requires forall q :: 0 <= q <= p ==> !IsWet(xs[q], rainfallThresh)
    ensures Label(xs, rainfallThresh, gapThresh, p) == if p + 1 <= gapThresh then Some(0) else None
  {
    DryRunInStretch(xs, rainfallThresh, 0, p + 1);
    NoOpeningInDryStretch(xs, rainfallThresh, gapThresh, 0, p + 1);
  }

  /** The counter starts at 0, so the first event gets id 0 whenever the
      series begins with at most gapThresh dry samples before its first wet
      one, and every one of those leading dry samples joins event 0 as well;
      with more leading dry samples the first wet one opens event 1. */
  lemma FirstEvent(xs: seq<Sample>, rainfallThresh: real, gapThresh: int, j: nat)
    requires j < |xs|
    requires IsWet(xs[j], rainfallThresh)
    requires forall p :: 0 <= p < j ==> !IsWet(xs[p], rainfallThresh)
    ensures j <= gapThresh ==> Label(xs, rainfallThresh, gapThresh, j) == Some(0)
    ensures j <= gapThresh ==> forall p :: 0 <= p < j ==> Label(xs, rainfallThresh, gapThresh, p) == Some(0)
    ensures j > gapThresh ==> Label(xs, rainfallThresh, gapThresh, j) == Some(1)
  {
    DryRunInStretch(xs, rainfallThresh, 0, j);
    NoOpeningInDryStretch(xs, rainfallThresh, gapThresh, 0, j);
    forall p | 0 <= p < j
      ensures Label(xs, rainfallThresh, gapThresh, p) == if p + 1 <= gapThresh then Some(0) else None
    {
      LeadingDry(xs, rainfallThresh, gapThresh, p);
    }
  }
}
