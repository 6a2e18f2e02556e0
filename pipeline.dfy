/**
 The hand-over from the filtered summary table to the normalizer: for each
 retained event the driver cuts the rows carrying its id out of the labelled
 series, and those frames are what the normalized comparison table is built
 from.
 */
module Pipeline {
  import opened Series
  import opened Segmentation
  import opened Aggregation
  import opened Normalization

  /** frames holds, one per retained summary and in the same order, the id
      and the samples of that event. */
  predicate FramesOf(rows: seq<Row>, filtered: seq<EventSummary>, frames: seq<EventData>) {
    |frames| == |filtered| &&
    forall k :: 0 <= k < |filtered| ==>
      frames[k] == EventData(filtered[k].eventId, Group(rows, filtered[k].eventId))
  }

  /** The driver's loop over the filtered table: for each row, the samples
      whose id is that event's id, collected with the id. */
  method CollectEventData(rows: seq<Row>, filtered: seq<EventSummary>) returns (allEventData: seq<EventData>)
    ensures FramesOf(rows, filtered, allEventData)
  {
    allEventData := [];
    for k := 0 to |filtered|
      invariant FramesOf(rows, filtered[..k], allEventData)
    {
      var eid := filtered[k].eventId;
      var eventDf := Group(rows, eid);
      allEventData := allEventData + [EventData(eid, eventDf)];
    }
    assert filtered[..|filtered|] == filtered;
  }

  /** Every frame handed to the normalizer is non-empty, and it agrees with
      its summary: same earliest and latest time, same total depth. So the
      normalizer skips a retained event exactly when its start equals its end
      or its total is zero. */
  lemma FramesAgreeWithSummaries(rows: seq<Row>, cumulativeThresh: real, durationThresh: real, frames: seq<EventData>)
    requires FramesOf(rows, GetFilteredEvents(rows, cumulativeThresh, durationThresh), frames)
    ensures forall k :: 0 <= k < |frames| ==> frames[k].samples != []
    ensures forall k :: 0 <= k < |frames| ==>
              var x := GetFilteredEvents(rows, cumulativeThresh, durationThresh)[k];
              MinTime(frames[k].samples) == x.startTime &&
              MaxTime(frames[k].samples) == x.endTime &&
              Depth(frames[k].samples) == x.totalRainfallIn &&
              (IsDegenerate(frames[k]) <==> x.startTime == x.endTime || x.totalRainfallIn == 0.0)
  {
    var filtered := GetFilteredEvents(rows, cumulativeThresh, durationThresh);
    forall k | 0 <= k < |frames|
      ensures frames[k].samples != [] && filtered[k] == Summarize(rows, filtered[k].eventId)
    {
      assert filtered[k] in filtered;
    }
  }

  /** A row of the comparison table belongs to an event whose own rows are
      part of the table, and that event was not skipped. */
  lemma {:induction false} NormalizedRowSource(events: seq<EventData>, r: NormalizedRow)
    requires forall k :: 0 <= k < |events| ==> events[k].samples != []
    requires r in NormalizedAll(events)
    ensures exists k :: 0 <= k < |events| && !IsDegenerate(events[k]) &&
              r in NormalizeEvent(events[k]) && r.eventId == events[k].eventId
  {
    var init := events[..|events| - 1];
    var last := events[|events| - 1];
    if r in NormalizedAll(init) {
      NormalizedRowSource(init, r);
      var k :| 0 <= k < |init| && !IsDegenerate(init[k]) && r in NormalizeEvent(init[k]) && r.eventId == init[k].eventId;
      assert events[k] == init[k];
    } else {
      assert r in NormalizeEvent(last);
      var i :| 0 <= i < |NormalizeEvent(last)| && NormalizeEvent(last)[i] == r;
      assert events[|events| - 1] == last;
    }
  }

  /** From the series to the comparison table: every normalized row carries
      the id of an event that reaches both thresholds and whose time span and
      total depth are both non-zero. */
  lemma NormalizedRowsFromRetained(xs: seq<Sample>, rainfallThresh: real, gapThresh: int,
                                   cumulativeThresh: real, durationThresh: real, frames: seq<EventData>)
    requires FramesOf(Segment(xs, rainfallThresh, gapThresh),
                      GetFilteredEvents(Segment(xs, rainfallThresh, gapThresh), cumulativeThresh, durationThresh), frames)
    ensures forall k :: 0 <= k < |frames| ==> frames[k].samples != []
    ensures forall r :: r in NormalizedAll(frames) ==>
              exists x :: x in GetFilteredEvents(Segment(xs, rainfallThresh, gapThresh), cumulativeThresh, durationThresh) &&
                x.eventId == r.eventId && Keeps(x, cumulativeThresh, durationThresh) &&
                x.startTime < x.endTime && x.totalRainfallIn != 0.0
  {
    var rows := Segment(xs, rainfallThresh, gapThresh);
    FramesAgreeWithSummaries(rows, cumulativeThresh, durationThresh, frames);
    forall r | r in NormalizedAll(frames)
      ensures exists x :: x in GetFilteredEvents(rows, cumulativeThresh, durationThresh) &&
                x.eventId == r.eventId && Keeps(x, cumulativeThresh, durationThresh) &&
                x.startTime < x.endTime && x.totalRainfallIn != 0.0
    {
      RowFromRetained(rows, cumulativeThresh, durationThresh, frames, r);
    }
  }

  /** One row of the table traced back to its retained event. */
  lemma RowFromRetained(rows: seq<Row>, cumulativeThresh: real, durationThresh: real, frames: seq<EventData>, r: NormalizedRow)
    requires FramesOf(rows, GetFilteredEvents(rows, cumulativeThresh, durationThresh), frames)
    requires forall k :: 0 <= k < |frames| ==> frames[k].samples != []
    requires r in NormalizedAll(frames)
    ensures exists x :: x in GetFilteredEvents(rows, cumulativeThresh, durationThresh) &&
              x.eventId == r.eventId && Keeps(x, cumulativeThresh, durationThresh) &&
              x.startTime < x.endTime && x.totalRainfallIn != 0.0
  {
    var filtered := GetFilteredEvents(rows, cumulativeThresh, durationThresh);
    FramesAgreeWithSummaries(rows, cumulativeThresh, durationThresh, frames);
    NormalizedRowSource(frames, r);
    var k :| 0 <= k < |frames| && !IsDegenerate(frames[k]) && r in NormalizeEvent(frames[k]) && r.eventId == frames[k].eventId;
    var x := filtered[k];
    assert x in filtered;
    assert x.eventId == r.eventId && x.startTime < x.endTime && x.totalRainfallIn != 0.0;
  }

  /** A series that starts with more than gapThresh dry samples, for a
      tolerance of at least one, still has an event 0: it holds no wet sample
      at all, and the first wet sample opens event 1. */
  lemma DryStartEventZero(xs: seq<Sample>, rainfallThresh: real, gapThresh: int, j: nat)
    requires gapThresh >= 1
    requires gapThresh < j < |xs|
    requires IsWet(xs[j], rainfallThresh)
    requires forall p :: 0 <= p < j ==> !IsWet(xs[p], rainfallThresh)
    ensures Group(Segment(xs, rainfallThresh, gapThresh), 0) != []
    ensures forall x :: x in Group(Segment(xs, rainfallThresh, gapThresh), 0) ==> !IsWet(x, rainfallThresh)
    ensures Segment(xs, rainfallThresh, gapThresh)[j].eventId == Some(1)
  {
    var rows := Segment(xs, rainfallThresh, gapThresh);
    GroupMembers(rows, 0);
    FirstEvent(xs, rainfallThresh, gapThresh, j);
    LeadingDry(xs, rainfallThresh, gapThresh, 0);
    assert rows[0] == Row(xs[0], Some(0));
    forall x | x in Group(rows, 0)
      ensures !IsWet(x, rainfallThresh)
    {
      var i :| 0 <= i < |rows| && rows[i] == Row(x, Some(0));
      if j < i {
        LabelsNonDecreasing(xs, rainfallThresh, gapThresh, j, i);
      }
    }
  }
}
