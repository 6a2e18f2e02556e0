/**
 Per-event summaries and the threshold filter (`get_filtered_events`).

 Rows without an event id are dropped, the rest are grouped by id in
 ascending id order, and each group is reduced to its earliest and latest
 time, its inclusive duration in hours and its total depth. The filter keeps
 the summaries that reach both thresholds, in their original order.
 */
module Aggregation {
  import opened Series

  datatype EventSummary = EventSummary(
    eventId: nat,
    startTime: int,
    endTime: int,
    durationHr: real,
    totalRainfallIn: real)

  /** The samples carrying event id e, in series order. */
  function Group(rows: seq<Row>, e: nat): (g: seq<Sample>)
    ensures |g| <= |rows|
  {
    if rows == [] then []
    else
      var last := rows[|rows| - 1];
      Group(rows[..|rows| - 1], e) + (if last.eventId == Some(e) then [last.sample] else [])
  }

  /** A sample is in group e exactly when some row pairs it with id e. */
  lemma {:induction false} GroupMembers(rows: seq<Row>, e: nat)
    ensures forall x :: x in Group(rows, e) <==> exists i :: 0 <= i < |rows| && rows[i] == Row(x, Some(e))
  {
    if rows != [] {
      var init := rows[..|rows| - 1];
      GroupMembers(init, e);
      forall x | (exists i :: 0 <= i < |rows| && rows[i] == Row(x, Some(e)))
        ensures x in Group(rows, e)
      {
        var i :| 0 <= i < |rows| && rows[i] == Row(x, Some(e));
        if i < |init| {
          assert init[i] == Row(x, Some(e));
        }
      }
      forall x | x in Group(rows, e)
        ensures exists i :: 0 <= i < |rows| && rows[i] == Row(x, Some(e))
      {
        if x in Group(init, e) {
          var i :| 0 <= i < |init| && init[i] == Row(x, Some(e));
          assert rows[i] == Row(x, Some(e));
        } else {
          assert rows[|rows| - 1] == Row(x, Some(e));
        }
      }
    }
  }

  /** The samples whose event id lies in [lo, hi), in series order. */
  function Band(rows: seq<Row>, lo: nat, hi: nat): seq<Sample>
  {
    if rows == [] then []
    else
      var last := rows[|rows| - 1];
      Band(rows[..|rows| - 1], lo, hi) +
      (if last.eventId.Some? && lo <= last.eventId.value < hi then [last.sample] else [])
  }

  /** The samples that carry any event id: what `dropna` keeps. */
  function Assigned(rows: seq<Row>): seq<Sample>
  {
    if rows == [] then []
    else
      var last := rows[|rows| - 1];
      Assigned(rows[..|rows| - 1]) + (if last.eventId.Some? then [last.sample] else [])
  }

  /** One more than the largest event id present, 0 when there is none. */
  function IdBound(rows: seq<Row>): (b: nat)
    ensures forall i :: 0 <= i < |rows| && rows[i].eventId.Some? ==> rows[i].eventId.value < b
  {
    if rows == [] then 0
    else
      var b := IdBound(rows[..|rows| - 1]);
      var last := rows[|rows| - 1];
      if last.eventId.Some? && last.eventId.value >= b then last.eventId.value + 1 else b
  }

  /** The summary of the non-empty group e: earliest and latest time, the
      inclusive duration in hours and the total depth. */
  function Summarize(rows: seq<Row>, e: nat): (r: EventSummary)
    requires Group(rows, e) != []
    ensures r.eventId == e
    ensures r.startTime <= r.endTime
    ensures r.durationHr >= 1.0
    ensures r.totalRainfallIn == Depth(Group(rows, e))
  {
    var g := Group(rows, e);
    var start, end := MinTime(g), MaxTime(g);
    EventSummary(e, start, end, (end - start) as real / 3600.0 + 1.0, Depth(g))
  }

  /** The start and end of an event are its earliest and latest sample times. */
  lemma SummaryTimes(rows: seq<Row>, e: nat)
    requires Group(rows, e) != []
    ensures forall x :: x in Group(rows, e) ==> Summarize(rows, e).startTime <= x.time <= Summarize(rows, e).endTime
    ensures exists x :: x in Group(rows, e) && x.time == Summarize(rows, e).startTime
    ensures exists x :: x in Group(rows, e) && x.time == Summarize(rows, e).endTime
  {
    var g := Group(rows, e);
    var i :| 0 <= i < |g| && g[i].time == MinTime(g);
    var j :| 0 <= j < |g| && g[j].time == MaxTime(g);
    assert g[i] in g && g[j] in g;
  }

  /** The ids in [k, bound) that some row carries, ascending. */
  function PresentIds(rows: seq<Row>, k: nat, bound: nat): (ids: seq<nat>)
    ensures forall j :: 0 <= j < |ids| ==> k <= ids[j] < bound
    ensures forall j1, j2 :: 0 <= j1 < j2 < |ids| ==> ids[j1] < ids[j2]
    decreases bound - k
  {
    if k >= bound then []
    else
      var rest := PresentIds(rows, k + 1, bound);
      if Group(rows, k) != [] then [k] + rest else rest
  }

  /** PresentIds lists exactly the ids in range whose group is non-empty. */
  lemma {:induction false} PresentIdsExact(rows: seq<Row>, k: nat, bound: nat)
    ensures forall e :: e in PresentIds(rows, k, bound) <==> k <= e < bound && Group(rows, e) != []
    decreases bound - k
  {
    if k < bound {
      PresentIdsExact(rows, k + 1, bound);
    }
  }

  /** `groupby('event_id').agg(...)` after `dropna`: one summary per id
      present, by ascending id. */
  function Aggregate(rows: seq<Row>): (r: seq<EventSummary>)
    ensures IdsAscending(r)
    ensures forall x :: x in r ==> Group(rows, x.eventId) != [] && x == Summarize(rows, x.eventId)
    ensures forall e :: Group(rows, e) != [] ==> Summarize(rows, e) in r
  {
    var ids := PresentIds(rows, 0, IdBound(rows));
    PresentIdsExact(rows, 0, IdBound(rows));
    var r := seq(|ids|, j requires 0 <= j < |ids| => Summarize(rows, ids[j]));
    SummariesOfPresentIds(rows, r);
    r
  }

  /** The table of summaries of the present ids, in id order, is ascending,
      holds only summaries of present ids, and misses none. */
  lemma SummariesOfPresentIds(rows: seq<Row>, r: seq<EventSummary>)
    requires |r| == |PresentIds(rows, 0, IdBound(rows))|
    requires forall j :: 0 <= j < |r| ==>
               Group(rows, PresentIds(rows, 0, IdBound(rows))[j]) != [] &&
               r[j] == Summarize(rows, PresentIds(rows, 0, IdBound(rows))[j])
    ensures IdsAscending(r)
    ensures forall x :: x in r ==> Group(rows, x.eventId) != [] && x == Summarize(rows, x.eventId)
    ensures forall e :: Group(rows, e) != [] ==> Summarize(rows, e) in r
  {
    var ids := PresentIds(rows, 0, IdBound(rows));
    PresentIdsExact(rows, 0, IdBound(rows));
    assert forall j :: 0 <= j < |r| ==> r[j].eventId == ids[j];
    forall e | Group(rows, e) != []
      ensures Summarize(rows, e) in r
    {
      GroupMembers(rows, e);
      var x := Group(rows, e)[0];
      assert x in Group(rows, e);
      var i :| 0 <= i < |rows| && rows[i] == Row(x, Some(e));
      assert e in ids;
      var j :| 0 <= j < |ids| && ids[j] == e;
      assert r[j] == Summarize(rows, e);
    }
  }

  predicate IdsAscending(events: seq<EventSummary>) {
    forall j1, j2 :: 0 <= j1 < j2 < |events| ==> events[j1].eventId < events[j2].eventId
  }

  /** Both thresholds are inclusive. */
  predicate Keeps(x: EventSummary, cumulativeThresh: real, durationThresh: real) {
    x.totalRainfallIn >= cumulativeThresh && x.durationHr >= durationThresh
  }

  /** The boolean mask on the summary table: keeps order, drops the rest. */
  function FilterEvents(events: seq<EventSummary>, cumulativeThresh: real, durationThresh: real): (r: seq<EventSummary>)
    ensures |r| <= |events|
    ensures forall x :: x in r <==> x in events && Keeps(x, cumulativeThresh, durationThresh)
  {
    if events == [] then []
    else
      var rest := FilterEvents(events[1..], cumulativeThresh, durationThresh);
      if Keeps(events[0], cumulativeThresh, durationThresh) then [events[0]] + rest else rest
  }

  /** Filtering keeps the relative order of the events it keeps. */
  lemma {:induction false} FilterKeepsOrder(events: seq<EventSummary>, cumulativeThresh: real, durationThresh: real)
    requires IdsAscending(events)
    ensures IdsAscending(FilterEvents(events, cumulativeThresh, durationThresh))
  {
    if events != [] {
      var tail := events[1..];
      FilterKeepsOrder(tail, cumulativeThresh, durationThresh);
      var rest := FilterEvents(tail, cumulativeThresh, durationThresh);
      forall x | x in rest
        ensures events[0].eventId < x.eventId
      {
        var i :| 0 <= i < |tail| && tail[i] == x;
        assert events[i + 1] == x;
      }
    }
  }

  /** `get_filtered_events`, with the duration threshold passed in: by
      ascending id, exactly the summaries of the ids present in the series that
      reach both thresholds. */
  function GetFilteredEvents(rows: seq<Row>, cumulativeThresh: real, durationThresh: real): (r: seq<EventSummary>)
    ensures IdsAscending(r)
    ensures forall x :: x in r ==>
              Group(rows, x.eventId) != [] && x == Summarize(rows, x.eventId) &&
              Keeps(x, cumulativeThresh, durationThresh)
    ensures forall e :: Group(rows, e) != [] && Keeps(Summarize(rows, e), cumulativeThresh, durationThresh) ==>
              Summarize(rows, e) in r
  {
    FilterKeepsOrder(Aggregate(rows), cumulativeThresh, durationThresh);
    FilterEvents(Aggregate(rows), cumulativeThresh, durationThresh)
  }

  /** An event's duration is one hour exactly when all its samples share one
      time; with strictly increasing times, exactly when it has one sample. */
  lemma DurationInclusive(rows: seq<Row>, e: nat)
    requires Group(rows, e) != []
    ensures Summarize(rows, e).durationHr == 1.0 <==>
              forall x, y :: x in Group(rows, e) && y in Group(rows, e) ==> x.time == y.time
    ensures TimesStrictlyAscending(Group(rows, e)) ==>
              (Summarize(rows, e).durationHr == 1.0 <==> |Group(rows, e)| == 1)
  {
    var g := Group(rows, e);
    var r := Summarize(rows, e);
    SummaryTimes(rows, e);
    if TimesStrictlyAscending(g) && |g| > 1 {
      assert g[0] in g && g[1] in g;
    }
  }

  /** Grouping keeps the series order, so groups of a strictly increasing
      series are strictly increasing. */
  lemma {:induction false} GroupAscending(rows: seq<Row>, e: nat)
    requires forall i, j :: 0 <= i < j < |rows| ==> rows[i].sample.time < rows[j].sample.time
    ensures TimesStrictlyAscending(Group(rows, e))
  {
    if rows != [] {
      var init := rows[..|rows| - 1];
      GroupAscending(init, e);
      var g0 := Group(init, e);
      GroupMembers(init, e);
      forall x | x in g0
        ensures x.time < rows[|rows| - 1].sample.time
      {
        var i :| 0 <= i < |init| && init[i] == Row(x, Some(e));
      }
    }
  }

  /** A band splits into its lowest id's group and the band above it. */
  lemma {:induction false} BandSplit(rows: seq<Row>, k: nat, bound: nat)
    requires k < bound
    ensures Depth(Band(rows, k, bound)) == Depth(Group(rows, k)) + Depth(Band(rows, k + 1, bound))
  {
    if rows != [] {
      var init := rows[..|rows| - 1];
      var last := rows[|rows| - 1];
      BandSplit(init, k, bound);
      var b, g, b1 := Band(init, k, bound), Group(init, k), Band(init, k + 1, bound);
      if last.eventId == Some(k) {
        assert Band(rows, k, bound) == b + [last.sample];
        assert Group(rows, k) == g + [last.sample];
        assert Band(rows, k + 1, bound) == b1;
        DepthSnoc(b, last.sample);
        DepthSnoc(g, last.sample);
      } else if last.eventId.Some? && k < last.eventId.value < bound {
        assert Band(rows, k, bound) == b + [last.sample];
        assert Group(rows, k) == g;
        assert Band(rows, k + 1, bound) == b1 + [last.sample];
        DepthSnoc(b, last.sample);
        DepthSnoc(b1, last.sample);
      } else {
        assert Band(rows, k, bound) == b;
        assert Group(rows, k) == g;
        assert Band(rows, k + 1, bound) == b1;
      }
    }
  }

  /** The band [0, bound) is every assigned sample when all ids are below bound. */
  lemma {:induction false} BandCoversAssigned(rows: seq<Row>, bound: nat)
    requires forall i :: 0 <= i < |rows| && rows[i].eventId.Some? ==> rows[i].eventId.value < bound
    ensures Band(rows, 0, bound) == Assigned(rows)
  {
    if rows != [] {
      BandCoversAssigned(rows[..|rows| - 1], bound);
    }
  }

  function TotalRainfall(events: seq<EventSummary>): real
  {
    if events == [] then 0.0 else events[0].totalRainfallIn + TotalRainfall(events[1..])
  }

  /** Sum of the depths of the groups of a list of ids. */
  function GroupsDepth(rows: seq<Row>, ids: seq<nat>): real
  {
    if ids == [] then 0.0 else Depth(Group(rows, ids[0])) + GroupsDepth(rows, ids[1..])
  }

  lemma {:induction false} TotalOfSummaries(rows: seq<Row>, ids: seq<nat>, events: seq<EventSummary>)
    requires |events| == |ids|
    requires forall j :: 0 <= j < |ids| ==> events[j].totalRainfallIn == Depth(Group(rows, ids[j]))
    ensures TotalRainfall(events) == GroupsDepth(rows, ids)
  {
    if ids != [] {
      TotalOfSummaries(rows, ids[1..], events[1..]);
    }
  }

  lemma {:induction false} PresentIdsDepth(rows: seq<Row>, k: nat, bound: nat)
    ensures GroupsDepth(rows, PresentIds(rows, k, bound)) == Depth(Band(rows, k, bound))
    decreases bound - k
  {
    if k >= bound {
      BandEmpty(rows, k, bound);
    } else {
      PresentIdsDepth(rows, k + 1, bound);
      BandSplit(rows, k, bound);
      var rest := PresentIds(rows, k + 1, bound);
      if Group(rows, k) != [] {
        assert ([k] + rest)[1..] == rest;
      }
    }
  }

  lemma {:induction false} BandEmpty(rows: seq<Row>, lo: nat, hi: nat)
    requires hi <= lo
    ensures Band(rows, lo, hi) == []
  {
    if rows != [] {
      BandEmpty(rows[..|rows| - 1], lo, hi);
    }
  }

  /** Conservation: the event totals add up to the depth of every sample that
      carries an event id, none counted twice and none dropped. */
  lemma Conservation(rows: seq<Row>)
    ensures TotalRainfall(Aggregate(rows)) == Depth(Assigned(rows))
  {
    var ids := PresentIds(rows, 0, IdBound(rows));
    PresentIdsExact(rows, 0, IdBound(rows));
    TotalOfSummaries(rows, ids, Aggregate(rows));
    PresentIdsDepth(rows, 0, IdBound(rows));
    BandCoversAssigned(rows, IdBound(rows));
  }

  /** Raising either threshold never keeps more: the stricter filter is the
      looser filter's result filtered again. */
  lemma {:induction false} FilterMonotone(events: seq<EventSummary>, c1: real, d1: real, c2: real, d2: real)
    requires c1 <= c2 && d1 <= d2
    ensures FilterEvents(events, c2, d2) == FilterEvents(FilterEvents(events, c1, d1), c2, d2)
    ensures |FilterEvents(events, c2, d2)| <= |FilterEvents(events, c1, d1)|
  {
    if events != [] {
      FilterMonotone(events[1..], c1, d1, c2, d2);
      var f1 := FilterEvents(events, c1, d1);
      if Keeps(events[0], c1, d1) {
        assert f1[0] == events[0];
        assert f1[1..] == FilterEvents(events[1..], c1, d1);
      } else {
        assert f1 == FilterEvents(events[1..], c1, d1);
      }
    }
  }
}
