/**
 Worked examples on small hourly series, with the thresholds of the shipped
 configuration for the wet test (0.04 inches) and the gap (one hour).
 */
module Scenarios {
  import opened Series
  import opened Segmentation
  import opened Aggregation
  import opened Normalization

  /** Rain in the first and the fourth hour, dry elsewhere. */
  function Hourly(): seq<Sample> {
    [Sample(0, 0.05), Sample(3600, 0.0), Sample(7200, 0.0),
     Sample(10800, 0.06), Sample(14400, 0.0), Sample(18000, 0.0)]
  }

  /** Hourly() with the ids the segmentation gives it. */
  function Labelled(): seq<Row> {
    [Row(Sample(0, 0.05), Some(0)), Row(Sample(3600, 0.0), Some(0)), Row(Sample(7200, 0.0), None),
     Row(Sample(10800, 0.06), Some(1)), Row(Sample(14400, 0.0), Some(1)), Row(Sample(18000, 0.0), None)]
  }

  /** The single dry hour after each wet hour is within the gap and joins
      its event; the second dry hour ends it. */
  lemma TrailingDryExtendsEvent()
    ensures Segment(Hourly(), 0.04, 1) == Labelled()
  {
    var xs := Hourly();
    assert DryRunBefore(xs, 0.04, 1) == 0;
    assert DryRunBefore(xs, 0.04, 2) == 1;
    assert DryRunBefore(xs, 0.04, 3) == 2;
    assert DryRunBefore(xs, 0.04, 4) == 0;
    assert DryRunBefore(xs, 0.04, 5) == 1;
    assert DryRunBefore(xs, 0.04, 6) == 2;
    assert OpenedBefore(xs, 0.04, 1, 1) == 0;
    assert OpenedBefore(xs, 0.04, 1, 2) == 0;
    assert OpenedBefore(xs, 0.04, 1, 3) == 0;
    assert OpenedBefore(xs, 0.04, 1, 4) == 1;
    assert OpenedBefore(xs, 0.04, 1, 5) == 1;
    assert OpenedBefore(xs, 0.04, 1, 6) == 1;
  }

  /** The two groups of Labelled() and the id bound. */
  lemma LabelledGroups()
    ensures IdBound(Labelled()) == 2
    ensures Group(Labelled(), 0) == [Sample(0, 0.05), Sample(3600, 0.0)]
    ensures Group(Labelled(), 1) == [Sample(10800, 0.06), Sample(14400, 0.0)]
  {
    var rows := Labelled();
    assert rows[..1][..0] == [];
    assert rows[..2][..1] == rows[..1];
    assert rows[..3][..2] == rows[..2];
    assert rows[..4][..3] == rows[..3];
    assert rows[..5][..4] == rows[..4];
    assert rows[..5] == rows[..|rows| - 1];
    assert IdBound(rows[..1]) == 1 && Group(rows[..1], 0) == [rows[0].sample] && Group(rows[..1], 1) == [];
    assert IdBound(rows[..2]) == 1 && Group(rows[..2], 0) == [rows[0].sample, rows[1].sample] && Group(rows[..2], 1) == [];
    assert IdBound(rows[..3]) == 1 && Group(rows[..3], 0) == [rows[0].sample, rows[1].sample] && Group(rows[..3], 1) == [];
    assert IdBound(rows[..4]) == 2 && Group(rows[..4], 1) == [rows[3].sample];
    assert IdBound(rows[..5]) == 2 && Group(rows[..5], 1) == [rows[3].sample, rows[4].sample];
  }

  /** The ids present in Labelled() and the summaries of their groups. */
  lemma LabelledSummaries()
    ensures PresentIds(Labelled(), 0, IdBound(Labelled())) == [0, 1]
    ensures Group(Labelled(), 0) != [] && Summarize(Labelled(), 0) == EventSummary(0, 0, 3600, 2.0, 0.05)
    ensures Group(Labelled(), 1) != [] && Summarize(Labelled(), 1) == EventSummary(1, 10800, 14400, 2.0, 0.06)
  {
    LabelledGroups();
    var rows := Labelled();
    assert PresentIds(rows, 0, 2) == [0, 1];
    var g0, g1 := Group(rows, 0), Group(rows, 1);
    assert g0[..1] == [g0[0]] && g1[..1] == [g1[0]];
    assert [g0[0]][..0] == [] && [g1[0]][..0] == [];
    assert Depth(g0) == 0.05 && Depth(g1) == 0.06;
    assert MinTime(g0) == 0 && MaxTime(g0) == 3600;
    assert MinTime(g1) == 10800 && MaxTime(g1) == 14400;
  }

  /** Each event spans its wet hour and the dry hour after it: two hours. */
  lemma TrailingDrySummaries()
    ensures Aggregate(Segment(Hourly(), 0.04, 1)) ==
      [EventSummary(0, 0, 3600, 2.0, 0.05), EventSummary(1, 10800, 14400, 2.0, 0.06)]
  {
    TrailingDryExtendsEvent();
    LabelledSummaries();
  }

  /** Both thresholds are inclusive: a total equal to the threshold is kept. */
  lemma TrailingDryFilter()
    ensures GetFilteredEvents(Segment(Hourly(), 0.04, 1), 0.05, 2.0) ==
      [EventSummary(0, 0, 3600, 2.0, 0.05), EventSummary(1, 10800, 14400, 2.0, 0.06)]
    ensures GetFilteredEvents(Segment(Hourly(), 0.04, 1), 0.06, 2.0) == [EventSummary(1, 10800, 14400, 2.0, 0.06)]
    ensures GetFilteredEvents(Segment(Hourly(), 0.04, 1), 0.05, 6.0) == []
  {
    TrailingDrySummaries();
    var agg := Aggregate(Segment(Hourly(), 0.04, 1));
    assert agg[1..][1..] == [];
  }

  /** A lone dry sample still forms event 0, with no depth. */
  lemma DryStartFormsEventZero()
    ensures Aggregate(Segment([Sample(0, 0.0)], 0.04, 1)) == [EventSummary(0, 0, 0, 1.0, 0.0)]
  {
    var xs := [Sample(0, 0.0)];
    assert DryRunBefore(xs, 0.04, 1) == 1;
    assert OpenedBefore(xs, 0.04, 1, 1) == 0;
    var rows := Segment(xs, 0.04, 1);
    assert rows == [Row(Sample(0, 0.0), Some(0))];
    assert rows[..0] == [];
    assert IdBound(rows) == 1;
    assert Group(rows, 0) == [Sample(0, 0.0)];
    assert PresentIds(rows, 0, 1) == [0];
  }

  /** The first event's frame: its rain falls entirely in the first hour, so
      the curve reaches 100 percent at 0 percent of the duration. */
  lemma TrailingDryNormalized()
    ensures NormalizeEvent(EventData(0, [Sample(0, 0.05), Sample(3600, 0.0)])) ==
      [NormalizedRow(0, 0.0, 100.0), NormalizedRow(0, 100.0, 100.0)]
  {
    var xs := [Sample(0, 0.05), Sample(3600, 0.0)];
    assert xs[..1] == [xs[0]] && [xs[0]][..0] == [];
    assert CumSum(xs) == [0.05, 0.05];
    assert MinTime(xs) == 0 && MaxTime(xs) == 3600;
  }

  /** Three dry hours before the first rain: the first dry hour alone forms
      event 0 and the rain opens event 1. */
  lemma LongDryStart()
    ensures Segment([Sample(0, 0.0), Sample(3600, 0.0), Sample(7200, 0.0), Sample(10800, 0.5)], 0.04, 1) ==
      [Row(Sample(0, 0.0), Some(0)), Row(Sample(3600, 0.0), None), Row(Sample(7200, 0.0), None),
       Row(Sample(10800, 0.5), Some(1))]
  {
    var xs := [Sample(0, 0.0), Sample(3600, 0.0), Sample(7200, 0.0), Sample(10800, 0.5)];
    assert DryRunBefore(xs, 0.04, 1) == 1;
    assert DryRunBefore(xs, 0.04, 2) == 2;
    assert DryRunBefore(xs, 0.04, 3) == 3;
    assert DryRunBefore(xs, 0.04, 4) == 0;
    assert OpenedBefore(xs, 0.04, 1, 3) == 0;
    assert OpenedBefore(xs, 0.04, 1, 4) == 1;
  }
}
