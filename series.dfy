/**
 The hourly precipitation series the event finder works on, and the few
 reductions over it (total depth, earliest and latest time) that every later
 stage shares.

 A timestamp is a whole number of seconds from an arbitrary origin; a depth is
 an exact real number of inches.
 */
module Series {

  datatype Option<+T> = None | Some(value: T)

  /** One row of the loaded series: its time and its precipitation depth. */
  datatype Sample = Sample(time: int, prcp: real)

  /** A sample after segmentation: the event it belongs to, or None. */
  datatype Row = Row(sample: Sample, eventId: Option<nat>)

  /** An hour is wet when its depth reaches the rainfall threshold. */
  predicate IsWet(x: Sample, rainfallThresh: real) {
    x.prcp >= rainfallThresh
  }

  predicate NonNegative(xs: seq<Sample>) {
    forall i :: 0 <= i < |xs| ==> xs[i].prcp >= 0.0
  }

  /** Times never go backwards along the series (ties allowed). */
  predicate TimesAscending(xs: seq<Sample>) {
    forall i, j :: 0 <= i < j < |xs| ==> xs[i].time <= xs[j].time
  }

  /** Times strictly increase along the series. */
  predicate TimesStrictlyAscending(xs: seq<Sample>) {
    forall i, j :: 0 <= i < j < |xs| ==> xs[i].time < xs[j].time
  }

  /** Total depth of a run of samples, `prcp.sum()`. */
  function Depth(xs: seq<Sample>): real
  {
    if xs == [] then 0.0 else Depth(xs[..|xs| - 1]) + xs[|xs| - 1].prcp
  }

  /** The earliest time in a non-empty run, `time.min()`. */
  function MinTime(xs: seq<Sample>): (t: int)
    requires xs != []
    ensures exists i :: 0 <= i < |xs| && xs[i].time == t
    ensures forall i :: 0 <= i < |xs| ==> t <= xs[i].time
  {
    if |xs| == 1 then xs[0].time
    else
      var m := MinTime(xs[..|xs| - 1]);
      if xs[|xs| - 1].time < m then xs[|xs| - 1].time else m
  }

  /** The latest time in a non-empty run, `time.max()`. */
  function MaxTime(xs: seq<Sample>): (t: int)
    requires xs != []
    ensures exists i :: 0 <= i < |xs| && xs[i].time == t
    ensures forall i :: 0 <= i < |xs| ==> xs[i].time <= t
  {
    if |xs| == 1 then xs[0].time
    else
      var m := MaxTime(xs[..|xs| - 1]);
      if xs[|xs| - 1].time > m then xs[|xs| - 1].time else m
  }

  /** With ascending times the earliest time is the first and the latest the last. */
  lemma EndpointsOfAscending(xs: seq<Sample>)
    requires xs != [] && TimesAscending(xs)
    ensures MinTime(xs) == xs[0].time
    ensures MaxTime(xs) == xs[|xs| - 1].time
  {
  }

  lemma DepthSnoc(xs: seq<Sample>, x: Sample)
    ensures Depth(xs + [x]) == Depth(xs) + x.prcp
  {
    assert (xs + [x])[..|xs|] == xs;
  }

  /** Depth of a run with no negative sample is itself non-negative. */
  lemma {:induction false} DepthNonNegative(xs: seq<Sample>)
    requires NonNegative(xs)
    ensures Depth(xs) >= 0.0
  {
    if xs != [] {
      DepthNonNegative(xs[..|xs| - 1]);
    }
  }

  /** With no negative sample, a longer prefix never holds less depth. */
  lemma {:induction false} DepthPrefixMonotone(xs: seq<Sample>, i: nat, j: nat)
    requires NonNegative(xs)
    requires i <= j <= |xs|
    ensures Depth(xs[..i]) <= Depth(xs[..j])
    decreases j - i
  {
    if i < j {
      DepthPrefixMonotone(xs, i, j - 1);
      assert xs[..j][..j - 1] == xs[..j - 1];
    }
  }
}
