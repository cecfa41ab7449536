/**
  Stage 2b, skip_cumulative_histogram: the running total of a limited
  histogram, cum[0] = lim[0] and cum[i] = cum[i-1] + lim[i].
 */
module Cumulative {

  import opened Common

  /** Every entry of `cum` is at least the one before it. */
  predicate NonDecreasing(cum: seq<nat>) {
    forall i, j :: 0 <= i <= j < |cum| ==> cum[i] <= cum[j]
  }

  /** The cumulative histogram: entry i holds the total of bins 0..i. */
  function CumulativeHistogram(l: seq<nat>): (cum: seq<nat>)
    ensures |cum| == |l|
    ensures forall i :: 0 <= i < |l| ==> cum[i] == Sum(l[..i + 1])
  {
    if |l| == 0 then []
    else if |l| == 1 then
      PrefixSumStep(l, 0);
      l
    else
      var prev := CumulativeHistogram(l[..|l| - 1]);
      var cum := prev + [prev[|prev| - 1] + l[|l| - 1]];
      CumulativeExtend(l, prev, cum);
      cum
  }

  /** Appending the running total extends the prefix sums of all but the last bin to all bins. */
  lemma CumulativeExtend(l: seq<nat>, prev: seq<nat>, cum: seq<nat>)
    requires |l| >= 2 && |prev| == |l| - 1
    requires forall i :: 0 <= i < |prev| ==> prev[i] == Sum(l[..|l| - 1][..i + 1])
    requires cum == prev + [prev[|prev| - 1] + l[|l| - 1]]
    ensures forall i :: 0 <= i < |l| ==> cum[i] == Sum(l[..i + 1])
  {
    forall i | 0 <= i < |l|
      ensures cum[i] == Sum(l[..i + 1])
    {
      if i < |prev| {
        assert l[..|l| - 1][..i + 1] == l[..i + 1];
      } else {
        assert l[..|l| - 1][..i] == l[..i];
        PrefixSumStep(l, i);
      }
    }
  }

  /** The total of bins 0..i is the total of bins 0..i-1 plus bin i. */
  lemma PrefixSumStep(l: seq<nat>, i: nat)
    requires i < |l|
    ensures Sum(l[..i + 1]) == Sum(l[..i]) + l[i]
  {
    assert l[..i + 1][..i] == l[..i];
  }

  /** skip_cumulative_histogram over every tile. */
  function CumulativeHistograms(ls: seq<seq<nat>>): (cs: seq<seq<nat>>)
    requires AllHistograms(ls)
    ensures |cs| == |ls| && AllHistograms(cs)
  {
    seq(|ls|, t requires 0 <= t < |ls| => CumulativeHistogram(ls[t]))
  }

  /** The source's recurrence holds: cum[0] = lim[0] and cum[i] = cum[i-1] + lim[i]. */
  lemma CumulativeRecurrence(l: seq<nat>)
    requires |l| > 0
    ensures CumulativeHistogram(l)[0] == l[0]
    ensures forall i :: 0 < i < |l|
              ==> CumulativeHistogram(l)[i] == CumulativeHistogram(l)[i - 1] + l[i]
  {
    var cum := CumulativeHistogram(l);
    PrefixSumStep(l, 0);
    forall i | 0 < i < |l|
      ensures cum[i] == cum[i - 1] + l[i]
    {
      PrefixSumStep(l, i);
    }
  }

  /** Cumulative monotonicity, and the last entry is the whole histogram's total. */
  lemma CumulativeProperties(l: seq<nat>)
    requires |l| > 0
    ensures NonDecreasing(CumulativeHistogram(l))
    ensures CumulativeHistogram(l)[|l| - 1] == Sum(l)
  {
    var cum := CumulativeHistogram(l);
    CumulativeRecurrence(l);
    assert l[..|l|] == l;
    forall i, j | 0 <= i <= j < |cum|
      ensures cum[i] <= cum[j]
    {
      CumulativeStep(l, i, j);
    }
  }

  lemma {:induction false} CumulativeStep(l: seq<nat>, i: nat, j: nat)
    requires i <= j < |l|
    ensures CumulativeHistogram(l)[i] <= CumulativeHistogram(l)[j]
    decreases j - i
  {
    if i < j {
      CumulativeRecurrence(l);
      CumulativeStep(l, i, j - 1);
    }
  }
}
