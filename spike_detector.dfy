/**
 * The engine-performance score: a scan over consecutive pairs of vibration
 * samples that counts spikes (pairs further apart than the threshold) and
 * the spikes a pothole window explains, and turns the unexplained ones
 * into a score between 0 and 100.
 *
 * The original compares `sqrt(dx^2 + dy^2 + dz^2) > 10` on doubles; the
 * model compares the squared distance with `10 * 10` on reals, and
 * `SquaredComparisonIsExact` shows the two decisions agree.
 */
module SpikeDetector {
  import opened Samples

  const SpikeThreshold: real := 10.0
  const FullScore: int := 100
  const PenaltyPerSpike: int := 10

  function Max(a: int, b: int): int {
    if a >= b then a else b
  }

  function SquaredDistance(prev: Sample, curr: Sample): (d: real)
    ensures d >= 0.0
  {
    var dx, dy, dz := curr.x - prev.x, curr.y - prev.y, curr.z - prev.z;
    dx * dx + dy * dy + dz * dz
  }

  /**
   * A pair of samples is a spike when their distance is strictly above the
   * threshold: a jump of more than 10 along any one axis always is, and a
   * pair at the same position never is.
   */
  predicate IsSpike(prev: Sample, curr: Sample)
    ensures IsSpike(prev, curr) ==> prev.x != curr.x || prev.y != curr.y || prev.z != curr.z
    ensures AxisJump(curr.x - prev.x) || AxisJump(curr.y - prev.y) || AxisJump(curr.z - prev.z) ==>
      IsSpike(prev, curr)
  {
    var dx, dy, dz := curr.x - prev.x, curr.y - prev.y, curr.z - prev.z;
    AxisJumpSquared(dx);
    AxisJumpSquared(dy);
    AxisJumpSquared(dz);
    assert SquaredDistance(prev, curr) == dx * dx + dy * dy + dz * dz;
    SquaredDistance(prev, curr) > SpikeThreshold * SpikeThreshold
  }

  /** A change along one axis larger than the threshold, in either direction. */
  predicate AxisJump(d: real) {
    d > SpikeThreshold || d < -SpikeThreshold
  }

  lemma AxisJumpSquared(d: real)
    ensures d * d >= 0.0
    ensures AxisJump(d) ==> d * d > SpikeThreshold * SpikeThreshold
  {
    if d > SpikeThreshold {
      assert d * d > d * SpikeThreshold;
    } else if d < -SpikeThreshold {
      assert d * d > -d * SpikeThreshold;
    }
  }

  /** The pair ending at index `i` is a spike. */
  predicate SpikeAt(s: seq<Sample>, i: int)
    requires 1 <= i < |s|
  {
    IsSpike(s[i - 1], s[i])
  }

  /** The pair ending at index `i` is a spike and the later sample's time is in a window. */
  predicate ExplainedAt(s: seq<Sample>, i: int, windows: seq<Window>)
    requires 1 <= i < |s|
  {
    SpikeAt(s, i) && IsExplained(s[i].time, windows)
  }

  /** Number of spikes among the consecutive pairs of `s`; at most one per pair. */
  function CountSpikes(s: seq<Sample>): (n: nat)
    ensures |s| < 2 ==> n == 0
    ensures |s| >= 2 ==> n <= |s| - 1
  {
    if |s| < 2 then 0
    else CountSpikes(s[..|s| - 1]) + (if SpikeAt(s, |s| - 1) then 1 else 0)
  }

  /** Number of spikes that some window explains; never more than the spikes. */
  function CountExplained(s: seq<Sample>, windows: seq<Window>): (n: nat)
    ensures n <= CountSpikes(s)
  {
    if |s| < 2 then 0
    else CountExplained(s[..|s| - 1], windows) + (if ExplainedAt(s, |s| - 1, windows) then 1 else 0)
  }

  function Unexplained(s: seq<Sample>, windows: seq<Window>): nat {
    CountSpikes(s) - CountExplained(s, windows)
  }

  /** The score the routine returns, with its two early returns. */
  function Score(s: seq<Sample>, windows: seq<Window>): (r: int)
    ensures 0 <= r <= FullScore
  {
    if |s| == 0 then FullScore
    else if CountSpikes(s) == 0 then FullScore
    else Max(0, FullScore - Unexplained(s, windows) * PenaltyPerSpike)
  }

  /** The scan itself: two counters over the pairs, then the two early returns. */
  method CalculateEnginePerformanceScore(samples: seq<Sample>, windows: seq<Window>)
    returns (score: int)
    ensures score == Score(samples, windows)
    ensures 0 <= score <= FullScore
  {
    if |samples| == 0 {
      return FullScore;
    }
    var totalSpikes, explainedSpikes := 0, 0;
    for i := 1 to |samples|
      invariant totalSpikes == CountSpikes(samples[..i])
      invariant explainedSpikes == CountExplained(samples[..i], windows)
      invariant 0 <= explainedSpikes <= totalSpikes <= i - 1
    {
      var prev, curr := samples[i - 1], samples[i];
      var delta2 := SquaredDistance(prev, curr);
      CountStep(samples, i, windows);
      if delta2 > SpikeThreshold * SpikeThreshold {
        totalSpikes := totalSpikes + 1;
        var spikeTime := curr.time;
        var isExplained := IsExplained(spikeTime, windows);
        if isExplained {
          explainedSpikes := explainedSpikes + 1;
        }
      }
    }
    assert samples[..|samples|] == samples;
    if totalSpikes == 0 {
      return FullScore;
    }
    var unexplainedSpikes := totalSpikes - explainedSpikes;
    score := Max(0, FullScore - unexplainedSpikes * PenaltyPerSpike);
  }

  /** One more pair adds its spike, and its explained spike, to the counts. */
  lemma CountStep(s: seq<Sample>, i: int, windows: seq<Window>)
    requires 1 <= i < |s|
    ensures CountSpikes(s[..i + 1]) == CountSpikes(s[..i]) + (if IsSpike(s[i - 1], s[i]) then 1 else 0)
    ensures CountExplained(s[..i + 1], windows) ==
      CountExplained(s[..i], windows) + (if IsSpike(s[i - 1], s[i]) && IsExplained(s[i].time, windows) then 1 else 0)
  {
    var p := s[..i + 1];
    assert p[..i] == s[..i];
    assert p[i - 1] == s[i - 1] && p[i] == s[i];
  }

  // ---------------------------------------------------------------------
  // The squared comparison decides exactly what the square-root one does.

  /** For the non-negative root `delta` of the squared distance, `delta > 10` iff the pair is a spike. */
  lemma SquaredComparisonIsExact(prev: Sample, curr: Sample, delta: real)
    requires delta >= 0.0 && delta * delta == SquaredDistance(prev, curr)
    ensures IsSpike(prev, curr) <==> delta > SpikeThreshold
  {
    if delta > SpikeThreshold {
      assert delta * delta - 100.0 == (delta - 10.0) * (delta + 10.0);
      assert (delta - 10.0) * (delta + 10.0) > 0.0;
    } else {
      assert delta * delta <= delta * 10.0;
      assert delta * 10.0 <= 100.0;
    }
  }

  // ---------------------------------------------------------------------
  // Reference definitions: the spikes and explained spikes as index sets.

  ghost function SpikeIndices(s: seq<Sample>): set<int> {
    set i | 1 <= i < |s| && SpikeAt(s, i)
  }

  ghost function ExplainedIndices(s: seq<Sample>, windows: seq<Window>): set<int> {
    set i | 1 <= i < |s| && ExplainedAt(s, i, windows)
  }

  /** The counter equals the number of pair indices whose pair is a spike. */
  lemma {:induction false} CountSpikesIsCardinality(s: seq<Sample>)
    ensures CountSpikes(s) == |SpikeIndices(s)|
  {
    if |s| < 2 {
      assert SpikeIndices(s) == {};
    } else {
      var p := s[..|s| - 1];
      CountSpikesIsCardinality(p);
      var last := |s| - 1;
      assert forall i :: 1 <= i < last ==> (SpikeAt(p, i) <==> SpikeAt(s, i));
      if SpikeAt(s, last) {
        assert SpikeIndices(s) == SpikeIndices(p) + {last};
      } else {
        assert SpikeIndices(s) == SpikeIndices(p);
      }
    }
  }

  /** The counter of explained spikes equals the number of spike indices whose later time is in a window. */
  lemma {:induction false} CountExplainedIsCardinality(s: seq<Sample>, windows: seq<Window>)
    ensures CountExplained(s, windows) == |ExplainedIndices(s, windows)|
  {
    if |s| < 2 {
      assert ExplainedIndices(s, windows) == {};
    } else {
      CountExplainedIsCardinality(s[..|s| - 1], windows);
      ExplainedIndicesStep(s, windows);
    }
  }

  /** Dropping the last sample removes at most its own index from the explained set. */
  lemma ExplainedIndicesStep(s: seq<Sample>, windows: seq<Window>)
    requires |s| >= 2
    ensures var p, last := s[..|s| - 1], |s| - 1;
      ExplainedIndices(s, windows) ==
      ExplainedIndices(p, windows) + (if ExplainedAt(s, last, windows) then {last} else {})
  {
    var p, last := s[..|s| - 1], |s| - 1;
    forall i | 1 <= i < last
      ensures ExplainedAt(p, i, windows) == ExplainedAt(s, i, windows)
    {
      assert p[i - 1] == s[i - 1] && p[i] == s[i];
    }
  }

  // ---------------------------------------------------------------------
  // Properties of the score.

  /** Fewer than two samples: the pair loop never runs and the score is 100. */
  lemma ShortInputScoresFull(s: seq<Sample>, windows: seq<Window>)
    requires |s| < 2
    ensures Score(s, windows) == FullScore
  {
  }

  /** There are no spikes exactly when no consecutive pair is a spike. */
  lemma {:induction false} NoSpikesIff(s: seq<Sample>)
    ensures CountSpikes(s) == 0 <==> forall i :: 1 <= i < |s| ==> !SpikeAt(s, i)
  {
    if |s| >= 2 {
      var p := s[..|s| - 1];
      NoSpikesIff(p);
      assert forall i :: 1 <= i < |p| ==> (SpikeAt(p, i) <==> SpikeAt(s, i));
    }
  }

  /** Without any spike the score is 100, whatever the windows. */
  lemma NoSpikesScoresFull(s: seq<Sample>, windows: seq<Window>)
    requires forall i :: 1 <= i < |s| ==> !SpikeAt(s, i)
    ensures Score(s, windows) == FullScore
  {
    NoSpikesIff(s);
  }

  /** The score is 100 - 10k for k unexplained spikes up to 10, and 0 from there on. */
  lemma ScoreFormula(s: seq<Sample>, windows: seq<Window>)
    ensures Score(s, windows) ==
      if Unexplained(s, windows) >= 10 then 0 else FullScore - PenaltyPerSpike * Unexplained(s, windows)
  {
  }

  /** The score is 0 exactly when at least ten spikes are unexplained. */
  lemma ScoreZeroIff(s: seq<Sample>, windows: seq<Window>)
    ensures Score(s, windows) == 0 <==> Unexplained(s, windows) >= 10
  {
    ScoreFormula(s, windows);
  }

  /** Every score is one of 0, 10, ..., 100. */
  lemma ScoreIsMultipleOfPenalty(s: seq<Sample>, windows: seq<Window>)
    ensures Score(s, windows) % PenaltyPerSpike == 0
  {
    ScoreFormula(s, windows);
  }

  /** More unexplained spikes never give a higher score. */
  lemma ScoreAntitoneInUnexplained(s: seq<Sample>, w: seq<Window>, s': seq<Sample>, w': seq<Window>)
    requires Unexplained(s, w) <= Unexplained(s', w')
    ensures Score(s', w') <= Score(s, w)
  {
    ScoreFormula(s, w);
    ScoreFormula(s', w');
  }

  predicate WindowsIncluded(w: seq<Window>, w': seq<Window>) {
    forall j :: 0 <= j < |w| ==> w[j] in w'
  }

  /** Windows that include others explain at least the same spikes. */
  lemma {:induction false} MoreWindowsExplainMore(s: seq<Sample>, w: seq<Window>, w': seq<Window>)
    requires WindowsIncluded(w, w')
    ensures CountExplained(s, w) <= CountExplained(s, w')
  {
    if |s| >= 2 {
      MoreWindowsExplainMore(s[..|s| - 1], w, w');
      var t := s[|s| - 1].time;
      if IsExplained(t, w) {
        var j :| 0 <= j < |w| && Covers(w[j], t);
        var j' :| 0 <= j' < |w'| && w'[j'] == w[j];
        assert Covers(w'[j'], t);
      }
    }
  }

  /** Supplying more pothole windows never lowers the score. */
  lemma MoreWindowsNeverLowerScore(s: seq<Sample>, w: seq<Window>, w': seq<Window>)
    requires WindowsIncluded(w, w')
    ensures Score(s, w) <= Score(s, w')
  {
    MoreWindowsExplainMore(s, w, w');
    ScoreAntitoneInUnexplained(s, w', s, w);
  }

  /** Adding one window never lowers the score. */
  lemma AddingWindowNeverLowersScore(s: seq<Sample>, w: seq<Window>, v: Window)
    ensures Score(s, w) <= Score(s, w + [v])
  {
    assert forall j :: 0 <= j < |w| ==> (w + [v])[j] == w[j];
    MoreWindowsNeverLowerScore(s, w, w + [v]);
  }

  // ---------------------------------------------------------------------
  // Boundary cases and scenarios.

  /** A distance of exactly 10 is not a spike; anything above is. */
  lemma ThresholdIsStrict(t0: real, t1: real, e: real)
    requires e > 0.0
    ensures !IsSpike(Sample(t0, 0.0, 0.0, 0.0), Sample(t1, 10.0, 0.0, 0.0))
    ensures IsSpike(Sample(t0, 0.0, 0.0, 0.0), Sample(t1, 10.0 + e, 0.0, 0.0))
  {
    assert (10.0 + e) * (10.0 + e) == 100.0 + 20.0 * e + e * e;
  }

  /** One jump of 20 and no windows: one unexplained spike, score 90. */
  lemma SingleSpikeScenario()
    ensures Score([Sample(0.0, 0.0, 0.0, 0.0), Sample(1.0, 20.0, 0.0, 0.0)], []) == 90
  {
    var s := [Sample(0.0, 0.0, 0.0, 0.0), Sample(1.0, 20.0, 0.0, 0.0)];
    assert s[..1] == [s[0]];
    assert SpikeAt(s, 1);
  }

  /** The same jump inside the window [1, 1] is explained: score 100. */
  lemma ExplainedSpikeScenario()
    ensures Score([Sample(0.0, 0.0, 0.0, 0.0), Sample(1.0, 20.0, 0.0, 0.0)], [Window(1.0, 1.0)]) == 100
  {
    var s := [Sample(0.0, 0.0, 0.0, 0.0), Sample(1.0, 20.0, 0.0, 0.0)];
    assert s[..1] == [s[0]];
    assert SpikeAt(s, 1);
    assert Covers([Window(1.0, 1.0)][0], 1.0);
  }

  /** A window covering only the earlier sample's time does not explain the spike. */
  lemma PreviousTimeIgnoredScenario()
    ensures Score([Sample(0.0, 0.0, 0.0, 0.0), Sample(1.0, 20.0, 0.0, 0.0)], [Window(0.0, 0.0)]) == 90
  {
    var s := [Sample(0.0, 0.0, 0.0, 0.0), Sample(1.0, 20.0, 0.0, 0.0)];
    assert s[..1] == [s[0]];
    assert SpikeAt(s, 1);
  }

  /** Both ends of a window explain a spike at that time, and nothing outside does. */
  lemma WindowEndsInclusive(a: real, b: real, t: real)
    requires a <= b
    ensures IsExplained(a, [Window(a, b)]) && IsExplained(b, [Window(a, b)])
    ensures (t < a || t > b) ==> !IsExplained(t, [Window(a, b)])
  {
    assert Covers([Window(a, b)][0], a);
    assert Covers([Window(a, b)][0], b);
  }
}
