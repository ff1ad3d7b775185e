/**
 * The love meter's input handler: the fill percentage, the overlay and its
 * message tier, and the milestone watermark that lets each threshold fire a
 * burst once until the value drops back to 100 or below.
 */
module LoveMeter {
  import opened Wrappers

  datatype Tier = Normal | High | Extreme

  /** `Math.min(100, value / 100)`, the `--love-percent` fill. */
  function FillPercent(value: int): (r: real)
    ensures r <= 100.0
    ensures r <= value as real / 100.0
    ensures r == 100.0 || r == value as real / 100.0
  {
    if 100.0 < value as real / 100.0 then 100.0 else value as real / 100.0
  }

  /** The watermark values the handler ever stores. */
  predicate IsMilestone(m: int) {
    m == 0 || m == 100 || m == 1000 || m == 5000
  }

  /** The highest milestone a value above 100 has reached. */
  function Threshold(value: int): (t: int)
    requires value > 100
    ensures IsMilestone(t) && 100 <= t <= value
  {
    if value >= 5000 then 5000 else if value > 1000 then 1000 else 100
  }

  function Max(a: int, b: int): int {
    if a < b then b else a
  }

  /** The watermark after an input: reset at or below 100, otherwise raised to the value's milestone. */
  function WatermarkAfter(last: int, value: int): (r: int)
    ensures value <= 100 ==> r == 0
    ensures value > 100 ==> last <= r && Threshold(value) <= r
    ensures IsMilestone(last) ==> IsMilestone(r)
  {
    if value <= 100 then 0 else Max(last, Threshold(value))
  }

  /** A burst fires exactly when an input above 100 raises the watermark. */
  predicate Bursts(last: int, value: int) {
    value > 100 && last < Threshold(value)
  }

  /** The overlay message for a value; None when the overlay is hidden and its text left alone. */
  function TierOf(value: int): Option<Tier> {
    if value <= 100 then None
    else if value >= 5000 then Some(Extreme)
    else if value > 1000 then Some(High)
    else Some(Normal)
  }

  /** What one input event does to the page besides the watermark. */
  datatype Reaction = Reaction(
    overlayHidden: bool,
    message: Option<Tier>,
    superLove: bool,
    fullWidth: bool,
    fillPercent: real,
    burst: bool)

  /** A burst fires exactly when the watermark rises; it never falls above 100. */
  lemma BurstIffWatermarkRises(last: int, value: int)
    ensures Bursts(last, value) <==> value > 100 && WatermarkAfter(last, value) > last
    ensures Bursts(last, value) ==> WatermarkAfter(last, value) == Threshold(value)
  {
  }

  /** The tier shown and the milestone recorded are two views of the same thresholds. */
  lemma TierMatchesThreshold(value: int)
    requires value > 100
    ensures TierOf(value) == Some(Extreme) <==> Threshold(value) == 5000
    ensures TierOf(value) == Some(High) <==> Threshold(value) == 1000
    ensures TierOf(value) == Some(Normal) <==> Threshold(value) == 100
  {
  }

  function TierRank(t: Tier): nat {
    match t
    case Normal => 0
    case High => 1
    case Extreme => 2
  }

  /** A larger value never shows a lower tier. */
  lemma TierMonotone(a: int, b: int)
    requires 100 < a <= b
    ensures TierOf(a).Some? && TierOf(b).Some?
    ensures TierRank(TierOf(a).value) <= TierRank(TierOf(b).value)
  {
  }

  // ---------------------------------------------------------------------------
  // Sessions: a run of input events
  // ---------------------------------------------------------------------------

  function Rank(m: int): nat {
    if m >= 5000 then 3 else if m >= 1000 then 2 else if m >= 100 then 1 else 0
  }

  function FinalWatermark(last: int, values: seq<int>): int
    decreases values
  {
    if values == [] then last else FinalWatermark(WatermarkAfter(last, values[0]), values[1..])
  }

  function BurstCount(last: int, values: seq<int>): nat
    decreases values
  {
    if values == [] then 0
    else (if Bursts(last, values[0]) then 1 else 0) + BurstCount(WatermarkAfter(last, values[0]), values[1..])
  }

  predicate AllAbove100(values: seq<int>) {
    forall i :: 0 <= i < |values| ==> values[i] > 100
  }

  /**
   * While the value stays above 100 the watermark never falls, and every burst
   * moves it up at least one milestone, so a session fires at most one burst
   * per milestone it climbs past, however the slider is dragged back and forth.
   */
  lemma {:induction false} BurstsBoundedByClimb(last: int, values: seq<int>)
    requires IsMilestone(last) && AllAbove100(values)
    ensures last <= FinalWatermark(last, values) && IsMilestone(FinalWatermark(last, values))
    ensures BurstCount(last, values) + Rank(last) <= Rank(FinalWatermark(last, values))
    decreases values
  {
    if values != [] {
      var next := WatermarkAfter(last, values[0]);
      assert AllAbove100(values[1..]) by {
        forall i | 0 <= i < |values[1..]| ensures values[1..][i] > 100 {
          assert values[1..][i] == values[i + 1];
        }
      }
      BurstsBoundedByClimb(next, values[1..]);
    }
  }

  /** From a reset meter, a session above 100 fires at most three bursts. */
  lemma AtMostThreeBursts(values: seq<int>)
    requires AllAbove100(values)
    ensures BurstCount(0, values) <= 3
  {
    BurstsBoundedByClimb(0, values);
  }

  /** Dragging 6000, back to 2000, then up to 5000 fires one burst, not two. */
  lemma DragBackDoesNotRefire()
    ensures FinalWatermark(0, [6000, 2000, 5000]) == 5000
    ensures BurstCount(0, [6000, 2000, 5000]) == 1
  {
  }

  /** Climbing past 100, then 1000, then 5000 one step at a time fires one burst at each. */
  lemma StepwiseClimbFiresEach()
    ensures BurstCount(0, [101, 1001, 5000]) == 3
    ensures FinalWatermark(0, [101, 1001, 5000]) == 5000
  {
  }

  /** Dropping to 100 or below re-arms every milestone. */
  lemma ResetRearms(last: int, low: int, high: int)
    requires low <= 100 < high
    ensures Bursts(WatermarkAfter(last, low), high)
  {
  }

  // ---------------------------------------------------------------------------
  // The handler
  // ---------------------------------------------------------------------------

  class Meter {
    /** The module-level `lastMilestone`. */
    var lastMilestone: int

    constructor ()
      ensures lastMilestone == 0
    {
      lastMilestone := 0;
    }

    /** The `input` listener, for the integer the slider reports. */
    method Input(value: int) returns (reaction: Reaction)
      modifies this
      ensures lastMilestone == WatermarkAfter(old(lastMilestone), value)
      ensures reaction.burst == Bursts(old(lastMilestone), value)
      ensures reaction.overlayHidden == (value <= 100) && reaction.fullWidth == (value <= 100)
      ensures reaction.message == TierOf(value)
      ensures reaction.superLove == (value >= 5000)
      ensures reaction.fillPercent == FillPercent(value)
    {
      var percent := if 100.0 < value as real / 100.0 then 100.0 else value as real / 100.0;
      if value > 100 {
        var burst := false;
        if value >= 5000 && lastMilestone < 5000 {
          lastMilestone := 5000;
          burst := true;
        } else if value > 1000 && lastMilestone < 1000 {
          lastMilestone := 1000;
          burst := true;
        } else if value > 100 && lastMilestone < 100 {
          lastMilestone := 100;
          burst := true;
        }

        var message: Tier;
        var superLove: bool;
        if value >= 5000 {
          superLove, message := true, Extreme;
        } else if value > 1000 {
          superLove, message := false, High;
        } else {
          superLove, message := false, Normal;
        }
        reaction := Reaction(false, Some(message), superLove, false, percent, burst);
      } else {
        lastMilestone := 0;
        reaction := Reaction(true, None, false, true, percent, false);
      }
    }
  }
}
