/**
 The once-a-minute refresh of the displayed completion time.

 The timer re-runs the estimator only when the completion field shows a
 clock time, that is, when it holds none of the three fixed texts: the
 placeholder written on a validation error, "Full", and "Never". The
 charging panel is modelled by the last `ChargeResult` it displays; the
 timer itself is an external scheduler, modelled as the sequence of
 instants at which it fires.
 */
module CompletionRefresh {
  import opened ChargeTime

  /** The text of the completion-time field. A formatted clock time such as
      "3:45 pm" never equals one of the three fixed texts. */
  datatype CompletionText =
    | Placeholder          // "--:-- --"
    | FullText             // "Full"
    | NeverText            // "Never"
    | Clock(instant: int)  // the completion instant, rendered in local time

  function CompletionShown(r: ChargeResult): (t: CompletionText)
    ensures t.Clock? <==> r.Charging?
    ensures r.Charging? ==> t.instant == r.completion
  {
    match r
    case Rejected(_) => Placeholder
    case Full => FullText
    case Never => NeverText
    case Charging(_, _, _, completion) => Clock(completion)
  }

  /** The guard of the refresh: the field holds none of the fixed texts. */
  function ShouldRefresh(t: CompletionText): (b: bool)
    ensures b <==> t.Clock?
  {
    t != Placeholder && t != FullText && t != NeverText
  }

  /** The guard fires exactly when the panel shows a charging estimate. */
  lemma ShouldRefreshIffCharging(r: ChargeResult)
    ensures ShouldRefresh(CompletionShown(r)) <==> r.Charging?
  {
  }

  /** One timer tick at instant `now`: recalculate if the guard allows it,
      otherwise leave the panel as it is. */
  function UpdateCompletionTime(panel: ChargeResult, inp: ChargeInputs, now: int): (p: ChargeResult)
    ensures !panel.Charging? ==> p == panel
    ensures panel.Charging? ==> p == Calculate(inp, now)
  {
    if ShouldRefresh(CompletionShown(panel)) then Calculate(inp, now) else panel
  }

  /** The panel after the timer has fired at each instant of `ticks` in turn. */
  function RefreshAll(panel: ChargeResult, inp: ChargeInputs, ticks: seq<int>): (p: ChargeResult)
    ensures p == panel || exists i :: 0 <= i < |ticks| && p == Calculate(inp, ticks[i])
    decreases |ticks|
  {
    if |ticks| == 0 then panel
    else RefreshAll(UpdateCompletionTime(panel, inp, ticks[0]), inp, ticks[1..])
  }

  /** A panel showing Full, Never or a validation error is never touched by
      the timer, however often it fires. */
  lemma {:induction false} SentinelPanelsStay(panel: ChargeResult, inp: ChargeInputs, ticks: seq<int>)
    requires !panel.Charging?
    ensures RefreshAll(panel, inp, ticks) == panel
    decreases |ticks|
  {
    if |ticks| > 0 {
      SentinelPanelsStay(UpdateCompletionTime(panel, inp, ticks[0]), inp, ticks[1..]);
    }
  }

  /** A panel showing a charging estimate for inputs that still charge keeps
      tracking the clock: after the ticks it shows exactly what a fresh
      calculation at the last tick shows. */
  lemma {:induction false} ChargingPanelsTrackLastTick(panel: ChargeResult, inp: ChargeInputs, ticks: seq<int>)
    requires panel.Charging? && WillCharge(inp) && |ticks| > 0
    ensures RefreshAll(panel, inp, ticks) == Calculate(inp, ticks[|ticks| - 1])
    decreases |ticks|
  {
    var next := UpdateCompletionTime(panel, inp, ticks[0]);
    if |ticks| > 1 {
      ChargingPanelsTrackLastTick(next, inp, ticks[1..]);
      assert ticks[1..][|ticks[1..]| - 1] == ticks[|ticks| - 1];
    }
  }

  /** A stale charging panel for inputs that no longer charge is replaced at
      the first tick by the sentinel result, which then stays. The page never
      reaches this state on its own, since every change to the level, size or
      generation re-runs the estimator (app.js:36-39); the lemma shows the
      guard would recover from it anyway. */
  lemma {:induction false} ChargingPanelsSettle(panel: ChargeResult, inp: ChargeInputs, ticks: seq<int>)
    requires panel.Charging? && !WillCharge(inp) && |ticks| > 0
    ensures RefreshAll(panel, inp, ticks) == Calculate(inp, ticks[0])
    ensures !RefreshAll(panel, inp, ticks).Charging?
  {
    SentinelPanelsStay(Calculate(inp, ticks[0]), inp, ticks[1..]);
  }
}
