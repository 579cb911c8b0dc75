/**
 The solar charge-time estimator: how long until the battery is full at the
 current solar generation rate, and at what instant that happens.

 Inputs arrive already parsed; the host substitutes 0 for text that does not
 parse as a number, so every real is a possible input and the degenerate
 ones go through the validation branches.
 */
module ChargeTime {
  import opened Numeric
  import opened Validation

  datatype ChargeInputs = ChargeInputs(
    currentLevel: real,      // kWh stored now
    batterySize: real,       // kWh capacity
    solarGeneration: real    // kW flowing into the battery
  )

  /** What one run of the estimator shows. `Full` displays 0.00 hours and
      0 minutes; `Never` displays an infinite time. */
  datatype ChargeResult =
    | Rejected(error: InputError)
    | Full
    | Never
    | Charging(remaining: real, hours: real, minutes: int, completion: int)
  {
    /** Hours shown for a finite result. */
    function HoursToFull(): real
      requires Full? || Charging?
    {
      if Full? then 0.0 else hours
    }

    /** Minutes shown for a finite result. */
    function MinutesToFull(): int
      requires Full? || Charging?
    {
      if Full? then 0 else minutes
    }
  }

  /** The inputs for which the battery fills in a finite, positive time. */
  predicate WillCharge(inp: ChargeInputs)
  {
    0.0 < inp.batterySize && 0.0 <= inp.currentLevel < inp.batterySize && 0.0 < inp.solarGeneration
  }

  /** The estimator. `now` is the wall clock in milliseconds since the epoch;
      the completion instant is truncated to whole milliseconds as a Date
      truncates its time value. The `remaining <= 0` branch is kept as the
      code writes it; `DefensiveBranchUnreachable` shows it never fires. */
  function Calculate(inp: ChargeInputs, now: int): (r: ChargeResult)
    ensures r == Rejected(InvalidBatterySize) <==> inp.batterySize <= 0.0
    ensures r == Rejected(NegativeCurrentLevel) <==> 0.0 < inp.batterySize && inp.currentLevel < 0.0
    ensures r.Full? <==> 0.0 < inp.batterySize && 0.0 <= inp.currentLevel && inp.batterySize <= inp.currentLevel
    ensures r.Never? <==>
              0.0 < inp.batterySize && 0.0 <= inp.currentLevel < inp.batterySize && inp.solarGeneration <= 0.0
    ensures r.Charging? <==> WillCharge(inp)
    ensures r.Charging? ==>
              && r.remaining + inp.currentLevel == inp.batterySize
              && 0.0 < r.remaining
              && 0.0 < r.hours
              && r.hours * inp.solarGeneration == r.remaining
              && 0 <= r.minutes
              && r.hours * MinutesPerHour - 0.5 < r.minutes as real <= r.hours * MinutesPerHour + 0.5
              && now <= r.completion
              && -1.0 < (now as real + r.hours * MillisPerHour) - r.completion as real < 1.0
              && (0 <= now ==>
                    r.completion as real <= now as real + r.hours * MillisPerHour < r.completion as real + 1.0)
  {
    match CheckBattery(inp.currentLevel, inp.batterySize)
    case Invalid(e) => Rejected(e)
    case Valid =>
      if inp.currentLevel >= inp.batterySize then Full
      else if inp.solarGeneration <= 0.0 then Never
      else
        var remaining := inp.batterySize - inp.currentLevel;
        if remaining <= 0.0 then Full
        else
          var hours := remaining / inp.solarGeneration;
          QuotientOfPositives(remaining, inp.solarGeneration);
          var minutes := Round(hours * MinutesPerHour);
          var completion := Trunc(now as real + hours * MillisPerHour);
          Charging(remaining, hours, minutes, completion)
  }

  /** Once the earlier guards have passed, the remaining capacity is
      positive, so the second "already full" check can never succeed. */
  lemma DefensiveBranchUnreachable(inp: ChargeInputs, now: int)
    requires CheckBattery(inp.currentLevel, inp.batterySize) == Valid
    requires inp.currentLevel < inp.batterySize && 0.0 < inp.solarGeneration
    ensures inp.batterySize - inp.currentLevel > 0.0
    ensures Calculate(inp, now).Charging?
  {
  }

  /** A higher starting level never needs more hours to fill (with size and
      generation fixed), across the Full and Charging variants alike. */
  lemma HoursToFullNonIncreasing(size: real, solar: real, lo: real, hi: real, now1: int, now2: int)
    requires 0.0 < size && 0.0 < solar && 0.0 <= lo <= hi
    ensures Calculate(ChargeInputs(lo, size, solar), now1).HoursToFull()
              >= Calculate(ChargeInputs(hi, size, solar), now2).HoursToFull()
  {
    if hi < size {
      DivideBySamePositive(size - hi, size - lo, solar);
    }
  }

  /** The displayed minutes inherit the same order through rounding. */
  lemma MinutesToFullNonIncreasing(size: real, solar: real, lo: real, hi: real, now1: int, now2: int)
    requires 0.0 < size && 0.0 < solar && 0.0 <= lo <= hi
    ensures Calculate(ChargeInputs(lo, size, solar), now1).MinutesToFull()
              >= Calculate(ChargeInputs(hi, size, solar), now2).MinutesToFull()
  {
    var a := Calculate(ChargeInputs(lo, size, solar), now1);
    var b := Calculate(ChargeInputs(hi, size, solar), now2);
    if hi < size {
      HoursToFullNonIncreasing(size, solar, lo, hi, now1, now2);
      RoundMonotone(b.hours * MinutesPerHour, a.hours * MinutesPerHour);
    }
  }

  /** Dividing both sides of an inequality by the same positive rate. */
  lemma DivideBySamePositive(x: real, y: real, d: real)
    requires x <= y && 0.0 < d
    ensures x / d <= y / d
  {
    assert y / d - x / d == (y - x) / d;
  }

  /** The clock only moves the completion instant: hours, minutes and the
      remaining capacity do not depend on it. */
  lemma ClockMovesOnlyCompletion(inp: ChargeInputs, now1: int, now2: int)
    requires now1 <= now2
    ensures Calculate(inp, now1).Charging? <==> Calculate(inp, now2).Charging?
    ensures Calculate(inp, now1).Charging? ==>
              && Calculate(inp, now1).hours == Calculate(inp, now2).hours
              && Calculate(inp, now1).minutes == Calculate(inp, now2).minutes
              && Calculate(inp, now1).remaining == Calculate(inp, now2).remaining
              && Calculate(inp, now1).completion <= Calculate(inp, now2).completion
    ensures !Calculate(inp, now1).Charging? ==> Calculate(inp, now1) == Calculate(inp, now2)
  {
  }
}
