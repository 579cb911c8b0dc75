/**
 The two calculators side by side: they read the same battery level and
 size and validate them identically, and the example data the page loads
 produces the expected figures.
 */
module BatteryCalculator {
  import opened Validation
  import ChargeTime
  import VppDischarge

  /** Both calculators reject exactly the same battery inputs, with the same
      error, whatever the solar, reserve and discharge inputs are; the size
      check takes precedence over the level check. */
  lemma ValidationAgrees(level: real, size: real, solar: real, now: int,
                         reserve: real, duration: real, rate: real, price: real)
    ensures var c := ChargeTime.Calculate(ChargeTime.ChargeInputs(level, size, solar), now);
            var v := VppDischarge.Calculate(VppDischarge.VppInputs(level, size, reserve, duration, rate, price));
            && (c.Rejected? <==> v.Rejected?)
            && (c.Rejected? ==> c.error == v.error)
            && (size <= 0.0 ==> c == ChargeTime.Rejected(InvalidBatterySize))
            && (size <= 0.0 ==> v == VppDischarge.Rejected(InvalidBatterySize))
  {
  }

  /** Charging from 25.5 of 32.24 kWh at 8.5 kW: 6.74 kWh remain, about
      0.79 hours, shown as 48 minutes. */
  lemma ExampleCharging(now: int)
    ensures var r := ChargeTime.Calculate(ChargeTime.ChargeInputs(25.5, 32.24, 8.5), now);
            && r.Charging?
            && r.remaining == 6.74
            && 0.79 < r.hours < 0.80
            && r.minutes == 48
  {
  }

  /** No generation: the battery never fills. */
  lemma ExampleNoGeneration(now: int)
    ensures ChargeTime.Calculate(ChargeTime.ChargeInputs(30.0, 32.24, 0.0), now) == ChargeTime.Never
  {
  }

  /** A battery at its capacity is full, even with no generation. */
  lemma ExampleFull(solar: real, now: int)
    ensures ChargeTime.Calculate(ChargeTime.ChargeInputs(32.24, 32.24, solar), now) == ChargeTime.Full
  {
  }

  /** The example discharge: 30 minutes at 10 kW above a 40% reserve of
      32.24 kWh exports the full 5 kWh, ending at 20.5 kWh and earning 6.30. */
  lemma ExampleDischarge()
    ensures var r := VppDischarge.Calculate(VppDischarge.VppInputs(25.5, 32.24, 40.0, 30.0, 10.0, 1.26));
            && VppDischarge.FloorOf(VppDischarge.VppInputs(25.5, 32.24, 40.0, 30.0, 10.0, 1.26)) == 12.896
            && VppDischarge.AvailableOf(VppDischarge.VppInputs(25.5, 32.24, 40.0, 30.0, 10.0, 1.26)) == 12.604
            && r == VppDischarge.Discharge(
                      VppDischarge.Figures(5.0, 20.5, 500.0 / 32.24, 6.3),
                      VppDischarge.Summary(true))
            && 15.5 < r.figures.usagePercent < 15.6
  {
  }

  /** Below the reserve floor nothing is exported and the level is kept. */
  lemma ExampleBelowReserve()
    ensures VppDischarge.Calculate(VppDischarge.VppInputs(10.0, 32.24, 40.0, 30.0, 10.0, 1.26))
              == VppDischarge.AtReserve(VppDischarge.Figures(0.0, 10.0, 0.0, 0.0))
  {
  }
}
