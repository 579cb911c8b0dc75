/**
 The virtual-power-plant discharge and revenue calculator: how much energy
 a scheduled export can take from the battery without going below the
 reserve floor, where that leaves the battery, and what it earns.
 */
module VppDischarge {
  import opened Numeric
  import opened Validation

  datatype VppInputs = VppInputs(
    currentLevel: real,       // kWh stored now
    batterySize: real,        // kWh capacity
    reserveLevel: real,       // per cent of capacity kept back
    dischargeDuration: real,  // minutes
    dischargeRate: real,      // kW exported
    exportPrice: real         // currency per kWh
  )

  /** The four figures the calculator displays. */
  datatype Figures = Figures(
    energyDischarged: real,   // kWh
    finalLevel: real,         // kWh
    usagePercent: real,       // per cent of capacity
    revenue: real             // currency
  )

  /** The status line of a discharge that goes ahead. */
  datatype VppStatus =
    | LimitedByReserve(shortfall: real)  // the reserve floor cut the request short
    | CloseToReserve                     // the battery ends within the margin of the floor
    | Summary(mentionsRevenue: bool)     // usage, and revenue when the price is positive

  datatype VppResult =
    | Rejected(error: InputError)
    | NoInput                             // duration or rate not positive: figures blanked
    | AtReserve(figures: Figures)         // nothing above the floor to export
    | Discharge(figures: Figures, status: VppStatus)

  /** The fixed proximity margin of the "close to reserve" warning, in kWh. */
  const CloseToReserveMargin: real := 0.1

  /** The reserve floor in kWh. */
  function ReserveFloor(batterySize: real, reserveLevel: real): (floor: real)
    ensures floor * 100.0 == batterySize * reserveLevel
    ensures 0.0 < batterySize && 0.0 <= reserveLevel <= 100.0 ==> 0.0 <= floor <= batterySize
  {
    batterySize * reserveLevel / 100.0
  }

  /** Energy above the reserve floor, never negative. This is the utility
      accessor of the calculator; the discharge calculation uses it too. */
  function AvailableCapacity(currentLevel: real, batterySize: real, reserveLevel: real): (r: real)
    ensures 0.0 <= r
    ensures r == 0.0 <==> currentLevel <= ReserveFloor(batterySize, reserveLevel)
    ensures 0.0 < r ==> r + ReserveFloor(batterySize, reserveLevel) == currentLevel
  {
    Max(0.0, currentLevel - ReserveFloor(batterySize, reserveLevel))
  }

  /** The energy the requested duration and rate would export, in kWh. */
  function RequestedEnergy(dischargeDuration: real, dischargeRate: real): (e: real)
    ensures e * MinutesPerHour == dischargeDuration * dischargeRate
  {
    (dischargeDuration / MinutesPerHour) * dischargeRate
  }

  /** The three quantities above, read from one set of inputs. */
  function AvailableOf(inp: VppInputs): real
  {
    AvailableCapacity(inp.currentLevel, inp.batterySize, inp.reserveLevel)
  }

  function FloorOf(inp: VppInputs): real
  {
    ReserveFloor(inp.batterySize, inp.reserveLevel)
  }

  function RequestedOf(inp: VppInputs): real
  {
    RequestedEnergy(inp.dischargeDuration, inp.dischargeRate)
  }

  /** The calculator. */
  function Calculate(inp: VppInputs): (r: VppResult)
    ensures r == Rejected(InvalidBatterySize) <==> inp.batterySize <= 0.0
    ensures r == Rejected(NegativeCurrentLevel) <==> 0.0 < inp.batterySize && inp.currentLevel < 0.0
    ensures r.NoInput? <==>
              && 0.0 < inp.batterySize && 0.0 <= inp.currentLevel
              && (inp.dischargeDuration <= 0.0 || inp.dischargeRate <= 0.0)
    ensures r.AtReserve? <==>
              && 0.0 < inp.batterySize && 0.0 <= inp.currentLevel
              && 0.0 < inp.dischargeDuration && 0.0 < inp.dischargeRate
              && inp.currentLevel <= FloorOf(inp)
    ensures r.AtReserve? ==> r.figures == Figures(0.0, inp.currentLevel, 0.0, 0.0)
    ensures r.Discharge? ==>
              var f := r.figures;
              && 0.0 < f.energyDischarged <= AvailableOf(inp)
              && f.energyDischarged <= RequestedOf(inp)
              && (f.energyDischarged == RequestedOf(inp) || f.energyDischarged == AvailableOf(inp))
              && f.finalLevel + f.energyDischarged == inp.currentLevel
              && FloorOf(inp) <= f.finalLevel
              && f.usagePercent * inp.batterySize == f.energyDischarged * 100.0
              && f.revenue == f.energyDischarged * inp.exportPrice
    ensures r.Discharge? ==>
              var f := r.figures;
              && (r.status.LimitedByReserve? <==> f.energyDischarged < RequestedOf(inp))
              && (r.status.LimitedByReserve? ==>
                    0.0 < r.status.shortfall && r.status.shortfall + f.energyDischarged == RequestedOf(inp))
              && (r.status.CloseToReserve? <==>
                    f.energyDischarged == RequestedOf(inp) && f.finalLevel <= FloorOf(inp) + CloseToReserveMargin)
              && (r.status.Summary? ==> (r.status.mentionsRevenue <==> 0.0 < inp.exportPrice))
  {
    match CheckBattery(inp.currentLevel, inp.batterySize)
    case Invalid(e) => Rejected(e)
    case Valid =>
      if inp.dischargeDuration <= 0.0 || inp.dischargeRate <= 0.0 then NoInput
      else
        var reserveKwh := ReserveFloor(inp.batterySize, inp.reserveLevel);
        var available := AvailableCapacity(inp.currentLevel, inp.batterySize, inp.reserveLevel);
        if available <= 0.0 then AtReserve(Figures(0.0, inp.currentLevel, 0.0, 0.0))
        else
          var requested := RequestedEnergy(inp.dischargeDuration, inp.dischargeRate);
          var actual := Min(requested, available);
          var finalLevel := inp.currentLevel - actual;
          var usage := (actual / inp.batterySize) * 100.0;
          var revenue := actual * inp.exportPrice;
          var status :=
            if actual < requested then LimitedByReserve(requested - actual)
            else if finalLevel <= reserveKwh + CloseToReserveMargin then CloseToReserve
            else Summary(inp.exportPrice > 0.0);
          Discharge(Figures(actual, finalLevel, usage, revenue), status)
  }

  /** The reserve floor caps the discharge exactly when the request exceeds
      the energy above it; the shortfall is then the excess, and the
      battery ends exactly at the floor. */
  lemma LimitedExactlyWhenRequestExceedsAvailable(inp: VppInputs)
    requires Calculate(inp).Discharge?
    ensures Calculate(inp).status.LimitedByReserve? <==> AvailableOf(inp) < RequestedOf(inp)
    ensures Calculate(inp).status.LimitedByReserve? ==>
              && Calculate(inp).status.shortfall == RequestedOf(inp) - AvailableOf(inp)
              && Calculate(inp).figures.finalLevel == FloorOf(inp)
  {
  }

  /** The utility accessor reports the same energy the calculation clamps
      against: a valid request finds nothing to export exactly when the
      accessor reports zero, and otherwise exports the smaller of the
      request and the accessor's figure. */
  lemma AvailableCapacityMatchesCalculation(inp: VppInputs)
    requires 0.0 < inp.batterySize && 0.0 <= inp.currentLevel
    requires 0.0 < inp.dischargeDuration && 0.0 < inp.dischargeRate
    ensures Calculate(inp).AtReserve? <==>
              AvailableCapacity(inp.currentLevel, inp.batterySize, inp.reserveLevel) == 0.0
    ensures Calculate(inp).Discharge? ==>
              Calculate(inp).figures.energyDischarged
                == Min(RequestedOf(inp), AvailableCapacity(inp.currentLevel, inp.batterySize, inp.reserveLevel))
  {
  }

  /** For every result that displays figures, energy is conserved, the
      export never exceeds what lies above the floor, and the battery never
      ends below the lower of its starting level and the floor. With a
      non-negative reserve it never ends below empty, and when it starts
      within its capacity the usage is at most 100 per cent. */
  lemma ReserveRespected(inp: VppInputs)
    requires Calculate(inp).AtReserve? || Calculate(inp).Discharge?
    ensures var f := Calculate(inp).figures;
            && f.finalLevel + f.energyDischarged == inp.currentLevel
            && 0.0 <= f.energyDischarged <= AvailableOf(inp)
            && Min(inp.currentLevel, FloorOf(inp)) <= f.finalLevel
            && 0.0 <= f.usagePercent
    ensures 0.0 <= inp.reserveLevel ==> 0.0 <= Calculate(inp).figures.finalLevel
    ensures 0.0 <= inp.reserveLevel && inp.currentLevel <= inp.batterySize ==>
              Calculate(inp).figures.usagePercent <= 100.0
  {
    var r := Calculate(inp);
    var f := r.figures;
    if r.Discharge? {
      if 0.0 <= inp.reserveLevel {
        assert 0.0 <= FloorOf(inp);
        if inp.currentLevel <= inp.batterySize {
          assert f.energyDischarged <= inp.batterySize;
          PercentOfPartAtMostHundred(f.usagePercent, f.energyDischarged, inp.batterySize);
        }
      }
    }
  }

  /** Revenue is the exported energy priced at the export price, so it is
      never negative for a non-negative price and grows with the price. */
  lemma RevenueNonNegativeAndMonotone(inp: VppInputs, higherPrice: real)
    requires Calculate(inp).Discharge? && 0.0 <= inp.exportPrice <= higherPrice
    ensures 0.0 <= Calculate(inp).figures.revenue
    ensures Calculate(inp).figures.revenue
              <= Calculate(inp.(exportPrice := higherPrice)).figures.revenue
  {
    var e := Calculate(inp).figures.energyDischarged;
    assert Calculate(inp.(exportPrice := higherPrice)).figures.energyDischarged == e;
    assert e * inp.exportPrice <= e * higherPrice;
  }

  /** A longer discharge at the same rate never exports less. */
  lemma LongerDischargeNeverExportsLess(inp: VppInputs, longer: real)
    requires Calculate(inp).Discharge? && inp.dischargeDuration <= longer
    ensures Calculate(inp.(dischargeDuration := longer)).Discharge?
    ensures Calculate(inp).figures.energyDischarged
              <= Calculate(inp.(dischargeDuration := longer)).figures.energyDischarged
  {
    var inp' := inp.(dischargeDuration := longer);
    var d, rate := inp.dischargeDuration, inp.dischargeRate;
    ScaleMonotone(d / MinutesPerHour, longer / MinutesPerHour, rate);
    assert RequestedOf(inp) <= RequestedOf(inp');
    assert AvailableOf(inp) == AvailableOf(inp');
    var a, b := Calculate(inp), Calculate(inp');
    assert a.figures.energyDischarged == Min(RequestedOf(inp), AvailableOf(inp));
    assert b.figures.energyDischarged == Min(RequestedOf(inp'), AvailableOf(inp'));
  }

  /** A part no larger than the whole is at most 100 per cent of it. */
  lemma PercentOfPartAtMostHundred(percent: real, part: real, whole: real)
    requires 0.0 < whole && part <= whole
    requires percent * whole == part * 100.0
    ensures percent <= 100.0
  {
    if percent > 100.0 {
      ScaleMonotone(100.0, percent, whole);
    }
  }
}
