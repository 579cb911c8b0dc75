# Home battery calculator: charge-time and VPP discharge engines

This project models the computational core of `BatteryManagementCalculator`, a
browser widget for a solar home battery. The widget holds two calculators:

- the **charge-time estimator** (`calculateCharging`). It takes the current level,
  the battery size and the solar generation rate. It reports one of four outcomes:
  a validation error, "already full", "never" (no generation), or the hours and
  minutes to full with the instant the battery will be full.
- the **virtual-power-plant (VPP) discharge calculator** (`calculateVPP`, with its
  twin accessor `getAvailableCapacity`). It turns the level, the size and the
  reserve percentage into a reserve floor and the energy above it. It clamps the
  requested export (duration in minutes / 60 × rate) to that energy. It then reports the exported
  energy, the final level, the usage percentage, the revenue and a status line:
  limited by the reserve with a shortfall, close to the reserve (a fixed 0.1 kWh
  margin), or a summary.

It also models the guard in `updateCompletionTime`. A once-a-minute timer
recalculates the charge estimate, but only while the completion field shows a
clock time rather than one of the fixed texts ("--:-- --", "Full", "Never").

Every operation is a pure function over `real` that returns a result datatype:

| file | module | contents |
|---|---|---|
| numeric.dfy | `Numeric` | `Math.round` as `Floor(x + 0.5)`, the truncation to whole milliseconds of a `Date`, min/max, scaling lemmas |
| validation.dfy | `Validation` | the two input errors and the guard both calculators open with |
| charge_time.dfy | `ChargeTime` | `ChargeResult = Rejected | Full | Never | Charging`, the estimator, its monotonicity |
| completion_refresh.dfy | `CompletionRefresh` | the completion-field text, the refresh guard, repeated timer ticks |
| vpp_discharge.dfy | `VppDischarge` | `VppResult = Rejected | NoInput | AtReserve | Discharge(status)`, reserve clamp, conservation |
| calculator.dfy | `BatteryCalculator` | both calculators validate alike; the page's example data |

Inputs are taken as already-parsed numbers. The host reads each field with
`parseFloat(x) || 0`, so empty or unparsable text arrives as 0 and goes through
the validation branches. The wall clock is a parameter `now`, in milliseconds
since the epoch.

Three behaviours of the program that the model keeps as they are:

- `calculateCharging` computes the remaining capacity only on the charging path (app.js:90).
- A shortfall is reported only with the "limited by reserve" status (app.js:184-186).
- `calculateVPP` accepts a level above the capacity and any reserve percentage (app.js:130-151).

## Model

| member | source | states |
|---|---|---|
| Numeric.Round | app.js:100 | `Math.round` lands within one half of its argument |
| Numeric.Trunc | app.js:104 | the time value of a `Date` is truncated towards zero, within one millisecond of the exact value |
| Validation.CheckBattery | app.js:64-75 | an invalid size is reported first whatever the level; a negative level is reported only for a valid size; otherwise the inputs pass |
| ChargeTime.Calculate | app.js:56-116 | exactly one variant per input, in the code's precedence: invalid size, negative level, Full (even with no generation), Never, Charging; a charging result has positive remaining capacity equal to size minus level, hours × generation = remaining, minutes within one half of hours × 60 and never negative, and a completion instant at or after now within 1 ms of now + hours, truncated down to the whole millisecond for a non-negative clock |
| ChargeTime.DefensiveBranchUnreachable | app.js:89-96 | once the earlier guards pass, the remaining capacity is positive, so the second "already full" check never fires and the result is a charging estimate |
| ChargeTime.HoursToFullNonIncreasing | app.js:99 | with size and generation fixed, a higher starting level never shows more hours to full, across the Full and Charging variants |
| ChargeTime.MinutesToFullNonIncreasing | app.js:99-100 | with size and generation fixed, a higher starting level never shows more minutes to full: rounding keeps the order of the hours |
| ChargeTime.ClockMovesOnlyCompletion | app.js:99-104 | the clock affects only the completion instant, which moves forward with it; hours, minutes, remaining capacity and every non-charging variant are independent of it |
| CompletionRefresh.CompletionShown | app.js:77-111 | the completion field shows a clock time exactly for a charging result, and that time is the result's completion instant |
| CompletionRefresh.ShouldRefresh | app.js:286-288 | the field holds none of the three fixed texts exactly when it shows a clock time |
| CompletionRefresh.RefreshAll | app.js:45 | after the timer has fired at a sequence of instants, the panel is either untouched or shows the calculation at one of those instants |
| CompletionRefresh.ShouldRefreshIffCharging | app.js:284-291 | the refresh guard (none of the three fixed texts) holds exactly when the panel shows a charging estimate |
| CompletionRefresh.UpdateCompletionTime | app.js:284-291 | a tick leaves an error, Full or Never panel unchanged and replaces a charging panel by a fresh calculation at the tick's instant |
| CompletionRefresh.SentinelPanelsStay | app.js:284-291 | however many ticks fire, a panel showing an error, Full or Never is never touched |
| CompletionRefresh.ChargingPanelsTrackLastTick | app.js:284-291 | a charging panel for inputs that still charge shows, after any non-empty run of ticks, exactly the calculation at the last tick |
| CompletionRefresh.ChargingPanelsSettle | app.js:284-291 | a charging panel for inputs that no longer charge (a state the page never reaches, since every input change re-runs the estimator) is replaced at the first tick by a non-charging result that then stays |
| VppDischarge.ReserveFloor | app.js:148 | the floor is the reserve percentage of the size (floor × 100 = size × reserve); for a valid size and a reserve of 0–100 % it lies between 0 and the size |
| VppDischarge.AvailableCapacity | app.js:294-301 | the energy above the reserve floor is never negative, is zero exactly when the level is at or below the floor, and otherwise is level minus floor |
| VppDischarge.RequestedEnergy | app.js:159-161 | the requested export, times 60, equals duration in minutes times rate |
| VppDischarge.Calculate | app.js:118-196 | exactly one variant per input, in the code's precedence: invalid size, negative level, no input (duration or rate not positive), at reserve (zero export, level kept), discharge; a discharge exports a positive amount no larger than the request or the available energy and equal to one of them, conserves energy, ends at or above the floor, has usage × size = export × 100 and revenue = export × price; the status is "limited" exactly when export < request with shortfall = request − export > 0, "close" exactly when unclamped and ending within 0.1 kWh of the floor, and a summary mentions revenue exactly when the price is positive |
| VppDischarge.AvailableCapacityMatchesCalculation | app.js:294-301 | the accessor agrees with the calculation: a valid request is at reserve exactly when the accessor reports zero, and otherwise exports min(request, accessor's figure) |
| VppDischarge.LimitedExactlyWhenRequestExceedsAvailable | app.js:163-186 | the reserve limits a discharge exactly when the request exceeds the available energy; the shortfall is then the excess and the battery ends exactly at the floor |
| VppDischarge.ReserveRespected | app.js:147-170 | for both at-reserve and discharge results: final + export = level, 0 ≤ export ≤ available, the final level is at least min(level, floor), and usage is non-negative; with a non-negative reserve the final level is non-negative, and with a non-negative reserve and a level within capacity usage is at most 100 % |
| VppDischarge.RevenueNonNegativeAndMonotone | app.js:172-173 | revenue is non-negative for a non-negative price and never decreases when only the price rises |
| VppDischarge.LongerDischargeNeverExportsLess | app.js:159-164 | lengthening the discharge at the same rate keeps it a discharge and never exports less |
| BatteryCalculator.ValidationAgrees | app.js:129-140 | both calculators reject exactly the same level and size with the same error, and an invalid size is reported whatever the other inputs |
| BatteryCalculator.ExampleCharging | app.js:198-207 | the example data (25.5 of 32.24 kWh at 8.5 kW) leaves 6.74 kWh, about 0.79 hours, shown as 48 minutes |
| BatteryCalculator.ExampleNoGeneration | app.js:83-87 | 30 of 32.24 kWh with no generation never fills |
| BatteryCalculator.ExampleFull | app.js:77-81 | a battery at capacity is Full whatever the generation |
| BatteryCalculator.ExampleDischarge | app.js:198-207 | the example discharge has floor 12.896 and 12.604 kWh available; it exports the full 5 kWh, ends at 20.5 kWh, uses about 15.5 %, earns 6.30 and ends with a summary that mentions revenue |
| BatteryCalculator.ExampleBelowReserve | app.js:153-157 | 10 kWh under a 40 % reserve of 32.24 kWh exports nothing and keeps the level |

## Left out

- DOM lookups, event listeners, result and status text writes, status CSS classes and the loading animation: user-interface plumbing. Status messages appear as result variants, not as text.
- `setInterval` and `setTimeout` (and `debounce`): the timer is an external scheduler. It appears only as the sequence of instants at which it fires.
- `formatTime`, `formatCurrency`, `toFixed` and `formatNumber`: locale and IEEE-754 decimal rendering. The completion instant is kept as milliseconds since the epoch. A rendered clock time never equals one of the three fixed texts.
- `parseFloat`: inputs are reals. The host substitutes 0 for NaN and empty text.
- IEEE-754 arithmetic: all quantities are exact reals, so infinities, NaN and rounding error do not arise. The `Date` range limit (±8.64·10^15 ms) is not modelled.
- `validateInputs`, `setupInputValidation`, `createExampleButton`, keyboard shortcuts, tooltips and `loadExampleData`: visual feedback only. The example data appears as example lemmas.
- The module export at app.js:449-451.
- Idempotence of repeated calls with the same inputs and clock holds by construction: every calculator is a pure function, so no lemma states it.
