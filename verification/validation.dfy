/**
 The two validation failures both calculators report before computing
 anything. They are checked in the same order by both: battery size
 first, then the current level.
 */
module Validation {

  datatype InputError =
    | InvalidBatterySize      // "Please enter a valid battery size"
    | NegativeCurrentLevel    // "Current battery level cannot be negative"

  datatype Check = Valid | Invalid(error: InputError)

  /** The guard both calculators open with. */
  function CheckBattery(currentLevel: real, batterySize: real): (c: Check)
    ensures c == Invalid(InvalidBatterySize) <==> batterySize <= 0.0
    ensures c == Invalid(NegativeCurrentLevel) <==> 0.0 < batterySize && currentLevel < 0.0
    ensures c == Valid <==> 0.0 < batterySize && 0.0 <= currentLevel
  {
    if batterySize <= 0.0 then Invalid(InvalidBatterySize)
    else if currentLevel < 0.0 then Invalid(NegativeCurrentLevel)
    else Valid
  }
}
