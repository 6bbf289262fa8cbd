/**
 * The server's sensor sanity check, `validate_sensor_data` (scripts/server.py).
 * Five rules are checked in a fixed order and the first one that fails is the
 * reported reason; the reason's text is abstracted to the rule itself.
 */
module Validator {
  import opened Float32

  const TempMin := -40
  const TempMax := 80
  const HumidityMin := 0
  const HumidityMax := 100
  const TimestampMin := 1700000000
  const TimestampMax := 2000000000

  /** The rules, named after the messages the source reports. */
  datatype Rule =
    | TemperatureOutOfRange
    | HumidityOutOfRange
    | NanOrInfGas
    | NegativeGas
    | TimestampOutOfRange

  /** `(True, "")` or `(False, reason)`. */
  datatype Verdict = Accept | Reject(rule: Rule)

  /** Position of a rule in the checking order. */
  function Rank(rule: Rule): nat
  {
    match rule
    case TemperatureOutOfRange => 0
    case HumidityOutOfRange => 1
    case NanOrInfGas => 2
    case NegativeGas => 3
    case TimestampOutOfRange => 4
  }

  /** What each rule demands of a reading, all bounds inclusive. */
  predicate Satisfies(rule: Rule, temp: int, humidity: int, ch4: Float32, co2: Float32, timestamp: int)
  {
    match rule
    case TemperatureOutOfRange => TempMin <= temp <= TempMax
    case HumidityOutOfRange => HumidityMin <= humidity <= HumidityMax
    case NanOrInfGas => !IsNan(ch4) && !IsNan(co2) && !IsInf(ch4) && !IsInf(co2)
    case NegativeGas => !LessThanZero(ch4) && !LessThanZero(co2)
    case TimestampOutOfRange => TimestampMin <= timestamp <= TimestampMax
  }

  /**
   * `validate_sensor_data(temp, humidity, ch4, co2, timestamp)`: accepts exactly
   * the readings that satisfy every rule, and otherwise names the earliest rule
   * in the checking order that the reading breaks.
   */
  function Validate(temp: int, humidity: int, ch4: Float32, co2: Float32, timestamp: int): (v: Verdict)
    ensures v.Accept? <==> forall rule :: Satisfies(rule, temp, humidity, ch4, co2, timestamp)
    ensures v.Reject? ==> !Satisfies(v.rule, temp, humidity, ch4, co2, timestamp)
    ensures v.Reject? ==> forall rule :: Rank(rule) < Rank(v.rule) ==> Satisfies(rule, temp, humidity, ch4, co2, timestamp)
  {
    var verdict :=
      if !(TempMin <= temp <= TempMax) then Reject(TemperatureOutOfRange)
      else if !(HumidityMin <= humidity <= HumidityMax) then Reject(HumidityOutOfRange)
      else if IsNan(ch4) || IsNan(co2) || IsInf(ch4) || IsInf(co2) then Reject(NanOrInfGas)
      else if LessThanZero(ch4) || LessThanZero(co2) then Reject(NegativeGas)
      else if timestamp < TimestampMin || timestamp > TimestampMax then Reject(TimestampOutOfRange)
      else Accept;
    assert verdict.Reject? ==> !Satisfies(verdict.rule, temp, humidity, ch4, co2, timestamp);
    verdict
  }

  /** Conversely, a reading that breaks a rule and keeps every earlier one is rejected for exactly that rule. */
  lemma RejectionIsFirstFailure(temp: int, humidity: int, ch4: Float32, co2: Float32, timestamp: int, rule: Rule)
    requires !Satisfies(rule, temp, humidity, ch4, co2, timestamp)
    requires forall r :: Rank(r) < Rank(rule) ==> Satisfies(r, temp, humidity, ch4, co2, timestamp)
    ensures Validate(temp, humidity, ch4, co2, timestamp) == Reject(rule)
  {
    var v := Validate(temp, humidity, ch4, co2, timestamp);
    assert v.Reject?;
    if Rank(v.rule) < Rank(rule) {
    } else if Rank(rule) < Rank(v.rule) {
    } else {
      match rule
      case TemperatureOutOfRange =>
      case HumidityOutOfRange =>
      case NanOrInfGas =>
      case NegativeGas =>
      case TimestampOutOfRange =>
    }
  }
}
