/** The request logger's choice of level for a finished request. */
module RequestLogger {
  import opened Errors

  datatype Level = Info | Warn | Error

  /** Error from 500 up, warn from 400 up, info below. */
  function LogLevel(statusCode: int): (l: Level)
    ensures l == Error <==> statusCode >= 500
    ensures l == Warn <==> 400 <= statusCode < 500
    ensures l == Info <==> statusCode < 400
  {
    if statusCode >= 500 then Error
    else if statusCode >= 400 then Warn
    else Info
  }

  function Severity(l: Level): nat
  {
    match l
    case Info => 0
    case Warn => 1
    case Error => 2
  }

  /** A higher status is never logged at a lower level. */
  lemma LevelMonotone(a: int, b: int)
    requires a <= b
    ensures Severity(LogLevel(a)) <= Severity(LogLevel(b))
  {
  }

  /** Every refusal a service raises is logged as a warning. */
  lemma FailuresAreWarnings(f: Failure)
    ensures LogLevel(StatusOf(f)) == Warn
  {
  }
}
