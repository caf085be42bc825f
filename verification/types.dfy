/** Shared vocabulary of the battery applet: the status enum, the reading
    every backend produces, and an Option wrapper for absent values. */
module BatteryTypes {

  datatype Option<+T> = None | Some(value: T)

  /** The applet's status_t: Unknown is -1, the three real states 0, 1, 2. */
  datatype Status = Unknown | Discharging | Charging | ExtPower

  /** The integer code the C enum gives each status. */
  function Code(s: Status): (c: int)
    ensures -1 <= c <= 2
    ensures c == -1 <==> s == Unknown
  {
    match s
    case Unknown => -1
    case Discharging => 0
    case Charging => 1
    case ExtPower => 2
  }

  /** Cast of a raw wire state, already checked to be 0, 1 or 2, to status_t. */
  function StatusOfCode(c: int): (s: Status)
    requires 0 <= c <= 2
    ensures Code(s) == c
    ensures s != Unknown
  {
    if c == 0 then Discharging else if c == 1 then Charging else ExtPower
  }

  /** What one query of a battery source yields: the function's return value
      (capacity, or -1), the status out-parameter and the minutes out-parameter. */
  datatype Reading = Reading(capacity: int, status: Status, minutes: int)

  /** The reading of a query that found nothing usable. */
  const Unavailable := Reading(-1, Unknown, 0)
}
