/** The system-battery branch of charge_level. The battery record and the
    refresh of it (battery_update, battery_is_charging) belong to a header
    that is not part of this model: the refreshed values are an input. */
module NativeBattery {
  import opened BatteryTypes

  /** The refreshed battery as charge_level reads it: whether it charges, its
      state text, the seconds remaining and the charge percentage. The state
      is the C string the battery record holds, that is the text before its
      first NUL, which is all strcasecmp compares. */
  datatype BatteryInfo = BatteryInfo(charging: bool, state: string, seconds: int, percentage: int)

  /** tolower, assuming the C locale (the plugin may switch to the user's
      locale at start-up; other locales are not modelled). */
  function Lower(c: char): (l: char)
    ensures 'A' <= c <= 'Z' ==> l as int == c as int + 32
    ensures !('A' <= c <= 'Z') ==> l == c
  {
    if 'A' <= c <= 'Z' then (c as int + 32) as char else c
  }

  /** strcasecmp(a, b) == 0: equal once both are lowered. */
  predicate SameIgnoringCase(a: string, b: string) {
    |a| == |b| && forall k :: 0 <= k < |a| ==> Lower(a[k]) == Lower(b[k])
  }

  /** The state text that marks a full battery, in any letter case. */
  predicate IsFull(state: string) {
    SameIgnoringCase(state, "full")
  }

  /** IsFull accepts exactly the sixteen spellings of "full" in mixed case. */
  lemma IsFullSpellings(state: string)
    ensures IsFull(state) <==>
              |state| == 4 && state[0] in "fF" && state[1] in "uU" && state[2] in "lL" && state[3] in "lL"
  {
    if |state| == 4 {
      var f := "full";
      assert Lower(f[0]) == 'f' && Lower(f[1]) == 'u' && Lower(f[2]) == 'l' && Lower(f[3]) == 'l';
    }
  }

  /** C's `/` for a positive divisor: the quotient truncated toward zero, so
      the remainder takes the sign of the dividend. */
  function TruncDiv(a: int, b: int): (q: int)
    requires b > 0
    ensures a >= 0 ==> 0 <= a - q * b < b
    ensures a < 0 ==> -b < a - q * b <= 0
  {
    if a >= 0 then a / b else -((-a) / b)
  }

  /** For the divisor charge_level uses, 60, the quotient TruncDiv's
      contract describes is the only one. */
  lemma MinutesUnique(seconds: int, q: int)
    requires seconds >= 0 ==> 0 <= seconds - q * 60 < 60
    requires seconds < 0 ==> -60 < seconds - q * 60 <= 0
    ensures q == TruncDiv(seconds, 60)
  {
  }

  /** One query of the system battery. No battery gives Unavailable;
      otherwise a charging battery whose state reads "full" is on external
      power, any other charging battery is charging, and a battery that does
      not charge is discharging. Minutes are the remaining seconds divided by
      60 as C divides, and the capacity is the battery's percentage. */
  function Query(battery: Option<BatteryInfo>): (r: Reading)
    ensures battery.None? ==> r == Unavailable
    ensures battery.Some? ==> var b := battery.value;
              && r.capacity == b.percentage
              && r.minutes == TruncDiv(b.seconds, 60)
              && (r.status == ExtPower <==> b.charging && IsFull(b.state))
              && (r.status == Charging <==> b.charging && !IsFull(b.state))
              && (r.status == Discharging <==> !b.charging)
  {
    match battery
    case None => Unavailable
    case Some(b) =>
      var status := if b.charging then (if IsFull(b.state) then ExtPower else Charging) else Discharging;
      Reading(b.percentage, status, TruncDiv(b.seconds, 60))
  }

  /** Minutes follow the seconds remaining: whole minutes for a count that
      is not negative, rounded toward zero for one that is. */
  lemma MinutesOfSeconds(b: BatteryInfo)
    ensures b.seconds >= 0 ==> Query(Some(b)).minutes == b.seconds / 60
    ensures b.seconds < 0 ==> Query(Some(b)).minutes == -((-b.seconds) / 60)
    ensures -59 <= b.seconds <= 59 ==> Query(Some(b)).minutes == 0
  {
  }
}
