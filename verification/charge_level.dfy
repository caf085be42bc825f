/** charge_level as a whole: whichever source was selected at start-up is
    queried, and every source reports "nothing usable" the same way. */
module ChargeLevel {
  import opened BatteryTypes
  import DeviceFeed
  import Synthetic
  import NativeBattery

  /** The source selected at start-up, with what this query of it sees: the
      test generator's static level, the device-manager socket (whether it
      exists, and what a receive delivers), or the refreshed system battery
      (absent when none was found). */
  datatype Poll =
    | TestMode(level: int)
    | DeviceManager(connected: bool, received: DeviceFeed.Received)
    | SystemBattery(battery: Option<NativeBattery.BatteryInfo>)

  /** The outcome of one query: the reading, the acknowledgement whose
      send was attempted (if any), and the test generator's level after the query (test mode only). */
  datatype PollResult = PollResult(reading: Reading, ack: Option<string>, level: Option<int>)

  /** One query of the selected source. A reading of status Unknown always
      carries capacity -1 and no minutes, which is how callers recognise a
      cycle to skip; only the device manager attempts an acknowledgement, and the test
      generator never fails. */
  function Query(p: Poll): (r: PollResult)
    ensures r.reading.status == Unknown ==> r.reading.capacity == -1 && r.reading.minutes == 0
    ensures r.ack.Some? <==> p.DeviceManager? && p.connected
    ensures r.level.Some? <==> p.TestMode?
    ensures p.TestMode? ==> r.reading.status != Unknown && r.reading.minutes == Synthetic.FixedMinutes
    ensures p.SystemBattery? ==> (r.reading.status == Unknown <==> p.battery.None?)
    ensures p.TestMode? ==> r.level == Some(Synthetic.Next(p.level))
                            && r.reading == Synthetic.ReadingOf(Synthetic.Next(p.level))
    ensures p.DeviceManager? ==> var q := DeviceFeed.Query(p.connected, p.received);
                                 r.reading == q.reading && r.ack == q.ack
    ensures p.SystemBattery? ==> r.reading == NativeBattery.Query(p.battery)
  {
    match p
    case TestMode(level) =>
      var q := Synthetic.Query(level);
      PollResult(q.reading, None, Some(q.level))
    case DeviceManager(connected, received) =>
      var q := DeviceFeed.Query(connected, received);
      PollResult(q.reading, q.ack, None)
    case SystemBattery(battery) =>
      PollResult(NativeBattery.Query(battery), None, None)
  }
}
