/** update_icon end to end: query the selected source, then redraw or leave
    the display alone. */
module UpdateIcon {
  import opened BatteryTypes
  import opened Display
  import ChargeLevel
  import DeviceFeed
  import Scan
  import Synthetic

  /** One update: what is displayed afterwards and the outcome of the query. */
  datatype Update = Update(shown: Option<View>, poll: ChargeLevel.PollResult)

  /** One update_icon call: query the selected source, then keep the display
      on an Unknown reading or redraw it from the reading otherwise. */
  function Run(shown: Option<View>, p: ChargeLevel.Poll): (u: Update)
    ensures u.poll == ChargeLevel.Query(p)
    ensures u.poll.reading.status == Unknown ==> u.shown == shown
    ensures u.poll.reading.status != Unknown ==> u.shown.Some? && u.shown.value.icon.level == u.poll.reading.capacity
    ensures u.poll.reading.status != Unknown ==> u.shown == Render(u.poll.reading)
  {
    var r := ChargeLevel.Query(p);
    Update(Apply(shown, r.reading), r)
  }

  /** A device-manager poll that finds no message keeps the display as it
      was, yet still attempts the acknowledgement. */
  lemma NoMessageKeepsDisplay(shown: Option<View>)
    ensures Run(shown, ChargeLevel.DeviceManager(true, DeviceFeed.NoMessage)).shown == shown
    ensures Run(shown, ChargeLevel.DeviceManager(true, DeviceFeed.NoMessage)).poll.ack == Some(DeviceFeed.AckToken)
  {
  }

  /** In test mode every update redraws, with the level the generator has
      just reached. */
  lemma TestModeAlwaysDraws(shown: Option<View>, level: int)
    ensures var u := Run(shown, ChargeLevel.TestMode(level));
            && u.shown.Some?
            && u.poll.level == Some(Synthetic.Next(level))
            && u.shown.value.icon.level == (if Synthetic.Next(level) < 0 then -Synthetic.Next(level) else Synthetic.Next(level))
  {
  }

  /** A device-manager message of 1 to 99 bytes that starts with a record
      carrying the magic number and a valid state is drawn: the view is the
      rendering of the record's capacity, minutes and status. */
  lemma ValidRecordDrawn(shown: Option<View>, state: int, capacity: int, minutes: int, rest: string)
    requires |Scan.RecordText(DeviceFeed.Magic, state, capacity, minutes) + rest| < DeviceFeed.BufferSize
    requires DeviceFeed.ValidState(state)
    ensures var msg := DeviceFeed.Message(Scan.RecordText(DeviceFeed.Magic, state, capacity, minutes) + rest);
            Run(shown, ChargeLevel.DeviceManager(true, msg)).shown
              == Render(Reading(capacity, DeviceFeed.RecordStatus(state, capacity, minutes), minutes))
  {
    DeviceFeed.DecodeRecord(DeviceFeed.Magic, state, capacity, minutes, rest);
  }

  /** A device-manager message that starts with a record whose magic number
      or state is wrong leaves the display as it was. */
  lemma RejectedRecordKeeps(shown: Option<View>, magic: int, state: int, capacity: int, minutes: int, rest: string)
    requires |Scan.RecordText(magic, state, capacity, minutes) + rest| < DeviceFeed.BufferSize
    requires !(magic == DeviceFeed.Magic && DeviceFeed.ValidState(state))
    ensures var msg := DeviceFeed.Message(Scan.RecordText(magic, state, capacity, minutes) + rest);
            Run(shown, ChargeLevel.DeviceManager(true, msg)).shown == shown
  {
    DeviceFeed.DecodeRecord(magic, state, capacity, minutes, rest);
  }
}
