/** update_icon: how a reading becomes the icon's colour and overlay and the
    tooltip's wording, and when the display is left alone. Colours are the
    three the applet paints with; the tooltip is described by its variant,
    not by its translated, formatted text. */
module Display {
  import opened BatteryTypes

  /** Amber is (0.95, 0.64, 0), Green (0, 0.85, 0), Red (1, 0, 0). */
  datatype Colour = Amber | Green | Red

  /** The image composited over the battery: none, the charging flash, or
      the mains plug. */
  datatype Overlay = NoOverlay | Flash | Plug

  /** The `powered` argument draw_icon receives for an overlay. */
  function PoweredCode(o: Overlay): (code: int)
    ensures 0 <= code <= 2
  {
    match o
    case NoOverlay => 0
    case Flash => 1
    case Plug => 2
  }

  /** The time-remaining line of a tooltip: absent, in minutes, or in hours
      (the hours are rendered from the minutes with one decimal). */
  datatype TimeClause = NoTime | InMinutes(minutes: int) | InHours(minutes: int)

  /** The three tooltip wordings, each showing the capacity. */
  datatype Tooltip =
    | ChargingTip(capacity: int, time: TimeClause)
    | ChargedTip(capacity: int)
    | DischargingTip(capacity: int, time: TimeClause)

  /** What draw_icon is asked to draw: the fill level, colour and overlay. */
  datatype Icon = Icon(level: int, colour: Colour, overlay: Overlay)

  /** What one update shows: the icon and the tooltip. */
  datatype View = View(icon: Icon, tooltip: Tooltip)

  /** Below this many minutes the time is given in minutes. */
  const HoursFrom := 90

  /** A discharging battery at or below this capacity is drawn red. */
  const LowCapacity := 20

  /** The time clause for a number of minutes remaining. */
  function TimeClauseOf(time: int): (c: TimeClause)
    ensures c == NoTime <==> time <= 0
    ensures c.InMinutes? <==> 0 < time < HoursFrom
    ensures c.InHours? <==> time >= HoursFrom
    ensures !c.NoTime? ==> c.minutes == time
  {
    if time <= 0 then NoTime
    else if time < HoursFrom then InMinutes(time)
    else InHours(time)
  }

  /** The time clause a tooltip carries; the external-power wording has none. */
  function TooltipTime(t: Tooltip): TimeClause
  {
    match t
    case ChargingTip(_, time) => time
    case ChargedTip(_) => NoTime
    case DischargingTip(_, time) => time
  }

  /** The view update_icon produces for a reading, or None when the status is
      Unknown and nothing is drawn. */
  function Render(r: Reading): (v: Option<View>)
    ensures v.None? <==> r.status == Unknown
    ensures v.Some? ==> v.value.icon.level == r.capacity && v.value.tooltip.capacity == r.capacity
  {
    match r.status
    case Unknown => None
    case Charging =>
      Some(View(Icon(r.capacity, Amber, Flash), ChargingTip(r.capacity, TimeClauseOf(r.minutes))))
    case ExtPower =>
      Some(View(Icon(r.capacity, Green, Plug), ChargedTip(r.capacity)))
    case Discharging =>
      var colour := if r.capacity <= LowCapacity then Red else Green;
      Some(View(Icon(r.capacity, colour, NoOverlay), DischargingTip(r.capacity, TimeClauseOf(r.minutes))))
  }

  /** The effect of update_icon on what is displayed: an Unknown reading
      leaves icon and tooltip exactly as they were; any other reading
      replaces both. */
  function Apply(shown: Option<View>, r: Reading): (s: Option<View>)
    ensures r.status == Unknown ==> s == shown
    ensures r.status != Unknown ==> s.Some? && s == Render(r)
  {
    if r.status == Unknown then shown else Render(r)
  }

  /** Colour: amber exactly when charging, red exactly when discharging at
      or below 20%, green otherwise (external power, or discharging above
      20%). */
  lemma ColourRule(r: Reading)
    requires r.status != Unknown
    ensures Render(r).value.icon.colour == Amber <==> r.status == Charging
    ensures Render(r).value.icon.colour == Red <==> r.status == Discharging && r.capacity <= LowCapacity
    ensures Render(r).value.icon.colour == Green <==>
              r.status == ExtPower || (r.status == Discharging && r.capacity > LowCapacity)
  {
  }

  /** Overlay: the flash (code 1) exactly when charging, the plug (code 2)
      exactly on external power, none (code 0) when discharging. */
  lemma OverlayRule(r: Reading)
    requires r.status != Unknown
    ensures PoweredCode(Render(r).value.icon.overlay) == Code(r.status)
    ensures Render(r).value.icon.overlay == Flash <==> r.status == Charging
    ensures Render(r).value.icon.overlay == Plug <==> r.status == ExtPower
  {
  }

  /** Tooltip: the wording follows the status, and the time clause is
      absent for external power and otherwise chosen by the minutes alone. */
  lemma TooltipRule(r: Reading)
    requires r.status != Unknown
    ensures Render(r).value.tooltip.ChargingTip? <==> r.status == Charging
    ensures Render(r).value.tooltip.ChargedTip? <==> r.status == ExtPower
    ensures Render(r).value.tooltip.DischargingTip? <==> r.status == Discharging
    ensures TooltipTime(Render(r).value.tooltip) ==
              if r.status == ExtPower then NoTime else TimeClauseOf(r.minutes)
  {
  }

  /** The boundaries: 45 minutes are shown in minutes, 125 in hours, 0 not
      at all; a discharging battery at 20% is red and at 21% green. */
  lemma Boundaries()
    ensures TooltipTime(Render(Reading(50, Charging, 45)).value.tooltip) == InMinutes(45)
    ensures TooltipTime(Render(Reading(50, Charging, 125)).value.tooltip) == InHours(125)
    ensures TooltipTime(Render(Reading(50, Charging, 0)).value.tooltip) == NoTime
    ensures Render(Reading(20, Discharging, 0)).value.icon.colour == Red
    ensures Render(Reading(21, Discharging, 0)).value.icon.colour == Green
  {
  }
}
