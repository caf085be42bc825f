# ptbatt battery applet: a Dafny model of its decision logic

The ptbatt panel applet shows a battery icon with a tooltip. It gets its
readings from one of three sources, chosen at start-up:

- a synthetic sawtooth generator, compiled in with TEST_MODE;
- the pi-top device manager, which publishes pipe-delimited records
  `magic|state|capacity|minutes|` on a local message socket;
- the system battery.

Each query yields a capacity, a status (Unknown, Discharging, Charging,
ExtPower) and the minutes remaining. `update_icon` turns that reading into
three things: a colour, an overlay (flash or plug) and a tooltip wording.
`draw_icon` sizes the icon and its fill bar from the panel icon size.
`convert_alpha` turns the drawn premultiplied ARGB pixels into straight RGBA.

In this version of the source the periodic timer that would call
`update_icon` is commented out (ptbatt.c:606), and the constructor starts the
`run` thread instead (ptbatt.c:609). So `update_icon`, which `UpdateIcon.Run`
models, is reached only when the panel reports a configuration change
(ptbatt.c:544-548). The display the user normally sees is driven by the `run`
thread, which this model leaves out.

This project models those integer decisions as pure functions over small
datatypes, one module per part:

| module | file | models |
|---|---|---|
| BatteryTypes | types.dfy | `status_t` and a reading (capacity, status, minutes) |
| Scan | scan.dfy | the `sscanf(buffer, "%d\|%d\|%d\|%d\|", …)` call over a NUL-terminated buffer, and `%d` rendering for the round trip |
| DeviceFeed | device_feed.dfy | the device-manager branch of `charge_level`: length check, field count, magic 218, state range, the ExtPower override, the attempted "118" acknowledgement |
| Synthetic | synthetic.dfy | the TEST_MODE generator as a one-integer state machine |
| NativeBattery | native.dfy | the system-battery branch of `charge_level` |
| ChargeLevel | charge_level.dfy | `charge_level` as a dispatch over the selected source |
| Display | display.dfy | the status-to-display mapping of `update_icon` |
| Geometry | geometry.dfy | the size and fill arithmetic of `draw_icon` |
| Pixels | pixels.dfy | `convert_alpha`, per pixel and as loops over rows |
| UpdateIcon | update.dfy | one `update_icon` call end to end |

Inputs that come from I/O are parameters:

- what the non-blocking receive delivered, and whether the socket exists;
- the refreshed battery record (`battery_update` and the `battery` struct
  belong to `batt_sys.h`, which is not part of this model);
- the test generator's static level;
- the panel icon size.

Behaviour of the code worth noting:

- The code calls `zmq_send` with the acknowledgement "118" after every query
  that has a socket. This includes queries that received nothing or a
  malformed record. The model records that the send was attempted. Whether
  it reaches the producer is not modelled: the socket is a subscriber
  socket (ptbatt.c:165).
- The capacity in a record is not range-checked. Any integer the scan
  produces is passed on.
- A record needs no closing `|`. The fourth field counts once its digits are
  scanned. Text after the fourth field, or after a NUL byte, is ignored by the
  scan, but it counts toward the 1..99-byte length check, which uses the full
  received length.
- Minutes from the system battery are seconds divided by 60 as C divides,
  rounding toward zero. A count of -60 seconds or less gives negative minutes; -59 to -1 give 0.

## Model

| member | source | states |
|---|---|---|
| BatteryTypes.Code | plugins/ptbatt/ptbatt.c:76-82 | status codes are -1..2, and -1 exactly for Unknown |
| BatteryTypes.StatusOfCode | plugins/ptbatt/ptbatt.c:281 | the cast of a checked raw state 0..2 to status_t gives a known status with that code |
| Scan.CString | plugins/ptbatt/ptbatt.c:273 | the text `sscanf` sees is the longest NUL-free prefix of the received bytes |
| Scan.CStringAppend | plugins/ptbatt/ptbatt.c:273-274 | text without a NUL reaches the scan whole, followed by the C string of what comes after it |
| Scan.ScanInt | plugins/ptbatt/ptbatt.c:274 | a `%d` conversion succeeds if and only if a digit, or a sign and a digit, follows the white space; it then consumes the whole digit run and its value is the sign times the run's decimal value |
| Scan.RecordFields | plugins/ptbatt/ptbatt.c:274 | scanning "%d\|" k times assigns at most k values |
| Scan.LastFieldIgnoresBar | plugins/ptbatt/ptbatt.c:274 | the `\|` after the last `%d` never changes the field count |
| Scan.FieldWithoutBar | plugins/ptbatt/ptbatt.c:274 | a conversion not followed by `\|` ends the scan: its value is the last one assigned, however many conversions remain |
| Scan.ScanIntText | plugins/ptbatt/ptbatt.c:274 | `%d` reads back any printed integer, negative or not, when no digit follows it |
| Scan.ScanSpacedText | plugins/ptbatt/ptbatt.c:274 | `%d` skips any white space before a printed integer and reads the integer back |
| Scan.RecordRoundTrip | plugins/ptbatt/ptbatt.c:274 | scanning a producer-written record, followed by anything, yields its four numbers in order |
| Scan.FieldsThenNumber | plugins/ptbatt/ptbatt.c:274 | fields followed by a number without a closing `\|` still yield every number |
| Scan.FieldsThenFailure | plugins/ptbatt/ptbatt.c:274 | fields followed by text that does not start with a number yield only their own numbers |
| Scan.FieldsThenEnd | plugins/ptbatt/ptbatt.c:274 | a record cut off after three fields yields exactly those three numbers, although the format asks for four |
| Scan.FieldCons | plugins/ptbatt/ptbatt.c:274 | a printed field anywhere in the text yields its own number and hands the scan on to the text just after its `\|` |
| Scan.CStringWhole | plugins/ptbatt/ptbatt.c:273-274 | text without a NUL reaches the scan unchanged |
| DeviceFeed.ValidStateRange | plugins/ptbatt/ptbatt.c:276 | the states accepted (Charging, Discharging, ExtPower) are exactly the raw codes 0..2 |
| DeviceFeed.RecordStatus | plugins/ptbatt/ptbatt.c:276-282 | capacity 100 with 0 minutes forces ExtPower, whatever the raw state; otherwise the status has the raw state's code |
| DeviceFeed.Decode | plugins/ptbatt/ptbatt.c:260-288 | a message is accepted if and only if all of these hold: a 1..99-byte message, four scanned fields, magic 218 and a valid state; an accepted message carries the scanned capacity and minutes and the status RecordStatus gives (the ExtPower override included); every rejection is exactly (Unknown, -1, 0) |
| DeviceFeed.Query | plugins/ptbatt/ptbatt.c:266-289 | a send of the ack "118" is attempted exactly when a socket exists; with no socket the result is (Unknown, -1, 0); with a socket the reading is the decoding of what arrived (or of the failed receive); Unknown always carries -1 and 0 minutes |
| DeviceFeed.DecodeRecord | plugins/ptbatt/ptbatt.c:270-288 | a message of 1..99 bytes in total that starts with a producer-written record (whatever follows it) is accepted if and only if its magic is 218 and its state is 0..2; if accepted, the result is its capacity, its minutes and the overridden status |
| DeviceFeed.DecodeScanned | plugins/ptbatt/ptbatt.c:271-283 | any 1..99-byte message whose C string scans to four numbers is accepted if and only if the first is 218 and the second a valid state; if accepted, it gives the third as capacity, the fourth as minutes and RecordStatus's status |
| DeviceFeed.FullAndNoTimeIsExtPower | plugins/ptbatt/ptbatt.c:278-281 | "218\|0\|100\|0\|" (raw Discharging) decodes to ExtPower at 100% |
| DeviceFeed.DecodeWithoutClosingBar | plugins/ptbatt/ptbatt.c:274-282 | a valid record missing its closing `\|` decodes like the full record |
| DeviceFeed.ThreeFieldsRejected | plugins/ptbatt/ptbatt.c:274 | a message with only three fields is rejected, whatever they hold |
| DeviceFeed.LengthOutOfRangeRejected | plugins/ptbatt/ptbatt.c:270-271 | an empty message, or one of 100 bytes or more, is rejected whatever it carries |
| Synthetic.ReadingOf | plugins/ptbatt/ptbatt.c:248-258 | capacity is the level's magnitude and minutes are 30; Discharging iff level < 0, ExtPower iff level == 100, Charging otherwise |
| Synthetic.Next | plugins/ptbatt/ptbatt.c:249-250 | the level rises by exactly 5 while below 100 and otherwise resets to -100; valid levels stay valid |
| Synthetic.NextPhase | plugins/ptbatt/ptbatt.c:249-250 | one step of a valid level moves exactly one phase along the 41-phase cycle |
| Synthetic.Query | plugins/ptbatt/ptbatt.c:247-258 | a query reports the level it has just reached; a valid level (a multiple of 5 in [-100, 100]) stays valid and moves one phase along the cycle, so capacity is in 0..100; the level rises exactly when it was below 100 |
| Synthetic.LevelAt | plugins/ptbatt/ptbatt.c:249-250 | every phase 0..40 of the cycle names a valid level whose phase it is |
| Synthetic.IteratePhase | plugins/ptbatt/ptbatt.c:249-250 | n queries keep the level valid and move it n phases along the 41-phase cycle |
| Synthetic.Periodic | plugins/ptbatt/ptbatt.c:249-250 | from any valid level, the level recurs after n queries if and only if 41 divides n |
| Synthetic.LevelFromStart | plugins/ptbatt/ptbatt.c:247-250 | after n queries from level 0 the level is given in closed form by the position n mod 41 |
| Synthetic.ReadingsFromStart | plugins/ptbatt/ptbatt.c:247-258 | from level 0, query k of each period (k = n mod 41) reports: Charging 5k% for k < 20, ExtPower 100% at k = 20, Discharging 5(41-k)% for k > 20; minutes are always 30 |
| NativeBattery.Lower | plugins/ptbatt/ptbatt.c:298 | ASCII upper-case letters are lowered and every other character is kept |
| NativeBattery.IsFullSpellings | plugins/ptbatt/ptbatt.c:298 | IsFull, the `strcasecmp(state, "full") == 0` test written as SameIgnoringCase (equal length, equal after lowering), holds for exactly the 16 mixed-case spellings of "full" |
| NativeBattery.TruncDiv | plugins/ptbatt/ptbatt.c:302-303 | C division by a positive divisor: the remainder has the dividend's sign and is smaller than the divisor |
| NativeBattery.MinutesUnique | plugins/ptbatt/ptbatt.c:303 | for divisor 60, only one quotient meets TruncDiv's contract |
| NativeBattery.Query | plugins/ptbatt/ptbatt.c:291-307 | no battery gives (Unknown, -1, 0); otherwise capacity is the percentage and minutes are seconds/60 truncated; ExtPower iff charging and state is "full" in any case, Charging iff charging and not full, Discharging iff not charging |
| NativeBattery.MinutesOfSeconds | plugins/ptbatt/ptbatt.c:302-304 | minutes are floor(seconds/60) for seconds ≥ 0, rounded toward zero for seconds < 0, and 0 for \|seconds\| < 60 |
| ChargeLevel.Query | plugins/ptbatt/ptbatt.c:244-308 | the reading is the selected source's: the test generator's reading of its next level, the device-manager query's reading and ack, or the system battery's reading; for every source, Unknown carries capacity -1 and 0 minutes; only a device-manager poll with a socket attempts the ack; the test generator never reports Unknown; the system battery reports Unknown iff it is absent |
| Display.PoweredCode | plugins/ptbatt/ptbatt.c:367-376 | draw_icon's `powered` argument is 0, 1 or 2 |
| Display.TimeClauseOf | plugins/ptbatt/ptbatt.c:406-411 | the time clause is absent iff time ≤ 0, in minutes iff 0 < time < 90, in hours iff time ≥ 90, and carries the time |
| Display.Render | plugins/ptbatt/ptbatt.c:400-429 | nothing is drawn iff the status is Unknown; the icon level and tooltip capacity are the reading's capacity |
| Display.Apply | plugins/ptbatt/ptbatt.c:399-400 | an Unknown reading leaves the display unchanged; any other reading replaces icon and tooltip |
| Display.ColourRule | plugins/ptbatt/ptbatt.c:404-429 | Amber iff Charging; Red iff Discharging at ≤ 20%; Green iff ExtPower, or Discharging above 20% |
| Display.OverlayRule | plugins/ptbatt/ptbatt.c:404-429 | the overlay code equals the status code: flash iff Charging, plug iff ExtPower, none iff Discharging |
| Display.TooltipRule | plugins/ptbatt/ptbatt.c:404-426 | the tooltip wording matches the status; ExtPower has no time clause; the other two choose it by minutes alone |
| Display.Boundaries | plugins/ptbatt/ptbatt.c:406-428 | 45 minutes show as minutes, 125 as hours, 0 as nothing; Discharging at 20% is red and at 21% green |
| Geometry.Width | plugins/ptbatt/ptbatt.c:319 | the width is max(icon size, 36): 36 below 36, the icon size from 36 up |
| Geometry.EvenHeight | plugins/ptbatt/ptbatt.c:320-321 | the height before the last clamp is even, at least 20, and twice the floor of 10·w/36, stated without division |
| Geometry.Height | plugins/ptbatt/ptbatt.c:320-322 | the final height is the pre-clamp height when that is below the icon size, and icon size minus 2 otherwise; it is always below the icon size and below the width |
| Geometry.HeightByIconSize | plugins/ptbatt/ptbatt.c:319-322 | in closed form: icon size minus 2 up to 20, 20 from 21 to 35, the pre-clamp even height from 36 up |
| Geometry.Track | plugins/ptbatt/ptbatt.c:355 | the fill track w-12 is at least 24 |
| Geometry.Fill | plugins/ptbatt/ptbatt.c:354-361 | the fill is within [0, w-12]; it is 0 for level ≤ 0 and w-12 for level ≥ 97; between those it is the floor of (w-12)·level/97, stated without division |
| Geometry.ScaledWithinTrack | plugins/ptbatt/ptbatt.c:358-360 | the scaled fill never exceeds the track, so the clamp at line 360 never fires; level 97 gives exactly w-12 |
| Geometry.FillMonotone | plugins/ptbatt/ptbatt.c:354-361 | a higher level never gives a narrower fill |
| Geometry.EvenUnlessClamped | plugins/ptbatt/ptbatt.c:320-322 | before the last clamp the height is even and at least 20 (so the clamp to 18 never fires); afterwards it is even unless that clamp applied |
| Geometry.OddWhenClamped | plugins/ptbatt/ptbatt.c:319-322 | a 19-pixel icon size gives a 36×17 icon: the "force it to be even" comment does not survive the last clamp |
| Geometry.FillExamples | plugins/ptbatt/ptbatt.c:354-361 | level 0 fills nothing, 97 fills the track, and 50 on a 97-pixel track fills 50 |
| Pixels.ChannelsRecompose | plugins/ptbatt/ptbatt.c:105-117 | alpha, red, green and blue (AlphaOf, RedOf, GreenOf, BlueOf: the shifts and masks of the source) rebuild the pixel word exactly |
| Pixels.Unpremultiply | plugins/ptbatt/ptbatt.c:115-117 | when c ≤ a the stored byte does not wrap and is the integer nearest to c·255/a, halves rounding up: −a < 2(r·a − 255c) ≤ a |
| Pixels.RoundedQuotient | plugins/ptbatt/ptbatt.c:115-117 | the rounded quotient is within half of alpha of c·255, and is below 256 when c ≤ a |
| Pixels.ConvertPixel | plugins/ptbatt/ptbatt.c:105-119 | output alpha is the input's top byte; alpha 0 gives black |
| Pixels.OpaqueUnchanged | plugins/ptbatt/ptbatt.c:115-117 | alpha 255 leaves every channel unchanged |
| Pixels.WellFormedRounds | plugins/ptbatt/ptbatt.c:115-117 | a pixel with no channel above alpha converts without the unsigned-char wrap |
| Pixels.MalformedWraps | plugins/ptbatt/ptbatt.c:115 | a channel above alpha wraps: red 255 under alpha 1 is stored as 1 |
| Pixels.AppendPixel | plugins/ptbatt/ptbatt.c:104-120 | appending the next pixel's four bytes extends a correctly converted row |
| Pixels.ConvertRow | plugins/ptbatt/ptbatt.c:104-120 | a row of width pixels from column srcX becomes 4·width bytes, where byte i is byte i mod 4 of pixel srcX + i/4 converted |
| Pixels.ConvertAlpha | plugins/ptbatt/ptbatt.c:88-125 | destination row y is source row srcY + y converted from column srcX; non-positive sizes convert nothing |
| UpdateIcon.Run | plugins/ptbatt/ptbatt.c:391-433 | one update queries the source; an Unknown reading keeps the display, any other replaces it by the rendering of that reading (colour, overlay, tooltip and level) |
| UpdateIcon.NoMessageKeepsDisplay | plugins/ptbatt/ptbatt.c:270-288 | a device-manager poll with no message leaves the display unchanged but still attempts the ack |
| UpdateIcon.ValidRecordDrawn | plugins/ptbatt/ptbatt.c:270-283 | a device-manager message of 1..99 bytes starting with a record with magic 218 and a valid state is drawn as the rendering of its capacity, minutes and overridden status |
| UpdateIcon.RejectedRecordKeeps | plugins/ptbatt/ptbatt.c:270-288 | a device-manager message of 1..99 bytes starting with a record whose magic or state is wrong leaves the display unchanged |
| UpdateIcon.TestModeAlwaysDraws | plugins/ptbatt/ptbatt.c:247-258 | every test-mode update redraws, at the magnitude of the level just reached |

## Left out

- Socket set-up and teardown, the `systemctl` probe, and source selection at start-up (`init_measurement`, the destructor). These are I/O over a message library. The model takes the selected source, and what it delivered, as input.
- The `run` background thread and `receiveMessage`. The thread drives the live display in this version, since the timer is commented out. They are a blocking poll loop with unsynchronised GUI calls. The thread's per-message check is laxer than `charge_level`'s: it never checks the magic and accepts any nonzero scan count. So it is not used as the decoder. The unbounded copy into a 200-byte buffer in `receiveMessage` is a memory-safety issue in I/O glue.
- Cairo drawing, GTK widgets, pixbuf loading and allocation, tooltip setting, and the plugin descriptor. These are foreign library calls. The flash and plug images are assumed loaded.
- Floating point: the RGB colour values are the enum Colour, and the hours text `time/60.0` with `%0.1f` is not rendered. Tooltips are described by their variant, not by their translated text.
- The debug `system("echo …")` calls, and the `BattNum` configuration lookup. The battery is an input.
- Scan.RecordFields: does not distinguish sscanf's EOF return (-1) from 0 conversions. The decoder only compares the count with 4.
- Scan.ScanInt: unbounded integers. A `%d` value outside the C `int` range is undefined behaviour in C, and is not modelled.
- Geometry.Fill: does not model `int` overflow of `(w - 12) * lev` or `w * 10`. Panel icon sizes are far too small for it.
- Pixels.ConvertAlpha: models only the bytes it writes, as rows of 4·width bytes. Padding between rows (the destination stride) is left untouched in the source and is not represented.
- Bytes are modelled as characters with ASCII meaning. `isspace` and `tolower` follow the C locale. With NLS enabled, `ptbatt_constructor` calls `setlocale(LC_ALL, "")` (ptbatt.c:574), so the user's locale applies; other locales are not modelled.
- NativeBattery.BatteryInfo: its state is taken to be the C string the battery record holds, the text before its first NUL, since `strcasecmp` stops there.
