# libvirtualhid verification

A Dafny 4.11 model of the parts of libvirtualhid that turn portable input into event streams and byte
reports, and of the state machines around them. The properties take the reader's side: whatever the code
emitted, decoding it again gives the state that was meant, over every run.

| module | models |
|---|---|
| `EvdevTouch` | multitouch slots, tracking ids and tool buttons of the Linux touch devices, and a multi-touch type B reader ("Protocol Example B" of the Linux multi-touch protocol document) |
| `EvdevTouchFailures` | what a placement cut short by a failed write does to the reader from then on |
| `EvdevTouchPositions` | where the reader sees its contacts, in the caller's coordinates |
| `EvdevMouse`, `EvdevMousePositions` | button routing between the relative and the absolute Linux device, motion, wheels |
| `Rumble`, `RumbleHistory`, `RumbleMeaning` | force feedback: effect table, envelopes, mixing, gain, dispatch; what the history of orders and the uploads' own fields mean for the motors |
| `UnicodeText` | UTF-8 (section 3 of RFC 3629), UTF-16 input (section 2.2 of RFC 2781), Ctrl+Shift+U typing and a recogniser for it |
| `AxisScaling`, `Scroll`, `Rounding` | absolute axes and wheel detents on both systems |
| `WindowsHidMouse`, `WindowsHidKeyboard` | report splitting, packing, rollover (Appendix C of the USB HID 1.11 specification) |
| `WindowsTouch`, `WindowsTouchPositions` | packed contact arrays, edge flags, the frames injected from them and what these say of each contact |
| `Crc32`, `CrcPolynomial` | the three CRC-32 routines (the chaining form of section 8 of RFC 1952) and polynomial division |
| `PlayStationReports`, `PlayStationEncoding` | trailer stamping and checking, output report parsing, and an encoder for the reports |
| `TraceLog` | the driver's rotating trace log on a disk whose every operation may fail |
| `MacosBroker`, `MacosDelivery` | request and answer correlation over a byte stream, and the output queue, in every interleaving |
| `SwitchSpi` | the Switch Pro replies and their flash window |
| `CreateRequest` | the Windows device request and the broker's validation of it |

Classes carry the fields the source updates, and their methods follow its branches and loops; each is tied
to a function of the old state. A system call that may fail is a nondeterministic choice in the method, so
class contracts cover failures at any point. Lemmas named `Run...` speak about every sequence of calls or,
in `MacosBroker` and `MacosDelivery`, every interleaving of steps.

## Findings

- Tracking ids are taken modulo 65536 without a look at the live ones: a contact held through 65535 later
  placements shares its id with the next (`EvdevTouch.OutlivedTrackingIdRepeats`).
- A new contact whose tracking id was lost to a failed write is not announced by later placements, but can be once it
  is new again, for instance after a release (`EvdevTouchFailures.ShownIffAnnounced`, `NewAgainIsShown`).
- When the lost write is the slot's, later writes for that contact hit its neighbour: the next placement moves
  the contact the reader was at, the next release lifts it (`EvdevTouchFailures.LostSlotWriteHitsNeighbour`,
  `NeighbourMovesRun`).
- `MacosGamepad::call` gives up its lock after a failed send without shutting the socket. If four or more
  bytes had left on a stream in order, the next call can be told of success for a report that mixes both
  (`MacosBroker.TornRun`); with fewer, the session rejects the next message. This is the only way a call can
  be misled (`MacosBroker.RunCorrelates`), and each such failure is one (`MacosBroker.FailedSendMisleadsIff`).
- A touching contact that is placed again as hovering stops touching without UP
  (`WindowsTouch.LiftWithoutUp`).
- A DualShock 4 report altered so that its CRC flag is cleared is accepted unchecked
  (`PlayStationReports.AlteredDualShock4Accepted`).
- The splice of the force-feedback block can make a descriptor longer than the request can hold; the request
  then passes validation with the end cut off (`CreateRequest.LongDescriptorCut`).
- The half-unit accuracy of absolute positions is lost on desktops of more than 65535 units
  (`AxisScaling.HalfUnitIffSmallDesktop`).
- `append_utf8` is not undone for code points of 0x200000 and more (`UnicodeText.Utf8RoundTrip`), and
  surrogate code points that meet form a pair (`UnicodeText.Utf16RoundTrip`).

## Model

| member | source | states |
|---|---|---|
| `EvdevTouch.RunRefines` | src/platform/linux/uhid_backend.cpp:1942-2090 | After any run of place, release and button calls whose writes succeed, replaying every event written through a type B reader shows exactly the contacts the caller holds, each in its own slot with its last sample and its tracking id; unused slots are vacant, the reader is on the slot the emitter believes current, BTN_TOUCH is down iff a contact is live, and exactly the tool button for the count is down on a trackpad |
| `EvdevTouch.StepRefines` | src/platform/linux/uhid_backend.cpp:1942-2042 | One call takes a matching emitter, meaning and reader to a matching triple, the refused calls included |
| `EvdevTouch.PlaceRefines` | src/platform/linux/uhid_backend.cpp:1942-2001 | Placing a new or known contact: the published frame gains or moves exactly that contact |
| `EvdevTouch.ReleaseRefines` | src/platform/linux/uhid_backend.cpp:2003-2031 | Releasing a contact: the published frame loses exactly that contact; an unknown one changes nothing |
| `EvdevTouch.TableFullIffSixteen` | src/platform/linux/uhid_backend.cpp:2044-2062 | The search for the lowest free slot fails exactly when sixteen contacts are live |
| `EvdevTouch.SharedTrackingId` | src/platform/linux/uhid_backend.cpp:1961-1966 | In any run, two live contacts show the same tracking id iff their placements are a multiple of 65536 apart |
| `EvdevTouch.DistinctTrackingIds` | src/platform/linux/uhid_backend.cpp:1961-1966 | Live tracking ids differ as long as no live contact has outlived 65535 later placements |
| `EvdevTouch.OutlivedTrackingIdRepeats` | src/platform/linux/uhid_backend.cpp:1961-1966 | A concrete run in which a contact held through 65535 placements shares its tracking id with the next one |
| `EvdevTouch.HeldThroughTaps` | src/platform/linux/uhid_backend.cpp:1961-1966 | For every number of taps beside a held contact: the next contact repeats its id iff the count is one short of a multiple of 65536 |
| `EvdevTouchFailures.ShownIffAnnounced` | src/platform/linux/uhid_backend.cpp:1942-2001 | After any run, a new contact's placement stops at some failed write; whatever later calls complete short of its release, a later placement shows it in its slot with its own tracking id and new sample iff the write of its tracking id had succeeded, and the slot stays without an id otherwise |
| `EvdevTouchFailures.NewAgainIsShown` | src/platform/linux/uhid_backend.cpp:1942-2031 | If at least the slot was selected, a contact that is new again after later calls, for instance after release, is shown with a fresh tracking id and its sample |
| `EvdevTouchFailures.LostSlotWriteHitsNeighbour` | src/platform/linux/uhid_backend.cpp:2064-2070 | If the slot write is the one that fails, the contact's next placement moves the contact the reader was at to the new sample under that one's id, and its next release lifts that one instead |
| `EvdevTouchFailures.NeighbourMovesRun` | src/platform/linux/uhid_backend.cpp:2064-2070 | The run: contact 0 placed, the slot write of contact 1 lost, contact 1 placed again; the reader sees contact 0 at the position of contact 1 and nothing else |
| `EvdevTouchFailures.Interrupted` | src/platform/linux/uhid_backend.cpp:1954-1966 | What each failing write of a new contact's placement leaves in emitter and reader |
| `EvdevTouchFailures.RunCarries` | src/platform/linux/uhid_backend.cpp:1942-2042 | Through any later completed calls short of its release, a contact's slot keeps the tracking id it has, none included |
| `EvdevTouchFailures.PlaceWrites` | src/platform/linux/uhid_backend.cpp:1942-2001 | Where the events of a placement land, whatever the emitter believes the current slot to be |
| `EvdevTouchFailures.ReleaseWrites` | src/platform/linux/uhid_backend.cpp:2003-2031 | Where the events of a release land, whatever the emitter believes the current slot to be |
| `EvdevTouch.UinputTouchDevice.PlaceTouchContact` | src/platform/linux/uhid_backend.cpp:1942-2001 | Status, new state and events of a placement; a failed write leaves exactly the events before it and the state after that many, with a table still injective into the sixteen slots |
| `EvdevTouch.UinputTouchDevice.WritePlacement` | src/platform/linux/uhid_backend.cpp:1956-2000 | The writes of a placement: all of them and the state after it, or those before the failing one and the state that leaves |
| `EvdevTouch.UinputTouchDevice.ReleaseTouchContact` | src/platform/linux/uhid_backend.cpp:2003-2031 | Status, new state and events of a release; when a write fails the contact is gone or untouched and the events are a prefix |
| `EvdevTouch.UinputTouchDevice.EmitTouchButton` | src/platform/linux/uhid_backend.cpp:2033-2042 | Writes the left button and a frame end, or a prefix of the two |
| `EvdevTouch.UinputTouchDevice.SlotForContact` | src/platform/linux/uhid_backend.cpp:2044-2062 | The slot a contact has, or the lowest free one, which it then takes; sixteen stands for none |
| `EvdevTouch.UinputTouchDevice.SelectSlot` | src/platform/linux/uhid_backend.cpp:2064-2070 | Names the slot only when it is not current, and remembers it even when the write fails |
| `EvdevTouch.UinputTouchDevice.EmitTrackpadToolButtons` | src/platform/linux/uhid_backend.cpp:2072-2090 | Writes the touch button and the five tool buttons for the number of contacts |
| `EvdevTouchPositions.SlotShowsPlacement` | src/platform/linux/uhid_backend.cpp:1942-2001 | After any run, the slot of every contact the device holds shows what its last placement asked for: the nearest of 19200 units of x, 10800 of y and 253 of pressure (the nearer end outside 0 to 1), and the angle clamped to 90 degrees either way |
| `EvdevTouchPositions.SingleTouchShowsLast` | src/platform/linux/uhid_backend.cpp:1976-1990 | After any run, the single-touch axes show the contact placed last in the same way, and nothing before the first |
| `EvdevTouchPositions.SampledReports` | src/platform/linux/uhid_backend.cpp:1973-1990 | The values written for a contact are those, each from its own coordinate |
| `EvdevTouchPositions.HeldIsLastPlaced` | src/platform/linux/uhid_backend.cpp:1942-2031 | A contact that is held was last named by a placement, and is held with that one's sample |
| `EvdevTouch.LowestFree` | src/platform/linux/uhid_backend.cpp:2048-2061 | The result is free and every slot before it is taken |
| `EvdevMouse.RunRefines` | src/platform/linux/uhid_backend.cpp:1728-1910 | After any history, however motion switched devices: replaying the key events of each device gives exactly its button mask, the motion received is the motion asked for, and the wheel distance asked for is 120 times the detents of both wheels plus the carried remainder, high-resolution codes carry the distance itself, and the absolute reader alone shows a position, that of the last absolute motion |
| `EvdevMouse.ReportApplies` | src/platform/linux/uhid_backend.cpp:1804-1910 | What each kind of input adds at the one device it is written to |
| `EvdevMouse.ReleaseFreesOneHolder` | src/platform/linux/uhid_backend.cpp:1791-1802 | While any device holds a button, a release clears it on exactly one holding device and touches no other button |
| `EvdevMouse.TwoReleasesFree` | src/platform/linux/uhid_backend.cpp:1860-1877 | After any history, two releases leave the button up on both devices as their readers see it |
| `EvdevMouse.WithButtonHas` | src/platform/linux/uhid_backend.cpp:1783-1789 | Setting or clearing one button bit is seen at that button and no other |
| `EvdevMouse.UinputMouse.Submit` | src/platform/linux/uhid_backend.cpp:1728-1910 | When every write succeeds the state moves and the events are written as specified; when one fails the events are a prefix and the state stays |
| `EvdevMouse.UinputMouse.SubmitButton` | src/platform/linux/uhid_backend.cpp:1860-1877 | Mask, device and events of one button change |
| `EvdevMousePositions.PointerShowsLastMotion` | src/platform/linux/uhid_backend.cpp:1823-1858 | After any history, in any geometry the runtime accepts: the absolute device points where the last absolute motion asked, across from its x and its side of the geometry, down from its y and the other, each to the nearest of 65536 positions on the desktop, or to the whole part of its share without a viewport |
| `EvdevMousePositions.InputReaches` | src/platform/linux/uhid_backend.cpp:1791-1802 | After any history, everything the next input writes goes to one device: motion to its own, a release where a reader shows the button down, relative first, all else to the device of the last motion, relative before the first |
| `EvdevMousePositions.ButtonShows` | src/platform/linux/uhid_backend.cpp:1860-1877 | After any history, a button change shows at that device as that button, unknown buttons as the left one, and the other device's reader does not move |
| `EvdevMousePositions.ViewportMapped` | src/platform/linux/uhid_backend.cpp:841-859 | The viewport's first unit plus the coordinate's share of its reach goes to the nearest of 65536 positions on the desktop |
| `Scroll.TruncatedQuotient` | src/platform/linux/uhid_backend.cpp:1007-1013 | The C++ quotient: with the remainder below it gives back the dividend |
| `Scroll.TruncatedRemainder` | src/platform/linux/uhid_backend.cpp:1007-1013 | The C++ remainder: smaller than the divisor, with the sign of the dividend |
| `Scroll.Accumulate` | src/platform/linux/uhid_backend.cpp:1007-1013 | Detents times 120 plus the new remainder is the old remainder plus the distance, and the remainder is below one detent |
| `Scroll.CarryIsExact` | src/platform/linux/uhid_backend.cpp:1007-1013 | Over any history the detents sent, times 120, are less than 120 away from the distance asked for, and the remainder is the exact difference |
| `Scroll.LeastTurn` | src/platform/linux/uhid_backend.cpp:1007-1013 | Any other detent count within one detent of the target turns the wheel farther |
| `Scroll.OneDirection` | src/platform/linux/uhid_backend.cpp:1007-1013 | Scrolling in one direction only sends exactly the truncated quotient of the whole distance |
| `Scroll.AccumulateFitsInt32` | src/platform/linux/uhid_backend.cpp:1007-1013 | With a 32-bit distance the detents fit the casts |
| `AxisScaling.AcceptedIff` | src/core/runtime.cpp:261-289 | With a viewport, the runtime accepts exactly the geometries that have it inside the desktop on both axes |
| `AxisScaling.TargetInViewport` | src/platform/linux/uhid_backend.cpp:853-856 | The offset difference never overflows 32 bits and the target never leaves the viewport |
| `AxisScaling.ScalingsAgree` | src/platform/windows/windows_backend.cpp:425-463 | In accepted geometries the Linux and the Windows scaling give the same value and neither final clamp ever fires |
| `AxisScaling.ScalingMonotone` | src/platform/linux/uhid_backend.cpp:841-859 | Moving the source coordinate up never moves the axis value down |
| `AxisScaling.ScalingBetweenEdges` | src/platform/linux/uhid_backend.cpp:841-859 | The value lies between the images of the viewport edges, reaches both, and stays within 0 and 65535 |
| `AxisScaling.RecoveryWithinHalf` | src/platform/linux/uhid_backend.cpp:841-859 | On desktops of up to 65535 units the target is recovered from the axis value within half a unit |
| `AxisScaling.HalfUnitIffSmallDesktop` | src/platform/linux/uhid_backend.cpp:841-859 | With the whole desktop as viewport the half-unit bound holds for all coordinates iff the desktop has at most 65535 units |
| `AxisScaling.MidpointMissed` | src/platform/linux/uhid_backend.cpp:841-859 | On every larger desktop, a coordinate that is recovered more than half a unit away |
| `AxisScaling.LinuxScale` | src/platform/linux/uhid_backend.cpp:820-828 | The whole part of the coordinate's share of 65535, zero without a limit or at zero and below, full at the limit and above |
| `AxisScaling.LinuxScaleMonotone` | src/platform/linux/uhid_backend.cpp:820-828 | Moving the coordinate up never moves the axis value down |
| `Rounding.Lround` | src/platform/linux/uhid_backend.cpp:858-862 | The nearest integer, halves away from zero |
| `Rounding.ScaledIsNearest` | src/platform/linux/uhid_backend.cpp:861-863 | A value in 0 to 1 goes to the nearest unit of the scale, halves up, and any other to the nearer end |
| `Rumble.RunDispatches` | src/platform/linux/uhid_backend.cpp:3058-3077 | Over any run the output callback has last received the pair the mixer remembers, neighbouring dispatches differ, and the first is not silence |
| `Rumble.DispatchBelowGain` | src/platform/linux/uhid_backend.cpp:2942-2945 | Every dispatched strength is at most the gain in force |
| `Rumble.CloseIsSilent` | src/platform/linux/uhid_backend.cpp:2697-2705 | After any run, closing leaves the motors off |
| `Rumble.QuietTick` | src/platform/linux/uhid_backend.cpp:2924-2946 | A tick at which no effect is in its window leaves the motors off |
| `Rumble.TickLeaves` | src/platform/linux/uhid_backend.cpp:2924-2946 | After a tick the motors hold what the effects then present add up to, under the gain then set |
| `RumbleHistory.ContributesIff` | src/platform/linux/uhid_backend.cpp:2873-2940 | Over any run, an effect adds to the mix at a time iff it plays for an order (the last positive one given to it while it existed, with no later order or erase and no tick that found it over) and the time lies from that order's delayed start for the ordered number of playbacks of the length now in force, or without end for length zero; otherwise its contribution is nothing |
| `RumbleHistory.StandingOrderWindow` | src/platform/linux/uhid_backend.cpp:2873-2940 | When no tick of the run is later than the time asked for, as when time moves forward, an order no later order, erase or upload overrides has its effect in the mix exactly within its window, whatever ticks came between |
| `RumbleHistory.ActiveIffPlayed` | src/platform/linux/uhid_backend.cpp:2873-2936 | Over any run, an effect is active iff it plays for such an order, and its start and count are that order's |
| `RumbleHistory.EffectIsUpload` | src/platform/linux/uhid_backend.cpp:2889-2922 | Over any run, an effect exists iff an accepted upload with no later erase is in force, and its shape is the normalized form of that upload |
| `RumbleMeaning.SoloTick` | src/platform/linux/uhid_backend.cpp:2924-3056 | After any run, a tick that finds exactly one effect in its window leaves the low-frequency motor at the strong and the high-frequency motor at the weak magnitude its upload asks for at that time since its begin, each times the gain last set over 65535, rounded down |
| `RumbleMeaning.SoloRumble` | src/platform/linux/uhid_backend.cpp:2962-2966 | At full gain, a plain rumble upload alone in its window leaves the motors at its strong and weak magnitudes |
| `RumbleMeaning.SoloLevel` | src/platform/linux/uhid_backend.cpp:2968-2987 | At full gain, a constant or periodic upload without envelope leaves both motors at twice the absolute level, at most full scale |
| `RumbleMeaning.MagnitudesAsked` | src/platform/linux/uhid_backend.cpp:2953-3056 | What a started effect mixes in is what its upload asks for: its own magnitudes, twice the level, or the point of the ramp, led in and faded out along the envelope |
| `RumbleMeaning.AsksOnce` | src/platform/linux/uhid_backend.cpp:2953-3056 | An upload asks for exactly one pair of strengths at a time |
| `RumbleMeaning.SoloMix` | src/platform/linux/uhid_backend.cpp:2924-2940 | An effect alone in its window makes up the whole mix |
| `RumbleHistory.InForceIsLastUpload` | src/platform/linux/uhid_backend.cpp:2889-2922 | The upload in force is the last accepted one with no erase after it |
| `RumbleHistory.LogBelowGain` | src/platform/linux/uhid_backend.cpp:2942-2945 | Every pair in the dispatch log of a run is at most the gain in force when it was sent |
| `RumbleHistory.GainIsLastSet` | src/platform/linux/uhid_backend.cpp:2868-2871 | Over any run the gain is the last one set, clamped to 16 bits, and full before the first |
| `Rumble.PlayStartsAtStart` | src/platform/linux/uhid_backend.cpp:3031-3056 | Without an envelope the first value mixed is the start magnitude |
| `Rumble.TickIsIdempotent` | src/platform/linux/uhid_backend.cpp:2924-2946 | A second tick at the same time changes nothing and dispatches nothing |
| `Rumble.TotalTakesAny` | src/platform/linux/uhid_backend.cpp:2928-2940 | The mix does not depend on the order in which the effects are visited |
| `Rumble.NothingRunningIsSilent` | src/platform/linux/uhid_backend.cpp:2928-2940 | Effects outside their window add nothing to the mix |
| `Rumble.Contribution` | src/platform/linux/uhid_backend.cpp:2930-2937 | An effect adds at most full scale on each motor, and nothing outside its window |
| `Rumble.InterpolateOnLine` | src/platform/linux/uhid_backend.cpp:3008-3014 | Every interpolated value is the whole part of the point that many steps along the line between its ends |
| `Rumble.OnLineOnce` | src/platform/linux/uhid_backend.cpp:3008-3014 | One whole number only is that |
| `Rumble.InterpolateMonotone` | src/platform/linux/uhid_backend.cpp:3008-3014 | A ramp never turns back |
| `RumbleMeaning.EnvelopeApplied` | src/platform/linux/uhid_backend.cpp:3016-3029 | On the line up from the attack level, on the line down to the fade level, or the magnitude itself; no fade without an end |
| `Rumble.CycleTiming` | src/platform/linux/uhid_backend.cpp:2627-2637 | Position in the cycle and what is left of it add up to the cycle |
| `Rumble.Scaled` | src/platform/linux/uhid_backend.cpp:2942-2944 | The sum cut to full scale, times the gain over 65535, rounded down |
| `RumbleMeaning.LevelDoubled` | src/platform/linux/uhid_backend.cpp:2948-2951 | Twice the absolute level, full scale from 32768 on |
| `Rumble.UinputGamepad.MixEffects` | src/platform/linux/uhid_backend.cpp:2925-2940 | The loop over the effect table computes the order-independent mix and switches off exactly the effects past their end |
| `Rumble.UinputGamepad.UpdateRumble` | src/platform/linux/uhid_backend.cpp:2924-2946 | One tick: the new table, the pair remembered and what is dispatched |
| `Rumble.UinputGamepad.DispatchRumble` | src/platform/linux/uhid_backend.cpp:3058-3077 | A pair equal to the last one is not dispatched again |
| `Rumble.UinputGamepad.CloseGamepad` | src/platform/linux/uhid_backend.cpp:2697-2705 | Dispatches the zero pair unless it was the last |
| `UnicodeText.Utf8RoundTrip` | tools/virtualhid_control.cpp:142-158 | Decoding the encoded text gives it back iff every code point is below 0x200000 |
| `UnicodeText.DecodeEncoded` | src/platform/linux/uhid_backend.cpp:874-922 | Decoding consumes exactly one encoded code point, whatever follows it |
| `UnicodeText.DecodedBelowLimit` | src/platform/linux/uhid_backend.cpp:874-922 | No byte sequence decodes to more than 21 bits |
| `UnicodeText.EncodedLayout` | tools/virtualhid_control.cpp:142-158 | Each code point takes the fewest bytes, its bits laid out as the table of RFC 3629 has them; beyond 21 bits the lead byte takes one more and the rest is lost |
| `UnicodeText.Resynchronises` | src/platform/linux/uhid_backend.cpp:874-922 | One stray byte of 0x80 or more anywhere in valid text costs nothing but itself, whatever it announces, unless too few bytes are left for that, which ends the text |
| `UnicodeText.WideRoundTrip` | tools/virtualhid_control.cpp:168-193 | UTF-16 input arrives in the decoder as the code points it spells, lone surrogates included |
| `UnicodeText.Utf16RoundTrip` | tools/virtualhid_control.cpp:168-183 | UTF-16 encoding is undone iff no surrogate code points form a pair by accident |
| `UnicodeText.HexRoundTrip` | src/platform/linux/uhid_backend.cpp:924-926 | The hexadecimal digits spell the code point |
| `UnicodeText.CodePointReceived` | src/platform/linux/uhid_backend.cpp:963-980 | A recogniser at rest commits exactly this code point and is at rest again, with no key held |
| `UnicodeText.TypedTextIsCommitted` | src/platform/linux/uhid_backend.cpp:946-984 | Typing any decoded text commits exactly its code points, with no key held after it |
| `UnicodeText.CodePointKeys` | src/platform/linux/uhid_backend.cpp:946-984 | One code point is the chord pressed and let go in order, twice as many events as digits without leading zeros, and Enter |
| `UnicodeText.TextReachesTheScreen` | src/platform/linux/uhid_backend.cpp:874-984 | From code points through UTF-8 and the key events back to the same code points |
| `UnicodeText.AppendUtf8` | tools/virtualhid_control.cpp:142-158 | Appends one to four bytes, and these decode to exactly the code point whenever it is below 0x200000 |
| `UnicodeText.NextWideCodePoint` | tools/virtualhid_control.cpp:168-183 | Steps over one unit or one surrogate pair |
| `UnicodeText.ToUtf8` | tools/virtualhid_control.cpp:185-193 | The loop encodes the code points the units spell |
| `UnicodeText.Decode` | src/platform/linux/uhid_backend.cpp:874-922 | The loop computes the specified decoding, malformed input included |
| `UnicodeText.TypeText` | src/platform/linux/uhid_backend.cpp:946-984 | Submits the key events of the decoded text, or a prefix when a submission fails |
| `WindowsHidMouse.RunRefines` | src/platform/windows/windows_backend.cpp:2361-2496 | After any history the decoded reports add up to the motion asked for, the detents sent fall short of the scroll distance by the carried remainder, and the buttons are the mask |
| `WindowsHidMouse.SameDetentsAsLinux` | src/platform/windows/windows_backend.cpp:2440-2457 | For the same history, Windows and Linux turn the wheels by the same number of detents and move by the same amount |
| `WindowsHidMouse.PackRoundTrip` | src/platform/windows/windows_backend.cpp:2486-2496 | The seven bytes decode to the fields they were packed from |
| `WindowsHidMouse.ChunksConserve` | src/platform/windows/windows_backend.cpp:2408-2427 | The split terminates, every part fits 16 bits and the parts add up to the motion |
| `WindowsHidMouse.FewestReports` | src/platform/windows/windows_backend.cpp:2408-2427 | No other split into 16-bit parts needs fewer reports |
| `WindowsHidMouse.ReplayMotion` | src/platform/windows/windows_backend.cpp:2408-2427 | The motion reports move the reader by their sum and leave wheels alone |
| `WindowsHidMouse.ReplayScroll` | src/platform/windows/windows_backend.cpp:2449-2455 | The wheel or pan reports turn the reader by exactly the detents of the step |
| `WindowsHidMouse.ReportedButtonsAreHeld` | src/platform/windows/windows_backend.cpp:2465-2475 | The last report shows exactly the known buttons pressed and not released |
| `WindowsHidMouse.ReportedBits` | src/platform/windows/windows_backend.cpp:2465-2475 | The last report's button byte has bit 0 for left, 1 for right, 2 for middle, 3 for side and 4 for extra, each set iff that button is held, and no other |
| `WindowsHidMouse.DetentReports` | src/platform/windows/windows_backend.cpp:2449-2455 | One report for every 127 detents and one for the rest |
| `WindowsHidMouse.WindowsHidMouse.Emit` | src/platform/windows/windows_backend.cpp:2486-2496 | The array filled byte by byte is the packed report |
| `WindowsHidMouse.WindowsHidMouse.SubmitRelativeMotion` | src/platform/windows/windows_backend.cpp:2408-2427 | The loop submits the reports of the split, or a prefix when a submission fails |
| `WindowsHidMouse.WindowsHidMouse.SubmitDetents` | src/platform/windows/windows_backend.cpp:2449-2456 | The loop submits the wheel or pan reports, or a prefix |
| `WindowsHidMouse.WindowsHidMouse.SubmitButton` | src/platform/windows/windows_backend.cpp:2465-2475 | The mask moves first; one report, none for an unknown button |
| `WindowsHidMouse.WindowsHidMouse.Submit` | src/platform/windows/windows_backend.cpp:2361-2385 | State and reports of every kind of input; the state moves even when a report fails |
| `WindowsHidKeyboard.LastReportShowsPressedKeys` | src/platform/windows/windows_backend.cpp:2099-2161 | After any history the last report decodes to exactly the modifiers and keys pressed and not released when the keys fit, and to a rollover otherwise; so it recovers once they fit again |
| `WindowsHidKeyboard.SlotsAscend` | src/platform/windows/windows_backend.cpp:2148-2161 | The keys stand in ascending order from byte 2 on, and byte 1 is zero |
| `WindowsHidKeyboard.ReportShowsHeld` | src/platform/windows/windows_backend.cpp:2148-2161 | A report decodes to the held set when it fits and to ErrorRollOver in every slot otherwise |
| `WindowsHidKeyboard.HeldIsPressed` | src/platform/windows/windows_backend.cpp:2117-2121 | The stored set holds a usage iff it was pressed and not released since |
| `WindowsHidKeyboard.ModifierIsPressed` | src/platform/windows/windows_backend.cpp:2106-2110 | A modifier bit is set iff the modifier was pressed and not released since |
| `WindowsHidKeyboard.WindowsHidKeyboard.Submit` | src/platform/windows/windows_backend.cpp:2099-2123 | State and report of a key event; keys without a usage go to the fallback and change nothing |
| `WindowsHidKeyboard.WindowsHidKeyboard.Emit` | src/platform/windows/windows_backend.cpp:2148-2161 | The array filled in place is the specified report |
| `WindowsHidKeyboard.WindowsHidKeyboard.CopyUsages` | src/platform/windows/windows_backend.cpp:2157-2159 | The ascending usages are copied to the slots, the rest stays zero |
| `WindowsTouch.RunRefines` | src/platform/windows/windows_backend.cpp:2689-2786 | With every injection accepted, over any run: a consumer of the frames knows exactly the placed contacts and which touch, sees DOWN on exactly the frames where one starts touching, and no stray UP; ids stay distinct and stored flags hold no edges |
| `WindowsTouchPositions.FrameShowsPlacements` | src/platform/windows/windows_backend.cpp:2689-2786 | After any history, refused injections included, every entry of the next frame has the place, the nearest of 1024 pressure steps (512 for a touch without pressure, 0 when hovering) and the direction within one turn that the last placement under its id asked for |
| `WindowsTouchPositions.PlacedSays` | src/platform/windows/windows_backend.cpp:2706-2738 | A placement gives its entry that place, pressure and direction, and marks only what was given |
| `WindowsTouch.TurnedAwayIffTen` | src/platform/windows/windows_backend.cpp:2827-2841 | A contact is turned away for room exactly when it is new and ten are there |
| `WindowsTouch.StepRefines` | src/platform/windows/windows_backend.cpp:2689-2786 | One place, release or refresh keeps list, stored flags and consumer in step |
| `WindowsTouch.AfterKeepsDistinct` | src/platform/windows/windows_backend.cpp:2827-2853 | At most ten contacts, with distinct nonnegative ids, in placement order |
| `WindowsTouch.AfterKeepsClean` | src/platform/windows/windows_backend.cpp:2689-2750 | Stored flags: in range, in contact iff touching, never an edge |
| `WindowsTouch.EdgesIffLastRefused` | src/platform/windows/windows_backend.cpp:2689-2786 | After any history, refused injections included, a contact's stored flags hold edge bits iff the last placement or removal naming it was refused |
| `WindowsTouch.PlaceEdges` | src/platform/windows/windows_backend.cpp:2689-2750 | A placement puts DOWN, UPDATE or neither only on its own entry, DOWN exactly when it starts touching |
| `WindowsTouch.RemoveEdges` | src/platform/windows/windows_backend.cpp:2752-2786 | A removal clears range and contact, sends UP exactly for a touching contact that does not leave, CANCELED exactly for a cancel, and touches no other entry |
| `WindowsTouch.RefreshRefines` | src/platform/windows/windows_backend.cpp:2544-2558 | A repeated frame carries no edges and changes nothing a consumer knows |
| `WindowsTouch.LiftWithoutUp` | src/platform/windows/windows_backend.cpp:2689-2786 | A touching contact stops touching without UP exactly when it is placed as hovering or leaves |
| `WindowsTouch.OthersStay` | src/platform/windows/windows_backend.cpp:2843-2853 | A call about one contact leaves every other as it was, wherever the shift moved it |
| `WindowsTouch.Degrees` | src/platform/windows/windows_backend.cpp:2689-2750 | The orientation folded into 0 to 359 under truncating remainders |
| `WindowsTouch.WindowsTouchscreen.PlaceContact` | src/platform/windows/windows_backend.cpp:2689-2750 | Status, arrays and frame of a placement; refused by the system, the contact keeps its place and its edges |
| `WindowsTouch.WindowsTouchscreen.ReleaseContact` | src/platform/windows/windows_backend.cpp:2752-2786 | Status, arrays and frame of a removal; refused by the system, the contact stays with its edges |
| `WindowsTouch.WindowsTouchscreen.EraseSlot` | src/platform/windows/windows_backend.cpp:2843-2853 | The three packed arrays lose exactly one contact and keep the order of the others |
| `WindowsTouch.WindowsTouchscreen.ShiftDown` | src/platform/windows/windows_backend.cpp:2844-2848 | The loop moves every later element of each array down by one |
| `WindowsTouch.WindowsTouchscreen.SlotForContact` | src/platform/windows/windows_backend.cpp:2827-2841 | The contact's slot, or a new one at the end while there is room |
| `WindowsTouch.WindowsTouchscreen.FindContactSlot` | src/platform/windows/windows_backend.cpp:2817-2825 | The first slot with this id, if any |
| `WindowsTouch.WindowsTouchscreen.Inject` | src/platform/windows/windows_backend.cpp:2859-2865 | Sends the packed entries in placement order |
| `WindowsTouch.WindowsTouchscreen.RefreshContacts` | src/platform/windows/windows_backend.cpp:2544-2558 | Repeats the frame while open and not empty |
| `Crc32.CrcComposes` | src/core/report.cpp:283-293 | Seeding with the CRC of a prefix gives the CRC of the whole, for every split |
| `Crc32.MaskAndBranchAgree` | src/platform/linux/uhid_backend.cpp:232-242 | The mask form of the bit step equals the branch form |
| `Crc32.StepInjective` | src/core/report.cpp:283-293 | The register step loses nothing |
| `Crc32.BurstChangesRegister` | src/core/report.cpp:283-293 | Any change within four consecutive bytes changes the register, whatever surrounds it |
| `Crc32.BurstChangesCrc` | src/core/report.cpp:283-293 | Any change within four consecutive bytes changes the CRC |
| `CrcPolynomial.CrcIsRemainder` | src/core/report.cpp:283-293 | For every buffer and seed, the CRC is the complement of the remainder, by long division over bits, of the message with its first 32 bits inverted by the complemented seed, modulo x^32+x^26+x^23+x^22+x^16+x^12+x^11+x^10+x^8+x^7+x^5+x^4+x^2+x+1, lowest bit of each byte first |
| `CrcPolynomial.CheckValue` | src/core/report.cpp:283-293 | The CRC of the nine digits 1 to 9 is 0xCBF43926 |
| `Crc32.CrcWithMask` | src/core/report.cpp:283-293 | The chaining loop with the mask step computes this CRC over its seed |
| `Crc32.CrcWithSeedByte` | src/platform/macos/broker/libvirtualhid_macos_broker.cpp:81-94 | The broker's loop over a seed byte and the data computes the same CRC as seeding with that byte's CRC |
| `Crc32.WordStep` | src/core/report.cpp:283-293 | Four bytes run through the register as one word |
| `Crc32.BytesSpellWord` | src/core/report.cpp:254-259 | The four trailer bytes read back as the word |
| `PlayStationReports.AlteredDualSenseIsRaw` | src/core/report.cpp:853-873 | A valid DualSense Bluetooth report of at least 78 bytes changed within four bytes after byte 0 is always rejected and becomes one raw report |
| `PlayStationReports.AlteredDualShock4Accepted` | src/core/report.cpp:875-889 | The same change to a DualShock 4 report goes unnoticed iff it clears the CRC flag |
| `PlayStationReports.AlteredTrailerFails` | src/core/report.cpp:300-307 | A report that passes the trailer check fails it after any change within four bytes |
| `PlayStationReports.TrailerIsResidue` | src/core/report.cpp:858-863 | The trailer check is equivalent to running the register over the whole report and comparing with one constant |
| `PlayStationReports.PassesIffFixedCrc` | src/core/report.cpp:858-863 | The trailer check passes iff the CRC with the seed over report and trailer together is 0x2144DF1C |
| `PlayStationReports.StampedPasses` | src/core/report.cpp:300-307 | A stamped report passes the check with its seed |
| `PlayStationReports.SeedsSeparate` | src/core/report.cpp:295-307 | A stamped report never passes with another seed |
| `PlayStationReports.StampedDualSenseParses` | src/core/report.cpp:853-873 | A stamped DualSense report is accepted, with the offset its flag byte selects |
| `PlayStationEncoding.DualSenseParses` | src/core/report.cpp:853-985 | For every choice of motors, colour, triggers and filler, a report laid out by an independent encoder for USB or Bluetooth, ended in its CRC where it is long enough for one, parses to exactly those outputs in order; with no flag at all set, to a rumble stop, and with none enabled, to the raw report |
| `PlayStationEncoding.DualShock4Parses` | src/core/report.cpp:875-927 | The same for the DualShock 4 over cable and radio, stamped where its control byte announces a CRC; a report too short for its link comes back raw |
| `PlayStationEncoding.DualSenseElseRaw` | src/core/report.cpp:853-873 | Every DualSense report that encoder could not have made comes back as one raw report |
| `PlayStationEncoding.DualShock4ElseRaw` | src/core/report.cpp:875-889 | Every DualShock 4 report that encoder could not have made comes back as one raw report |
| `PlayStationEncoding.FinishedIsStamped` | src/core/report.cpp:295-307 | Ending a report with the CRC of 0xA2 and its payload is what stamping does |
| `PlayStationReports.WritePlayStationCrc` | src/core/report.cpp:300-307 | Writes the trailer in place and leaves the payload and short reports alone |
| `PlayStationReports.WriteTrailer` | src/core/report.cpp:254-259 | The last four bytes become the little-endian word, the others stay |
| `PlayStationReports.StampFeatureReport` | src/platform/macos/broker/libvirtualhid_macos_broker.cpp:158-163 | The broker's in-place stamping, with its own CRC routine, gives the same bytes |
| `TraceLog.RotatingTraceLog.AppendRotatingTraceLog` | src/platform/windows/driver/rotating_trace_log.cpp:128-161 | Whatever primitive fails at whatever point: generations R to 1 and the active file stay a suffix of all bytes written, no move replaces a file, no other file appears, every file is within the limit or holds part of one line; nothing kept is lost but the oldest generation, and that only when the line does not fit; on success the active file is what it was and the line, or the line alone when it did not fit |
| `TraceLog.RotatingTraceLog.RotateTraceLog` | src/platform/windows/driver/rotating_trace_log.cpp:61-80 | The countdown leaves the disk unchanged or rotated down to some hole; on success the active name is free |
| `TraceLog.RotatingTraceLog.MoveGeneration` | src/platform/windows/driver/rotating_trace_log.cpp:70-79 | Moving a generation into the hole above it moves the hole down and replaces nothing |
| `TraceLog.RotatingTraceLog.RotateAndReopen` | src/platform/windows/driver/rotating_trace_log.cpp:152-158 | After a rotation that got through, the reopened active file is empty; the invariant survives every failure |
| `TraceLog.RotatingTraceLog.WriteActive` | src/platform/windows/driver/rotating_trace_log.cpp:114-119 | A write that may be cut short keeps the suffix and the bounds |
| `TraceLog.RotatingTraceLog.RemoveFileIfPresent` | src/platform/windows/driver/rotating_trace_log.cpp:43-50 | The file is absent afterwards, or nothing changed |
| `TraceLog.NamesInjective` | src/platform/windows/driver/rotating_trace_log.cpp:121-126 | Different generations have different names |
| `TraceLog.DecimalInjective` | src/platform/windows/driver/rotating_trace_log.cpp:121-126 | Different numbers have different decimal texts |
| `TraceLog.DecimalSpells` | src/platform/windows/driver/rotating_trace_log.cpp:121-126 | The text of a generation consists of decimal digits that spell it, without leading zeros |
| `TraceLog.KeptAbove` | src/platform/windows/driver/rotating_trace_log.cpp:61-80 | What a partial rotation keeps, generation by generation |
| `TraceLog.RotationDropsOldest` | src/platform/windows/driver/rotating_trace_log.cpp:61-80 | However far a rotation got, exactly the oldest generation is lost |
| `TraceLog.RotationKeepsBounds` | src/platform/windows/driver/rotating_trace_log.cpp:61-80 | A partial rotation keeps every file bounded |
| `TraceLog.AtMostOneFilePerGeneration` | src/platform/windows/driver/rotating_trace_log.cpp:61-80 | There are never more than R + 1 files |
| `TraceLog.ShouldRotate` | src/platform/windows/driver/rotating_trace_log.cpp:94-103 | A line rotates iff the file is not empty and the line does not fit |
| `TraceLog.AppendKeeps` | src/platform/windows/driver/rotating_trace_log.cpp:114-119 | A complete or cut line at the end of the active file keeps the suffix and the bounds |
| `MacosBroker.RunCorrelates` | src/platform/macos/macos_broker_client.cpp:164-197 | In every interleaving of callers, reader and session without a torn send (one that fails after its type field began, on an open connection in order), a call that returns a status returns the answer to exactly the bytes it sent: its own report taken or refused, or found invalid iff its size is wrong |
| `MacosBroker.StepKeeps` | src/platform/macos/macos_broker_client.cpp:88-229 | Every atomic step of client and session except a torn send keeps the invariant that ties the stream and the answers in flight to the call in progress |
| `MacosBroker.RunKeepsOneOutstanding` | src/platform/macos/macos_broker_client.cpp:164-197 | While both ends listen and the stream is in order, at most one request or answer is in flight during a call and none between calls; bytes that failed sends left on the stream are never answered and can only end the session |
| `MacosBroker.TornSendMisleads` | src/platform/macos/macos_broker_client.cpp:174-176 | From every reachable state a torn send can strike, with any outputs pending, a continuation in which the next call is given the answer to a mixture of both messages |
| `MacosBroker.FailedSendMisleadsIff` | src/platform/macos/macos_broker_client.cpp:174-176 | In every state of a sending client: after its send fails, some continuation without a further torn send misleads a call iff this failure is a torn send |
| `MacosBroker.TornRun` | src/platform/macos/macos_broker_client.cpp:164-197 | Whole runs from a fresh connection, for every cut from 4 bytes up and any two reports: the second call returns the status of the first part of one message and the start of the other |
| `MacosBroker.ReadsReachAnswer` | src/platform/macos/macos_broker_client.cpp:199-222 | The reader works through any outputs until it has the answer behind them |
| `MacosBroker.DoomedThenMessage` | src/platform/macos/broker/io.hpp:53-55 | One to three stray bytes make the next message fail its version check |
| `MacosBroker.DeadStaysDead` | src/platform/macos/macos_broker_client.cpp:189-192 | On a shut socket with nobody waiting, every step keeps it so and returns no status |
| `MacosBroker.ShutdownIsFinal` | src/platform/macos/macos_broker_client.cpp:88-101 | Whatever is in flight when a call gives up after its timeout, or when the gamepad is closed: no call that ends later returns a status |
| `MacosBroker.RunReturnsOnce` | src/platform/macos/macos_broker_client.cpp:153-197 | In every interleaving, torn sends included, calls return in the order they were begun and none returns twice |
| `MacosBroker.ClearKeeps` | src/platform/macos/macos_broker_client.cpp:169-172 | A response left over from an earlier call is forgotten before anything is sent |
| `MacosBroker.ReceivedStream` | src/platform/macos/broker/io.hpp:27-48 | Receiving in any pieces keeps the bytes in flight and their order |
| `MacosBroker.UndisturbedCallAnswers` | src/platform/macos/macos_broker_client.cpp:164-197 | Left alone, a call hands its report to the device, returns the device's answer and leaves the connection quiet |
| `MacosBroker.EncodedFields` | src/platform/macos/macos_broker_client.cpp:153-162 | The fixed-size message carries version, type, size and data where the session reads them |
| `MacosBroker.BytesOnTheWire` | src/platform/macos/macos_broker_client.cpp:153-197 | A submit is 9412 bytes: version 1, type 6, status 0, the size, the report from byte 1220 on and zeros elsewhere; a closing message the same with type 7 and no data |
| `MacosBroker.RequestAnswered` | src/platform/macos/broker/libvirtualhid_macos_broker.cpp:292-309 | A whole submit is answered exactly for what it says |
| `MacosBroker.AnswersAppend` | src/platform/macos/broker/libvirtualhid_macos_broker.cpp:173-184 | A message sent down the wire adds its answer, and outputs add none |
| `MacosBroker.MacosGamepad.SendSome` | src/platform/macos/broker/io.hpp:27-48 | One turn of the transfer loop: some bytes leave, or the call fails |
| `MacosBroker.MacosGamepad.AwaitResponse` | src/platform/macos/macos_broker_client.cpp:180-196 | Response, disconnection or timeout, in that order of preference |
| `MacosBroker.MacosGamepad.ReadOne` | src/platform/macos/macos_broker_client.cpp:199-222 | One turn of the reader: a response becomes ready, anything else does not, failure ends it |
| `MacosBroker.DeviceSession.Write` | src/platform/macos/broker/libvirtualhid_macos_broker.cpp:173-184 | A message goes out whole, or the session ends and the socket is shut |
| `MacosBroker.DeviceSession.HandleRequest` | src/platform/macos/broker/libvirtualhid_macos_broker.cpp:292-309 | A whole message ends the session or is answered exactly once |
| `MacosDelivery.RunKeeps` | src/platform/macos/macos_broker_client.cpp:129-151 | In every interleaving at most 64 reports wait, those taken followed by those waiting are an in-order selection of the arrivals, and the callback thread exits only when stopped with none left |
| `MacosDelivery.DroppedIffFull` | src/platform/macos/macos_broker_client.cpp:209-215 | A report is dropped exactly when 64 are waiting |
| `MacosDelivery.NothingLost` | src/platform/macos/macos_broker_client.cpp:209-215 | When no arrival finds the queue full, everything is delivered or waiting, in order |
| `MacosDelivery.ExitedIsFinal` | src/platform/macos/macos_broker_client.cpp:138-140 | After the callback thread exits, all that was kept has been delivered and nothing more can arrive |
| `MacosDelivery.CallbackState.TakeReport` | src/platform/macos/macos_broker_client.cpp:133-144 | Takes the oldest report; exits only on an empty queue |
| `SwitchSpi.ReadReply` | src/shared/switch_pro_protocol.hpp:130-143 | A read of any 32-bit address and size is acknowledged and echoed, and reply bytes 20 to 63 are the sparse flash byte by byte, zero beyond the size |
| `SwitchSpi.SubcommandBytes` | src/shared/switch_pro_protocol.hpp:189-213 | Byte by byte: every subcommand is acknowledged and named by a controller at rest; device information holds the type, the address in order and the closing bytes; all but a flash read is zero from there on |
| `SwitchSpi.UsbBytes` | src/shared/switch_pro_protocol.hpp:164-180 | Byte by byte: a USB command is named back, and the status request alone gets the type and the address reversed |
| `SwitchSpi.CalibrationReads` | src/shared/switch_pro_protocol.hpp:27-76 | The two calibration reads return the factory bytes, and the flash is zero elsewhere |
| `SwitchSpi.AdjacentReads` | src/shared/switch_pro_protocol.hpp:86-117 | Adjacent reads concatenate to the read of the union when it fits |
| `SwitchSpi.DumpIsFlash` | src/shared/switch_pro_protocol.hpp:86-143 | However a host cuts a range into reads, the answers concatenate to the range |
| `SwitchSpi.ReadsAddress` | src/shared/switch_pro_protocol.hpp:78-83 | The four little-endian bytes give back the address |
| `SwitchSpi.BlocksAreFlash` | src/shared/switch_pro_protocol.hpp:141-142 | The two clipped copies together are the flash window |
| `SwitchSpi.OverlaysCopy` | src/shared/switch_pro_protocol.hpp:94-116 | The clipped copy writes exactly the reply bytes whose address lies in the block |
| `SwitchSpi.OverlaysNothing` | src/shared/switch_pro_protocol.hpp:98-107 | Nothing is copied exactly when no shown address lies in the block |
| `SwitchSpi.CopySpiData` | src/shared/switch_pro_protocol.hpp:86-117 | In place: covered bytes come from the block, all others stay |
| `SwitchSpi.SetSpiReply` | src/shared/switch_pro_protocol.hpp:130-143 | In place: the echo and the flash window after the first fifteen bytes |
| `SwitchSpi.SetDeviceInfoReply` | src/shared/switch_pro_protocol.hpp:145-154 | In place: the device information |
| `SwitchSpi.SubcommandReply` | src/shared/switch_pro_protocol.hpp:189-213 | The reply array to a subcommand is its head and body |
| `SwitchSpi.MakeSwitchProReply` | src/shared/switch_pro_protocol.hpp:158-214 | Replies exactly to the commands the controller knows, with the specified 64 bytes |
| `SwitchSpi.Reply` | src/shared/switch_pro_protocol.hpp:158-192 | There is a reply iff the report is a known USB command or a complete subcommand |
| `CreateRequest.BuiltValidIff` | src/platform/windows/broker/broker_request_validation.hpp:80-141 | For every profile, identifier and text, the broker accepts the built request iff the identifier is nonzero, the copied texts hold no NUL and the profile is acceptable for its device type |
| `CreateRequest.AcceptedGamepadPasses` | src/platform/windows/control_protocol.hpp:170-224 | Every gamepad the runtime and backend accept passes, with a nonzero identifier and NUL-free texts of any length |
| `CreateRequest.AcceptedInputDevicePasses` | src/platform/windows/windows_backend.cpp:1787-1797 | Every driver-backed keyboard and mouse request passes |
| `CreateRequest.DescriptorArrivesIff` | src/platform/windows/control_protocol.hpp:183-193 | The broker gets an accepted gamepad's descriptor whole iff no force-feedback block was spliced into one too long for it |
| `CreateRequest.LongDescriptorCut` | src/platform/windows/control_protocol.hpp:183-193 | A family of accepted descriptors whose requests pass with the end cut off |
| `CreateRequest.TextArrives` | src/platform/windows/control_protocol.hpp:147-156 | A C string reader finds the first 127 characters, all of them iff the text is shorter than 128 |
| `CreateRequest.CopiedTextValid` | src/platform/windows/broker/broker_request_validation.hpp:54-67 | A copied text of any length is valid iff its copied part holds no NUL |
| `CreateRequest.CopiedDescriptorEquals` | src/platform/windows/broker/broker_request_validation.hpp:88-103 | The descriptor comparison accepts exactly the fixed table |
| `CreateRequest.FlagsRoundTrip` | src/platform/windows/control_protocol.hpp:39-61 | The flags say exactly which capabilities there are and set no unknown bit |
| `CreateRequest.LegacyIsPastPrefix` | src/platform/windows/shared/generic_pid_protocol.hpp:108-118 | The replaced usage byte always lies within the kept part of the descriptor |
| `CreateRequest.Search` | src/platform/windows/shared/generic_pid_protocol.hpp:112-115 | The first occurrence, or the end when there is none |
| `CreateRequest.CopyString` | src/platform/windows/control_protocol.hpp:147-156 | The filled and copied array is the text cut to 127 characters, then zeros |
| `CreateRequest.CopyBytes` | src/platform/windows/control_protocol.hpp:159-168 | The filled and copied array is the bytes cut to its length, then zeros |
| `CreateRequest.MakeCreateDeviceRequest` | src/platform/windows/control_protocol.hpp:170-224 | The returned request says what the profile says: identity, vendor, product, version and report id (product and version fixed exactly for Xbox Series gamepads), codes that decode back, one flag per capability of a gamepad, each text in its own field as its first 127 characters, sizes of the profile wherever no case replaces them, and the descriptor or its splice cut to 2048 bytes |
| `CreateRequest.BuiltSays` | src/platform/windows/control_protocol.hpp:170-224 | The specified request says the same |
| `CreateRequest.SaysOnce` | src/platform/windows/control_protocol.hpp:170-224 | Nothing is left open: no two requests say the same of one profile |
| `CreateRequest.SaysWhat` | src/platform/windows/control_protocol.hpp:170-224 | Two profiles with one request agree in identity, kind, bus, capabilities and the first 127 characters of their texts |
| `CreateRequest.ValidIsBuilt` | src/platform/windows/broker/broker_request_validation.hpp:80-141 | The broker accepts nothing else: every valid request is, field for field, the one the client builds for the profile it speaks of, unless the client rewrites that profile |
| `CreateRequest.BluetoothPlayStationSays` | src/platform/windows/control_protocol.hpp:119-145 | A Bluetooth DualShock 4 or DualSense is asked for as the USB device of the same identity, with descriptor and report sizes of its own kind |
| `CreateRequest.SplicedIffExpands` | src/platform/windows/shared/generic_pid_protocol.hpp:104-125 | The descriptor is spliced at the first legacy rumble block exactly of generic rumble gamepads in the built-in layout |
| `UnicodeText.DecodeAt` | src/platform/linux/uhid_backend.cpp:877-919 | From every position: skip one byte, stop at a short tail, or take one code point |
| `Bytes.Int16RoundTrip` | src/platform/windows/windows_backend.cpp:2489-2492 | Little-endian two's complement bytes give back every 16-bit value |

## Left out

- EvdevTouch.RunRefines: assumes every write is accepted; one placement cut short is followed in `EvdevTouchFailures`, and the method contracts cover failed writes anywhere.
- EvdevTouchFailures.ShownIffAnnounced: one interrupted placement of a new contact; interrupted releases, several interruptions and the button keys they leave behind are covered by the method contracts only.
- EvdevMouse.RunRefines: assumes every write is accepted; `EvdevMouse.UinputMouse.Submit` covers failed writes.
- WindowsTouch.RunRefines: assumes every injection is accepted, because a refused one leaves edge bits stored, on the contacts `WindowsTouch.EdgesIffLastRefused` names.
- WindowsHidMouse.RunRefines: assumes every report is accepted, as the state moves before the report; the method contracts cover refusals.
- AxisScaling.ScalingsAgree: exact arithmetic over reals; the rounding of 32-bit floats is not modelled, in this module, in touch samples or in trigger values.
- MacosBroker.RunCorrelates: excludes torn sends, which break the property; `MacosBroker.FailedSendMisleadsIff` shows the exclusion exact.
- MacosBroker.MacosGamepad.SendSome: `call_mutex_` is modelled as mutual exclusion, so the threads queueing for it are one caller at a time; fairness and the start of the reader before later members are constructed are not modelled.
- MacosBroker.DeviceSession.HandleRequest: authorization checks and polling are the step that may end the session at any time; a reply that fails half-way counts as not sent, because the socket is shut.
- MacosBroker.RunKeepsOneOutstanding: says nothing while the closing message is being sent, since the socket is shut right after it.
- TraceLog.RotatingTraceLog.RemoveFileIfPresent: an error that says "not found" is reported only for absent files; every other error may occur at any time, and a failed operation changes nothing except that a write may leave a part of the line.
- UnicodeText.Decode: overlong forms and a dropped short tail are modelled as the code has them; beyond `UnicodeText.Resynchronises` nothing is claimed about malformed UTF-8.
- UnicodeText.NextWideCodePoint: 16-bit wide characters only.
- PlayStationReports.ParseOutputReports: the raw report that every output also carries is not modelled, and only the DualSense and DualShock 4 branches; the remaining decoders do not apply to these profiles.
- PlayStationReports.AlteredDualSenseIsRaw: nothing is claimed for changes to byte 0 or for reports under 78 bytes, which carry no checked trailer.
- WindowsTouch.WindowsTouchscreen.PlaceContact: pixel locations and contact areas arrive already computed.
- RumbleHistory.ContributesIff: time is an unbounded number of nanoseconds; the output callback is the log of what it receives.
- CreateRequest.Built: integer fields are unbounded, the fixed HID descriptors are given by their lengths, and the broker's request header and licence checks are not modelled.
- MacosBroker.DeviceSession.Write: outputs are opaque reports; the report id the broker may put before one is not modelled.
- CreateRequest.ValidIsBuilt: a valid request for an Xbox Series gamepad, or for one whose descriptor would be spliced, need not be one the client builds.
- SwitchSpi.MakeSwitchProReply: the running packet timer is a parameter.
- Key code and usage tables, HID descriptors, hat tables, profile presets and name functions: constant data.
- The X11, SendInput and pen tablet paths, gamepad input packing, device discovery, installation, licensing, and the control panel.
