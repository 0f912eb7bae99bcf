# Cube Touch — a verified model of the monitor core and the ESP32 firmware

Cube Touch is an interactive installation. ESP32 boards read a touch sensor through a PIC
co-processor, drive a 150-pixel LED strip and report to a PC over UDP. The PC side runs
three pieces of core logic and a GUI.

- A **heartbeat registry** (`heartbeat.py`). It keeps one record per device from
  `HEARTBEAT:<name>,IP:<addr>,...` datagrams. A device silent for longer than the timeout
  is marked offline. The registry records ping latency and counts online and total devices.
- A **telemetry handler** (`communication.py`). It keeps a bounded log and packet counters,
  and parses the firmware's `Val: <v> Thr: <t> Stt: <s>` lines into the current touch state.
- A **cylinder controller** (`xilanh.py`). It sends `XILANH:0/1/2` and remembers the last
  state that was sent successfully.

The firmware (`esp32.cpp`) parses command packets (CONFIG, LEDCTRL, RAINBOW:START, LED, DIR,
THRESHOLD, UP, DOWN, and three-integer colours). It also:

- grows and shrinks the lit part of the strip toward the touch;
- runs the rainbow effect;
- classifies touches as short or long from the PIC's UART lines;
- throttles its debug report.

From the GUI (`gui.py`) the model keeps the logic behind the device panel:

- the change test that decides whether to redraw;
- the header counts;
- the widget cache reconciliation;
- the "Access" action that derives a port from the last IP octet;
- the IR ADC history.

Modules, one per file:

| file | module | models |
|---|---|---|
| wrappers.dfy | Wrappers | `Option` |
| text.dfy | Text | Python `str.strip`/`split`/`in`/`startswith`, C white space, `String::trim` |
| numerals.dfy | Numerals | Python `str(int)`/`int(s)`, C `atoi`/`String::toInt`, `sscanf("%d")` |
| heartbeat.dfy | Heartbeat | `ESP32Device`, `HeartbeatManager` |
| communication.dfy | Communication | `CommunicationHandler` |
| xilanh.dfy | Xilanh | `XilanhController` |
| ledstrip.dfy | LedStrip | LED count/dim/mask, brightness, rainbow timing in `esp32.cpp` |
| firmware.dfy | Firmware | packet commands, touch state machine, main effect, UART reader, `loop()` |
| gui.dfy | Gui | device panel, access action, IR ADC history |
| link.dfy | Link | how the firmware's datagrams meet the PC-side parsers |

Every operation is a pure function from the old state and its inputs to the new state. Where
the source also sends something (OSC messages, UDP datagrams, PIC lines, registry callbacks),
the function returns those outputs as a list too. Clock readings are parameters:

- microseconds for the PC side;
- the wrapping 32-bit `millis()` for the firmware.

Socket send outcomes are parameters too, and so are ping probes and the colour wheel.

## Model

| member | source | states |
|---|---|---|
| Heartbeat.UpdateHeartbeat | heartbeat.py:29-33 | the device becomes online, its last heartbeat is `now` and its count grows by one; nothing else changes |
| Heartbeat.Classify | heartbeat.py:35-46 | the latency class is Timeout exactly for negative pings, Good exactly for 0..50 ms, Fair for (50,150], Poor above; never Unknown |
| Heartbeat.UpdatePing | heartbeat.py:35-46 | stores the ping, the status becomes known and is Timeout iff the ping is negative; nothing else changes |
| Heartbeat.PingPresentationDistinct | heartbeat.py:48-68 | different latency classes get different colours and different icons |
| Heartbeat.CheckTimeout | heartbeat.py:70-76 | reports a timeout iff more than `timeout` seconds elapsed since the last heartbeat, and then only clears the online flag |
| Heartbeat.SplitSeconds | heartbeat.py:78-84 | hours/minutes/seconds recompose to the given seconds with minutes and seconds below 60 |
| Heartbeat.UptimeAsWritten | heartbeat.py:78-84 | the uptime as written: its clock fields recompose to the elapsed seconds modulo one day |
| Heartbeat.Uptime | heartbeat.py:78-84 | the corrected uptime: its clock fields recompose to all elapsed whole seconds |
| Heartbeat.UptimeDropsWholeDays | heartbeat.py:78-84 | after 25 hours the as-written uptime reads 01:00:00, the corrected one 25:00:00 |
| Heartbeat.UptimeAgreesWithinADay | heartbeat.py:78-84 | within the first day both uptimes agree |
| Heartbeat.TimeOfDay | heartbeat.py:92 | the `%H:%M:%S` rendering of a timestamp is its time of day |
| Heartbeat.GetStatusInfo | heartbeat.py:86-100 | the status record copies identity, liveness, counters and ping, shows the ONLINE/OFFLINE text and the corrected uptime, whose fields recompose to all elapsed whole seconds |
| Heartbeat.StatusUptimeWithinADay | heartbeat.py:78-100 | for a device first seen less than a day ago the record's uptime is the one the source computes |
| Heartbeat.KeyCollision | heartbeat.py:211 | two distinct (name, ip) pairs share one registry key, because the key is the joined string |
| Heartbeat.UpdateDevice | heartbeat.py:209-226 | the keyed device is online at `now` and every other device is untouched; a new key is appended to the order with count 1 and raises new-device then status events; a known key keeps its identity, first-seen time, ping value and ping status and counts one more beat |
| Heartbeat.ParseHeartbeat | heartbeat.py:179-202 | a message yields a (name, ip) exactly when it starts with `HEARTBEAT:` and a comma follows; the name is stripped and comma-free |
| Heartbeat.ParseFields | heartbeat.py:186-200 | a message built from a name and a second field parses to that name and to the address the field carries, or else the sender's |
| Heartbeat.ParseFormattedHeartbeat | heartbeat.py:182-199 | `HEARTBEAT:<name>,IP:<ip>,<rest>` parses back to exactly (name, ip) |
| Heartbeat.ParseFallsBackToSender | heartbeat.py:196-199 | without an `IP:` field the sender's address is used |
| Heartbeat.ProcessHeartbeat | heartbeat.py:179-207 | an unparsable message changes nothing; a parsable one leaves its device online at `now` and raises a status event |
| Heartbeat.ReceiveDatagram | heartbeat.py:162-177 | a datagram that is not a heartbeat once stripped leaves the registry unchanged |
| Heartbeat.SweepKeys | heartbeat.py:234-244 | the swept devices are exactly those checked; every other record is unchanged |
| Heartbeat.SweepKeysEvents | heartbeat.py:234-244 | an offline event is raised exactly for each device of the pass that turns offline |
| Heartbeat.SweepKeysOfRegistry | heartbeat.py:234-244 | over the whole registry, (name, ip) gets an offline event iff its device turns offline, and there is any event iff some device turns offline |
| Heartbeat.Sweep | heartbeat.py:228-260 | each device is checked for timeout; offline events match devices that turn offline; a status event is raised iff something went offline or the 5-second refresh is due; the refresh clock follows the source's branches |
| Heartbeat.SweepSettles | heartbeat.py:234-244 | after a sweep no device is online past its timeout |
| Heartbeat.SettledSweepIsQuiet | heartbeat.py:234-256 | sweeping a settled registry changes nothing and raises no offline event |
| Heartbeat.SweepTwiceDropsNothing | heartbeat.py:228-256 | a second sweep at the same instant changes nothing and raises no offline event |
| Heartbeat.FreshHeartbeatSurvivesSweep | heartbeat.py:70-76 | a device that beat within the timeout stays online through a sweep and raises no offline event |
| Heartbeat.SilentDeviceDropsAfterTimeout | heartbeat.py:111 | with the 3-second default, a device is still online 3 s after its beat and goes offline with an event at 4 s |
| Heartbeat.ProbePass | heartbeat.py:262-281 | every online device gets the ping probed for its own key and no offline device changes; a status event is raised iff some device is online |
| Heartbeat.ProbeKeepsCounts | heartbeat.py:262-272 | a probe pass never changes who is online, so the device counts stay the same |
| Heartbeat.CountOnline | heartbeat.py:328-337 | counting along the order gives the number of distinct online keys |
| Heartbeat.DeviceCount | heartbeat.py:328-337 | total is the number of devices, online the number of online ones, and online plus offline equals total |
| Heartbeat.GetStatistics | heartbeat.py:365-375 | the counts agree with the registry and the port, timeout and running flag are reported back |
| Heartbeat.FirstIndexWhere | heartbeat.py:339-351 | the first position along the order whose name (or ip) matches, or the end |
| Heartbeat.GetDeviceByName | heartbeat.py:339-344 | None iff no device has the name; otherwise the first such device in insertion order |
| Heartbeat.GetDeviceByIp | heartbeat.py:346-351 | None iff no device has the address; otherwise the first such device in insertion order |
| Heartbeat.OnlineOnly | heartbeat.py:353-363 | keeps exactly the keys of online devices, in the order they had before |
| Heartbeat.ShiftedIndices | heartbeat.py:353-363 | when the first key does not occur again, every later key sits one place further in the whole order than in its tail |
| Heartbeat.OrderAfterHead | heartbeat.py:353-363 | putting the first key in front of keys ordered as in the tail gives keys ordered as in the whole order |
| Heartbeat.ClearOfflineDevices | heartbeat.py:353-363 | exactly the online devices remain, unchanged and in their earlier order; a status event is raised iff some device was offline |
| Heartbeat.ClearLeavesOnlyOnline | heartbeat.py:353-363 | after clearing, no device is offline and the online count is unchanged |
| Heartbeat.AllDevicesStatus | heartbeat.py:324-326 | one status record per device, in insertion order |
| Heartbeat.Replay | heartbeat.py:209-226 | replayed heartbeats keep the registry valid and never drop a device |
| Heartbeat.ReplayOneDevice | heartbeat.py:209-226 | n beats from one new device give one record counting n, first seen at the first beat, last seen at the last |
| Heartbeat.ReplaySameDevice | heartbeat.py:209-226 | n more beats from a known device add n to its count, keep its first-seen time and the order |
| Communication.Push | communication.py:31-38 | the log gains the entry at its end and drops its oldest entry when the cap is exceeded |
| Communication.AddLog | communication.py:31-38 | only the log changes; the timestamped entry is last whenever the cap is at least one |
| Communication.PushAllKeepsNewest | communication.py:31-38 | after any number of entries, starting from a log within the cap, the log is the newest `max_log_entries` of the old log followed by the new entries |
| Communication.ClearLogs | communication.py:44-47 | the log becomes the single "Logs cleared" entry, or empty when the cap is below one |
| Communication.SendUdpCommand | communication.py:64-78 | success iff the send succeeded; only then the sent counter grows; the log records the command or the error text |
| Communication.WordAfter | communication.py:105-109 | the first white-space-delimited word after the tag, None exactly when only white space follows |
| Communication.ParseFields | communication.py:100-121 | value, threshold and raw touch are updated in the source's order; a missing word after a tag stops parsing and leaves the later fields as they were |
| Communication.ParseDataLine | communication.py:100-121 | a parse error logs "Error parsing: list index out of range"; counters are untouched |
| Communication.HandleRawUdpData | communication.py:92-98 | every line counts as received and marks the link connected, then is parsed |
| Communication.HandleOscData | communication.py:80-90 | an empty argument list changes nothing and counts nothing; otherwise one packet is counted, the link is connected and the touch state is what parsing the first argument gives, and the result reports whether it parsed |
| Communication.OscDataLineSetsFields | communication.py:80-90 | an OSC message whose first argument is a formatted data line sets exactly that line's value, threshold and status, whatever arguments follow |
| Communication.ResetStatistics | communication.py:134-138 | both counters become zero and one log entry is added |
| Communication.DataLineValue | communication.py:105 | the value word is read back from a formatted data line |
| Communication.DataLineThreshold | communication.py:109 | the threshold word is read back from a formatted data line |
| Communication.DataLineStatus | communication.py:113 | the status text is read back from a formatted data line |
| Communication.ParseDataLineRoundTrip | communication.py:100-121 | parsing a formatted data line gives back exactly its three fields |
| Communication.ParseUntaggedLine | communication.py:100-118 | a line with no tags leaves the touch state alone and is not an error |
| Xilanh.NewController | xilanh.py:10-12 | a new controller is stopped |
| Xilanh.Command | xilanh.py:14-42 | the state becomes the target only when the command was sent, and the send is exactly the handler's |
| Xilanh.MoveUp | xilanh.py:14-22 | sends `XILANH:2`; moving up only on success |
| Xilanh.MoveDown | xilanh.py:24-32 | sends `XILANH:1`; moving down only on success |
| Xilanh.Stop | xilanh.py:34-42 | sends `XILANH:0`; stopped only on success |
| Xilanh.StateText | xilanh.py:46-54 | each known state has its text and every other value reads "Unknown" |
| Xilanh.GetState | xilanh.py:44-55 | reports the state with its text, never "Unknown" for a known state |
| Xilanh.StateStaysKnown | xilanh.py:14-55 | after any sequence of requests the state is still known |
| Xilanh.StateIsLastSent | xilanh.py:14-42 | after any sequence of requests the state is the target of the last successful one |
| LedStrip.Elapsed | esp32.cpp:82 | unsigned 32-bit `now - since`, correct across `millis()` wrap-around |
| LedStrip.Byte | esp32.cpp:108 | the low 8 bits of a channel value |
| LedStrip.PackColor | esp32.cpp:108 | packed channels are bytes, and in-range colours pass unchanged |
| LedStrip.TruncDiv | esp32.cpp:93-95 | C integer division: the remainder is smaller than the divisor and never of the opposite sign to the dividend |
| LedStrip.Int32 | esp32.cpp:93-95 | an `int` product is congruent to the true product modulo 2^32, lies in the 32-bit range, and is exact when the true product fits |
| LedStrip.Dim | esp32.cpp:93-95 | while the product fits in an `int`, scaling by brightness never brightens and full brightness leaves the channel unchanged |
| LedStrip.DimOverflows | esp32.cpp:93-95 | a component of ten million at full brightness overflows the product and comes out negative |
| LedStrip.DimByte | esp32.cpp:93-95 | a byte-valued component never overflows, so dimming it never brightens it |
| LedStrip.Dimmed | esp32.cpp:93-95 | a dimmed colour is byte-valued and no brighter than the original |
| LedStrip.Frame | esp32.cpp:98-112 | pixel i is lit iff it lies within the count from the chosen end |
| LedStrip.RangeSize | esp32.cpp:98-112 | the index range has its expected length |
| LedStrip.LitPixelCount | esp32.cpp:98-112 | exactly `count` pixels are lit: the first ones in direction 1, the last ones otherwise |
| LedStrip.NextCount | esp32.cpp:86-90 | the count steps one toward full while touched and one toward zero otherwise, within 0..150 |
| LedStrip.ApplyColorWithBrightness | esp32.cpp:78-116 | nothing changes when the effect is off or the 5 ms interval has not passed; otherwise the count steps and the frame shows the dimmed colour |
| LedStrip.FrameGrowsByOne | esp32.cpp:86-112 | a touched update below full lights exactly one more pixel |
| LedStrip.SetEffect | esp32.cpp:118-125 | disabling darkens every pixel and zeroes the count; enabling only sets the flag |
| LedStrip.Paint | esp32.cpp:487-496 | exactly the targeted pixels (all, or one in-range index) take the packed colour |
| LedStrip.BrightnessUp | esp32.cpp:539-543 | brightness rises by 16, capped at 255 |
| LedStrip.BrightnessDown | esp32.cpp:544-548 | brightness falls by 16, floored at 1 |
| LedStrip.BrightnessStepsInverse | esp32.cpp:539-548 | UP then DOWN (or DOWN then UP) returns to the start when neither bound is hit |
| LedStrip.UpsReachFull | esp32.cpp:539-543 | sixteen UP commands reach full brightness from anywhere |
| LedStrip.UpTimesBound | esp32.cpp:539-543 | n UP commands give full brightness or at least 16·n more |
| LedStrip.StartRainbow | esp32.cpp:128-133 | the rainbow becomes active from `now` with offset 0 |
| LedStrip.HueAt | esp32.cpp:176 | pixel hues stay in 0..254 |
| LedStrip.RainbowTick | esp32.cpp:157-183 | an inactive rainbow does nothing; after 6000 ms it stops and darkens the strip; otherwise every 5 ms it paints the wheel and advances the offset by 4 mod 255 |
| LedStrip.RainbowEndsAfterEffectTime | esp32.cpp:160-168 | a tick 6 s after the start always ends the effect with a dark strip |
| Firmware.PacketText | esp32.cpp:455-458 | the command text is the datagram's first 254 characters up to the first NUL |
| Firmware.IndexFrom | esp32.cpp:477-479 | `String::indexOf(c, from)`: the first occurrence at or after `from`, or -1 |
| Firmware.ParseLedControl | esp32.cpp:476-485 | an LED-control body is accepted exactly when three commas split it into four fields with a non-empty target |
| Firmware.ScanColor | esp32.cpp:552-553 | a colour is read only when `%d` matches, and its red is the first integer |
| Firmware.ParseCommand | esp32.cpp:461-557 | LED control and rainbow are only accepted in config mode; CONFIG is recognised exactly by its prefix; a colour command carries the scanned colour; UP and DOWN match only exactly |
| Firmware.Execute | esp32.cpp:461-557 | each command changes only its own part of the state; only THRESHOLD emits output, the PIC line; CONFIG 1 enables LEDs and disables touch |
| Firmware.LedCommand | esp32.cpp:475-557 | a strip command changes only its own setting: UP/DOWN the brightness, a colour the colour, DIR: the direction, LED: the effect switch, LEDCTRL: the painted pixels |
| Firmware.HandlePacket | esp32.cpp:455-558 | a packet changes brightness only as UP/DOWN, the colour only as a scanned colour, config mode only as CONFIG, and emits only for THRESHOLD |
| Firmware.FieldsRoundTrip | esp32.cpp:477-485 | a body joined from comma-free fields splits back into them |
| Firmware.TargetTextRoundTrip | esp32.cpp:482-492 | a printed LED target is read back as the same target |
| Firmware.AtoiOfPrinted | esp32.cpp:463 | `atoi` reads back a printed integer |
| Firmware.LedControlRoundTrip | esp32.cpp:476-496 | a printed LED-control body parses back to its target and colour |
| Firmware.ScanColorOfThree | esp32.cpp:553 | three successive `%d` matches give the colour |
| Firmware.ScanColorRoundTrip | esp32.cpp:553 | a printed "r g b" line scans back to the same colour |
| Firmware.NumericCommandRoundTrip | esp32.cpp:462-536 | printed CONFIG/LED/DIR/THRESHOLD commands parse back to themselves |
| Firmware.ColorCommandRoundTrip | esp32.cpp:551-557 | a printed colour parses back to the colour command |
| Firmware.LedControlCommandRoundTrip | esp32.cpp:475-500 | a printed LED-control command parses back to itself in config mode |
| Firmware.CommandRoundTrip | esp32.cpp:461-557 | every command the current mode accepts parses back from its printed form |
| Firmware.PacketExecutesCommand | esp32.cpp:455-558 | handling a command's printed packet is executing the command |
| Firmware.Report | esp32.cpp:340-356 | a report is sent when the reading changed or 100 ms passed, carrying value, threshold 5147 and status, and remembered as sent |
| Firmware.TouchStep | esp32.cpp:363-395 | a touch starts timing and sends EnableOSC once; a release of under 2000 ms (but not 0) sends BackOSC and arms Init, at least 2000 ms sends Main and arms the main effect |
| Firmware.ProcessTouch | esp32.cpp:338-399 | the report precedes the touch step; when touch is disabled or the status is -1 only a report may go out and the status is kept; otherwise the status is consumed |
| Firmware.ReleaseClassification | esp32.cpp:375-393 | releasing after at least 2000 ms fires Main and never Back; releasing earlier fires Back and never Main |
| Firmware.MainEffect | esp32.cpp:575-590 | the main effect sends Main then Init, re-enables the LEDs on a dark strip and resets touch and readings |
| Firmware.StripTick | esp32.cpp:560-566 | an effects tick touches only the strip and the rainbow, never the enable flag |
| Firmware.ArmMainEffect | esp32.cpp:569-573 | the waiting and started flags rise exactly when the touch has been held at least 2000 ms and the effect has not started for this touch; nothing else changes |
| Firmware.ArmMainEffectOnce | esp32.cpp:569-573 | once armed, the same touch never arms the main effect again, at any later clock reading |
| Firmware.InitStep | esp32.cpp:592-596 | Init is sent exactly when a back effect's wait is pending and the clock has reached its end; sending clears the wait and nothing else |
| Firmware.InitStepOnce | esp32.cpp:592-596 | a back effect's wait yields one Init burst: after it, no later clock reading sends another |
| Firmware.EffectTick | esp32.cpp:560-596 | Main is sent iff the hold is long enough or the main effect is already waiting, and it ends untouched with LEDs on; the Init wait ends iff it was due at the later clock reading, and then Init is the last output |
| Firmware.LongHoldFiresMainEffect | esp32.cpp:569-590 | holding for 2000 ms fires the main effect within the same pass, without waiting for release |
| Firmware.Absorb | esp32.cpp:611-623 | a reading changes only under its label and reports whether it changed |
| Firmware.UartLine | esp32.cpp:602-631 | "value"/"status" lines set the label; other lines set the labelled reading and run touch processing only if it changed and touch is enabled |
| Firmware.UartChar | esp32.cpp:599-635 | characters accumulate until a newline, which handles the trimmed line and clears the buffer |
| Firmware.UartFeed | esp32.cpp:599-636 | any input keeps the firmware state well formed |
| Firmware.FoldConcat | esp32.cpp:599-636 | running a per-character step over two stretches of input is running it over the first, then the second from where the first left off |
| Firmware.UartFeedConcat | esp32.cpp:599-636 | feeding two chunks is feeding their concatenation |
| Firmware.UartFeedBuffers | esp32.cpp:633-635 | text without a newline is only buffered |
| Firmware.UartFeedLine | esp32.cpp:599-636 | a full line is handled as the trimmed buffered text plus the line |
| Firmware.StatusOneStartsTouch | esp32.cpp:617-630 | a new status 1 after a "status" label starts a touch at `now` and sends EnableOSC |
| Firmware.LoopPass | esp32.cpp:453-636 | a whole `loop()` pass keeps the firmware state well formed, with the Init test and the serial input at the clock reading taken after the effects |
| Firmware.ConfigModeSilencesTouch | esp32.cpp:599-636 | while touch processing is disabled (config mode) UART input never changes the touch state and sends nothing, since processTouch is skipped |
| Gui.LastIndex | gui.py:849-850 | the position whose entry a dict comprehension keeps for a key: present iff the key occurs, and the last occurrence |
| Gui.LastMap | gui.py:849-850 | a dict built from keyed entries holds exactly the keys, each with its last entry |
| Gui.DevicesStatusUnchanged | gui.py:843-865 | unchanged iff same length, same key set and, per key, same online flag, count, last heartbeat and ping |
| Gui.KeysOfRegistry | gui.py:849-850 | the snapshot's keys are the registry's insertion order |
| Gui.SnapshotOfRegistry | gui.py:849-850 | keying a snapshot by name_ip gives back each registry device's status |
| Gui.RefreshIsUnchanged | gui.py:843-865 | two snapshots of an unchanged registry compare as unchanged, so the periodic refresh alone never redraws |
| Gui.HeartbeatIsNoticed | gui.py:843-865 | a snapshot taken after any heartbeat compares as changed |
| Gui.OnlineEntries | gui.py:805 | the online count is between 0 and the total, 0 iff none online, the total iff all online |
| Gui.HeaderCounts | gui.py:803-805 | the header total is the snapshot length and online never exceeds it |
| Gui.OnlineEntriesOfRecords | gui.py:805 | counting online status records equals counting online devices |
| Gui.HeaderMatchesDeviceCount | gui.py:803-805 | the header's online/total counts equal the registry's device counts |
| Gui.Reconcile | gui.py:867-958 | the widget cache holds exactly the snapshot's keys, each showing its last entry at that entry's row, with an Access button iff that device is online |
| Gui.ReconcileForgetsCache | gui.py:867-887 | the result does not depend on the previous cache, and reconciling twice is reconciling once |
| Gui.RowsFollowInsertionOrder | gui.py:867-887 | for a registry snapshot, device i in insertion order sits on row i with an Access button iff online |
| Gui.RowOf | gui.py:879-887 | device i in insertion order is rendered from its status at row i |
| Gui.UpdateEspDevicesStatus | gui.py:781-842 | redraws iff on the home view and the snapshot changed; otherwise nothing changes; a redraw shows the header counts, one widget per key and the waiting label iff there are no devices |
| Gui.RepeatedSnapshotIsQuiet | gui.py:796-798 | showing the same snapshot twice redraws once |
| Gui.RedrawOnlyOnHeartbeat | gui.py:781-865 | an unchanged registry never redraws; after a heartbeat the panel redraws iff it is on the home view |
| Gui.AccessDevice | gui.py:961-1008 | rejected iff the address has no 4 dotted parts or the last is not an integer; otherwise both ports are 100 × the last octet and the UDP server restarts iff the port changed and the app exists |
| Gui.AccessPrintedAddress | gui.py:967-982 | a printed a.b.c.d address connects on port 100·d, at most 25500 for a real octet |
| Gui.Clamp | gui.py:1963 | ADC values are clamped into 0..4095 and in-range values pass unchanged |
| Gui.ProcessAdcData | gui.py:1957-1970 | the current value is the clamped input, appended to the history which keeps its last 100 entries; the time axis records the history length |
| Gui.ClampAll | gui.py:1963 | every value of a batch lands in [0, 4095], and one already in range passes unchanged |
| Gui.HistoryIsWindow | gui.py:59-60 | after any number of samples the history is the last 100 clamped values and the time axis stays aligned |
| Gui.WindowAppend | gui.py:59 | appending to a 100-entry window and windowing again is one window over everything |
| Gui.AdcSearch | gui.py:1919 | the first position at or after `from` where `IR_ADC:` and a digit occur |
| Gui.NoMatchBeforeTag | gui.py:1919 | no `IR_ADC:` match starts inside colon-free text before the tag |
| Gui.MatchAtTag | gui.py:1919-1921 | the pattern matches at a printed tag and its group reads back the number |
| Gui.ExtractIrAdc | gui.py:1919-1921 | None iff no `IR_ADC:<digits>` occurs; otherwise the digits at the first match |
| Gui.UpdateRealtimeData | gui.py:1911-1923 | text without an `IR_ADC:` match leaves the samples alone; otherwise the value of the first match, and of no later one, is processed; the history stays within its bounds |
| Gui.ExtractPrintedAdc | gui.py:1919-1923 | a printed ADC frame after text that holds no colon, followed by anything but a digit, is read back and becomes the clamped current value |
| Link.DebugMessageIsDataLine | esp32.cpp:351 | the firmware's debug datagram is a data line in the handler's format |
| Link.NumeralField | esp32.cpp:351 | printed integers are well-formed data-line fields |
| Link.DebugMessageReachesHandler | communication.py:92-121 | the handler receiving the firmware's debug datagram shows the firmware's value, threshold and status |
| Link.NoCommandStartsWithX | esp32.cpp:461-557 | a packet starting with X is no firmware command |
| Link.CylinderTextIsNoCommand | xilanh.py:16-36 | the cylinder commands pass the packet buffer unchanged and parse to no firmware command |
| Link.CylinderCommandIgnoredByFirmware | esp32.cpp:453-558 | a cylinder command reaching the LED firmware changes nothing and sends nothing |

## Left out

- Sockets, threads and callbacks: the listener, sweeper and probe threads of `heartbeat.py`
  are modelled as functions called once per event or period. Registry callbacks become
  returned events. The `sleep` between sweeps is not modelled.
- `_ping_device` runs the system `ping` and parses its output. It is a parameter of
  Heartbeat.ProbePass: a function from a device's registry key (the `name_ip` string) to its
  ping in milliseconds, with a negative value meaning timeout. Each device thus gets its own
  answer, as each is pinged separately.
- `datetime.now()` and `strftime` are replaced by integer microsecond readings and a
  time-of-day clock. The log timestamp is a parameter string.
- Heartbeat.Classify: ping times are Dafny reals, not IEEE doubles, so rounding is not modelled.
- `export_logs`, `get_logs` and `CommunicationHandler.get_statistics` are left out.
  `export_logs` writes a file; the other two return copies of fields the model exposes directly.
- Communication.SendUdpCommand: the socket send is a parameter outcome (sent, or an error
  text). Address resolution and encoding errors are not modelled.
- HeartbeatManager `start`/`stop` are left out. They open and close sockets and threads.
- The GUI's tkinter layout, colours, fonts, TclError recovery paths and `root.after`
  scheduling are left out. The model keeps the panel's observable state: the shown snapshot,
  header text, widget rows, Access buttons and the waiting label.
- Gui.UpdateRealtimeData: only the string path is modelled. The dict path forwards already
  parsed fields to labels. Python's `\d` also matches non-ASCII digits; the model reads
  ASCII digits only.
- Gui.AccessDevice: Python's `int()` also accepts underscores between digits and non-ASCII
  digits; the model does not. The message boxes and the restart's failure text are left
  out; the restart is a boolean request.
- Firmware: the NeoPixel hardware, `setBrightness`, `gamma32` and `ColorHSV` are left out.
  The colour wheel is a parameter function from hue to colour.
- Firmware: the blocking `rainbowCaterpillarEffect` animation and its `delay` are left out.
  The main effect is modelled by its outputs and its end state: a dark strip.
- Firmware: each OSC burst (`sendResolumeEnableOSC`, `sendResolumeBackOSC`,
  `sendResolumeMain`, `sendResolumeInitOSC`, esp32.cpp:222-330) becomes one output. The
  argument 5 is a duration in milliseconds: each function re-sends its group of OSC messages
  in a `while (millis() - startTime < durationMs)` loop, so the number of copies depends on
  timing. The OSC addresses and arguments are not modelled either.
- Firmware: `sendResolumeEnableOSC` returns without sending when Wi-Fi is disconnected
  (esp32.cpp:223-227). The model has no Wi-Fi state, so Firmware.TouchStep always emits
  EnableOsc on a new touch.
- Firmware: `sendDebugUDPString`'s Wi-Fi check and its three send attempts
  (esp32.cpp:186-219) are left out. A report is one output.
- Firmware.EffectTick: `updateRainbowEffect`, `applyColorWithBrightness` and the hold test
  each read `millis()` on their own; the model gives them one reading, `now`. The Init test
  and the serial input get a second reading, `later` (Firmware.LoopPass), because they
  follow the main effect's six-second animation.
- Firmware.UartFeed: every character of one serial batch is handled at the one clock reading
  it is given, so the EnableOSC burst (at least 5 ms of re-sending while Wi-Fi is up,
  esp32.cpp:233-235) does not move the clock. A press and a release within one batch
  therefore give a 0 ms touch, which sends no BackOSC and arms no Init wait
  (esp32.cpp:379-386); in the source such a touch lasts at least the burst's 5 ms and takes
  the back branch.
- Firmware.LoopPass: the serial batch runs at the single reading `later`, with the
  consequence described for Firmware.UartFeed.
- Communication.HandleOscData: OSC arguments are modelled as strings. The source takes untyped
  `*args`; a first argument that is not a string is not modelled. `main.py` feeds its UDP
  socket's datagrams to `handle_raw_udp_data` (main.py:40) and never calls `handle_osc_data`.
- Heartbeat.GetStatusInfo: the record carries the corrected uptime (see Findings), not
  `get_uptime`'s as-written value; the two differ once a device has been seen for a day or
  more (Heartbeat.UptimeDropsWholeDays) and agree before that (Heartbeat.StatusUptimeWithinADay).
- Firmware: `setup()` (Wi-Fi join, serial ports, OSC server) is left out. The initial state
  holds the globals' initial values.
- Firmware: C `int` overflow in `atoi`, `sscanf` and `toInt` on out-of-range numerals is not
  modelled. Values are unbounded integers.
- Firmware: `Serial.printf` diagnostics are left out.
- `IR.py`, `monitor.py`, `main.py`, `udp_touch_receiver.py`, `gui_clean.py` and `gui_new.py`
  are not part of this model.

## Findings

| source | as written | input that shows it | evidently intended | confidence | as-written member | corrected member |
|---|---|---|---|---|---|---|
| heartbeat.py:78-84 | the uptime uses `timedelta.seconds`, which excludes whole days | a device first seen 25 hours ago shows `01:00:00` (Heartbeat.UptimeDropsWholeDays) | the full elapsed time, `25:00:00` | not executed | Heartbeat.UptimeAsWritten | Heartbeat.Uptime |

## Notes on the code

Behaviour of the code that a reader may not expect:

- The registry key is one joined string, `name + "_" + ip`. Two different name and address
  pairs can map to the same key (Heartbeat.KeyCollision).
- In `processTouch` the early return for disabled touch or a status of -1 skips the final
  `latestStatus = -1`. The status is kept (Firmware.ProcessTouch).
- `clear_logs` with `max_log_entries` below one leaves the log empty, not with one entry
  (Communication.ClearLogs).
- The GUI's change test ignores uptime. The sweeper's 5-second refresh therefore never
  redraws the panel by itself (Gui.RefreshIsUnchanged).
