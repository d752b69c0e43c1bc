# wattmeter-sharp, modelled in Dafny

This project models the core of `wattmeter-sharp`. That system collects readings from SHARP
HEMS wireless power meters.

- A USB receiver emits frames on a serial line. A relay (`serial_pubsub.py`) cuts the byte
  stream into frames and publishes each one as a text message. A client hands each message's
  header and payload back to a callback.
- The decoder (`sniffer.py`) learns which 16-bit device id belongs to which hardware (IEEE)
  address from announcement frames. It turns measurement frames into events and drops the
  readings that the meters rebroadcast.
- A metrics store (`metrics/collector.py`) records one heartbeat per sensor and 6-minute slot,
  with a 30-second grace. Late reports can fill the previous slot. It also computes each day's
  slot coverage.
- The web API (`webui/webapi/sensor_stat.py`) reports availability since the first heartbeat
  and over the last 24 hours.
- A device table (`device.py`) maps addresses to names, ignoring case, and reloads only when
  the definition file changes.
- The frontend (`react/src/config/constants.ts`) builds API URLs below a configurable base.

Modules, one per source file:

| module | file | form |
|---|---|---|
| `Sniffer` | `sniffer.dfy` | class `Decoder` holds `counter_hist`, `ieee_addr_list` and the id map; the parsers are functions |
| `Metrics` | `collector.dfy` | class `MetricsCollector` over two tables held as maps; the queries are functions |
| `SensorStat` | `sensor_stat.dfy` | functions |
| `Device` | `device.dfy` | class `DeviceRegistry` over the module globals |
| `SerialPubSub` | `serial_pubsub.dfy` | the two loops as methods, proved against recursive specification functions |
| `ApiConfig` | `api_url.dfy` | functions |
| `Hex`, `IntSets`, `Wrappers` | `hex.dfy`, `int_sets.dfy`, `wrappers.dfy` | `bytes.hex`, `bytes.fromhex`, hex formatting, finite integer sets, `Option` and `Result` |

Conventions:

- Python exceptions that reach the caller are `Failure` results, and the state is then
  unchanged.
- The serial line is a sequence of bursts. Bursts are separated by silences longer than the
  read timeout. A read returns what the current burst still holds, up to the size asked for.
- The wall clock, the configuration file and the cache file are parameters.
- Dates are day numbers counted from the Unix epoch.

Two edge cases of the availability helpers in `sensor_stat.py`:

- When the current slot is still empty, the expected slot count is clamped to 1 if the
  window would otherwise be empty. The clamp counts that open slot as missed.
  `SensorStat.ClampCountsOpenSlot` shows this.
- When the current slot already holds a heartbeat, there is no clamp. If the earliest
  heartbeat lies in a later slot than the current one, the expected count is 0 or less, and
  the final `expected_slots <= 0` guard returns 0%. A heartbeat can sit in the slot before
  its own because of the grace, but this case still needs a stored timestamp later than the
  current time. `SensorStat.FirstAfterCurrentIsAhead` and `SensorStat.AheadRowsGiveZero`
  state this.

## Model

| member | source | states |
|---|---|---|
| Sniffer.DumpPacket | src/sharp_hems/sniffer.py:32-33 | every byte appears as two upper-case hex digits at position 3k, with commas between them; length 3n-1 |
| Hex.Digit | src/sharp_hems/sniffer.py:33 | a hex digit of the given value, with no lower-case letter under `X` and no upper-case letter under `x` |
| Hex.ByteHex | src/sharp_hems/sniffer.py:33 | `{x:02X}` gives two hex digits whose value is the byte, upper-case for `X` and lower-case for `x` |
| Hex.HexJoinLayout | src/sharp_hems/sniffer.py:33 | a separator-joined hex dump has length 3n-1, byte k at 3k..3k+2 and the separator at 3k+2 |
| Sniffer.Slice | src/sharp_hems/sniffer.py:37 | Python slicing clips to the packet: length and contents of `packet[lo:hi]` |
| Sniffer.Reverse | src/sharp_hems/sniffer.py:37 | `reversed`: element i is element n-1-i |
| Sniffer.ParseIeeeAddr | src/sharp_hems/sniffer.py:36-37 | a full frame gives 23 characters: bytes 11 down to 4 as upper-case hex joined by colons; a frame of at most 4 bytes gives the empty string, without raising |
| Sniffer.IeeeAddrLayout | src/sharp_hems/sniffer.py:37 | field k of the address is byte 11-k of the frame |
| Sniffer.U16 | src/sharp_hems/sniffer.py:41 | `<H` is a 16-bit value whose low byte is `p[o]` and high byte `p[o+1]` |
| Sniffer.U32 | src/sharp_hems/sniffer.py:56 | `<I` is a 32-bit value made of two little-endian halves |
| Sniffer.ParseDevId | src/sharp_hems/sniffer.py:40-47 | succeeds iff the frame has 7 bytes; the id is little-endian bytes 4..5 and the index is byte 6 |
| Sniffer.ReadMeasureFields | src/sharp_hems/sniffer.py:53-58 | succeeds iff the frame reaches byte 46; the six fields come from offsets 5, 14, 19, 26, 35 and 42, each within its width |
| Sniffer.WrapDiff | src/sharp_hems/sniffer.py:74-83 | the wrapped difference lies in [0, m) and brings `pre` to `cur` modulo m |
| Sniffer.WrapDiffUnique | src/sharp_hems/sniffer.py:74-83 | no other value in [0, m) does so |
| Sniffer.DevIdStr | src/sharp_hems/sniffer.py:88 | `0x{id:04X}` is "0x" and four hex digits whose value is the id |
| Sniffer.ResolveAddr | src/sharp_hems/sniffer.py:60-63 | a bound id gives its address; an unknown id gives "UNKNOWN" |
| Sniffer.EventOf | src/sharp_hems/sniffer.py:85-94 | the event carries the id, the resolved address, and tick and energy differences modulo 2^16 and 2^32 |
| Sniffer.Decoder.constructor | src/sharp_hems/sniffer.py:7-8 | empty history and address list; the id map as read from the cache |
| Sniffer.Decoder.ParseMeasure | src/sharp_hems/sniffer.py:50-98 | fails iff the frame is shorter than 46 bytes, with the history unchanged; a repeated counter gives no event and keeps the history; otherwise the counter is recorded, and the event is given unless the ticks are equal |
| Sniffer.Decoder.ProcessPacket | src/sharp_hems/sniffer.py:101-139 | the new state and result per frame kind; raises iff the header is short or an id announcement is shorter than 7 bytes; the id map is stored iff the binding changed; the address list is cleared by the id naming its last index |
| Sniffer.RebroadcastIsDropped | src/sharp_hems/sniffer.py:69-72 | a measurement delivered twice yields nothing the second time and leaves the history as the first delivery set it |
| Sniffer.AnnounceBurst | src/sharp_hems/sniffer.py:106-127 | two address announcements and the id announcements for indices 0 and 1 bind both ids and leave the list empty |
| Metrics.SlotOf | src/sharp_hems/metrics/collector.py:86 | `ts // 360` is the slot whose 360 seconds contain ts |
| Metrics.SlotsOf | src/sharp_hems/metrics/collector.py:190-194 | the distinct slots with a row for the sensor |
| Metrics.TimestampsOf | src/sharp_hems/metrics/collector.py:153 | the timestamps of the sensor's rows |
| Metrics.TargetSlot | src/sharp_hems/metrics/collector.py:86-114 | the previous slot iff the report is within the grace, its slot is not slot 0 and the previous slot is empty; its own slot otherwise |
| Metrics.Recorded | src/sharp_hems/metrics/collector.py:116-126 | INSERT OR REPLACE: the target key holds ts, no other row changes, and the keys grow by the target only |
| Metrics.RecordedKeepsRowsInPlace | src/sharp_hems/metrics/collector.py:86-126 | every row stays in its timestamp's slot or the one before |
| Metrics.RecordTwiceInGrace | src/sharp_hems/metrics/collector.py:96-111 | one in-grace report recorded twice fills both the previous slot and its own |
| Metrics.RecordTwiceOutsideGrace | src/sharp_hems/metrics/collector.py:93-126 | otherwise recording twice is the same as recording once |
| Metrics.LatestHeartbeat | src/sharp_hems/metrics/collector.py:139-161 | None iff the sensor has no rows; otherwise the largest timestamp of its rows |
| Metrics.EarliestHeartbeat | src/sharp_hems/webui/webapi/sensor_stat.py:140-154 | None iff the sensor has no rows; otherwise the smallest timestamp of its rows |
| Metrics.DailyAvailability | src/sharp_hems/metrics/collector.py:163-209 | 240 expected; received is the number of distinct slots of the day holding a row of the sensor, lies in [0, 240], and equals 240 iff every slot of the day has a row |
| Metrics.RowSlotsWithin | src/sharp_hems/metrics/collector.py:190-194 | the `COUNT(DISTINCT time_slot)` filter: the slots of [lo, hi) that hold a row of the sensor |
| Metrics.MetricsCollector.constructor | src/sharp_hems/metrics/collector.py:14-49 | opening keeps the rows already stored |
| Metrics.MetricsCollector.RecordHeartbeat | src/sharp_hems/metrics/collector.py:68-137 | the table becomes `Recorded(old)` and rows stay in place; the source returns nothing, and the chosen slot is a ghost result for the contract only |
| Metrics.MetricsCollector.UpdateAvailabilitySummary | src/sharp_hems/metrics/collector.py:211-237 | the (sensor, day) summary becomes that day's availability; the other summaries are unchanged |
| IntSets.MinOf | src/sharp_hems/webui/webapi/sensor_stat.py:143 | `MIN` is a member of the set and no larger than any member |
| IntSets.MaxOf | src/sharp_hems/metrics/collector.py:153 | `MAX` is a member of the set and no smaller than any member |
| IntSets.Range | src/sharp_hems/metrics/collector.py:193-194 | the slot range [lo, hi): its membership and size |
| IntSets.Within | src/sharp_hems/metrics/collector.py:190-194 | the members of a set inside [lo, hi) |
| IntSets.CountWithin | src/sharp_hems/metrics/collector.py:190-199 | a count of distinct slots in [lo, hi) is at most hi-lo, with equality iff every slot is present |
| SensorStat.CountingWindow | src/sharp_hems/webui/webapi/sensor_stat.py:177-189 | with a current heartbeat, the window ends at the current slot, unclamped; without one, it ends at the slot before, or is clamped to the start slot; the expected count is not positive iff there is a current heartbeat and the start lies after the current slot, and otherwise it is the window's width |
| SensorStat.AvailabilityFrom | src/sharp_hems/webui/webapi/sensor_stat.py:161-209 | zero iff the window expects no slots; otherwise received is the number of distinct slots of the window holding a row, at most the expected count, and equal to it iff every slot of the window has a row |
| SensorStat.FirstAfterCurrentIsAhead | src/sharp_hems/webui/webapi/sensor_stat.py:177-180 | an unclamped empty window needs a stored timestamp later than now |
| SensorStat.AheadRowsGiveZero | src/sharp_hems/webui/webapi/sensor_stat.py:206-207 | two reports recorded into slots 99 and 100, read at 35999, give 0% |
| SensorStat.TotalAvailability | src/sharp_hems/webui/webapi/sensor_stat.py:124-209 | zero iff the sensor has no rows, or the current slot has a row while the earliest heartbeat lies in a later slot; otherwise the window from the earliest heartbeat |
| SensorStat.Last24hAvailability | src/sharp_hems/webui/webapi/sensor_stat.py:212-301 | zero in the same two cases; otherwise the window from the later of the first heartbeat and a day ago, which never expects more than 241 slots |
| SensorStat.DaySlots | src/sharp_hems/webui/webapi/sensor_stat.py:247-254 | a day before t lies exactly 240 slots before t's slot |
| SensorStat.ClampCountsOpenSlot | src/sharp_hems/webui/webapi/sensor_stat.py:182-189 | one grace-moved heartbeat and an empty current slot give 0 of 1 |
| Metrics.SlotOfMonotonic | src/sharp_hems/webui/webapi/sensor_stat.py:250-253 | a later timestamp never falls in an earlier slot |
| Device.Lower | src/sharp_hems/device.py:15 | `lower()` maps each ASCII capital to its small letter and keeps every other character |
| Device.Upper | src/sharp_hems/device.py:15 | the upper-case counterpart, used to state case-insensitivity |
| Device.FindName | src/sharp_hems/device.py:11-17 | None iff no entry matches ignoring case; otherwise the name of the first matching entry |
| Device.FindNameIgnoresCase | src/sharp_hems/device.py:15 | addresses equal up to case find the same name |
| Device.FindNameAnyCase | src/sharp_hems/device.py:15 | the upper- and lower-case spellings of an address find the same name |
| Device.LowerOfUpper | src/sharp_hems/device.py:15 | lower-casing after upper-casing is lower-casing |
| Device.LowerIdempotent | src/sharp_hems/device.py:15 | lower-casing twice is lower-casing once |
| Device.DeviceRegistry.constructor | src/sharp_hems/device.py:6-8 | nothing loaded, no recorded time |
| Device.DeviceRegistry.GetName | src/sharp_hems/device.py:11-17 | the scan returns exactly `FindName` of the list |
| Device.DeviceRegistry.GetList | src/sharp_hems/device.py:20-23 | one name per entry, in list order |
| Device.DeviceRegistry.Reload | src/sharp_hems/device.py:26-40 | an unchanged modification time returns the cached list and changes nothing; otherwise the list, cache and time become the loaded ones |
| SerialPubSub.Read | src/sharp_hems/serial_pubsub.py:41 | `ser.read(n)` returns at most n bytes, and exactly n when the burst holds them |
| SerialPubSub.ReadKeepsBytes | src/sharp_hems/serial_pubsub.py:41 | the bytes read followed by the bytes left are the bytes of the line |
| SerialPubSub.ReadShrinks | src/sharp_hems/serial_pubsub.py:40-41 | each read consumes data or a silence |
| SerialPubSub.Frames | src/sharp_hems/serial_pubsub.py:40-50 | every frame has a 2-byte header and at most `header[1] + 3` payload bytes |
| SerialPubSub.FramesSkip | src/sharp_hems/serial_pubsub.py:43-47 | a header read of 0 or 1 bytes yields no frame |
| SerialPubSub.FramesStep | src/sharp_hems/serial_pubsub.py:49-50 | a full header and the `header[1] + 5 - 2` bytes read after it form one frame |
| SerialPubSub.FrameThen | src/sharp_hems/serial_pubsub.py:40-50 | a burst that starts with a well-formed frame yields that frame first |
| SerialPubSub.FramesOfBurst | src/sharp_hems/serial_pubsub.py:40-50 | well-formed frames arriving in one burst are cut back out exactly, in order |
| SerialPubSub.LoneByteDropped | src/sharp_hems/serial_pubsub.py:45-47 | a one-byte burst yields no frame |
| SerialPubSub.Message | src/sharp_hems/serial_pubsub.py:53 | the message starts with the channel name and has the length of the two hex fields plus separators |
| SerialPubSub.Serve | src/sharp_hems/serial_pubsub.py:28-55 | the loop publishes exactly `Messages(Frames(line))` |
| Hex.ToHex | src/sharp_hems/serial_pubsub.py:49-50 | `bytes.hex()` gives two hex digits per byte, with no upper-case letters and no spaces |
| Hex.ToHexPairs | src/sharp_hems/serial_pubsub.py:49-50 | characters 2k and 2k+1 of `bytes.hex()` are the lower-case rendering of byte k |
| Hex.FromHex | src/sharp_hems/serial_pubsub.py:70 | `bytes.fromhex` never yields more bytes than half the text |
| Hex.FromHexToHex | src/sharp_hems/serial_pubsub.py:70 | `fromhex(hex(b)) == b` |
| SerialPubSub.IndexOf | src/sharp_hems/serial_pubsub.py:68 | the first occurrence of a character, or None when absent |
| SerialPubSub.Split2 | src/sharp_hems/serial_pubsub.py:68 | `split(" ", 2)` gives 1 to 3 parts that join back to the text, the first two without spaces |
| SerialPubSub.SplitJoined | src/sharp_hems/serial_pubsub.py:68 | two space-free fields and a third, joined by spaces, split back into themselves |
| SerialPubSub.Decode | src/sharp_hems/serial_pubsub.py:68-70 | succeeds only with three parts whose second and third are hex, giving their bytes |
| SerialPubSub.MessageRoundTrip | src/sharp_hems/serial_pubsub.py:53 | the client decodes every published message to the frame it came from |
| SerialPubSub.Deliver | src/sharp_hems/serial_pubsub.py:58-70 | at most one call per message, each with the given handle, for a callback that returns |
| SerialPubSub.DeliverStep | src/sharp_hems/serial_pubsub.py:64-70 | an unsubscribed message is skipped, an undecodable one ends delivery, and a good one gives one call |
| SerialPubSub.Listen | src/sharp_hems/serial_pubsub.py:58-70 | the loop makes exactly the calls of `Deliver` and fails exactly when it does, for a callback that returns |
| SerialPubSub.RelayDeliversFrames | src/sharp_hems/serial_pubsub.py:53 | published frames reach the callback unchanged, once each, in order, without a decoding failure, for a callback that returns |
| SerialPubSub.SerialToCallback | src/sharp_hems/serial_pubsub.py:28-70 | well-formed frames arriving in one burst reach the callback as the same headers and payloads |
| ApiConfig.ApiBaseUrl | react/src/config/constants.ts:5-6 | the configured base when set and non-empty, otherwise "/wattmeter-sharp/metrics/" |
| ApiConfig.CleanEndpoint | react/src/config/constants.ts:11-13 | exactly one leading slash is removed, if present |
| ApiConfig.BuildApiUrl | react/src/config/constants.ts:9-16 | the URL is the base, then "api/", then the endpoint less one leading slash; length formula |
| ApiConfig.LeadingSlashOptional | react/src/config/constants.ts:11-13 | "/x" and "x" give the same URL |
| ApiConfig.SecondSlashKept | react/src/config/constants.ts:11-15 | only one slash is stripped, so "//x" keeps one |
| ApiConfig.BuildApiUrlInjective | react/src/config/constants.ts:15 | equal URLs under one base come from the same cleaned endpoint |
| ApiConfig.DefaultApiRoot | react/src/config/constants.ts:5-15 | without a configured base, every URL starts with "/wattmeter-sharp/metrics/api/" |

## Left out

- The `watt` figure (`round(dif_power / dif_time * 1.5, 2)`) and the rounded availability percentages are floating point. The model keeps the exact integers they are computed from.
- The id map is loaded from the pickle cache on every `process_packet` call and stored after each change. The model holds it as decoder state, which matches the file as long as only this process writes it. The pickle format and file errors are not modelled.
- `on_capture` is not called: `Handled.captured` is the event that would be passed to it. Exceptions raised by `on_capture` are not modelled.
- Logging, the Flask endpoints and InfluxDB writes are not part of this model, nor is the liveness-file touch in the relay.
- SQLite errors are not modelled: `sqlite3.Error` is re-raised by `record_heartbeat` and the write is lost.
- Index creation and the connection helpers are not modelled either; the tables are maps.
- Metrics.MetricsCollector.RecordHeartbeat: the default `timestamp = time.time()` is not modelled; the caller passes the timestamp.
- The date string of `calculate_availability` is a day number; date parsing and its `ValueError` are not modelled.
- SensorStat.TotalAvailability: the unused `_start_date` argument is dropped, and the current time is a parameter.
- SensorStat.Last24hAvailability: the current time is a parameter.
- SerialPubSub.Deliver: the callback `func` is not run. Each call is recorded as a `Call` and assumed to return. In the source, an exception raised by `func` is not caught, so it ends `start_client`'s loop. An example is `process_packet` on a short 0x12 frame, where `Sniffer.Decoder.ProcessPacket` gives `Failure`. The model does not capture that stop.
- SerialPubSub.Listen: for the same reason, the loop stops only on a message that fails to decode, never on a callback that raises. `RelayDeliversFrames` and `SerialToCallback` likewise hold only for a callback that returns.
- Serve and Listen: the source loops run forever. The model runs them over a finite line or message stream, and the ZeroMQ sockets are not modelled.
- SerialPubSub.Read: the serial timeout is abstracted into burst boundaries; the baud rate and port opening are not modelled.
- Device.Lower: `str.lower()` is modelled on ASCII letters only; other Unicode case mappings are not.
- Device.DeviceRegistry.Reload: the configuration file's content and modification time are parameters. The file is assumed not to change between the two `stat` calls.
- The modification time is a `real`.
- The gap and histogram statistics in the rest of `sensor_stat.py` and the React components are outside this core.
