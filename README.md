# Sensor-data path of the TSCH soil-monitoring network

This Dafny project models the path one sensor reading takes through the network:

1. A field node (`node.c`) reads light, temperature and air humidity, and converts a soil-moisture ADC code into a percentage. It latches the TSCH clock drift of its last RX or TX log. It packs all of this into a 16-byte big-endian packet.
2. The coordinator (`coordinator.c`) checks the packet size, converts the fields from network byte order, and prints one text line on its serial console.
3. The Raspberry Pi gateway (`v8.py`) does the following:
   - cuts the serial stream into lines and parses each line with a fixed regular expression and `int()`/`float()`;
   - posts the reading to the collector;
   - on failure, keeps the reading in an offline SQLite table, which it later drains in id order.
4. The Flask collector (`v7.py`) validates the posted JSON in a fixed order and inserts one row.

Two stand-alone programs are modelled as well:
- the clock-drift simulation node (`clock-drift/node.c`);
- the energest power monitor (`energest-monitor.c`).

The model keeps each program's own form:
- Objects and C statics that are updated in place are classes with `modifies` clauses: the gateway's `SensorDataSender`, the collector's two tables, the node globals, the drift statics and the energest baselines.
- Decisions and text handling are functions. Examples: the regular-expression match, the collector's validation chain and the coordinator's printf.
- Every method is specified against a function of the old state. The properties are then proved about those functions.

The main results:
- **Packet round trip.** Encoding then decoding the packet is the identity, in both directions (`SensorPacket.DecodeEncode`, `SensorPacket.EncodeDecode`).
- **Print/parse round trip.** Take a packet with a non-negative temperature and a humidity_ground below 2^31. The line the coordinator prints for it is parsed by the gateway into exactly the packet's values, with the fixed-point fields scaled by 1/100 (`EndToEnd.PacketReachesGateway`). A larger humidity_ground would print as a negative `%ld`; the node only ever sends 0..100. The same holds from node globals to gateway (`EndToEnd.NodeReadingReachesGateway`). The gateway's posted JSON is then stored by the collector as exactly one row holding those fields (`EndToEnd.PostedReadingStored`).
- **Regex as a scanner.** The regular expression is modelled as a deterministic greedy scanner. The scanner is proved sound and complete against a reference layout of the pattern (`LineParser.MatchLineSound`, `LineParser.MatchLineComplete`).
- **Offline drain.** The drain posts rows in id order and stops at the first failure. It deletes exactly the delivered prefix (`Gateway.DrainSentIsFirstFailure`, `Gateway.RemoveSentPrefix`, `Gateway.SensorDataSender.SendOfflineData`).
- **Negative temperatures never reach the collector.** As written, the coordinator prints a negative temperature with a second sign in the fraction: -250 prints as `-2.-50` (see Findings). The gateway's `[0-9.]+` Temp group also has no `-`. So such a line is dropped however the temperature is printed (`EndToEnd.NegativePacketDropped`, `EndToEnd.NegativeTemperatureDropped`). The pattern is kept as written.

Modules, one file each:
- `Wrappers`: Option.
- `CInt`: C integer widths, truncating `/` and `%`, big-endian bytes.
- `Decimal`: printf `%d`/`%02d`, and Python `int()`/`float()` on the texts the pattern can capture.
- `SensorPacket`, `Coordinator`, `LineParser`.
- `JsonValue`: Python JSON values, truthiness, `in`, SQLite binding.
- `Gateway`, `Collector`, `SoilNode`, `DriftNode`, `Energest`, `EndToEnd`.

## Model

| member | source | states |
|---|---|---|
| CInt.ToU16 | final-project/final-project/node.c:245-251 | the cast to uint16_t is congruent to the value modulo 2^16 and leaves in-range values unchanged |
| CInt.ToU32 | energest_batarya/energest-monitor.c:36-43 | storing in a 32-bit unsigned long keeps the value modulo 2^32 and leaves in-range values unchanged |
| CInt.ToS16 | final-project/final-project/coordinator.c:40 | the int16_t conversion is congruent modulo 2^16 and identity on [-32768, 32767] |
| CInt.ToS32 | final-project/final-project/coordinator.c:46 | `%ld` of the uint32_t reading is congruent modulo 2^32 and identity on the signed 32-bit range |
| CInt.TruncDiv | final-project/final-project/coordinator.c:48-50 | C division truncates toward zero: the remainder has the dividend's sign and is smaller than the divisor |
| CInt.TruncMod | final-project/final-project/coordinator.c:48-50 | `a == b * (a / b) + a % b` with the remainder carrying the dividend's sign |
| CInt.BigEndian16 | final-project/final-project/node.c:245-251 | UIP_HTONS lays a 16-bit value out as two bytes, high byte first |
| CInt.BigEndian32 | final-project/final-project/node.c:249 | UIP_HTONL lays a 32-bit value out as four bytes, most significant first |
| CInt.BigEndian16RoundTrip | final-project/final-project/coordinator.c:38-44 | reading back the two bytes of a 16-bit value gives the value |
| CInt.BigEndian32RoundTrip | final-project/final-project/coordinator.c:42 | reading back the four bytes of a 32-bit value gives the value |
| CInt.ReadBigEndian16Inverse | final-project/final-project/coordinator.c:38-44 | any two bytes are the layout of the value read from them |
| CInt.ReadBigEndian32Inverse | final-project/final-project/coordinator.c:42 | any four bytes are the layout of the value read from them |
| SensorPacket.Encode | final-project/final-project/node.c:245-251 | the packet on the air is exactly 16 bytes (packed 2+2+2+2+4+2+2) |
| SensorPacket.FromNodeGlobals | final-project/final-project/node.c:245-251 | each packet field is its global cast to the field's width; a moisture in 0..100 is carried unchanged |
| SensorPacket.Decode | final-project/final-project/coordinator.c:34-44 | a payload is decoded iff its length is sizeof(struct sensor_packet) = 16 |
| SensorPacket.DecodeEncode | final-project/final-project/coordinator.c:38-44 | decoding the node's encoding of any packet gives that packet back |
| SensorPacket.EncodeDecode | final-project/final-project/coordinator.c:34-44 | every 16-byte payload is the encoding of the packet decoded from it |
| Decimal.NatToString | final-project/final-project/coordinator.c:46 | `%d` of a non-negative value is a non-empty digit string without leading zero whose value is the number |
| Decimal.IntToString | final-project/final-project/coordinator.c:46 | `%d` starts with '-' iff the value is negative |
| Decimal.Pad2 | final-project/final-project/coordinator.c:46 | `%02d` of 0..99 is exactly two digits of that value; it starts with '-' iff the value is negative |
| Decimal.IndexOf | final-project/final-project/raspberri_pi_zero_codes/v8.py:66 | the first position of a character, or the length when absent |
| Decimal.PyIntOfIntToString | final-project/final-project/raspberri_pi_zero_codes/v8.py:69-71 | `int()` of a printed `%d` gives back the value |
| Decimal.PyIntOfDigits | final-project/final-project/raspberri_pi_zero_codes/v8.py:65 | `int()` of a non-empty digit string is its decimal value |
| Decimal.PyInt | final-project/final-project/raspberri_pi_zero_codes/v8.py:69-71 | `int()` of a sign-and-digits text: a value is returned only for a non-empty text, and a negative value only when the text starts with '-' |
| Decimal.PyIntRejectsInnerSign | final-project/final-project/raspberri_pi_zero_codes/v8.py:70-71 | `int()` raises on a sign anywhere but first, as in `5-3` |
| Decimal.PyFloatOfFixedPoint | final-project/final-project/raspberri_pi_zero_codes/v8.py:66-68 | `float()` of digits "." digits is the exact fixed-point value |
| Decimal.PyFloat | final-project/final-project/raspberri_pi_zero_codes/v8.py:66-68 | `float()` of a sign, digits and at most one point: a value is returned only for a non-empty text, and a negative value only when the text starts with '-' |
| Decimal.PyFloatRejectsSecondPoint | final-project/final-project/raspberri_pi_zero_codes/v8.py:66-68 | `float()` raises on a text with two points, as in `1.2.3` |
| Decimal.UnsignedDecimalNonNegative | final-project/final-project/raspberri_pi_zero_codes/v8.py:66-68 | an unsigned decimal text reads as a non-negative number |
| Coordinator.UdpRxCallback | final-project/final-project/coordinator.c:25-56 | a 16-byte payload prints the line of its decoded packet exactly as the printf writes it; any other length prints only the invalid-size message |
| Coordinator.FormatLineAsWritten | final-project/final-project/coordinator.c:46-52 | the printf line, ending in the newline the gateway cuts lines at |
| Coordinator.FormatLineAgreesWhenNonNegative | final-project/final-project/coordinator.c:46-52 | for a non-negative temperature the printed line is the corrected line |
| Coordinator.UdpRxCallbackCorrected | final-project/final-project/coordinator.c:25-56 | the callback with the sign printed once; it prints what the callback as written prints whenever the temperature is non-negative |
| Coordinator.FormatCentiReadsBack | final-project/final-project/coordinator.c:46-50 | the corrected fixed-point text of any value v reads back under `float()` as exactly v/100 |
| Coordinator.FormatCentiAgreesWhenNonNegative | final-project/final-project/coordinator.c:46-50 | for v >= 0 the printed `%d.%02d` of v/100, v%100 is exactly the corrected text |
| Coordinator.FormatCentiAsWrittenReadsBackIff | final-project/final-project/coordinator.c:46-50 | the printed text reads back as v/100 iff v >= 0 or v is a multiple of 100 |
| Coordinator.FormatCentiAsWritten | final-project/final-project/coordinator.c:46-50 | the truncating `%d.%02d` text starts with '-' iff v <= -100: for -99..-1 the sign is lost from the whole part |
| Coordinator.AsWrittenRejectedWhenFractionNegative | final-project/final-project/coordinator.c:49 | for a negative v that is not a multiple of 100 the printed text is rejected by `float()` |
| Coordinator.NegativeTemperatureGarbled | final-project/final-project/coordinator.c:40-49 | a temperature of -250 is printed `-2.-50`, which `float()` rejects; the corrected text is `-2.50` |
| LineParser.Strip | final-project/final-project/raspberri_pi_zero_codes/v8.py:62 | `str.strip()` leaves no whitespace at either end |
| LineParser.StripPadded | final-project/final-project/raspberri_pi_zero_codes/v8.py:213 | stripping a trimmed text between whitespace margins gives that text back |
| LineParser.SpanSpace | final-project/final-project/raspberri_pi_zero_codes/v8.py:60 | `\s+` consumes the longest whitespace prefix |
| LineParser.SpanClass | final-project/final-project/raspberri_pi_zero_codes/v8.py:60 | a character class `[...]+` consumes the longest prefix in the class |
| LineParser.ScanFieldSound | final-project/final-project/raspberri_pi_zero_codes/v8.py:60 | a matched field is a whitespace run, the key, a non-empty group in its class, the closing literal and the rest |
| LineParser.ScanFieldComplete | final-project/final-project/raspberri_pi_zero_codes/v8.py:60 | every text laid out that way matches with exactly those parts |
| LineParser.ScanFieldRejectsForeign | final-project/final-project/raspberri_pi_zero_codes/v8.py:60 | a group holding a character outside its class before the closing literal does not match |
| LineParser.ScanFromSound | final-project/final-project/raspberri_pi_zero_codes/v8.py:60 | a scan of the slots yields a well-formed match that lays out to the scanned text |
| LineParser.ScanFromComplete | final-project/final-project/raspberri_pi_zero_codes/v8.py:60 | a well-formed match is found again from its own layout |
| LineParser.MatchLineSound | final-project/final-project/raspberri_pi_zero_codes/v8.py:62 | whatever `re.match` accepts is "Node" followed by the pattern's layout of the match |
| LineParser.MatchLine | final-project/final-project/raspberri_pi_zero_codes/v8.py:61-62 | `re.match` of the pattern: a match holds one whitespace run and one group for each of the seven fields |
| LineParser.MatchLineComplete | final-project/final-project/raspberri_pi_zero_codes/v8.py:62 | every well-formed layout is matched with exactly its groups |
| LineParser.TrailingTextIgnored | final-project/final-project/raspberri_pi_zero_codes/v8.py:62 | the match is anchored only at the start: text appended after a match leaves the groups unchanged |
| LineParser.LayoutTrimmed | final-project/final-project/raspberri_pi_zero_codes/v8.py:62 | a well-formed layout has no surrounding whitespace, so the gateway's strip keeps it whole |
| LineParser.ParseOfLayout | final-project/final-project/raspberri_pi_zero_codes/v8.py:60-86 | a padded well-formed line parses to the int()/float() conversions of its seven groups |
| LineParser.ParseSound | final-project/final-project/raspberri_pi_zero_codes/v8.py:60-86 | every accepted line is, once stripped, a well-formed match whose conversions are the reading |
| LineParser.Parse | final-project/final-project/raspberri_pi_zero_codes/v8.py:60-71 | parse_sensor_data's reading: a line is accepted only if, once stripped, it starts with "Node" |
| LineParser.ParsedReadingNonNegative | final-project/final-project/raspberri_pi_zero_codes/v8.py:60-71 | every parsed reading has non-negative node id, light, temperature, air and ground humidity |
| LineParser.ConvertRejectsTwoPoints | final-project/final-project/raspberri_pi_zero_codes/v8.py:64-71 | a float group with two points makes the conversion fail |
| LineParser.ConvertRejectsInnerSign | final-project/final-project/raspberri_pi_zero_codes/v8.py:64-71 | an int group with an inner '-' makes the conversion fail |
| LineParser.ParseRejectsTwoPoints | final-project/final-project/raspberri_pi_zero_codes/v8.py:91-93 | a matching line such as `Light=1.2.3` is rejected with None rather than an exception |
| LineParser.ParseRejectsInnerMinus | final-project/final-project/raspberri_pi_zero_codes/v8.py:91-93 | a matching line such as `RX_drift=5-3` is rejected with None rather than an exception |
| JsonValue.Get | final-project/final-project/server_kodu/v7.py:761 | `dict.get(key, default)` is the stored value when the key is present, else the default |
| JsonValue.In | final-project/final-project/server_kodu/v7.py:779 | Python `in` on a dict tests the keys, and raises on numbers, booleans and None |
| Gateway.Network.Post | final-project/final-project/raspberri_pi_zero_codes/v8.py:124-128 | each POST is recorded in order and answered by the reply scripted for its position |
| Gateway.Clock.Now | final-project/final-project/raspberri_pi_zero_codes/v8.py:51-53 | the k-th timestamp taken is the k-th of the clock's readings |
| Gateway.PayloadJson | final-project/final-project/raspberri_pi_zero_codes/v8.py:118-121 | a reading is posted as JSON with exactly the keys `data` (the unchanged text) and `timestamp`; the connection test as `{'test': 'connection'}` |
| Gateway.Payloads | final-project/final-project/raspberri_pi_zero_codes/v8.py:154-155 | one payload per offline row, in row order |
| Gateway.DrainSentIsFirstFailure | final-project/final-project/raspberri_pi_zero_codes/v8.py:152-159 | every row before the drain's stopping point was delivered and the row at it was not |
| Gateway.DrainSent | final-project/final-project/raspberri_pi_zero_codes/v8.py:152-159 | the number of rows the drain delivers before its first failure, at most the table's length |
| Gateway.DrainSentOfFirstFailure | final-project/final-project/raspberri_pi_zero_codes/v8.py:152-159 | conversely, the stopping point is the first undelivered row, and later rows are never posted |
| Gateway.RemoveSentPrefix | final-project/final-project/raspberri_pi_zero_codes/v8.py:162-164 | deleting the ids of the delivered prefix from an id-ordered table leaves exactly the remaining rows |
| Gateway.DrainEmpty | final-project/final-project/raspberri_pi_zero_codes/v8.py:147-148 | draining an empty table posts nothing and deletes nothing |
| Gateway.DrainStoreValid | final-project/final-project/raspberri_pi_zero_codes/v8.py:144 | a drain keeps the table's ids increasing and below the next AUTOINCREMENT id |
| Gateway.SaveStoreValid | final-project/final-project/raspberri_pi_zero_codes/v8.py:95-106 | saving appends a row with a fresh, larger id (or nothing on a storage error) and keeps the table ordered |
| Gateway.DeliverStoreValid | final-project/final-project/raspberri_pi_zero_codes/v8.py:224-229 | the send-or-save step of the run loop keeps the table ordered |
| Gateway.ReadingNotLost | final-project/final-project/raspberri_pi_zero_codes/v8.py:224-229 | a parsed reading is either delivered, or is the newest offline row, or was lost to a storage error |
| Gateway.SplitAtNewlineJoin | final-project/final-project/raspberri_pi_zero_codes/v8.py:212 | `split('\n', 1)` gives a line without newline, and the line, a newline and the rest make up the buffer |
| Gateway.SplitLinesJoin | final-project/final-project/raspberri_pi_zero_codes/v8.py:211-212 | the emitted lines, each followed by a newline, then the residue, concatenate to the buffer; the residue holds no newline |
| Gateway.SplitLines | final-project/final-project/raspberri_pi_zero_codes/v8.py:211-212 | the lines `while '\n' in buffer` cuts hold no newline, and neither does the residue |
| Gateway.SplitLinesChunked | final-project/final-project/raspberri_pi_zero_codes/v8.py:205-212 | splitting is independent of how the serial data was chunked |
| Gateway.Dispatched | final-project/final-project/raspberri_pi_zero_codes/v8.py:213-215 | only non-empty stripped lines are handed on |
| Gateway.DispatchedConcat | final-project/final-project/raspberri_pi_zero_codes/v8.py:211-215 | the lines handed on for two batches are those of each batch in order |
| Gateway.SensorDataSender.constructor | final-project/final-project/raspberri_pi_zero_codes/v8.py:23-38 | the offline table opens with the ordered rows and AUTOINCREMENT sequence left by an earlier run; nothing has been saved or dispatched |
| Gateway.SensorDataSender.SendToServer | final-project/final-project/raspberri_pi_zero_codes/v8.py:108-139 | invalid JSON returns False without a POST; otherwise exactly one POST of the unchanged text, True iff the status is 200 |
| Gateway.SensorDataSender.PostInOrder | final-project/final-project/raspberri_pi_zero_codes/v8.py:152-159 | posts rows in order up to the first failure and returns the ids of the delivered prefix |
| Gateway.SensorDataSender.SendOfflineData | final-project/final-project/raspberri_pi_zero_codes/v8.py:141-166 | the new table and POST log are those of the drain of the old table |
| Gateway.SensorDataSender.SaveToDatabase | final-project/final-project/raspberri_pi_zero_codes/v8.py:95-106 | appends one row with the next id, or nothing when the insert fails |
| Gateway.SensorDataSender.ParseSensorData | final-project/final-project/raspberri_pi_zero_codes/v8.py:55-93 | returns the JSON text of the parsed reading and one fresh timestamp, or None without taking a timestamp |
| Gateway.SensorDataSender.HandleLine | final-project/final-project/raspberri_pi_zero_codes/v8.py:217-229 | parse, timestamp, then send-and-drain or save, as the step function of the run loop |
| Gateway.SensorDataSender.Deliver | final-project/final-project/raspberri_pi_zero_codes/v8.py:224-229 | a successful send is followed by one drain pass; a failed one saves exactly one row |
| Gateway.SensorDataSender.OnSerialData | final-project/final-project/raspberri_pi_zero_codes/v8.py:205-215 | the buffer is split into complete lines and a newline-free residue, and each non-empty stripped line is handled in order |
| Gateway.SensorDataSender.DispatchLine | final-project/final-project/raspberri_pi_zero_codes/v8.py:213-217 | an empty stripped line is skipped; any other is handled once |
| Gateway.SensorDataSender.CheckConnection | final-project/final-project/raspberri_pi_zero_codes/v8.py:168-186 | up when the ping GET got an answer; otherwise it POSTs the connection test and is up iff that POST got any answer |
| Gateway.SensorDataSender.Start | final-project/final-project/raspberri_pi_zero_codes/v8.py:194-199 | the whole new store (table, next id, saves, POST log) is the connection check followed, when the server is up, by one drain |
| Gateway.StartDrainsEarlierRows | final-project/final-project/raspberri_pi_zero_codes/v8.py:194-199 | when the server is up, the start-up drain delivers the earlier run's rows in id order up to the first failure and keeps the rest; when it is down the table is untouched; the table stays ordered |
| Collector.StatusOf | final-project/final-project/server_kodu/v7.py:749-814 | 400 exactly for rejections, 500 exactly for storage errors, 200 exactly for a stored row |
| Collector.DecideDataStoresIff | final-project/final-project/server_kodu/v7.py:749-810 | a row is stored iff the body is a dict, `data` is a non-empty string of valid JSON holding all seven fields, and the row can be bound |
| Collector.DecideData | final-project/final-project/server_kodu/v7.py:749-814 | receive_data's decision: it never stores an error row, and it stores a sensor row only for a JSON object body |
| Collector.StoredRowSources | final-project/final-project/server_kodu/v7.py:787-799 | the stored row holds the seven inner fields and the envelope's timestamp (defaulting to now), not the inner one |
| Collector.MissingFieldIsFirst | final-project/final-project/server_kodu/v7.py:777-781 | the missing field reported is the first missing one in the fixed order |
| Collector.FirstMissingIsFirst | final-project/final-project/server_kodu/v7.py:778-781 | the scan over required fields stops at the first field not in the document |
| Collector.AllPresentInDict | final-project/final-project/server_kodu/v7.py:777-781 | when no field is reported missing, all seven are keys of the document |
| Collector.AllFoundMeansAllPresent | final-project/final-project/server_kodu/v7.py:777-781 | when all seven are keys, no field is reported missing |
| Collector.DecideErrorStoresIff | final-project/final-project/server_kodu/v7.py:816-851 | an error row is stored iff the body is a dict with truthy `error_type` and `error_message` and the row can be bound |
| Collector.DecideError | final-project/final-project/server_kodu/v7.py:816-855 | receive_error's decision: it never stores a sensor row, and it stores an error row only for a JSON object body |
| Collector.Collector.constructor | final-project/final-project/server_kodu/v7.py:14-55 | sensor_data is recreated empty with its id sequence reset; error_logs keeps the rows and sequence of earlier runs |
| Collector.Collector.ReceiveData | final-project/final-project/server_kodu/v7.py:749-814 | returns the decided status and appends exactly one sensor row, with the next id, iff the data is accepted |
| Collector.Collector.ReceiveError | final-project/final-project/server_kodu/v7.py:816-855 | returns the decided status and appends exactly one error row iff it is accepted |
| Collector.Collector.ClearData | final-project/final-project/server_kodu/v7.py:857-873 | deletes every sensor row and returns 200 with the number deleted |
| Collector.Collector.ClearErrors | final-project/final-project/server_kodu/v7.py:875-891 | deletes every error row and returns 200 with the number deleted |
| SoilNode.AdcOf | final-project/final-project/node.c:193 | the ADC code is `read_buf[0] << 8 \| read_buf[1]` as an int16_t: its bits are the two bytes, and it is negative iff the high bit is set |
| SoilNode.AdcKeepsBytes | final-project/final-project/node.c:193 | the code's two bytes are exactly the bytes read |
| SoilNode.VoltageOf | final-project/final-project/node.c:196 | the voltage is `adc * 4096 / 32767` truncated toward zero, within ±4096 mV |
| SoilNode.VoltageMonotone | final-project/final-project/node.c:196 | the voltage does not decrease as the ADC code grows |
| SoilNode.MoistureOf | final-project/final-project/node.c:199-206 | 0 at or above 2900 mV, 100 at or below 0 mV, `(2900 - v) * 100 / 2900` between; always in 0..100 |
| SoilNode.MoistureMonotone | final-project/final-project/node.c:199-206 | moisture does not increase as the voltage grows |
| SoilNode.MoistureOfCodeMonotone | final-project/final-project/node.c:193-206 | chaining the two: a larger ADC code never reads as a higher moisture |
| SoilNode.NegativeCodeReadsWet | final-project/final-project/node.c:193-202 | an ADC code with the high bit set gives a voltage at or below 0 mV (codes -7..-1 truncate to 0 mV) and so reads 100% |
| SoilNode.Node.constructor | final-project/final-project/node.c:62-75 | the globals start at zero and nothing has been sent |
| SoilNode.Node.GetLightReading | final-project/final-project/node.c:133-141 | stores the light reading; every other global, the packet and the sent log stay |
| SoilNode.Node.GetHdcReading | final-project/final-project/node.c:121-131 | stores temperature and humidity; every other global, the packet and the sent log stay |
| SoilNode.Node.DfrobotSensor | final-project/final-project/node.c:165-207 | when both I2C transfers succeed, the ADC code, voltage and moisture are recomputed; after a failed transfer they keep their previous values |
| SoilNode.Node.SendDriftIfTx | final-project/final-project/node.c:143-157 | with route and root available, a TX log with drift_used updates only tx_drift and an RX log only rx_drift |
| SoilNode.Node.FillPacket | final-project/final-project/node.c:245-251 | the packet holds every global cast to its field's width |
| SoilNode.Node.SendData | final-project/final-project/node.c:110-119 | the encoded packet is sent iff the node is reachable and has the root address |
| SoilNode.Node.OnSensorTimer | final-project/final-project/node.c:238-255 | one sensor round: status, ADC code, voltage and moisture as DfrobotSensor leaves them; the light, HDC and drift globals stay; the packet is filled from the new globals and sent under the gate |
| DriftNode.Clamp | clock-drift/node.c:57-58 | the accumulator is limited to [-1000, 1000] and unchanged inside it |
| DriftNode.NextCounter | clock-drift/node.c:54 | the uint8_t counter increments and wraps from 255 to 0 |
| DriftNode.UpdateEveryThreeTicks | clock-drift/node.c:54-55 | any three consecutive ticks include an update, across the wrap too |
| DriftNode.StepOf | clock-drift/node.c:56 | the drift step `node_id * 10 - 50` is negative below id 5, zero at 5 and positive above |
| DriftNode.WrapUpdatesTwiceInARow | clock-drift/node.c:51-55 | at the wrap the ticks reaching 255 and 0 both update, because 256 is not a multiple of 3 |
| DriftNode.Accumulated | clock-drift/node.c:56-58 | the accumulator after k updates stays within [-1000, 1000] |
| DriftNode.AccumulatedSaturates | clock-drift/node.c:56-58 | after k updates the accumulator is `k * step` clamped, since the step never changes sign |
| DriftNode.PositiveStepReachesLimit | clock-drift/node.c:56-57 | a node with id above 5 (step 10 * id - 50 > 0) reaches +1000 once k * step passes it |
| DriftNode.Simulator.constructor | clock-drift/node.c:26-27 | no drift is available and the accumulator is zero |
| DriftNode.Simulator.ExtractDrift | clock-drift/node.c:41-65 | the counter advances; on a multiple of 3 the clamped sum becomes the last measured drift and drift_available is set, which stays set |
| DriftNode.Simulator.SendDriftData | clock-drift/node.c:68-88 | one packet with node id, last measured drift and uptime is sent iff reachable with a root |
| DriftNode.Simulator.OnTimers | clock-drift/node.c:112-134 | a one-second tick advances the counter and counts an update exactly when the new count is a multiple of 3; the drift timer sends iff drift is available, with the saturated accumulator |
| Energest.Delta | energest_batarya/energest-monitor.c:46-51 | each delta is `current - prev` modulo 2^32 |
| Energest.DeltaExact | energest_batarya/energest-monitor.c:46-51 | the modular delta is the true elapsed count whenever fewer than 2^32 ticks elapsed, across a wrap too |
| Energest.BaselineOf | energest_batarya/energest-monitor.c:36-43 | RX and listen are both read from the listen counter |
| Energest.ReportOf | energest_batarya/energest-monitor.c:45-53 | from a baseline whose RX and listen counts agree, delta_rx equals delta_listen; total_time is the 32-bit sum of the CPU, LPM and deep-LPM deltas |
| Energest.Share | energest_batarya/energest-monitor.c:56-66 | a percentage is divided out only when total_time is positive, otherwise 0 |
| Energest.SharesSumTo100 | energest_batarya/energest-monitor.c:56-66 | without overflow the three percentages add up to 100, or are all 0 on an empty interval |
| Energest.ReportIsElapsed | energest_batarya/energest-monitor.c:46-51 | every reported delta is the ticks spent in that state during the interval |
| Energest.ReportsOf | energest_batarya/energest-monitor.c:117-125 | a run reports once per timer expiry after the first sample |
| Energest.ReportsOfIntervals | energest_batarya/energest-monitor.c:106-125 | the i-th report covers exactly the interval between samples i and i+1 |
| Energest.Monitor.constructor | energest_batarya/energest-monitor.c:19-24 | the prev_* statics start at zero |
| Energest.Monitor.Init | energest_batarya/energest-monitor.c:106-112 | the first reading becomes the baseline before the first interval |
| Energest.Monitor.PrintEnergestValues | energest_batarya/energest-monitor.c:26-90 | the report is that of the reading against the old baseline, and every prev_* becomes its current_* |
| Energest.Monitor.Run | energest_batarya/energest-monitor.c:100-125 | the reports of a run are one per consecutive pair of samples |
| EndToEnd.LineGroupsConvert | final-project/final-project/coordinator.c:46-52 | the printed fields convert under int()/float() to the packet's values, fixed-point ones scaled by 1/100 |
| EndToEnd.LineGroupsWellFormed | final-project/final-project/coordinator.c:46-52 | for a non-negative temperature every printed field fits its group of the gateway's pattern |
| EndToEnd.LineTextIsLayout | final-project/final-project/coordinator.c:46 | the printf format is the pattern's layout with one space before each field |
| EndToEnd.CoordinatorLineParses | final-project/final-project/coordinator.c:46-52 | for a non-negative temperature and humidity_ground below 2^31 the corrected line parses to exactly the packet's values |
| EndToEnd.PrintedLineParses | final-project/final-project/coordinator.c:46-52 | for a non-negative temperature and humidity_ground below 2^31 the line as printed parses to exactly the packet's values |
| EndToEnd.PacketReachesGateway | final-project/final-project/coordinator.c:34-52 | the 16 bytes of such a packet are decoded, printed by the callback as written and parsed back into its values |
| EndToEnd.NegativePacketDropped | final-project/final-project/coordinator.c:34-52 | the line the callback prints for a packet with a negative temperature is rejected by the gateway |
| EndToEnd.NodeGlobalsReading | final-project/final-project/node.c:245-251 | the numbers the gateway reads for a node's packet are its globals cast to the field widths |
| EndToEnd.NodeReadingReachesGateway | final-project/final-project/node.c:245-253 | node globals with a non-negative temperature reach the gateway as those globals cast and scaled |
| EndToEnd.MinusInTempRejected | final-project/final-project/raspberri_pi_zero_codes/v8.py:60 | a sensor line whose Temp text contains '-' does not match the pattern |
| EndToEnd.AsWrittenNegativeText | final-project/final-project/coordinator.c:49 | the printed text of a negative value contains a '-' and no ',' |
| EndToEnd.AsWrittenNegativeTemperatureDropped | final-project/final-project/coordinator.c:40-52 | the line printed for a negative temperature is rejected by the gateway |
| EndToEnd.NegativeTemperatureDropped | final-project/final-project/raspberri_pi_zero_codes/v8.py:60 | even correctly printed, a negative temperature fails the `[0-9.]+` Temp group and is dropped |
| EndToEnd.PostedReadingStored | final-project/final-project/server_kodu/v7.py:760-810 | what the gateway posts for a reading is stored by the collector as one row of exactly its fields, stamped with the post's timestamp |
| EndToEnd.PacketFitsSqlite | final-project/final-project/server_kodu/v7.py:787-799 | every value a packet can carry binds as an SQLite integer |

## Left out

- Serial I/O is left out: opening the port, polling `in_waiting`, `ser.read(ser.in_waiting)`, `decode(errors='ignore')`, `time.sleep` and `cleanup`. The serial data arrives as text chunks passed to `Gateway.SensorDataSender.OnSerialData`.
- `requests.post` is an oracle. `Gateway.Network` answers the k-th POST with a scripted reply, and a transport exception is one more kind of reply.
- `Gateway.SensorDataSender.CheckConnection`: the GET of `/ping` is reduced to whether it got any answer (a parameter). The fallback POST of the connection test goes through `Gateway.Network` like every other POST.
- `json.dumps` and `json.loads` are function parameters, not implementations. The end-to-end lemmas require `loads(dumps(doc)) == doc` for the document being sent.
- SQLite is reduced to its effects:
  - the connection is not modelled;
  - the `DEFAULT CURRENT_TIMESTAMP` column is not modelled;
  - type affinity is not modelled.
- SQLite error paths: the INSERT in `save_to_database` may fail, via an oracle. The SELECT and DELETE of `send_offline_data` are assumed to succeed.
- Flask's `request.get_json()` is an `Option<Json>`: None stands for the exception it raises on a malformed body or a non-JSON content type, which the handlers answer with 500. Older Flask versions return None for a non-JSON content type, which would be a 400; that variant is not modelled.
- The collector's HTML page and the `/api/data`, `/api/errors` and `/ping` handlers are left out. So are its print statements.
- `Decimal.PyFloat`: results are exact rationals, not IEEE doubles. It reads only the digit, point and sign texts the pattern can capture. Exponents, `inf`/`nan`, underscores and surrounding whitespace are never captured.
- PyIntOfDigits, and `Decimal.PyInt` with it, do not model CPython's limit on integer string conversion (since 3.11 and the 3.10.7 security releases). Above 4300 digits `int()` raises, so `parse_sensor_data` returns None where the model returns a value. The coordinator never prints more than 11 characters per field.
- `Decimal.IsDigit` accepts only ASCII digits. Python's `\d` and `int()` also accept other Unicode decimal digits.
- `Energest.Share` is an exact rational, not the C `double` the monitor prints. The printf output itself is left out.
- The energest counter reads and `energest_flush()` become a `Sample` argument.
- Contiki plumbing is left out: processes, etimers, ctimers, UDP registration and logging. The timer branches are event methods: `SoilNode.Node.OnSensorTimer` and `DriftNode.Simulator.OnTimers`.
- Routing answers are boolean parameters: `NETSTACK_ROUTING.node_is_reachable` and `get_root_ipaddr`. So are `clock_seconds()` and the I2C transfer outcomes and bytes.
- The OPT3001 and HDC1000 driver reads become method arguments. Sensor activation is left out.
- `DriftNode.DriftPacket`: only the fields of the drift packet are modelled, not its byte layout or struct padding.
- `EndToEnd.CoordinatorLineParses`, `EndToEnd.PrintedLineParses`, `EndToEnd.PacketReachesGateway` and `EndToEnd.NodeReadingReachesGateway` require a non-negative temperature. A negative one is proved to be dropped instead (`EndToEnd.NegativePacketDropped`).
- `EndToEnd.CoordinatorLineParses`, `EndToEnd.PrintedLineParses` and `EndToEnd.PacketReachesGateway` also require humidity_ground below 2^31. `%ld` prints a larger value as negative, and the `[0-9]+` group rejects it. `EndToEnd.NodeReadingReachesGateway` needs no such bound, because the node's moisture is 0..100.

## Findings

| source | as written | input that shows it | evidently intended | confidence | as-written member | corrected member |
|---|---|---|---|---|---|---|
| final-project/final-project/coordinator.c:46-50 | `%d.%02d` of `temperature/100` and `temperature%100`; C truncates both toward zero, so both parts carry the sign | temperature -250 (-2.50 °C) prints `-2.-50`, which `float()` rejects | the sign printed once, then \|v\|/100 and \|v\|%100: `-2.50` | high, not executed | Coordinator.NegativeTemperatureGarbled | Coordinator.FormatCentiReadsBack |
