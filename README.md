# Hoverboard remote: communication core in Dafny

This project models the decision rules of `src/communication.cpp` of the
hoverboard remote-control firmware. The firmware bridges a wired UART link to
the motor controller with a wireless ESP-NOW link to the remote. It relays
parameter traffic between two protocol endpoints: `hbpOut` on the UART and
`hbpIn` on ESP-NOW.

One configuration is modelled: `INPUT_ESPNOW` relaying, with the UART send and
poll code (`OUTPUT_PROTOCOL_UART`), and every debug switch off.

Everything is in one module, `Communication` (`communication.dfy`):

- **Frame markup.** `Markup` is the line `protocolMarkup` prints. It is an
  interface tag, then one `Field(tag, value)` per byte of `data[0..len)`. The
  method `ProtocolMarkup` builds it with the source's loop. The lemmas state
  the layout and the field labels.
- **Scan cooldown.** `SendActionOf` and `NextScanCounter` are the pure
  decision of the send wrapper. `UnpairedCounter` iterates it over calls made
  while no peer is known. The lemmas prove the spacing of scans.
- **Sender validation.** `CountMatchingPeers` is the loop that counts
  `foundSlave`. It is proved against `CountMatches` and `KnownPeer`.
- **Global state.** The class `Bridge` holds the two endpoints, the ESP-NOW
  peer registry (`slaves`, `SlaveCnt`, `scanCounter`, `hideAP`), the motor
  UART queues, `sendBuzzer` and `PWMData.pwm`. Its methods are
  `espSendDataWrapper`, `espReceiveDataWrapper`, `serialWriteWrapper`,
  `pollUART`, the buzzer flush, the relay wiring of `setupCommunication`, the
  two relay handlers and `processPWMdata`. Each method uses field-level
  `modifies` clauses, so every field it does not name stays unchanged.
- **Endpoints.** `Endpoint` stands in for a HoverboardAPI instance. It records
  pushed bytes and posted messages. It also holds the parameter table
  (`params`, present or absent) and the handler table (an array of `Handler`).

External collaborators are parameters or recorded effects:

- The scan outcome of `ScanForSlave` is the oracle argument `found`.
- `manageSlave`, `configDeviceAP` and `sendData` are counted or logged.
- `MOTORINPUT_PERIOD` is the positive constant `Bridge.motorInputPeriod`.
- The HoverboardAPI code values are the `CodeTable` parameter, because the
  library header is not part of this model.

The scan counter follows the code's branches exactly:

- `scanCounter` is decremented only on a call made while no peer is known and
  the counter is non-zero (src/communication.cpp:165-166). A call made while a
  peer is known leaves it unchanged (src/communication.cpp:152-155).

Where the source's comments and its code differ, the model follows the code:

- The comment at src/communication.cpp:185-186 says sender addresses differ by
  one bit. The code compares all six bytes for equality, and so does the model.

## Model

| member | source | states |
|---|---|---|
| `Communication.SourceOf` | src/communication.cpp:64-77 | prefix 0, 1 and 2 select "Out UART", "Out ESPnow" and "In  ESPnow" (in both directions); any other prefix gives the `if:<n>` tag carrying that number |
| `Communication.LabelAt` | src/communication.cpp:80-128 | the switch on the index: 0 to 3 are SOM, CI, len and CMD; index 4 is the checksum when it is last and otherwise the looked-up name or the `Code:` fallback; a later index is the checksum when it is last and hex otherwise |
| `Communication.LookupName` | src/communication.cpp:100-117 | the if-chain over the eight codes in source order: a returned name has the byte as its code and no name tested before it does (first match wins); the `Code:0x..` fallback is taken exactly when none of the eight codes equals the byte |
| `Communication.ProtocolMarkup` | src/communication.cpp:63-131 | the line built by the per-byte loop equals `Markup`: the tag of `prefix`, then one field per index below `len` |
| `Communication.MarkupLayout` | src/communication.cpp:79-129 | the line starts with the tag of `prefix` and has exactly max(len, 0) fields; field i shows byte `data[i]`, in index order |
| `Communication.MarkupReadsOnlyDeclaredLength` | src/communication.cpp:79 | two buffers that agree on indices below `len` give the same line, so nothing at or past `len` is read |
| `Communication.MarkupHeaderLabels` | src/communication.cpp:80-95 | indices 0 to 3 are SOM, CI, len and CMD whenever they are below `len`, including frames shorter than 5 |
| `Communication.MarkupChecksumPosition` | src/communication.cpp:97-127 | a field is the checksum exactly when `len >= 5` and it is the last index |
| `Communication.MarkupChecksumCount` | src/communication.cpp:97-127 | the checksum label occurs exactly once when `len >= 5`, and never otherwise |
| `Communication.MarkupCommandField` | src/communication.cpp:97-119 | when index 4 is not the last, it carries the command name the code table gives for `data[4]`, or the `Code:` fallback when no code matches |
| `Communication.MarkupPayloadHex` | src/communication.cpp:121-127 | indices from 5 up to, but not including, the last are plain hex |
| `Communication.MarkupFiveByteFrame` | src/communication.cpp:63-131 | the wired-out frame [0x01, 0x42, 0x05, 'C', 0xAA] renders as SOM, CI, len, CMD, then the checksum 0xAA at index 4 |
| `Communication.LookupNameRoundTrip` | src/communication.cpp:100-115 | when the eight codes are distinct, every command name is recovered from its own code |
| `Communication.ScanCooldown` | src/communication.cpp:164 | the re-armed counter K = 10000 / MOTORINPUT_PERIOD is the number of whole periods in 10 s: K·P <= 10000 < (K+1)·P |
| `Communication.SendActionOf` | src/communication.cpp:152-167 | the three-way branch of the send wrapper: send when `SlaveCnt > 0`, else scan when the counter is 0, else back off |
| `Communication.NextScanCounter` | src/communication.cpp:152-167 | the counter stays in [0, K]; a send leaves it unchanged, a scan sets it to K, a back-off decrements it |
| `Communication.UnpairedCountsDown` | src/communication.cpp:165-166 | while no peer is known, j calls lower a counter of c >= j to c - j |
| `Communication.CooldownSpacing` | src/communication.cpp:156-167 | with c on the counter, exactly the next c unpaired calls back off and the call after them scans; after a scan c = K |
| `Communication.UnpairedScanCycle` | src/communication.cpp:156-167 | from a zero counter with no peer found, call 0 scans, calls 1 to K back off, and after K+1 calls the counter is 0 again |
| `Communication.UnpairedPeriodic` | src/communication.cpp:156-167 | while unpaired, the counter repeats with period K+1, so scans come every K+1 calls |
| `Communication.MacMatch` | src/communication.cpp:192-197 | the six byte-by-byte comparisons of a registered peer address with the sender address hold exactly when the two addresses are equal |
| `Communication.CountMatchesPositive` | src/communication.cpp:188-203 | the match count over the first `SlaveCnt` peers is non-zero exactly when the sender equals one of them |
| `Communication.CountMatchingPeers` | src/communication.cpp:188-201 | the loop's `foundSlave` is the number of registered peers equal to the sender, and non-zero iff the sender is registered |
| `Communication.PendingUnlessZero` | src/communication.cpp:391-392 | a buzzer command is not pending exactly when all three fields are zero |
| `Communication.MixPwm` | src/communication.cpp:258-259 | the two channels sum to twice the setpoint pwm and differ by twice the steer |
| `Communication.InstallRelay` | src/communication.cpp:327-334 | every present parameter slot gets the relay handler; absent slots keep their handler |
| `Communication.Bridge.constructor` | src/communication.cpp:18-57 | zero buzzer command, zero pwm, zero scan counter, no peers, `hideAP` 0, both endpoints with default handlers and nothing pushed or posted |
| `Communication.Bridge.EspSendData` | src/communication.cpp:146-169 | returns `len` and sends `data[..len]` exactly when `SlaveCnt > 0` on entry; otherwise returns -1 and sends nothing, even when this call's scan finds a peer; at most one scan per call, only when the counter is 0, then the counter is re-armed to K; the counter is decremented otherwise and stays in [0, K] |
| `Communication.Bridge.EspReceiveData` | src/communication.cpp:171-226 | a sender that is not a registered peer changes nothing; for a registered peer `hideAP` goes from 0 to 1 (configDeviceAP runs only then) and stays non-zero, and all `data_len` bytes are pushed into hbpIn in order |
| `Communication.Bridge.SerialWrite` | src/communication.cpp:135-142 | the frame's `len` bytes are appended to the motor UART output and `len` is returned |
| `Communication.Bridge.PollUart` | src/communication.cpp:267-276 | consumes min(available, 1024) bytes, pushes them into hbpOut in arrival order, and leaves the rest queued |
| `Communication.Bridge.FlushBuzzer` | src/communication.cpp:390-398 | posts (freq, pattern, len) once exactly when a field is non-zero, never posts the all-zero command, and leaves all three fields zero, so a second flush in a sequential run posts nothing |
| `Communication.Bridge.SetupCommunication` | src/communication.cpp:324-335 | on hbpOut each present code gets relayDataIn and on hbpIn relayDataOut; absent codes keep their handler and nothing outside the tables changes |
| `Communication.Bridge.RelayOut` | src/communication.cpp:288-290 | relayDataOut posts the message on hbpOut once and leaves hbpIn's posts unchanged, so nothing is reflected back |
| `Communication.Bridge.RelayIn` | src/communication.cpp:293-295 | relayDataIn posts the message on hbpIn once and leaves hbpOut's posts unchanged |
| `Communication.Bridge.ProcessPwmData` | src/communication.cpp:254-261 | on READVAL or SILENTREAD `pwm[0] = pwm + steer` and `pwm[1] = pwm - steer`; on any other command both channels are kept |

## Left out

- HoverboardAPI internals are not modelled. This covers `protocolPush`, `protocolPost`, `protocolTick`, `sendBuzzer`, `updateParamHandler`, `fn_defaultProcessing` and handler dispatch. An endpoint only records pushes and posts and holds its handler table.
- The schedule registrations and the text, hall, PWM setup at src/communication.cpp:337-369 are not modelled. They are compiled only without `INPUT_ESPNOW`, and they are calls into the protocol library.
- `setupEspNow`, `esp_now_register_recv_cb`, `ScanForSlave`, `manageSlave`, `configDeviceAP` and `sendData` are drivers defined elsewhere. The scan result is an input, and the others are counted or logged. A failed `manageSlave` is not modelled.
- The real-time loop of `loopCommunication` (src/communication.cpp:401-416) is not modelled. It uses `millis()`, `delayMicroseconds` and an unsigned wrap-around period test, which are wall-clock timing. The buzzer flush at its head and `PollUart` are modelled as separate operations.
- The ESP-NOW receive callback runs on another context. Here it is an ordinary sequential method, so races on the shared state are not captured.
- `Communication.Bridge.FlushBuzzer`: `sendBuzzer` is `volatile` and set from outside the loop. A command stored after the post and before the three fields are zeroed is lost in the source; the model runs the flush as one step and does not capture that loss.
- `Communication.Bridge.PollUart`: the source re-tests `available()` on every pass, so bytes that arrive during the drain are consumed in the same call. The model drains only the queue present on entry and receives no bytes during the call.
- `limit` and `processHalldata` work on floating point and are not modelled.
- `consoleLog` depends on C-string `strlen` and printing, so it is not modelled.
- The debug scaffolding is not modelled. This covers the debugESPNOW MAC printing, DEBUG_PROTOCOL_MEASUREMENTS, the DEBUG_PROTOCOL_PASSTHROUGH echo loop, DEBUG_PROTOCOL_OUTGOING_MARKUP calls and the WIFI include.
- `Communication.ProtocolMarkup`: the exact printf padding and decimal or hex digit text are not modelled. Each field is a label together with the byte it prints.
- `Communication.Bridge.SerialWrite`: the byte count returned by the UART driver's `write` is taken to be `len`, so a short write is not modelled. For a negative `len`, which the protocol library never passes, the conversion to the driver's unsigned length is not modelled (`0 <= len` is required).
- `Communication.Bridge.EspSendData`: for a negative `len`, which the protocol library never passes, the `size_t` conversion is not modelled (`0 <= len` is required). Also, "scanCounter unchanged only when a peer is known" holds only when K > 0. When MOTORINPUT_PERIOD exceeds 10000, K is 0 and a scan leaves a zero counter at 0.
- `Communication.Bridge.ProcessPwmData`: the integer widths of `motor.setpoint` and `PWMData.pwm` are in `main.h`, which is not part of this model, so any overflow of `pwm + steer` is not modelled. `fn_defaultProcessing`, which runs after the mixing, is library code. `speed_max_power`, `speed_min_power` and `speed_minimum_pwm` are only used by `sendPWMData`, which this configuration does not call.
- `Communication.Bridge.EspReceiveData`: the registry holds one slot (`slaves[1]`). What `ScanForSlave` leaves in slots past `SlaveCnt` is unknown, so the model keeps their previous contents.
- The buzzer fields are unbounded naturals. Their byte widths are in the protocol library.
