# Hydra Universal Remote: a verified model of its core

This project models, in Dafny, the parts of the Hydra Universal Remote that hold exact logic:

- **The Flipper Zero RPC layer**: the binary message frame and the command-id, pending-response, event-queue and callback bookkeeping of `FlipperProtocol`.
- **Sub-GHz analysis**:
  - the protocol catalog and its two lookups;
  - pulse extraction;
  - mode-based bit-rate estimation;
  - all-or-nothing Manchester decoding;
  - the `analyze` step of `SubGHzSignal`.
- **The in-memory mock transport**: a byte FIFO with a connected flag.
- **The device manager**: its connection state machine with status observers, the write/read guards, and the payload choice of `transmit_signal`.
- **The signal library**:
  - category listing and filtering;
  - the multi-criteria search;
  - the `add_signal` and `get_signal` bookkeeping;
  - the `key: value` header parser of `.sub` files.

## Modules

Each module is one file and follows one source file.

| file | module | source |
|---|---|---|
| `common.dfy` | `Common` | shared: bytes, `Option`/`Result`, ASCII `lower`, `in` on strings, `strip` |
| `codec.dfy` | `RpcCodec` | `encode_message` / `decode_message` |
| `session.dfy` | `RpcSession` | `FlipperProtocol` state |
| `registry.dfy` | `ProtocolRegistry` | `SubGHzProtocolRegistry` |
| `analyzer.dfy` | `SignalAnalyzer` | `SignalAnalyzer` |
| `signal.dfy` | `SubGhzSignals` | `SubGHzSignal` |
| `mock_transport.dfy` | `MockTransports` | `MockTransport` |
| `device_manager.dfy` | `DeviceManagement` | `DeviceManager` |
| `signal_library.dfy` | `SignalLibraries` | `SignalLibrary` |

## Modelling choices

Code that changes state step by step becomes a class whose methods update its fields. Each such method is proved against a specification function of the old state, and the properties are proved about that function. This applies to:

- `FlipperProtocol`;
- `SubGHzSignal`;
- `MockTransport`;
- `DeviceManager`;
- `SignalLibrary`.

The source's loops become `while`/`for` methods with invariants, each proved equal to a recursive reference function:

- `get_protocols_for_frequency`;
- `extract_pulses`;
- `detect_bit_rate`;
- `decode_manchester`;
- the candidate loops of `analyze` and `transmit_signal`;
- `search_signals`;
- the `.sub` header loop.

Python dictionaries whose iteration order matters are modelled as a map plus the order in which keys were first inserted. The catalog, `pulse_counts` and the library's `signals` are modelled this way.

Where the code and its description disagree, the model follows the code:

- **Command ids** wrap modulo `0xFFFFFFFF`, not 2^32. The first id is 1, `0xFFFFFFFF` is never issued, and the `0xFFFFFFFF`-th id is 0.
- **Unknown replies**: a reply whose id is not pending is dropped by `handle_response`. It is not queued as an event.
- **Declared lengths** are never checked by `decode_message`. Trailing bytes are ignored, and an overrunning data length yields a shorter data section rather than an error.
- **Pulse extraction** counts gaps between transitions. A square pulse `[0, 0, 1, 1, 0, 0]` gives one pulse `[2]`, not two.
- **Manchester decoding**: `decode_manchester([10, 10, 10, 12])` returns empty bytes, not `None`. Both pairs are within tolerance, and the two bits make no full byte.
- **The `.sub` branch** of `load_signal_file` never produces a signal; see Findings.

Outside effects become parameters of the methods that need them:

- **Text codecs**: UTF-8 and JSON are a `TextCodecs` value of functions. The round trip assumes only that they round-trip the message's own strings.
- **Future resolution and timeouts**: the reply or timeout that ends a command is an explicit call, `CompleteCommand`.
- **Hardware transports**: a real transport's outcome is an input, one of unavailable, raises or returns a value.
- **Saving to disk**: whether `to_file` saved is an input.

## Model

| member | source | states |
|---|---|---|
| RpcCodec.TypeValue | src/device/flipper_protocol.py:21-26 | each message type's wire value maps back to the same type |
| RpcCodec.TypeFromValue | src/device/flipper_protocol.py:97 | `MessageType(v)` succeeds exactly for 0..3 |
| RpcCodec.BigEndianRoundTrip | src/device/flipper_protocol.py:62-69 | reading back a big-endian field of width w gives any value below 256^w |
| RpcCodec.Encode | src/device/flipper_protocol.py:55-71 | encoding succeeds iff the type value, id and the three section lengths fit `>BIIII`; the frame is 17 bytes plus the three section lengths |
| RpcCodec.EncodeLayout | src/device/flipper_protocol.py:58-71 | the frame is the type byte, four big-endian u32 fields (id, command, args and data lengths), then command, args and data bytes in that order |
| RpcCodec.Slice | src/device/flipper_protocol.py:87-94 | Python slicing: a section holds the bytes from its offset up to the declared length or the end of the buffer, whichever comes first |
| RpcCodec.Decode | src/device/flipper_protocol.py:73-105 | fewer than 17 bytes fail with "message too short"; a decoded message carries the header's id and type, and has data iff the declared data length is non-zero |
| RpcCodec.DecodeSections | src/device/flipper_protocol.py:86-102 | the id and type are the header's; data is `None` exactly when `data_len == 0` |
| RpcCodec.EncodeDecodeRoundTrip | src/device/flipper_protocol.py:55-102 | decoding an encoded message gives it back, with empty data as `None`, when its text round-trips through UTF-8 and JSON |
| RpcCodec.DecodeIgnoresTrailingBytes | src/device/flipper_protocol.py:86-94 | bytes after the declared sections do not change the result |
| RpcCodec.DecodeOverrunYieldsShortData | src/device/flipper_protocol.py:94 | a data length that overruns the buffer gives a shorter data section, not an error |
| RpcCodec.DecodeEmptyArgsSection | src/device/flipper_protocol.py:90-91 | an empty args section decodes to `{}` |
| RpcCodec.DecodeRejectsUnknownType | src/device/flipper_protocol.py:97-105 | a type byte above 3 is a decode error |
| RpcCodec.DecodeRejectsBadText | src/device/flipper_protocol.py:86-105 | undecodable UTF-8 in the command or args section is `InvalidUtf8` (command first), non-empty args text that is not JSON is `InvalidJson`, and every failure is a short buffer, bad UTF-8, bad JSON or an unknown type byte |
| RpcSession.NextCommandId | src/device/flipper_protocol.py:50-53 | the next id is below `0xFFFFFFFF` and so never equals it |
| RpcSession.IdAfterIsModular | src/device/flipper_protocol.py:45-53 | starting from 0, the k-th id is k mod `0xFFFFFFFF` |
| RpcSession.IdsDistinctWithinPeriod | src/device/flipper_protocol.py:45-53 | the first id is 1, and no id repeats within `0xFFFFFFFF` calls |
| RpcSession.IdAfterInPeriod | src/device/flipper_protocol.py:52 | within the first period the k-th id is k, except that the last one wraps to 0 |
| RpcSession.WithoutCallback | src/device/flipper_protocol.py:183-186 | the callback is gone; every other callback keeps its multiplicity |
| RpcSession.ErrorDetail | src/device/flipper_protocol.py:150-152 | an Error reply reports `args['error']`, or "Unknown error" when absent |
| RpcSession.CommandOutcome | src/device/flipper_protocol.py:147-154 | a command succeeds iff a reply arrived and is not of type Error, and then returns that reply; no reply is a timeout; an Error reply is never a timeout but a remote failure carrying `args.get('error', 'Unknown error')`, or the failure of `.get` when the args are not an object |
| RpcSession.ArgsOrEmpty | src/device/flipper_protocol.py:132 | missing args are sent as `{}`; given args are sent as they are |
| RpcSession.FlipperProtocol.constructor | src/device/flipper_protocol.py:43-48 | counter 0, no callbacks, no pending responses, no events |
| RpcSession.FlipperProtocol.NextId | src/device/flipper_protocol.py:50-53 | advances the counter by `NextCommandId` and returns the new value |
| RpcSession.FlipperProtocol.SendCommand | src/device/flipper_protocol.py:127-157 | takes a fresh id and registers a new unresolved future under it; on an encoding or write failure the entry is removed again; events and callbacks are untouched |
| RpcSession.FlipperProtocol.CompleteCommand | src/device/flipper_protocol.py:147-157 | the outcome is the reply, an Error failure or a timeout, and the pending entry is removed on every path |
| RpcSession.FlipperProtocol.HandleResponse | src/device/flipper_protocol.py:159-164 | resolves the future only when its id is pending and unresolved; otherwise nothing changes, and resolved futures never change |
| RpcSession.FlipperProtocol.HandleEvent | src/device/flipper_protocol.py:166-168 | the event is appended to the queue |
| RpcSession.FlipperProtocol.NextEvent | src/device/flipper_protocol.py:170-172 | events come out in FIFO order |
| RpcSession.FlipperProtocol.RegisterCallback | src/device/flipper_protocol.py:174-178 | the callback is appended to its event type's list, which is created if missing |
| RpcSession.FlipperProtocol.UnregisterCallback | src/device/flipper_protocol.py:180-186 | an unknown event type is a no-op; otherwise every copy of the callback is removed |
| RpcSession.LateReplyIsDropped | src/device/flipper_protocol.py:159-164 | a reply arriving after its call timed out leaves the call's future unresolved, queues no event and leaves nothing pending |
| ProtocolRegistry.Lookup | src/device/subghz.py:92 | `dict.get`: `None` iff no key matches, otherwise an entry stored under the key |
| ProtocolRegistry.GetProtocol | src/device/subghz.py:89-92 | the lookup is on the lower-cased name |
| ProtocolRegistry.GetProtocolFindsStoredEntry | src/device/subghz.py:89-92 | with distinct keys, the entry found is the one stored under the lower-cased name |
| ProtocolRegistry.KeysOfProtocolsDistinct | src/device/subghz.py:51-87 | the catalog's keys are distinct |
| ProtocolRegistry.GetProtocolIgnoresCase | src/device/subghz.py:92 | a name and its lower-case form find the same entry |
| ProtocolRegistry.GetProtocolFindsPrinceton | src/device/subghz.py:89-92 | "princeton" finds the Princeton entry |
| ProtocolRegistry.GetProtocolMissesUnknown | src/device/subghz.py:89-92 | an unknown name gives `None` |
| ProtocolRegistry.MatchingProtocolsMembers | src/device/subghz.py:95-104 | an entry is returned iff one of its frequencies is within the tolerance (inclusive); the result is no longer than the catalog |
| ProtocolRegistry.GetProtocolsForFrequency | src/device/subghz.py:95-104 | the loop with `break` returns the matching entries in catalog order, each once |
| ProtocolRegistry.MatchingProtocolsExample | src/device/subghz.py:95-104 | at 433.92 MHz the Princeton, KeeLoq and Nice FLO entries match, in that order |
| SignalAnalyzer.Threshold | src/device/subghz.py:134 | one flag per sample |
| SignalAnalyzer.TransitionsBelowExact | src/device/subghz.py:137-138 | the transition list is strictly increasing and holds exactly the indices where the thresholded signal changes |
| SignalAnalyzer.GapsTelescope | src/device/subghz.py:145-147 | the pulse lengths sum to the last transition index minus the first |
| SignalAnalyzer.PulsesOfProperties | src/device/subghz.py:141-149 | fewer than two transitions give no pulses; otherwise there is one pulse per consecutive pair of transitions |
| SignalAnalyzer.PulsesArePositive | src/device/subghz.py:145-147 | every pulse length is positive |
| SignalAnalyzer.ExtractPulses | src/device/subghz.py:128-149 | the loop returns exactly the gaps between consecutive transitions |
| SignalAnalyzer.ExtractPulsesExample | src/device/subghz.py:128-149 | `[0, 0, 1, 1, 0, 0]` gives `[2]` |
| SignalAnalyzer.DistinctInFirstOccurrenceOrder | src/device/subghz.py:158-160 | the dictionary's keys are distinct and in first-occurrence order |
| SignalAnalyzer.CountsAreOccurrences | src/device/subghz.py:158-160 | each count is the number of occurrences of its length |
| SignalAnalyzer.BestOfIsFirstMaximum | src/device/subghz.py:162 | `max` by count picks the first key with the largest count |
| SignalAnalyzer.ModeIsFirstMostFrequent | src/device/subghz.py:157-162 | the chosen length is at least as frequent as any other, and no equally frequent length occurs before it |
| SignalAnalyzer.BitRatePositive | src/device/subghz.py:163 | a non-empty list of positive pulses gives a positive rate |
| SignalAnalyzer.CountPulses | src/device/subghz.py:158-160 | the counting loop builds exactly the count dictionary and its key order |
| SignalAnalyzer.DetectBitRate | src/device/subghz.py:152-163 | 0.0 without pulses, otherwise 1 000 000 / mode |
| SignalAnalyzer.BitRateExamples | src/device/subghz.py:152-163 | `[]` gives 0.0; `[5, 5, 5, 7]` gives 200 000 |
| SignalAnalyzer.CountsExample | src/device/subghz.py:158-160 | `[5, 5, 5, 7]` counts as {5: 3, 7: 1} with 5 first |
| SignalAnalyzer.SeqMin | src/device/subghz.py:172 | the clock is the smallest pulse |
| SignalAnalyzer.PairBit | src/device/subghz.py:181-184 | bit k is 1 iff the first pulse of pair k is longer than the second |
| SignalAnalyzer.BitsValueBound | src/device/subghz.py:197-199 | eight bits shifted in make a value below 256 |
| SignalAnalyzer.PackBits | src/device/subghz.py:194-202 | one byte per full group of eight bits; trailing bits are dropped |
| SignalAnalyzer.UnpackPackBits | src/device/subghz.py:194-202 | the bytes, read MSB first, give back the bits up to the last full byte |
| SignalAnalyzer.ManchesterDecode | src/device/subghz.py:166-202 | fewer than two pulses give `None`; a result has ⌊⌊n/2⌋/8⌋ bytes |
| SignalAnalyzer.ManchesterAllOrNothing | src/device/subghz.py:176-188 | one out-of-tolerance pair makes the whole decode `None` |
| SignalAnalyzer.ManchesterDecodedBits | src/device/subghz.py:176-202 | a decoded result is the MSB-first packing of the pair bits, and every pair was within tolerance |
| SignalAnalyzer.ManchesterIgnoresOddTail | src/device/subghz.py:176 | an odd final pulse (no shorter than the clock) changes nothing |
| SignalAnalyzer.ManchesterExample | src/device/subghz.py:166-202 | `[10, 10, 10, 12]` with tolerance 0.2 gives empty bytes |
| SignalAnalyzer.DecodeManchester | src/device/subghz.py:166-202 | the `while` loop and the packing loop return exactly `ManchesterDecode` |
| SignalAnalyzer.PackMsbFirst | src/device/subghz.py:194-202 | the shifting loop packs exactly `PackBits` |
| SubGhzSignals.FirstDetection | src/device/subghz.py:240-248 | `None` iff no candidate accepts; otherwise the first accepting candidate, and none before it accepts |
| SubGhzSignals.DetectionIsSound | src/device/subghz.py:236-248 | a detection names a catalog entry that decodes as Manchester, has the signal's modulation and lists a frequency in band, and carries the non-empty bytes the pulses Manchester-decode to |
| SubGhzSignals.FirstDetectionStep | src/device/subghz.py:240-248 | a rejected candidate passes the search on to the next one |
| SubGhzSignals.DetectPrincetonAt43392 | src/device/subghz.py:236-248 | an ASK signal at 433.92 MHz that decodes is identified as Princeton |
| SubGhzSignals.DetectKeeLoqAt43392 | src/device/subghz.py:236-248 | an FSK signal at 433.92 MHz that decodes is identified as KeeLoq |
| SubGhzSignals.NoOokProtocolAt43392 | src/device/subghz.py:236-248 | an OOK signal at 433.92 MHz is never identified |
| SubGhzSignals.SingleStepHasNoPulses | src/device/subghz.py:141-142 | a single edge gives no pulses |
| SubGhzSignals.AnalyzedIsIdempotent | src/device/subghz.py:221-248 | analysing twice gives the same state as analysing once |
| SubGhzSignals.AnalyzedRecordsBitRate | src/device/subghz.py:227-233 | pulses are re-extracted; once there are any, `bit_rate` holds a positive rate and other metadata entries are kept |
| SubGhzSignals.AnalyzedDetectionIsSound | src/device/subghz.py:240-248 | a newly set protocol comes with its non-empty Manchester decoding, from an in-band Manchester catalog entry with the signal's modulation |
| SubGhzSignals.SubGHzSignal.constructor | src/device/subghz.py:207-215 | no samples, no pulses, no decoding, no protocol, empty metadata |
| SubGhzSignals.SubGHzSignal.AddSamples | src/device/subghz.py:217-219 | samples are appended |
| SubGhzSignals.SubGHzSignal.Analyze | src/device/subghz.py:221-248 | the new pulses, metadata, decoded data and protocol are `Analyzed` of the old ones |
| SubGhzSignals.AnalyzeSamples | src/device/subghz.py:221-248 | computes `Analyzed` from the samples and the fields before |
| SubGhzSignals.IdentifyProtocol | src/device/subghz.py:236-248 | the candidate loop with its early return finds exactly the first detection |
| SubGhzSignals.AnalyzeFlatSignal | src/device/subghz.py:223-229 | analysing no samples, and then samples with a single edge, keeps no pulses, no decoding and no metadata |
| MockTransports.ReadCount | src/device/mock_transport.py:47-51 | a positive size takes at most that many bytes; otherwise all |
| MockTransports.TakeSplitsBuffer | src/device/mock_transport.py:45-51 | a read returns a non-empty prefix and leaves the rest, with nothing lost or reordered; an empty buffer answers `OK` |
| MockTransports.TakeTwiceIsTakeOnce | src/device/mock_transport.py:47-49 | two reads return what one read of their combined size would |
| MockTransports.MockTransport.constructor | src/device/mock_transport.py:16-18 | disconnected with an empty buffer |
| MockTransports.MockTransport.Connect | src/device/mock_transport.py:24-27 | sets connected and succeeds |
| MockTransports.MockTransport.Disconnect | src/device/mock_transport.py:29-33 | clears connected and empties the buffer |
| MockTransports.MockTransport.Write | src/device/mock_transport.py:35-39 | not connected: error, buffer unchanged; otherwise the data is appended and its length returned |
| MockTransports.MockTransport.Read | src/device/mock_transport.py:41-52 | not connected: error, buffer unchanged; otherwise returns `Take`'s data and keeps its rest |
| MockTransports.WritesComeBackInOrder | src/device/mock_transport.py:35-52 | two writes then a draining read return their concatenation and leave the buffer empty |
| DeviceManagement.Broadcast | src/device/device_manager.py:64-70 | every callback is notified, in registration order, with the new status |
| DeviceManagement.RemoveFirst | src/device/device_manager.py:54-56 | an unknown callback is a no-op; otherwise one copy is removed |
| DeviceManagement.RemoveFirstDropsOne | src/device/device_manager.py:54-56 | exactly one occurrence of a present callback is removed |
| DeviceManagement.RemoveFirstAt | src/device/device_manager.py:56 | the removed copy is the first |
| DeviceManagement.OpenSteps | src/device/device_manager.py:100-127 | an unregistered type changes nothing; otherwise the status ends CONNECTED iff the connect returned true, and ERROR otherwise, after passing CONNECTING when the transport is available |
| DeviceManagement.FirstPayload | src/device/device_manager.py:200-203 | `None` iff no candidate is non-empty bytes; otherwise the first one that is |
| DeviceManagement.ChoosePayload | src/device/device_manager.py:200-203 | the candidate loop with `break` chooses exactly `FirstPayload` |
| DeviceManagement.FirstPayloadAt | src/device/device_manager.py:200-203 | the payload is the first non-empty bytes candidate |
| DeviceManagement.PayloadPrefersDecodedData | src/device/device_manager.py:183-186 | non-empty decoded data is the payload |
| DeviceManagement.PayloadFallsBackToRawSamples | src/device/device_manager.py:189-196 | without decoded data or data, the raw samples' bytes are the payload |
| DeviceManagement.DeviceManager.constructor | src/device/device_manager.py:35-49 | DISCONNECTED, with no active transport or type; MOCK is registered iff `enable_mock` |
| DeviceManagement.DeviceManager.AddStatusCallback | src/device/device_manager.py:51-52 | the callback is appended |
| DeviceManagement.DeviceManager.RemoveStatusCallback | src/device/device_manager.py:54-56 | the list becomes `RemoveFirst` of itself |
| DeviceManagement.DeviceManager.UpdateStatus | src/device/device_manager.py:64-70 | the status is set and every callback is notified of it, in order |
| DeviceManagement.DeviceManager.Disconnect | src/device/device_manager.py:129-143 | always ends DISCONNECTED with transport and type cleared and callbacks notified; fails only when an active hardware transport raises; an active mock is disconnected and emptied |
| DeviceManagement.DeviceManager.Connect | src/device/device_manager.py:96-127 | a connected manager disconnects first; succeeds iff the type is registered and its connect returns true, recording transport and type; notifications follow `ConnectSteps`; the mock is emptied only if it was active, marked connected only when MOCK is chosen, and otherwise untouched |
| DeviceManagement.DeviceManager.Open | src/device/device_manager.py:100-127 | the part after any disconnect: the status runs through `OpenSteps` and the transport and type are recorded only on success; MOCK only marks the mock connected, and USB or BLE leave it untouched |
| DeviceManagement.DeviceManager.IsConnected | src/device/device_manager.py:145-146 | true iff the status is CONNECTED, which between calls holds exactly when a transport is active under a recorded connection type |
| DeviceManagement.DeviceManager.Write | src/device/device_manager.py:148-151 | not connected: error; otherwise the active transport's write (the mock's own `Write`) |
| DeviceManagement.DeviceManager.Read | src/device/device_manager.py:153-156 | not connected: error; otherwise the active transport's read |
| DeviceManagement.DeviceManager.GetConnectionInfo | src/device/device_manager.py:158-161 | `None` iff not connected; otherwise the type's value and "connected" |
| DeviceManagement.DeviceManager.TransmitSignal | src/device/device_manager.py:176-210 | not connected: error; no payload: false without writing; otherwise true iff the write reports the payload's length |
| DeviceManagement.BroadcastAllAppend | src/device/device_manager.py:64-70 | notifications of successive status changes concatenate |
| DeviceManagement.TransmitWithMockTransport | tests/test_device_manager.py:21-41 | with the mock connected, a signal carrying `b"payload"` is transmitted successfully |
| DeviceManagement.TransmitWithoutPayload | src/device/device_manager.py:205-207 | a signal with no payload is not transmitted |
| SignalLibraries.InsertKeepsSorted | src/utils/signal_library.py:150 | inserting into a strictly sorted list keeps it strictly sorted and adds exactly the new element |
| SignalLibraries.CategoriesSortedAndComplete | src/utils/signal_library.py:148-150 | the categories are strictly increasing, so without duplicates, and are exactly those in use |
| SignalLibraries.StrictlySortedUnique | src/utils/signal_library.py:150 | a strictly sorted list is fixed by its elements, so it is `sorted(set(...))` |
| SignalLibraries.Skips | src/utils/signal_library.py:186-197 | the four `continue` tests skip an entry iff it fails one of the given filters |
| SignalLibraries.FilterMembers | src/utils/signal_library.py:182-201 | the result holds exactly the kept entries |
| SignalLibraries.FilterCounts | src/utils/signal_library.py:182-201 | a kept entry appears as often as in the input; a dropped one never |
| SignalLibraries.FilterAppend | src/utils/signal_library.py:182-201 | filtering keeps the iteration order |
| SignalLibraries.FilterKeepsAll | src/utils/signal_library.py:182-201 | when every entry passes, the result is all entries in order |
| SignalLibraries.SearchWithoutFiltersKeepsAll | src/utils/signal_library.py:166-201 | a search with no criteria returns every entry |
| SignalLibraries.TextFilterQuirk | src/utils/signal_library.py:186-188 | the text excludes an entry only when the name and a non-empty description both lack it; entries without a description always pass |
| SignalLibraries.TextFilterIgnoresCase | src/utils/signal_library.py:186-187 | the text test does not depend on the query's case |
| SignalLibraries.IndexOf | src/utils/signal_library.py:69 | the first position of the character |
| SignalLibraries.SplitLines | src/utils/signal_library.py:67 | `split('\n')` gives at least one piece and no piece contains a newline |
| SignalLibraries.JoinSplitLines | src/utils/signal_library.py:67 | joining the pieces with newlines gives the text back |
| SignalLibraries.ParseLine | src/utils/signal_library.py:68-70 | a line gives a field iff it contains ':'; the key is the stripped text before the first ':', so it holds none |
| SignalLibraries.FoldKeys | src/utils/signal_library.py:65-70 | a key is in the header iff some line carries it |
| SignalLibraries.FoldLastWins | src/utils/signal_library.py:70 | a key's value comes from the last line that carries it |
| SignalLibraries.ParseSubMetadata | src/utils/signal_library.py:65-70 | the header loop builds exactly `SubMetadata` |
| SignalLibraries.SplitField | src/utils/signal_library.py:68-70 | splitting a line at its first ':' and stripping both halves is `ParseLine` |
| SignalLibraries.LoadSubFindsHeader | src/utils/signal_library.py:72-82 | as written no `.sub` file loads; as intended one loads iff some line names its frequency and some its protocol |
| SignalLibraries.LoadSubDropsValidHeader | src/utils/signal_library.py:72-82 | a header naming both a frequency and a protocol loads nothing as written but the header's values as intended |
| SignalLibraries.FieldsGiveHeader | src/utils/signal_library.py:72-78 | header fields give a description iff they name the frequency and the protocol |
| SignalLibraries.ExampleHeader | src/utils/signal_library.py:65-70 | the lines `Frequency: 433920000` and `Protocol: Princeton` give both keys |
| SignalLibraries.InOrder | src/utils/signal_library.py:184 | `signals.values()` in insertion order |
| SignalLibraries.SignalLibrary.constructor | src/utils/signal_library.py:37-38 | an empty library |
| SignalLibraries.SignalLibrary.GetCategories | src/utils/signal_library.py:148-150 | strictly sorted, and exactly the categories of stored entries |
| SignalLibraries.SignalLibrary.GetSignalsInCategory | src/utils/signal_library.py:152-164 | exactly the stored entries with that category |
| SignalLibraries.SignalLibrary.SearchSignals | src/utils/signal_library.py:166-201 | the loop returns the entries passing every given filter, in iteration order |
| SignalLibraries.SignalLibrary.SignalFile | src/utils/signal_library.py:132-146 | `None` iff the name is unknown; otherwise the entry's `<category>/<name>.json` |
| SignalLibraries.SignalLibrary.AddSignal | src/utils/signal_library.py:84-126 | only a saved signal is recorded, under its name, with `tags or []`, and a new name goes last; otherwise nothing changes |

## Left out

- `detect_modulation` (`src/device/subghz.py:110-125`): floating-point variance and phase heuristics.
- Complex samples: `extract_pulses` takes the amplitudes (`np.abs(samples)`) as reals, and the model starts from them.
- Floating point: frequencies, tolerances, the bit rate and JSON floats (`RpcCodec.Json`'s `JReal`) are exact reals. Cases exactly at a tolerance boundary may differ from IEEE arithmetic.
- UTF-8 and JSON: these are parameters (`TextCodecs`). `RpcCodec.EncodeDecodeRoundTrip` requires that they round-trip the message's own strings.
- asyncio:
  - futures, `wait_for` and the blocking `Queue.get` are replaced by explicit calls;
  - `NextEvent` on an empty queue returns `None` instead of waiting;
  - the mock transport's `asyncio.sleep` pauses and `read`'s timeout are ignored, as the source ignores them.
- File persistence is not modelled:
  - `SubGHzSignal.to_file`/`from_file`;
  - `load_signal_file`'s `.json` branch;
  - `_ensure_directories`, `_save_metadata`, `_load_metadata`, `import_from_directory`;
  - reading the file text.

  `AddSignal` takes whether the save succeeded as an input. `SignalFile` returns the path `get_signal` would load.
- Real transports: the USB and BLE transports' `availability()`, `connect`, `disconnect`, `write` and `read` are inputs. `src/device/flipper_transport.py` defines neither `availability()` nor `TransportStatus`, which `device_manager.py` imports and calls, so this model treats availability as given.
- `DeviceManager.scan_devices`, `available_transports` and `test_connection`: these are hardware discovery and diagnostics built on the real transports, which are not part of this model.
- Status callbacks: they are recorded as notifications (callback, status), in order. Their own side effects, and the exceptions `_update_status` swallows, are not modelled.
- `Common.Lower`: it maps only ASCII letters, where Python's `str.lower` covers all of Unicode.
- `SignalLibraries.LoadSub`: in the intended loader the frequency stays text. `float(...)` parsing is not modelled.
- `SignalLibraries.SignalLibrary.GetSignalsInCategory`: its own contract states membership only. Order and multiplicity are proved for the underlying `Filter` by `FilterAppend` and `FilterCounts`.
- `RpcSession.ArgsOrEmpty`: arguments are typed as an optional JSON map. Python's `args or {}` also turns a falsy value of another type, such as `0` or `""`, into `{}`, and that case is off the declared type and not modelled.
- `SignalAnalyzer.BitRate` and `SignalAnalyzer.DetectBitRate`: both require positive pulses. `detect_bit_rate` itself accepts any list and raises `ZeroDivisionError` when the most frequent length is 0. Its only caller, `analyze`, passes gaps between transitions, which `PulsesArePositive` proves positive, so the division error is not modelled.
- `RpcSession.FlipperProtocol.SendCommand`: a `transport.write` that raises is modelled as a failed write outcome passed in by the caller.
- `src/device/subghz.py:336` annotates `analyze_signal` with `Any`, which that file never imports. The model treats the module as importable.
- `SubGhzManager` and `FlipperZeroDevice` mode methods hold placeholder values. The GUI, threads, logging, configuration and scripts are outside the core.

## Findings

| source | as written | input that shows it | evidently intended | confidence | as-written member | corrected member |
|---|---|---|---|---|---|---|
| src/utils/signal_library.py:73-78 | the `.sub` branch calls `SubGHzSignal(frequency=..., modulation=..., data=..., protocol=...)`, but that constructor (src/device/subghz.py:207) takes only `frequency` and `modulation`; the `TypeError` is caught at :80-82 and `None` is returned | a `.sub` file with the lines `Frequency: 433920000` and `Protocol: Princeton` | a file whose header names a frequency and a protocol loads as a signal with those fields (modulation `ASK` when absent) | not executed | SignalLibraries.LoadSubAsWritten (shown by SignalLibraries.LoadSubDropsValidHeader) | SignalLibraries.LoadSub (proved by SignalLibraries.LoadSubFindsHeader) |
