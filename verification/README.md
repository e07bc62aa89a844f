# QY smart-cube client core, modelled in Dafny

This project models the core of `qysc-web`, a browser client for the QY (QiYi) Bluetooth
smart cube. The core has four parts.

- **Packet codec** (`src/protocol.ts`), modelled in `protocol.dfy`. A command is framed as
  magic byte, length, message, CRC-16 and zero padding to 16 bytes, then encrypted with
  AES-128-ECB. A notification is decrypted, its magic byte is checked, and it is dispatched
  on its opcode: Hello, State, Sync, FreshState, or an unknown opcode.
- **Cube-state engine** (`src/state.ts`), modelled in `moves.dfy`, `search.dfy`, `ring.dfy`
  and `cubestate.dfy`. It remembers the last pattern and the last device timestamp. It
  recovers moves it missed from the 55-byte history ring a State packet carries. When the
  replayed moves do not explain the reported state, it runs a breadth-first search of depth 4
  over the twelve quarter turns. It emits move events and state events in order.
- **Timestamp fit** (`src/timing.ts`), modelled in `timing.dfy`. It fills missing device and
  host timestamps of a window of moves in place, then maps the device timestamps through a
  fitted line, re-based so that the first move is at 0.
- **Write queue and MAC** (`src/qysc.ts`), modelled in `qysc.dfy`. The queue serialises GATT
  writes in FIFO order; a failing write settles only its own promise. The MAC address is
  derived from the advertised device name.

`base.dfy` holds the shared vocabulary: bytes, `Option`/`Result`, and the JavaScript
conversions the code relies on. These are `ToUint8`, the signed 32-bit result of `<<`/`|`,
and out-of-range reads of a `Uint8Array`.

Modelling choices:

- **Cipher.** AES is represented symbolically: a ciphertext is the plaintext it decrypts to.
- **Checksum.** CRC-16/MODBUS is a function parameter.
- **Puzzle library.** The cubing library's puzzle becomes a `Puzzle<P>` value with three
  parts: one quarter turn, the solved pattern, and the decoding of the 27 state bytes.
  `isIdentical` is equality.
- **Clocks.** Host clock readings (`now()`) are parameters.
- **Regression.** The regression with its rounding (`linregress`, `Math.round`) is a
  function parameter.
- **Engine.** The engine and the write queue are classes whose methods update their fields.
  Each engine handler is proved equal to a pure reaction function (`StateReaction`,
  `FreshStateReaction`, …). The lemmas are stated about those functions.

Where the code and its design description differ, the model follows the code:

- The move-history ring is 55 bytes of 5-byte slots, so a State packet carries up to eleven
  entries (`RingHasElevenSlots`), not nine.
- Only the byte 255 marks an empty ring slot. Any other unmapped move code still yields an
  entry, with an absent label.
- When the last timestamp is not found in the ring, no ring entry is replayed
  (`StateNoMatchNoRingMoves`). The alternative of replaying all of them is not what the code
  does.
- Missing timestamps are not interpolated. A gap takes the next known value minus 50 ms per
  move (`FillBeforeKnown`). Entries after the last known value take it plus 50 ms per move
  (`FillAfterLastKnown`). Host timestamps that were never known stay undefined rather than
  becoming 0 (`FitWithoutCubeTime`, `LinearFitEntries`).
- The first fitted cube timestamp is 0 only when the first entry's cube timestamp is known
  after filling. Otherwise every entry is NaN (`LinearFitEntries`).
- A packet with an unknown opcode is decoded with the default fields, but the engine has no
  handler for it. The handler lookup fails, and the engine's memory and event log stay as
  they were (`CubeStateEngine.Handle`).

## Model

| member | source | states |
|---|---|---|
| Base.ToUint8 | src/protocol.ts:16 | a value written into a Uint8Array is stored modulo 256, unchanged when already a byte |
| Base.At | src/protocol.ts:60 | reading `packet[i]` gives the byte there exactly when i is inside the array, and undefined otherwise |
| Base.ByteOrZero | src/state.ts:74 | an array element used as an operand of a bitwise operator is the byte when present and 0 when undefined |
| Base.Int32BE | src/protocol.ts:59 | the big-endian word of four bytes read back as a signed 32-bit value: in range, congruent to the unsigned word modulo 2^32, negative exactly when the top byte is 128 or more |
| Base.Slice | src/protocol.ts:61 | `slice` on an array or a string clamps to its end: length, contents, and the ordinary subsequence when the bounds are in range |
| Protocol.Encrypt | src/protocol.ts:21 | `crypter.encrypt` of a 16-aligned block is undone by decryption |
| Protocol.Decrypt | src/protocol.ts:111 | decryption succeeds exactly when the ciphertext length is a multiple of 16 |
| Protocol.Padding | src/protocol.ts:12 | the padding is 1 to 16 bytes and aligns the frame to 16 |
| Protocol.Frame | src/protocol.ts:9-22 | the frame is 16-aligned and holds the magic byte, the length byte n+4 truncated, the message at offset 2, the checksum of the first n+2 bytes low byte first, and zero padding |
| Protocol.SetBytes | src/protocol.ts:16-19 | `set(values, offset)` truncates each value to a byte and leaves the rest of the array as it was |
| Protocol.GetPacket | src/protocol.ts:9-22 | the returned block is the encryption of the frame of the message |
| Protocol.ReverseInPlace | src/protocol.ts:26 | `mac.reverse()` leaves the caller's array reversed |
| Protocol.HelloPacket | src/protocol.ts:24-28 | the hello message is 11 zero bytes followed by the reversed MAC, and the caller's MAC array is reversed |
| Protocol.AckPacket | src/protocol.ts:30-33 | the acknowledgement frames bytes 2 to 6 of the original message |
| Protocol.SyncPacket | src/protocol.ts:35-41 | the sync message is the five header bytes (the last stored truncated to 0x1d), the state, then two zeros |
| Protocol.FreshStatePacket | src/protocol.ts:43-46 | the fresh-state request frames five bytes of 5 |
| Protocol.DefaultHandler | src/protocol.ts:55-62 | raw bytes, length byte, opcode, signed big-endian timestamp of bytes 3 to 6, battery as the possibly undefined byte 35, and wholeData as bytes 7 up to the last two (empty for a packet of 9 bytes or fewer) |
| Protocol.HandleOpcode | src/protocol.ts:64-103 | every packet gets the default fields; the body is unknown exactly when the opcode is not 2 to 5; opcode 2 gives a Hello with bytes 7 to 33 as initial state, 3 a State with bytes 7 to 33, byte 34 as move, bytes 36 to 90 as ring and the ack flag byte 91 equal to 1, 4 a Sync and 5 a FreshState with bytes 7 to 33 |
| Protocol.Packet.NeedsAck | src/protocol.ts:68-100 | `needsAck` is true for Hello, the flag for State, false for Sync and FreshState, and undefined (false) for an unknown opcode |
| Protocol.DecodePacket | src/protocol.ts:110-126 | decoding fails on a misaligned ciphertext, and on a missing or wrong magic byte, in both directions; otherwise it is the opcode dispatch on the decrypted block |
| Protocol.NeedsAckOfDecoded | src/protocol.ts:64-103 | a decoded packet needs an acknowledgement exactly when it is a Hello, or a State whose byte 91 is 1 |
| Protocol.DecodeOfGetPacket | src/protocol.ts:110-126 | decoding a framed message never fails and gives back the message, its length byte, its first byte as opcode and bytes 1 to 4 as timestamp |
| Protocol.AckEchoesOpcodeAndTimestamp | src/protocol.ts:30-33 | the acknowledgement of a decoded packet decodes to length 9 with the same opcode and timestamp |
| Protocol.SyncPacketDecodesToSync | src/protocol.ts:35-41 | a sync command for a 27-byte state decodes as a Sync packet carrying exactly that state and needing no acknowledgement |
| CubeMoves.MoveOf | src/state.ts:19-32 | `MOVES[code]` is defined exactly for codes 1 to 12 and inverts CodeOf |
| CubeMoves.MovesTableIsBijective | src/state.ts:19-39 | MOVES maps codes one-to-one onto the twelve moves, which are exactly the distinct entries of possibleMoves |
| CubeMoves.Labels | src/state.ts:132 | the path holds a move exactly when some label is that move; with all labels defined the path is the labels in order |
| CubeMoves.LabelsOfOne | src/state.ts:132 | one label is kept when defined and dropped when undefined |
| CubeMoves.LabelsAppend | src/state.ts:132 | the labels of two lists joined are the labels of each, in order; with LabelsOfOne this makes the path the defined labels in order |
| CubeMoves.ApplyAllAppend | src/state.ts:132 | applying p then q is applying p + q |
| MoveSearch.IdentifyMoves | src/state.ts:41-60 | the result leads from the original to the target within the depth, and no shorter path does; no result means no path within the depth; the empty path is returned exactly when the patterns are equal |
| RingHistory.ExtractPreviousMoves | src/state.ts:62-82 | one entry per non-empty slot walking back from the last byte, with the move label and the signed big-endian timestamp of the four bytes before it |
| RingHistory.KeptEndsAreSlots | src/state.ts:71-73 | every kept position is a non-empty move byte a whole number of slots back from the start |
| RingHistory.KeptEndsDecrease | src/state.ts:71 | entries come newest first: positions strictly decrease |
| RingHistory.KeptEndsComplete | src/state.ts:71-73 | no non-empty slot is skipped |
| RingHistory.FullRingEnds | src/state.ts:71 | a ring without empty slots yields one entry per slot, the k-th at i - 5k |
| RingHistory.RingHasElevenSlots | src/state.ts:62-82 | a 55-byte ring yields at most eleven entries, each with four whole timestamp bytes inside the ring |
| RingHistory.FullRingHasElevenEntries | src/state.ts:62-82 | a full 55-byte ring yields eleven entries at positions 54, 49, …, 4 |
| CubeState.GetMove | src/state.ts:34-37 | the label of a State packet's move byte, absent when the byte is missing or unmapped |
| CubeState.FindIndex | src/state.ts:110 | `findIndex` returns -1 exactly when the value is absent, else a position holding it with no earlier one |
| CubeState.FindIndexIsFirst | src/state.ts:110 | the first occurrence is the index reported |
| CubeState.Missed | src/state.ts:111-123 | the k newer ring entries, oldest first, each with the cube timestamp only |
| CubeState.MovesIn | src/state.ts:150-153 | the move events of a log, no more than its entries, holding a move exactly when the log emitted it |
| CubeState.MovesInEmitted | src/state.ts:150-153 | the move events of a published batch are exactly its moves, in order |
| CubeState.HelloAndSyncReplaceMemory | src/state.ts:93-102 | Hello and Sync replace the memory whatever it held and emit one state event of their own type with the snapshot, and no move |
| CubeState.StateEventOrder | src/state.ts:131-153 | the State handler emits its moves, then one `state` event with the packet's snapshot; the memory takes the ground truth and the packet timestamp |
| CubeState.ReportedMovesFromRing | src/state.ts:106-129 | the reported moves are the k missed ring entries oldest first, then the packet's own move; only the own move when the timestamp is not in the ring |
| CubeState.TwoMissedReported | src/state.ts:110-129 | with the last timestamp two slots back, the reported moves are ring entries 1 and 0, then the own move |
| CubeState.StateMissedRingMoves | src/state.ts:110-129 | with the last timestamp first found at k, the first k events are the newer ring moves oldest first, then the own move |
| CubeState.StateNoMatchNoRingMoves | src/state.ts:110-129 | with the last timestamp absent from the ring, the first event is the packet's own move |
| CubeState.NoSearchWithoutMemory | src/state.ts:132-136 | without a remembered pattern no search runs and the emitted moves are the reported ones |
| CubeState.FoundMovesCarryNoTimestamps | src/state.ts:136-145 | the emitted moves start with the reported ones; any further ones carry no timestamp |
| CubeState.ReplayThenPath | src/state.ts:132-145 | replaying the reported moves and then the found path is applying the path after the replay |
| CubeState.StateReplayReachesGroundTruth | src/state.ts:131-148 | replaying all emitted moves from the remembered pattern reaches the ground truth, whenever the search, if it ran, found a path |
| CubeState.FreshStateReaction_Properties | src/state.ts:155-182 | FreshState stores the snapshot and ends with one `freshState` event; no move when nothing changed or nothing was found; otherwise the found moves carry no timestamp and lead to the snapshot |
| CubeState.TwoMissedMovesScenario | src/state.ts:103-154 | two missed ring moves and the own move are emitted oldest first, then one `state` event |
| CubeState.RepeatedFreshStateScenario | src/state.ts:155-182 | a second FreshState with the same snapshot emits only its `freshState` event; from no memory or that snapshot, two such packets emit two events and no move |
| CubeState.CubeStateEngine.constructor | src/state.ts:84-91 | a new engine remembers nothing, timestamp 0, and has emitted nothing |
| CubeState.CubeStateEngine.OnHello | src/state.ts:93-97 | the Hello handler updates memory and log as HelloReaction says |
| CubeState.CubeStateEngine.OnSync | src/state.ts:98-102 | the Sync handler updates memory and log as SyncReaction says |
| CubeState.CubeStateEngine.Publish | src/state.ts:150-153 | the moves are appended in order, then the state event; memory is unchanged |
| CubeState.CubeStateEngine.CollectReported | src/state.ts:104-129 | the handler's move list before the search equals ReportedMoves of the remembered state |
| CubeState.CubeStateEngine.MissedEvents | src/state.ts:111-123 | the loop over the reversed ring slices builds Missed |
| CubeState.CubeStateEngine.AppendFound | src/state.ts:137-142 | a found non-empty path is appended as moves without timestamps |
| CubeState.CubeStateEngine.OnState | src/state.ts:103-154 | the State handler's new memory and appended events are StateReaction's, and the search result it used is a shortest-or-none result |
| CubeState.CubeStateEngine.OnFreshState | src/state.ts:155-182 | the FreshState handler's new memory and appended events are FreshStateReaction's |
| CubeState.CubeStateEngine.Handle | src/qysc.ts:67 | dispatch on the opcode; an unknown opcode changes neither memory nor log |
| Timing.FillBackward | src/timing.ts:74-83 | one tail-to-head pass changes only its column, to BackFill of it |
| Timing.FillForward | src/timing.ts:86-95 | one head-to-tail pass changes only its column, to ForwardFill of it |
| Timing.FourPasses | src/timing.ts:72-96 | the four passes in source order yield the window with each column filled on its own |
| Timing.FillGaps | src/timing.ts:72-96 | the window is filled in place, and left alone when it has fewer than two moves |
| Timing.FitWindow | src/timing.ts:98-108 | the result list is LinearFit of the filled window |
| Timing.CubeTimestampLinearFit | src/timing.ts:61-110 | the caller's window ends up filled, and the result is the fit of the filled window |
| Timing.BackFillKeepsKnown | src/timing.ts:75 | the tail-to-head pass never overwrites a known value |
| Timing.BackFillNearest | src/timing.ts:74-77 | a missing value before the next known one reads that value minus 50 per move |
| Timing.BackFillReaches | src/timing.ts:74-77 | every entry at or before a known one is known after the pass |
| Timing.BackFillLeavesTail | src/timing.ts:74-77 | entries after the last known one stay missing after the pass |
| Timing.ForwardFillKeepsKnown | src/timing.ts:87 | the head-to-tail pass never overwrites a known value |
| Timing.ForwardFillNearest | src/timing.ts:86-89 | a missing value after a known one reads that value plus 50 per move |
| Timing.ForwardFillReaches | src/timing.ts:86-89 | every entry at or after a known one is known after the pass |
| Timing.ForwardFillLeavesHead | src/timing.ts:86-89 | entries before the first known one stay missing after the pass |
| Timing.FillBeforeKnown | src/timing.ts:72-96 | after both passes, an entry up to the next known value reads it minus 50 per move; known values are kept |
| Timing.FillAfterLastKnown | src/timing.ts:72-96 | after both passes, an entry after the last known value reads it plus 50 per move |
| Timing.FillCompletes | src/timing.ts:72-96 | a column of two or more entries with one known value comes out fully known |
| Timing.FillNothingKnown | src/timing.ts:72-96 | a column with no known value is unchanged |
| Timing.LinearFitEntries | src/timing.ts:98-108 | moves and host timestamps pass through; the first entry is at 0 when its cube time is known; an entry is NaN exactly when its own or the first cube time is missing |
| Timing.LinearFitKeepsDifferences | src/timing.ts:100-105 | re-basing keeps differences of fitted values |
| Timing.FitWithKnownCubeTime | src/timing.ts:61-110 | a window of two or more moves with one known cube time comes out with every cube time defined and the first at 0 |
| Timing.FitWithoutCubeTime | src/timing.ts:61-110 | a window with no known cube time comes out all NaN |
| Qysc.GattOperationQueue.constructor | src/qysc.ts:7-8 | a new queue is empty and not processing |
| Qysc.GattOperationQueue.Enqueue | src/qysc.ts:10-22 | the operation is appended; it starts at once when no drain is running; FIFO bookkeeping is kept |
| Qysc.GattOperationQueue.ProcessQueue | src/qysc.ts:24-35 | nothing happens while processing or when empty; otherwise processing is set and the front operation starts |
| Qysc.GattOperationQueue.OperationSettled | src/qysc.ts:13-34 | the awaited operation is settled with its outcome, failure included, and the drain goes on with the next one or clears `processing` |
| Qysc.DrainAll | src/qysc.ts:10-35 | every enqueued operation runs once, in submission order, each settled by its own outcome |
| Qysc.EnqueueWhileRunning | src/qysc.ts:10-35 | an operation enqueued while another runs goes after it, and a rejected one does not stop the rest |
| Qysc.TrimStart | src/qysc.ts:74 | leading whitespace removed: a suffix, all removed characters whitespace, first kept character not whitespace |
| Qysc.TrimEnd | src/qysc.ts:74 | trailing whitespace removed: a prefix, all removed characters whitespace, last kept character not whitespace |
| Qysc.Trim | src/qysc.ts:74 | `trim()` keeps a contiguous middle part, cuts only whitespace before and after it, and starts and ends with non-whitespace |
| Qysc.LastFour | src/qysc.ts:75 | `substring(length - 4)` is the last four characters, or all of a shorter string |
| Qysc.HexPrefix | src/qysc.ts:78-79 | the longest prefix of hexadecimal digits |
| Qysc.ParseHex | src/qysc.ts:78-79 | `parseInt(s, 16)` is NaN exactly when no hexadecimal digit follows the whitespace, sign and radix prefix; otherwise it is the signed value of the longest run of digits there, never negative without a minus |
| Qysc.ParseHexOfNoDigit | src/qysc.ts:78-79 | the empty string, or one starting with a character that is not a digit, sign or whitespace, parses to NaN |
| Qysc.ParseHexStopsAtNonDigit | src/qysc.ts:78-79 | a digit followed by a non-digit other than x parses to that one digit |
| Qysc.ByteOf | src/qysc.ts:76-80 | NaN is stored as 0, any other value modulo 256 |
| Qysc.MacFromName | src/qysc.ts:74-80 | six bytes: the prefix cc a3 00 00, then the two parsed pairs of the last four characters of the trimmed name |
| Qysc.ParseTwoHexDigits | src/qysc.ts:78-79 | two hexadecimal digits parse to the byte they spell |
| Qysc.MacOfHexSuffix | src/qysc.ts:73-80 | a name ending in four hexadecimal digits yields the prefix then the two bytes they spell |
| Qysc.MacIgnoresSurroundingWhitespace | src/qysc.ts:74 | whitespace before or after the name does not change the MAC |
| Qysc.ExampleMac | src/qysc.ts:73 | "QY-QYSC-S-01C4" yields cc a3 00 00 01 c4 |
| Qysc.MacOfShortName | src/qysc.ts:74-80 | a trimmed name of at most two characters gives 0 as the last MAC byte |
| Qysc.MacOfNonHexPair | src/qysc.ts:74-80 | a second-to-last character that parseInt cannot read makes the last MAC byte 0 |
| Qysc.MacOfHalfHexPair | src/qysc.ts:74-80 | a hexadecimal digit followed by a last character that is not one gives that digit as the last MAC byte |
| Qysc.MacOfHexThenNaNSuffix | src/qysc.ts:74-80 | a name ending in two hexadecimal digits then an unreadable pair gives the prefix, the byte of the digits, and 0 |
| Qysc.ExampleMacNonHex | src/qysc.ts:73-80 | "QY-QYSC-S-01G4" yields cc a3 00 00 01 00 |

## Left out

- AES-128-ECB is symbolic: a ciphertext is represented by its plaintext, so the key schedule and block cipher are not modelled.
- CRC-16/MODBUS is a parameter (`Checksum`): its library is not part of this model, and decodePacket never checks it.
- The cubing library (`cube3x3x3`, `KPattern`, `stateToPattern`) is abstract. `applyAlg` on the joined labels is modelled as turning each defined label in order, so undefined labels are skipped.
- Timing.CubeTimestampLinearFit: `linregress` and `Math.round` are one abstract parameter, so the slope and intercept arithmetic, the variance guard and the unused `sumYY` are not modelled. Properties that depend on the line itself, such as monotone output for monotone input, are not stated.
- Floating point: timestamps are integers, and NaN is an absent value.
- `now()` is not modelled; the host clock reading is the `localNow` parameter.
- The Web Bluetooth wiring in `connectQYSC` is I/O and is not modelled. This covers device discovery, the notification listener, the enqueued acknowledgement and hello writes, `startNotifications`, the `setTimeout` fresh-state timer, `sync`, `freshState` and `disconnect`.
- Qysc.GattOperationQueue: the asynchronous interleaving is reduced to a sequential state machine. Only the suspension point `await operation()` is a separate event (`OperationSettled`). The promise returned by `enqueue` is represented by the operation's entry in `settled`.
- The two rxjs Subjects become one event log, so the relative order of move and state events is kept; subscribers are not modelled.
- CubeState.CubeStateEngine: emitted move events are values. The source pushes the same objects it later hands to subscribers, who may pass them to cubeTimestampLinearFit, which writes into them; that aliasing is not modelled.
- Console logging is not modelled.
- Qysc.MacFromName: strings are sequences of Unicode code points, not UTF-16 code units, so names with characters outside the Basic Multilingual Plane are not modelled. A missing device name (the `!` assertion) is not modelled either.
- Qysc.ParseHex: exact for the at most two digits it is given here; the precision loss of `parseInt` on long digit strings is not modelled.
- CubeState.CubeStateEngine.Handle: the TypeError from calling a missing handler is not modelled as an exception; the model only records that nothing changes.
