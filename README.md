# Timed Bluetooth frame receiver — Dafny model

This project models the two receive paths of the Traccar client's timed Bluetooth readers.
Each path collects text from a serial link into a buffer, cuts frames out of it, decodes a
status byte and a count from each frame, and writes both values to a shared sink.

- **ASCII variant** (`BluetoothTimedService`, module `TimedService`).
  - Received text is appended to `accumulatedData`.
  - `processAccumulatedData` searches for the start marker `':'`. It cuts out 235-character
    frames and drops the text in front of a marker. A buffer of at least 235 characters with no marker is
    emptied; a shorter one is kept.
  - `processValidMessage` publishes the count (characters 97..101, hex) and the status
    (characters 127..129, hex narrowed to a signed byte). It disconnects when the count is
    non-zero, and disconnecting clears the buffer.
  - Around this sits a per-cycle flag machine. `dataProcessedThisSchedule` is reset at cycle
    start and set by every frame. The 30-second timeout disconnects only when no frame was
    processed in the cycle.
- **Hex variant** (`BluetoothTimedConnection`, module `TimedConnection`).
  - Each chunk of bytes is written as hex (`bytesToHex`), upper-cased and appended.
  - The buffer is kept only while it begins with `"01410005"`.
  - Once it holds 234 characters, the count (characters 60..64) and the status
    (characters 126..128) are published. The buffer is then cleared and the serial service
    told to disconnect.

Module `HexText` holds what both variants share:
- the hex digit alphabet;
- `Integer.parseInt(s, 16)`;
- the narrowing cast `(byte) v`;
- `bytesToHex`;
- `toUpperCase`;
- fixed-width encoders and a hex-to-bytes decoder, which serve as the inverses the decoders
  are proved against.

Module `Shared` holds `Option` and `Reading` (one sink write: status, count).

The stateful parts are classes whose fields are the source's fields. Their methods are proved
against pure functions of the old state:
- `TimedService.Service.ProcessAccumulatedData` against `TimedService.Drain`;
- `TimedConnection.Connection.Receive` against `TimedConnection.Feed`, a left fold of
  `TimedConnection.Step`.

The properties of the receive paths are proved about those functions.

The model also records state the source does not keep:
- The sink `GlobalData` is a field `published` holding every write in order. Its current
  value is the last entry.
- Calls to `serialService.connect` and `serialService.disconnect` are counters.
- The texts handed to the frame handlers are a ghost log `frames`.

## Model

| member | source | states |
|---|---|---|
| HexText.Unsigned | app/src/main/java/org/traccar/client/BluetoothTimedConnection.java:120 | `0xFF & b` is the value in 0..255 congruent to the byte modulo 256 |
| HexText.SignedByte | app/src/main/java/org/traccar/client/BluetoothTimedService.java:261 | `(byte) v` is the signed byte congruent to v modulo 256 |
| HexText.ByteCastsInverse | app/src/main/java/org/traccar/client/BluetoothTimedService.java:261 | the narrowing cast and `0xFF &` are inverse bijections between signed bytes and 0..255 |
| HexText.DigitValue | app/src/main/java/org/traccar/client/BluetoothTimedService.java:275 | a hex digit (either case) has a value below 16 |
| HexText.MatchesHex | app/src/main/java/org/traccar/client/BluetoothTimedService.java:260 | `matches("[0-9A-Fa-f]+")`: a non-empty run of hex digits; its equivalence with the character class is the lemma `HexText.MatchesHexClass` |
| HexText.MatchesHexClass | app/src/main/java/org/traccar/client/BluetoothTimedService.java:260 | `matches("[0-9A-Fa-f]+")` holds exactly for a non-empty text all of whose characters are in the class 0-9, A-F, a-f |
| HexText.HexClassDigits | app/src/main/java/org/traccar/client/BluetoothTimedService.java:274 | the characters of the class `[0-9A-Fa-f]` are exactly the hex digits the parser accepts |
| HexText.UpperChar | app/src/main/java/org/traccar/client/BluetoothTimedConnection.java:86 | `Character.toUpperCase` on ASCII maps a lower-case letter to the same upper-case letter, keeps every other character, and never yields a lower-case letter |
| HexText.LowerDigit | app/src/main/java/org/traccar/client/BluetoothTimedConnection.java:120 | the digit `Integer.toHexString` writes for d is a lower-case hex digit whose value is d |
| HexText.UpperDigitOfValue | app/src/main/java/org/traccar/client/BluetoothTimedConnection.java:86 | upper-casing a hex digit keeps its value and gives the canonical upper-case digit |
| HexText.HexValue | app/src/main/java/org/traccar/client/BluetoothTimedService.java:275 | parsing n hex digits gives a value below 16^n |
| HexText.HexValueZero | app/src/main/java/org/traccar/client/BluetoothTimedService.java:275 | hex digits parse as 0 exactly when every digit is '0' |
| HexText.EncodeHex | app/src/main/java/org/traccar/client/BluetoothTimedService.java:273-275 | a field written n digits wide is n upper-case hex digits |
| HexText.DecodeEncodeHex | app/src/main/java/org/traccar/client/BluetoothTimedService.java:273-275 | parsing a field written by EncodeHex gives back every value below 16^n |
| HexText.EncodeHexValue | app/src/main/java/org/traccar/client/BluetoothTimedService.java:273-275 | writing back a parsed field gives the field itself up to letter case, so parsing loses nothing |
| HexText.HexValueToUpper | app/src/main/java/org/traccar/client/BluetoothTimedConnection.java:86 | upper-casing hex text does not change its parsed value |
| HexText.HexValueConcat | app/src/main/java/org/traccar/client/BluetoothTimedConnection.java:99-100 | the value of a + b is the value of a shifted left by the digits of b, plus the value of b |
| HexText.ToHexString | app/src/main/java/org/traccar/client/BluetoothTimedConnection.java:120 | `Integer.toHexString` of 0..255 is 1 or 2 hex digits without leading zero that parse back to the value |
| HexText.ByteToHex | app/src/main/java/org/traccar/client/BluetoothTimedConnection.java:120-124 | each byte becomes exactly two lower-case digits, zero-padded, high nibble first, that parse back to its unsigned value |
| HexText.BytesToHex | app/src/main/java/org/traccar/client/BluetoothTimedConnection.java:117-127 | bytesToHex writes exactly two characters per byte |
| HexText.BytesToHexAt | app/src/main/java/org/traccar/client/BluetoothTimedConnection.java:117-127 | byte i is written at characters 2i and 2i+1 |
| HexText.BytesToHexAppend | app/src/main/java/org/traccar/client/BluetoothTimedConnection.java:117-127 | the text of two byte runs back to back is their texts back to back |
| HexText.BytesToHexAlphabet | app/src/main/java/org/traccar/client/BluetoothTimedConnection.java:117-127 | bytesToHex writes hex digits only, never an upper-case letter |
| HexText.UpperHexChunk | app/src/main/java/org/traccar/client/BluetoothTimedConnection.java:86 | after toUpperCase a chunk's text holds upper-case hex digits only |
| HexText.ToUpper | app/src/main/java/org/traccar/client/BluetoothTimedConnection.java:86 | toUpperCase on ASCII keeps the length |
| HexText.ToUpperSlice | app/src/main/java/org/traccar/client/BluetoothTimedConnection.java:86 | toUpperCase works character by character, so it commutes with slicing |
| HexText.ToUpperAppend | app/src/main/java/org/traccar/client/BluetoothTimedConnection.java:86-87 | upper-casing the appended text is upper-casing each part |
| HexText.ToUpperOfUpper | app/src/main/java/org/traccar/client/BluetoothTimedConnection.java:86 | upper-casing text that is already upper-case hex changes nothing |
| HexText.HexToBytes | app/src/main/java/org/traccar/client/BluetoothTimedConnection.java:117-127 | the decoder used as bytesToHex's inverse yields one byte per two digits |
| HexText.HexToBytesRoundTrip | app/src/main/java/org/traccar/client/BluetoothTimedConnection.java:117-127 | decoding bytesToHex's text recovers the bytes exactly |
| HexText.HexToBytesToUpper | app/src/main/java/org/traccar/client/BluetoothTimedConnection.java:86 | decoding hex text back to bytes ignores letter case |
| HexText.ChunkTextRoundTrip | app/src/main/java/org/traccar/client/BluetoothTimedConnection.java:86-87 | the upper-cased text appended for a chunk decodes back to the chunk |
| TimedService.IndexOf | app/src/main/java/org/traccar/client/BluetoothTimedService.java:197 | `indexOf(":")` is the first position of ':' or -1 exactly when there is none |
| TimedService.GetRequiredBytes | app/src/main/java/org/traccar/client/BluetoothTimedService.java:271-284 | the count lies in 0..65535 and is 0 when characters 97..101 are not all hex digits |
| TimedService.GetRequiredByte | app/src/main/java/org/traccar/client/BluetoothTimedService.java:256-270 | the status is a signed byte, and 0 when characters 127..129 are not both hex digits |
| TimedService.IsErrorData | app/src/main/java/org/traccar/client/BluetoothTimedService.java:251-255 | an error frame is one whose count is 0; its consequences for frames are stated in ErrorFrame |
| TimedService.ErrorFrame | app/src/main/java/org/traccar/client/BluetoothTimedService.java:251-255 | the status is never consulted, and a frame is an error frame exactly when its count field is not hex or is all '0' |
| TimedService.Decode | app/src/main/java/org/traccar/client/BluetoothTimedService.java:237-238 | the pair published for a frame is a signed byte and a count below 65536, each 0 when its field is not hex |
| TimedService.CountFieldRoundTrip | app/src/main/java/org/traccar/client/BluetoothTimedService.java:271-284 | a count written as four hex digits at 97..101 is read back as that count |
| TimedService.CountFieldExact | app/src/main/java/org/traccar/client/BluetoothTimedService.java:271-284 | a hex count field is read without loss: writing the result back gives the field up to case |
| TimedService.StatusFieldRoundTrip | app/src/main/java/org/traccar/client/BluetoothTimedService.java:256-270 | a byte written as two hex digits at 127..129 is read back as that signed byte |
| TimedService.StatusFieldExact | app/src/main/java/org/traccar/client/BluetoothTimedService.java:256-270 | a hex status field is read without loss: writing it back gives the field up to case |
| TimedService.ExampleFrame | app/src/main/java/org/traccar/client/BluetoothTimedService.java:256-284 | a frame with count field "0010" and status field "1F" decodes to 16 and 0x1F |
| TimedService.Drain | app/src/main/java/org/traccar/client/BluetoothTimedService.java:195-211 | one run of the loop: the frames handed on, the text left and whether a non-zero count disconnected; its properties are `DrainRest`, `DrainFramesStart`, `DrainFramesInOrder`, `DrainStopsOnCount` and `DrainFrameBudget` |
| TimedService.DrainFramesStart | app/src/main/java/org/traccar/client/BluetoothTimedService.java:195-211 | every frame one run of the loop hands on begins with ':' (and, by its type, is 235 characters long) |
| TimedService.DrainFrameStep | app/src/main/java/org/traccar/client/BluetoothTimedService.java:198-202 | a whole frame at the first ':' is handed on; scanning goes on after it only when its count is 0, otherwise the run ends disconnected with an empty buffer |
| TimedService.DrainErrorFrame | app/src/main/java/org/traccar/client/BluetoothTimedService.java:198-202 | a whole frame at the first ':' whose count is 0 is handed on, and scanning goes on after it |
| TimedService.DrainCountFrame | app/src/main/java/org/traccar/client/BluetoothTimedService.java:198-202 | a whole frame at the first ':' whose count is non-zero is the last one handed on; the run disconnects and nothing is left |
| TimedService.DrainRest | app/src/main/java/org/traccar/client/BluetoothTimedService.java:195-211 | buffer bound: what is left is shorter than a frame, is a suffix of the buffer, and is empty after a disconnect |
| TimedService.DrainShortBuffer | app/src/main/java/org/traccar/client/BluetoothTimedService.java:196 | a buffer shorter than a frame is left untouched, with or without a marker |
| TimedService.DrainNoMarker | app/src/main/java/org/traccar/client/BluetoothTimedService.java:203-205 | a buffer of at least 235 characters without ':' is emptied and nothing is handed on |
| TimedService.DrainResync | app/src/main/java/org/traccar/client/BluetoothTimedService.java:206-208 | with the first ':' at k and fewer than 235 characters from there, exactly k characters are dropped and the rest begins with ':' |
| TimedService.DrainFramesInOrder | app/src/main/java/org/traccar/client/BluetoothTimedService.java:197-202 | the frames handed on are contiguous slices of the buffer, in order and not overlapping |
| TimedService.DrainStopsOnCount | app/src/main/java/org/traccar/client/BluetoothTimedService.java:196-249 | every frame but the last has count 0, and the run disconnects exactly when the last frame's count is non-zero |
| TimedService.DrainFrameBudget | app/src/main/java/org/traccar/client/BluetoothTimedService.java:196-202 | each frame consumes 235 characters, so a run hands on at most |buffer|/235 frames and terminates |
| TimedService.Readings | app/src/main/java/org/traccar/client/BluetoothTimedService.java:243-244 | the count and status written to the sink for each frame, in frame order; one more frame adds one reading at the end (`ReadingsSnoc`) |
| TimedService.ReadingsSnoc | app/src/main/java/org/traccar/client/BluetoothTimedService.java:243-244 | one more frame adds its decoded pair to the end of the sink log |
| TimedService.Service.constructor | app/src/main/java/org/traccar/client/BluetoothTimedService.java:172-184 | the buffer starts empty, and the scheduler is started exactly for a non-null, non-empty address |
| TimedService.Service.Disconnect | app/src/main/java/org/traccar/client/BluetoothTimedService.java:131-140 | one transport disconnect, the pending timeout cancelled, the buffer cleared |
| TimedService.Service.OnSerialConnectError | app/src/main/java/org/traccar/client/BluetoothTimedService.java:217-221 | a connect error disconnects |
| TimedService.Service.OnSerialIoError | app/src/main/java/org/traccar/client/BluetoothTimedService.java:286-290 | an I/O error disconnects |
| TimedService.Service.Connect | app/src/main/java/org/traccar/client/BluetoothTimedService.java:111-129 | a connect request is sent for a usable address; a failing device lookup or socket disconnects instead |
| TimedService.Service.ScheduledConnectAndFetchData | app/src/main/java/org/traccar/client/BluetoothTimedService.java:94-109 | the flag is reset, the address re-read, a connection requested and the timeout armed; a null address held only disconnects |
| TimedService.Service.DisconnectIfNotProcessed | app/src/main/java/org/traccar/client/BluetoothTimedService.java:147-152 | the timeout disconnects exactly when no frame was processed this cycle, and changes nothing otherwise |
| TimedService.Service.TimeoutElapses | app/src/main/java/org/traccar/client/BluetoothTimedService.java:142-152 | a timeout still pending runs disconnectIfNotProcessed; a cancelled one does nothing |
| TimedService.Service.ProcessValidMessage | app/src/main/java/org/traccar/client/BluetoothTimedService.java:237-255 | both fields are published for every frame, and only a non-zero count disconnects |
| TimedService.Service.TakeFrame | app/src/main/java/org/traccar/client/BluetoothTimedService.java:198-202 | the frame is published, the flag set, and the buffer continues after the frame, or is empty after a disconnect |
| TimedService.Service.TakeNextFrame | app/src/main/java/org/traccar/client/BluetoothTimedService.java:198-202 | the frame taken is the next one Drain yields, and the buffer shrinks |
| TimedService.Service.ProcessOnce | app/src/main/java/org/traccar/client/BluetoothTimedService.java:197-209 | one turn of the loop keeps the state on Drain's course; it shrinks the buffer or leaves it shorter than a frame |
| TimedService.Service.ProcessAccumulatedData | app/src/main/java/org/traccar/client/BluetoothTimedService.java:195-211 | the new buffer, sink log, frame log, disconnects, flag and timeout are exactly what Drain of the old buffer yields; the buffer is then shorter than a frame |
| TimedService.Service.Receive | app/src/main/java/org/traccar/client/BluetoothTimedService.java:154-161 | all chunks are appended in order and the result is drained once |
| TimedService.Concat | app/src/main/java/org/traccar/client/BluetoothTimedService.java:154-158 | `receive`'s append loop: the chunks back to back, in order; its front law is `ConcatFront` |
| TimedService.ConcatFront | app/src/main/java/org/traccar/client/BluetoothTimedService.java:154-158 | the chunks are appended in order: the first chunk comes first, then the rest in order |
| TimedService.Service.OnSerialRead | app/src/main/java/org/traccar/client/BluetoothTimedService.java:223-235 | a single chunk is received as a one-element delivery |
| TimedConnection.IndexOfText | app/src/main/java/org/traccar/client/BluetoothTimedConnection.java:91 | `indexOf` yields -1 or a position where the marker fits |
| TimedConnection.IndexOfTextFirst | app/src/main/java/org/traccar/client/BluetoothTimedConnection.java:91 | `indexOf` yields the first occurrence, and -1 exactly when there is none |
| TimedConnection.IndexOfTextZero | app/src/main/java/org/traccar/client/BluetoothTimedConnection.java:91 | `indexOf(startSequence) == 0` holds exactly when the buffer begins with the marker |
| TimedConnection.ChunkText | app/src/main/java/org/traccar/client/BluetoothTimedConnection.java:86 | the text appended for a chunk has two characters per byte, all upper-case hex digits |
| TimedConnection.Fields | app/src/main/java/org/traccar/client/BluetoothTimedConnection.java:88-101 | the status is a signed byte and the count below 65536; a field whose characters are not yet in the buffer keeps its default 0 |
| TimedConnection.FieldsExact | app/src/main/java/org/traccar/client/BluetoothTimedConnection.java:93-101 | written back as hex, the count and the status are exactly characters 60..64 and 126..128, so reading them loses nothing |
| TimedConnection.Step | app/src/main/java/org/traccar/client/BluetoothTimedConnection.java:85-115 | the buffer holds upper-case hex digits only after every chunk, so the parseInt calls cannot fail |
| TimedConnection.StepShape | app/src/main/java/org/traccar/client/BluetoothTimedConnection.java:91-114 | after a chunk the buffer is empty or an unfinished frame; publishing happens exactly at 234 characters with the marker in front, passes the whole buffer and clears it; a buffer without the marker in front is cleared, with no search for a later one |
| TimedConnection.StepReading | app/src/main/java/org/traccar/client/BluetoothTimedConnection.java:88-105 | no default leaks: a published reading has both fields read from the buffer, count in 0..65535 and status narrowed to a signed byte |
| TimedConnection.StepCases | app/src/main/java/org/traccar/client/BluetoothTimedConnection.java:91-114 | one turn, by the source's own test `indexOf(startSequence) == 0` and the length: clear, keep an unfinished frame, or publish the whole buffer with both fields and clear |
| TimedConnection.Feed | app/src/main/java/org/traccar/client/BluetoothTimedConnection.java:84-116 | the buffer stays upper-case hex after any run of chunks |
| TimedConnection.FeedReadings | app/src/main/java/org/traccar/client/BluetoothTimedConnection.java:93-105 | over any run of chunks, reading i is the status and count decoded from frame text i, and every frame text is upper-case hex |
| TimedConnection.FeedShape | app/src/main/java/org/traccar/client/BluetoothTimedConnection.java:84-116 | after any run of chunks the buffer has its shape, one reading is published per frame, and every frame text begins with the marker and holds 234 characters or more |
| TimedConnection.FeedAppend | app/src/main/java/org/traccar/client/BluetoothTimedConnection.java:85-115 | chunk order: feeding a + b is feeding a, then b to the buffer a left |
| TimedConnection.FeedTwo | app/src/main/java/org/traccar/client/BluetoothTimedConnection.java:85-115 | two chunks are two turns of the loop, in order |
| TimedConnection.MarkerText | app/src/main/java/org/traccar/client/BluetoothTimedConnection.java:23 | the bytes 01 41 00 05 are written as the marker "01410005" |
| TimedConnection.ChunkTextSplit | app/src/main/java/org/traccar/client/BluetoothTimedConnection.java:86-87 | the texts of consecutive byte runs, appended, are the text of the whole run |
| TimedConnection.FrameFields | app/src/main/java/org/traccar/client/BluetoothTimedConnection.java:93-101 | for a frame's bytes, the count read is bytes 30 and 31 big-endian unsigned and the status read is byte 63 |
| TimedConnection.NotMarkerStart | app/src/main/java/org/traccar/client/BluetoothTimedConnection.java:91 | a chunk whose first byte is not 0x01 does not begin with the marker |
| TimedConnection.SplitMarkerLost | app/src/main/java/org/traccar/client/BluetoothTimedConnection.java:91-114 | as written, a frame split after its first 1 to 3 bytes is lost: nothing is published and the buffer ends empty |
| TimedConnection.StepPublishesFrame | app/src/main/java/org/traccar/client/BluetoothTimedConnection.java:102-109 | a chunk that completes a frame publishes the frame's own fields and clears the buffer |
| TimedConnection.SplitFrameDelivered | app/src/main/java/org/traccar/client/BluetoothTimedConnection.java:84-116 | as written, a frame split at byte 0 or at byte 4 or later is delivered exactly once with its own fields |
| TimedConnection.StepKeepingPrefix | app/src/main/java/org/traccar/client/BluetoothTimedConnection.java:91-114 | corrected step: the buffer stays upper-case hex |
| TimedConnection.StepKeepingPrefixAgrees | app/src/main/java/org/traccar/client/BluetoothTimedConnection.java:91-114 | the corrected step differs from the written one only on a proper prefix of the marker, and keeps the buffer empty, such a prefix, or an unfinished frame |
| TimedConnection.SplitFrameKeepingPrefix | app/src/main/java/org/traccar/client/BluetoothTimedConnection.java:84-116 | with the correction, every split of a frame into two chunks delivers it exactly once with its own fields |
| TimedConnection.Connection.constructor | app/src/main/java/org/traccar/client/BluetoothTimedConnection.java:22 | the buffer starts empty |
| TimedConnection.Connection.Disconnect | app/src/main/java/org/traccar/client/BluetoothTimedConnection.java:80-82 | one transport disconnect; the buffer is not touched |
| TimedConnection.Connection.OnSerialError | app/src/main/java/org/traccar/client/BluetoothTimedConnection.java:138-157 | connect errors and I/O errors disconnect |
| TimedConnection.Connection.ProcessAccumulatedData | app/src/main/java/org/traccar/client/BluetoothTimedConnection.java:128-135 | the status and the count go to the sink in that order |
| TimedConnection.Connection.ReceiveChunk | app/src/main/java/org/traccar/client/BluetoothTimedConnection.java:86-87 | one chunk changes the buffer, sink, frame log and disconnects exactly as Step says, with one disconnect per publication, and keeps the buffer invariant |
| TimedConnection.Connection.CheckBuffer | app/src/main/java/org/traccar/client/BluetoothTimedConnection.java:88-114 | after the append: a marker-led buffer of 234 characters or more is published with both fields, cleared and followed by one disconnect; a shorter marker-led buffer is kept; any other is cleared |
| TimedConnection.Connection.Receive | app/src/main/java/org/traccar/client/BluetoothTimedConnection.java:84-116 | the chunks are handled in order, and the new state is exactly what Feed of the old buffer yields |
| TimedConnection.Connection.OnSerialRead | app/src/main/java/org/traccar/client/BluetoothTimedConnection.java:143-152 | a single chunk is received as a one-element delivery |

## Left out

- Android lifecycle is not modelled: service and fragment callbacks, binding, wake locks, the bond-state receiver and `onDestroy`. It is platform glue.
- Timers and executors are not modelled as such. The fixed-delay scheduler, the 30-second timeout executor and `Handler.postDelayed` are threading. They appear only as explicit steps the environment calls: `ScheduledConnectAndFetchData` and `TimeoutElapses`.
- At most one pending timeout is modelled, as the flag `timeoutPending`. The 30-second timeout always fires before the next one-minute cycle starts.
- `serialService.connect` and `serialService.disconnect` are counters. A failing `getRemoteDevice` or `SerialSocket` is the parameter `fails`.
- Both variants' serial service is taken to be bound.
  - In the ASCII variant a null `serialService` makes `connect` and `disconnect` skip the transport call (app/src/main/java/org/traccar/client/BluetoothTimedService.java:119-124); the model always counts the call.
  - In the hex variant `disconnect` calls `service.disconnect()` with no null check (app/src/main/java/org/traccar/client/BluetoothTimedConnection.java:80-82). With `service` null it throws a NullPointerException instead of skipping: inside `receive` that ends the loop after the buffer was cleared, and the remaining chunks are not processed. `TimedConnection.Connection.Disconnect` only counts, so the model does not capture that exception.
- `new String(data)` uses the platform charset. The ASCII variant's chunks are modelled directly as character sequences.
- `BluetoothDeviceManager.getLastDeviceAddress()` is an input to the cycle-start step (`currentAddress`). `None` stands for null.
- `GlobalData` is not part of this model. Its two setters are one append to the `published` log.
- All `Log` calls are left out.
- The hex variant's scheduling is left out: `initializeConnection`, `scheduledConnectAndFetchData`, `connect` and the posted disconnect (app/src/main/java/org/traccar/client/BluetoothTimedConnection.java:51-78). They hold no buffer logic. Its `disconnect` and error callbacks are modelled.
- TimedService.GetRequiredBytes and TimedService.GetRequiredByte: they require a message long enough for their field. On a shorter one the source's `substring` throws an exception that the `NumberFormatException` handler does not catch. Every caller passes a 235-character frame.
- TimedService.Service.ScheduledConnectAndFetchData: it requires that the scheduler was started, because only the scheduler calls it.
- TimedConnection.Step and TimedConnection.Connection.Receive: they require the buffer to hold upper-case hex digits (and, for the class, the `Valid` shape). Both hold from construction on and are preserved by every method.
- TimedConnection.IndexOfText: its own contract is weaker than `indexOf`, only bounding the result. The first-occurrence property is proved separately in `TimedConnection.IndexOfTextFirst`.
- `toUpperCase` is modelled on ASCII only (`HexText.UpperChar`, `HexText.ToUpper`): its only input is `bytesToHex` output, which is ASCII hex digits. Java's `String.toUpperCase` also maps non-ASCII letters and can change the length (ß becomes SS).
- HexText.ToUpper: its contract only keeps the length. The character-wise behaviour is proved in `HexText.ToUpperSlice` and `HexText.ToUpperAppend`.
- Integer widths: the count (four hex digits) and the status (two digits, narrowed explicitly) stay within Java's `int` and `byte`, so no other wrap-around arises.

The code keeps the buffer across cycles, and the model follows it:
- Neither variant clears its buffer at cycle start.
- Between cycles, only a disconnect empties the ASCII variant's buffer. Within a call of `processAccumulatedData` the buffer also shrinks: consumed frames and the text before a late ':' are deleted, and a buffer of at least 235 characters without ':' is emptied.
- The hex variant's `disconnect` does not clear the buffer; only `receive` does.
- In the ASCII variant, a null address held at cycle start does not end the cycle quietly. The comparison throws, the exception is caught and the service disconnects. A null address read from the address source makes `connect` fail, which disconnects, and the timeout is still armed.

## Findings

| source | as written | input that shows it | evidently intended | confidence | as-written member | corrected member |
|---|---|---|---|---|---|---|
| app/src/main/java/org/traccar/client/BluetoothTimedConnection.java:91-114 | a buffer that does not begin with "01410005" is cleared, including one shorter than the marker | a 117-byte frame starting 01 41 00 05, delivered as a first chunk of 1 to 3 bytes and then the rest: the first text (2 to 6 characters) is cleared and the second does not begin with the marker, so the frame is lost | a buffer that is still a proper prefix of the marker is kept, so every split of a frame is delivered once | not executed | TimedConnection.SplitMarkerLost | TimedConnection.SplitFrameKeepingPrefix |
