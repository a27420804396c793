# Handlebar-display request decoder

This project models the listener in `rcv_lcd_requests.py`. The listener reads the
requests that an e-scooter's handlebar display sends over a UART, one byte at a
time. It assembles 15-byte frames. Each frame starts with the magic bytes
`01 03`, carries a sequence number, padding and setting bytes, and ends with an
XOR checksum. For every accepted frame the listener reports the time since the
previous frame, the pedal-assist, cruise-control and soft-start switches (bits
1, 2 and 3 of byte 6), the power limit (byte 7) and the EABS level (byte 10).

The model has three modules:

- `LcdFields` (`fields.dfy`) holds the pure helpers:
  - `decode_flag`, the bit extractor, as `DecodeFlag`. It is proved equal to `(b >> p) & 1` on `bv8`;
  - `decode_short`, big-endian `int.from_bytes`, as `DecodeShort`. It is proved inverse to an encoder;
  - the byte XOR that the checksum uses, as `Xor`. It is proved bitwise.
- `LcdDecoder` (`decoder.dfy`) holds the read loop's body:
  - as a step function, `Step`, over the listener's module-level state `State`;
  - as `Run`, over a whole byte stream;
  - as the class `Decoder`. Its fields are the listener's state variables and its receive buffer is an `array<byte>`. `Decoder.Feed` is one pass of the loop and `Decoder.Listen` is the loop. Each is proved to perform exactly `Step` or `Run` on its abstract state, and to keep the between-bytes invariant `Inv`.
- `LcdDecoderProperties` (`decoder_lemmas.dfy`) holds what the decoder does:
  - the frame-end and accept rules;
  - early ends on a bad prefix;
  - the one-way synchronisation flag;
  - the outcome of a whole well-prefixed frame;
  - a concrete decoded frame;
  - the stale-checksum finding below.

The code fixes four behaviours that a reader might expect otherwise, and the
model keeps them:

- A byte that fails the prefix check or the first-sequence check ends the frame
  on that byte, and the cursor returns to 0. The frame is not collected to length 15.
- The switches are read from buffer byte 6, not from the `config_flags` field,
  which holds byte 9.
- Flag byte 14 sets all three reported switches to 1 (`FlagExamples`).
- There is no separate rejection reason for a bad prefix or a bad sequence.
  Every frame end goes through the checksum comparison.

The accumulator never holds the byte that ends the frame. At position 14 that
byte is the transmitted checksum. After an early end it is the offending byte.
The comparison uses whatever `checksum` holds at that moment. After a bad
second byte, that is the checksum of the last frame that reached position 14.
While the decoder waits for its first frame, no frame has reached position 14,
so `checksum` is still 0 and a bad first sequence is always rejected. The buffer
keeps the bytes of older frames beyond the cursor. The model keeps all of these
behaviours.

## Model

| member | source | states |
|---|---|---|
| LcdFields.DecodeFlag | rcv_lcd_requests.py:46-47 | the flag is 0 or 1 |
| LcdFields.DecodeFlagIsBit | rcv_lcd_requests.py:46-47 | the flag equals `(b >> p) & 1` on 8-bit vectors at positions 0..7, and is 0 past the byte |
| LcdFields.FlagExamples | rcv_lcd_requests.py:13-15 | flag byte 2 gives pedal assist 1, cruise 0, soft start 0; flag byte 14 gives 1, 1, 1 |
| LcdFields.XorIsBitwise | rcv_lcd_requests.py:94 | each bit of `Xor(a, b)` is the sum modulo 2 of that bit of `a` and of `b` |
| LcdFields.XorNatUnits | rcv_lcd_requests.py:94 | XOR with 0 is the identity and XOR with itself gives 0 |
| LcdFields.DecodeShort | rcv_lcd_requests.py:43-44 | the big-endian value of `k` bytes is below 256^k |
| LcdFields.DecodeEncode | rcv_lcd_requests.py:43-44 | decoding the k-byte big-endian encoding of any n < 256^k gives n |
| LcdFields.EncodeDecode | rcv_lcd_requests.py:43-44 | re-encoding a decoded byte string at its own length gives the same bytes |
| LcdFields.DecodeShortPair | rcv_lcd_requests.py:43-44 | two bytes decode to hi * 256 + lo |
| LcdDecoder.Initial | rcv_lcd_requests.py:26-41 | the start-up state (zeroed buffer, cursor 0, valid, waiting for the first frame) satisfies the between-bytes invariant |
| LcdDecoder.Dispatch | rcv_lcd_requests.py:51-91 | the byte is stored at the cursor and no other buffer slot changes; the cursor, accumulator and clock are untouched |
| LcdDecoder.FrameEnd | rcv_lcd_requests.py:97-113 | a frame end always reports the buffer; it reports Decoded exactly when the accumulator is non-zero and equals the stored checksum |
| LcdDecoder.Step | rcv_lcd_requests.py:50-116 | one byte changes only its own buffer slot; either no event and the cursor advances by one, or an event and the cursor returns to 0 |
| LcdDecoder.Run | rcv_lcd_requests.py:50 | the loop yields one event per byte and keeps the buffer size and the cursor bound |
| LcdDecoder.StepKeepsInv | rcv_lcd_requests.py:51-116 | every byte keeps the invariant: the accumulator is the XOR of the buffer bytes before the cursor, the taken bytes passed their checks, each named field equals its slot (sequence 2, entropy 5, power 7, config 9, EABS 10, checksum 14), and the checksum is 0 while waiting for the first frame |
| LcdDecoder.StepKeepsFirstChecksum | rcv_lcd_requests.py:63-91 | while the decoder waits for its first frame, no byte stores a checksum |
| LcdDecoder.AdvanceKeepsProgress | rcv_lcd_requests.py:93-95 | a byte that does not end the frame extends the XOR prefix by itself |
| LcdDecoder.CloseEmptiesProgress | rcv_lcd_requests.py:114-116 | a byte that ends the frame leaves an empty frame in progress |
| LcdDecoder.RunKeepsInv | rcv_lcd_requests.py:50-116 | the invariant holds after any byte stream |
| LcdDecoder.Decoder.constructor | rcv_lcd_requests.py:26-41 | the fields start as the start-up state, with a fresh buffer |
| LcdDecoder.Decoder.Take | rcv_lcd_requests.py:51-91 | the in-place dispatch performs Dispatch on the abstract state |
| LcdDecoder.Decoder.Close | rcv_lcd_requests.py:96-116 | the in-place frame end reports FrameEnd and resets the cursor, the accumulator and the validity flag, recording the clock |
| LcdDecoder.Decoder.Feed | rcv_lcd_requests.py:51-116 | one pass performs Step on the abstract state, keeps the invariant and the buffer, and changes only the cursor's buffer slot |
| LcdDecoder.Decoder.Listen | rcv_lcd_requests.py:50-116 | the loop's events and final state are those of Run on the whole stream |
| LcdDecoderProperties.FrameEndsExactly | rcv_lcd_requests.py:55-95 | a valid frame goes on exactly when the cursor is before 14 and the byte passes its check; it then XORs the byte into the accumulator |
| LcdDecoderProperties.FrameEndResets | rcv_lcd_requests.py:96-116 | after every frame end the cursor is 0, the accumulator 0, the frame valid and the clock recorded; the buffer, checksum and sync flag keep what the byte left |
| LcdDecoderProperties.AcceptRule | rcv_lcd_requests.py:105-113 | Decoded exactly when the accumulator is non-zero and equals the stored checksum; the readout comes from buffer bytes 6, 7 and 10 and the interval since the last frame end; otherwise Rejected with the parsed and calculated checksums |
| LcdDecoderProperties.ZeroChecksumRejected | rcv_lcd_requests.py:105 | an accumulator of 0 is never accepted |
| LcdDecoderProperties.BadFirstByte | rcv_lcd_requests.py:55-58 | a first byte other than 0x01 ends the frame on that byte and is always rejected |
| LcdDecoderProperties.BadSecondByte | rcv_lcd_requests.py:59-62 | a second byte other than 0x03 ends the frame on that byte; it is decoded exactly when the stale checksum is 0x01 |
| LcdDecoderProperties.BadFirstSequence | rcv_lcd_requests.py:63-71 | while waiting for the first frame, a sequence other than 2 ends the frame, keeps the decoder waiting, and is rejected with calculated checksum 0x02 |
| LcdDecoderProperties.BadFirstSequenceRejected | rcv_lcd_requests.py:63-71 | from start-up, after any stream, a bad sequence read while still waiting for the first frame is rejected |
| LcdDecoderProperties.SyncFlagStep | rcv_lcd_requests.py:63-71 | the sync flag is cleared by sequence byte 2 or by any sequence byte once it is clear, and is never set |
| LcdDecoderProperties.SyncIsPermanent | rcv_lcd_requests.py:63-71 | once synchronised, the decoder stays synchronised for any further stream |
| LcdDecoderProperties.RunAppend | rcv_lcd_requests.py:50 | running two streams in turn is running their concatenation |
| LcdDecoderProperties.FramePrefix | rcv_lcd_requests.py:51-95 | during the first k < 15 bytes of a well-prefixed frame no event occurs, the accumulator is their XOR and the buffer holds them in front of stale bytes |
| LcdDecoderProperties.LastByte | rcv_lcd_requests.py:89-116 | the byte at position 14 of a valid frame ends it and is compared as the checksum |
| LcdDecoderProperties.FrameOutcome | rcv_lcd_requests.py:50-116 | a whole well-prefixed frame yields fourteen empty events, then Decoded with its readout exactly when the XOR of its first 14 bytes is non-zero and equals byte 14, else Rejected; the decoder ends synchronised at cursor 0 |
| LcdDecoderProperties.DecodedFrameXorsToZero | rcv_lcd_requests.py:89-113 | the buffer reported by a frame decoded at position 14 XORs to 0 over all 15 bytes |
| LcdDecoderProperties.SampleChecksum | rcv_lcd_requests.py:94 | the XOR of the sample frame's first 14 bytes is 0x35 |
| LcdDecoderProperties.SampleFrameDecoded | rcv_lcd_requests.py:105-113 | a fresh decoder decodes the sample frame with power limit 0x64, EABS 0xC8 and all switches off |
| LcdDecoderProperties.StaleChecksumAcceptsBadFrame | rcv_lcd_requests.py:59-62 | after a decoded frame with checksum 0x01, the bytes 01 00 are reported as a decoded frame |
| LcdDecoder.StepChecked | rcv_lcd_requests.py:105 | the corrected step's state is that of Step |
| LcdDecoderProperties.CheckedDecodesOnlyCompleteFrames | rcv_lcd_requests.py:105-113 | the corrected step decodes only frames that reached position 14 with the magic prefix and a non-zero checksum equal to the XOR of the first 14 bytes |
| LcdDecoderProperties.CheckedAgreesOnValidBytes | rcv_lcd_requests.py:55-71 | on a byte that passes its check the corrected step is the step as written |

## Left out

- Argument parsing (lines 17-22) and opening the serial port (line 49) are left out. The byte stream is a parameter of `Decoder.Listen`. The loop ends when the stream is exhausted, which stands for a read that times out.
- The console output (`print`, `binascii.hexlify`) is left out. It is replaced by the `Event` value each byte yields. `Rejected` carries the parsed and calculated checksums that the listener prints.
- The clock `datetime.datetime.now()` is a parameter `now` of `Step` and `Decoder.Feed`, and the start time is a parameter of the constructor. The interval is the difference of two integers, not a `timedelta`.
- `BAUD_RATE`, `READ_TIMEOUT`, `WHEEL_PERIMETER`, `PAYLOAD_SIZE` and `payload_byte` are left out, because the loop never uses them.
- `decode_short` is modelled, but the loop never calls it.
- DecodeFlag takes a non-negative position. Python raises on a negative shift count, and the listener only uses positions 1 to 3.

## Findings

| source | as written | input that shows it | evidently intended | confidence | as-written member | corrected member |
|---|---|---|---|---|---|---|
| rcv_lcd_requests.py:105 | the accept test checks only `checksum_calc == 0 or checksum != checksum_calc`, not `valid_frame`, so a frame ended early by a bad second byte is compared against the checksum an earlier frame left | the frame 01 03 02 01 00 00 00 00 00 00 00 00 00 00 01, then the bytes 01 00: the second frame is reported as decoded, with a bad second byte | a frame that failed the prefix check is never reported as decoded | not executed | LcdDecoderProperties.StaleChecksumAcceptsBadFrame | LcdDecoderProperties.CheckedDecodesOnlyCompleteFrames |

`LcdDecoder.StepChecked` is the corrected step. It rejects at the accept test any frame that its byte invalidated. `Step`, `Run` and the `Decoder` class keep the behaviour as written, so that they stay faithful to the listener. `CheckedAgreesOnValidBytes` shows that the two steps differ only on the byte that invalidates a frame.
