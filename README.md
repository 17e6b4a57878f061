# AX.25 / KISS packet codec of the subscale telemetry payload

The payload script `payloadTelemetrySubscale.py` sends its apogee report to a Direwolf
modem over TCP. Before sending, it encodes the report in two layers:

1. an AX.25 UI frame (`create_ax25_frame`). The frame is the destination address
   entry, the source address entry, control `0x03`, PID `0xF0`, then the message as
   ASCII. Each address entry (`ax25_encode_call`) is the callsign space-padded to six
   characters, each character shifted left one bit, then the SSID octet
   `((ssid & 0x0F) << 1) | 0x60`. Bit 0 of that octet is the last-address flag; in
   this frame only the source entry sets it.
2. a KISS data frame (`kiss_encode`): `FEND`, the command byte `0x00`, the AX.25
   frame with `0xC0` escaped as `0xDB 0xDC` and `0xDB` escaped as `0xDB 0xDD`, then
   `FEND`. This is the framing of the KISS TNC protocol (Chepponis and Karn, 1987).

The model has four modules. Each one has the pure functions that define what the code
computes. Where the source builds a `bytearray` step by step, there is also a method
that does the same and is proved equal to the function. Decoders that the source does
not have (`Kiss.Decode`, `Ax25.ParseAddress`, `Ax25.ParseUiFrame`,
`Packet.Disassemble`) are the partners of the round-trip lemmas.

- `Bytes`: an octet is an integer 0..255, as in a Python `bytearray`. The module also
  has bit `k` of a number, Python's `|` written out bit by bit (`BitOr`), and
  `str.encode("ascii")`.
- `Kiss`: the constants of lines 20-24, byte stuffing, the frame, the encoder's loop,
  and its decoder.
- `Ax25`: `str.ljust(6)`, the address entry, the UI frame, and their parsers.
- `Packet`: the encode-and-frame step of `send_aprs_packet` (lines 128-130), called
  `Assemble`.

Points of the code's behaviour that the model keeps:

- Bit 7 of the SSID octet is always clear: the code ORs in `0x60` only
  (`Ax25.SsidByteLayout`).
- The code rejects neither long callsigns nor out-of-range SSIDs. `ljust` keeps a
  longer callsign whole, so the entry gets longer. `& 0x0F` keeps the low four bits
  of any integer, negative ones too, which equals `ssid % 16`. The model does the
  same, so the seven-octet layout lemmas require a callsign of at most six characters.
- The only error the model keeps as an error path is `UnicodeEncodeError` from
  `data.encode("ascii")` at line 109. This is `Ax25.Error.PayloadEncodingError`. In
  that case no frame and no packet is produced.
- The `ValueError` that `bytearray` raises at line 80 for a callsign character at or
  above 128 becomes the precondition `IsAscii(call)`.

## Model

| member | source | states |
|---|---|---|
| Bytes.IsAscii | payloadTelemetrySubscale.py:109 | the strings `encode("ascii")` accepts: every character below 128, stated both by position and by membership |
| Bytes.AsciiBytes | payloadTelemetrySubscale.py:109 | `data.encode("ascii")` gives one octet per character, equal to its code and below 0x80 |
| Bytes.CharsAsciiBytes | payloadTelemetrySubscale.py:109 | decoding the ASCII bytes as characters gives the message back |
| Bytes.BitOr | payloadTelemetrySubscale.py:81-83 | Python's OR on non-negative integers: the result is at least each operand and at most their sum, and its bit 0 is set exactly when either operand's is |
| Bytes.BitOrDisjoint | payloadTelemetrySubscale.py:81 | `x OR c*2^k` is `x + c*2^k` when `x < 2^k` (the OR of disjoint bit fields); proved by induction over the bits |
| Bytes.BitOrOne | payloadTelemetrySubscale.py:82-83 | OR-ing 0x01 into an even octet (`ssid_byte` OR-assign 0x01) adds one |
| Kiss.Escape | payloadTelemetrySubscale.py:52-60 | one data byte becomes one or two octets, two exactly for 0xC0 and 0xDB, never starting with a raw 0xC0 |
| Kiss.EscapeUnstuff | payloadTelemetrySubscale.py:52-60 | unescaping the escape of any byte gives that byte back |
| Kiss.Stuff | payloadTelemetrySubscale.py:51-60 | the escaped body is `len(data) + count(data, 0xC0) + count(data, 0xDB)` octets long |
| Kiss.StuffTransparent | payloadTelemetrySubscale.py:51-60 | the escaped body holds no raw 0xC0, and every 0xDB in it is followed by 0xDC or 0xDD |
| Kiss.StuffSnoc | payloadTelemetrySubscale.py:51-60 | escaping one more byte appends exactly that byte's escape (the loop body) |
| Kiss.StuffAppend | payloadTelemetrySubscale.py:51-60 | escaping distributes over concatenation |
| Kiss.StuffPlain | payloadTelemetrySubscale.py:58-60 | data with no 0xC0 and no 0xDB is copied unchanged |
| Kiss.Frame | payloadTelemetrySubscale.py:50-61 | the frame starts `0xC0 0x00`, ends `0xC0`, has `len(data) + 3 + count(0xC0) + count(0xDB)` octets, and its positions 2..n-2 are the escaped data |
| Kiss.FrameDelimiters | payloadTelemetrySubscale.py:50-61 | 0xC0 occurs in the frame exactly at its first and last position |
| Kiss.FramePlain | payloadTelemetrySubscale.py:50-61 | data with no special byte is framed as `0xC0 0x00 data 0xC0` |
| Kiss.Encode | payloadTelemetrySubscale.py:37-62 | the loop that grows `kiss_frame` returns exactly `Frame(data)` |
| Kiss.UnstuffStuff | payloadTelemetrySubscale.py:51-60 | bytewise unescaping inverts escaping, by induction on the data |
| Kiss.DecodeFrame | payloadTelemetrySubscale.py:50-61 | round trip: `Decode(Frame(x)) == Some(x)` for every byte sequence x |
| Kiss.DecodedIsFrame | payloadTelemetrySubscale.py:50-61 | whatever the decoder accepts is the frame of what it returns |
| Kiss.DecodeIff | payloadTelemetrySubscale.py:50-61 | `Decode(f) == Some(x)` if and only if `f == Frame(x)` |
| Kiss.EscapeExamples | payloadTelemetrySubscale.py:52-57 | `0xC0` is sent as `0xDB 0xDC`, `0xDB` as `0xDB 0xDD`, other bytes as themselves |
| Ax25.Pad | payloadTelemetrySubscale.py:79 | `ljust(6)`: length max(6, len(call)), the callsign as prefix, spaces after it, no truncation |
| Ax25.ShiftedCall | payloadTelemetrySubscale.py:80 | `ord(c) << 1` per character: same length, every octet even, and halving it gives the character's code |
| Ax25.SsidByte | payloadTelemetrySubscale.py:81-84 | the octet is `2*(ssid mod 16) + 0x60`, plus 1 when last |
| Ax25.ReservedBits | payloadTelemetrySubscale.py:81 | OR-ing 0x60 into a value below 32 adds 0x60 |
| Ax25.AddressField | payloadTelemetrySubscale.py:79-85 | the entry is one octet longer than the padded callsign |
| Ax25.EncodeCall | payloadTelemetrySubscale.py:64-85 | the method (shift, SSID octet, in-place OR with 0x01, append) returns exactly `AddressField` |
| Ax25.SsidByteLayout | payloadTelemetrySubscale.py:81-84 | bit 0 is the last flag; `(b >> 1) & 0x0F` is `ssid mod 16`, and is `ssid` for ssid in 0..15, so 0 and 15 are included; bits 5 and 6 are set; bit 7 is clear |
| Ax25.AddressFieldLayout | payloadTelemetrySubscale.py:79-85 | a callsign of at most 6 characters gives 7 octets; octet i < 6 is `ord(padded[i]) << 1`, bit 0 clear, and `>> 1` gives the character; octet 6 is the SSID octet |
| Ax25.EmptyCallsign | payloadTelemetrySubscale.py:79-85 | the empty callsign gives six 0x40 octets, then the SSID octet |
| Ax25.ParseAddressField | payloadTelemetrySubscale.py:79-84 | round trip of an entry: padded callsign, SSID mod 16 and the flag come back; a 6-character callsign comes back unpadded; an SSID in 0..15 comes back as itself |
| Ax25.UiFrame | payloadTelemetrySubscale.py:87-110 | the value of `create_ax25_frame`: a frame exactly when the message is ASCII, otherwise `PayloadEncodingError`; its length is that of the two padded callsigns, plus four octets (two SSID octets, control and PID), plus one per message character |
| Ax25.CreateFrame | payloadTelemetrySubscale.py:87-110 | the method (extend, extend, append, append, encode, extend) returns exactly `UiFrame`, an error for a non-ASCII message included |
| Ax25.UiFrameLayout | payloadTelemetrySubscale.py:101-110 | a frame exists if and only if the message is ASCII; it is then destination entry, source entry (last), 0x03, 0xF0, the ASCII bytes, 16 + len(data) octets |
| Ax25.OnlySourceIsLast | payloadTelemetrySubscale.py:103-105 | among address octets 0..13, bit 0 is set exactly at octet 13: the source is the only (and last) entry marked last |
| Ax25.ParseUiFrameRoundTrip | payloadTelemetrySubscale.py:101-110 | parsing the frame gives destination then source (despite the source-first parameters), their SSIDs mod 16, and the message |
| Ax25.BeaconDestination | payloadTelemetrySubscale.py:152-153 | `APRS`, SSID 0 encodes as `82 A0 A4 A6 40 40 60` |
| Ax25.BeaconSource | payloadTelemetrySubscale.py:150-151 | `KQ4FYU`, SSID 1, last encodes as `96 A2 68 8C B2 AA 63` |
| Ax25.BeaconFrame | payloadTelemetrySubscale.py:101-110 | the script's frame is those two entries, `03 F0`, then the message's ASCII bytes |
| Packet.Assemble | payloadTelemetrySubscale.py:128-130 | the bytes sent: produced exactly when the message is ASCII, otherwise the frame builder's `PayloadEncodingError`; KISS-decoding them gives back the AX.25 frame |
| Packet.EncodePacket | payloadTelemetrySubscale.py:128-130 | building the AX.25 frame and then KISS-encoding it gives exactly `Assemble`, and the frame builder's error passes through unchanged |
| Packet.AssembleLayout | payloadTelemetrySubscale.py:128-130 | bytes are produced if and only if the message is ASCII, otherwise the error; they start `C0 00`, end `C0`, carry the escaped UI frame and decode back to it |
| Packet.AssembleRoundTrip | payloadTelemetrySubscale.py:128-130 | KISS-decoding and parsing what is sent gives back padded destination and source, SSIDs mod 16 and the message |
| Packet.MessageUnescaped | payloadTelemetrySubscale.py:109 | an ASCII information field never needs KISS escaping |
| Packet.BeaconPacket | payloadTelemetrySubscale.py:128-130 | for "!Highest apogee = 123.4" from KQ4FYU-1 to APRS-0 the bytes sent are `C0 00`, the 16 header octets, the message's ASCII bytes, `C0` |

## Left out

- Starting and waiting on the Direwolf process (lines 11-15, 176): the lifecycle of an external process.
- BMP3xx sensor setup over I2C (lines 26-35) and `get_apogee` (lines 156-167): hardware I/O and an unbounded polling loop over floating-point readings. Its `apogee_reached = True` assigns a local variable, not the global one.
- Formatting the apogee into text (line 170): floating point. The model takes the message as any string; `BeaconPacket` uses `123.4` only as an example value.
- GPIO setup, output and cleanup, the TCP connection and `sendall`, and `time.sleep(15)` in `send_aprs_packet` (lines 133-146): hardware, network and timing.
- The loop that sends the packet ten times (lines 172-173): it only repeats the same call.
- A callsign character at or above 128: the source raises `ValueError` from `bytearray`. The model requires ASCII callsigns and does not model that exception.
- The `bytearray` buffers are modelled as sequences that the methods reassign. Nothing else holds a reference to them, so aliasing does not arise.
