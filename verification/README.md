# Branch controller core, modelled in Dafny

The branch controller is a Teensy 4.1 board that drives eight WS2811 LED
strips of 550 pixels each. This project models the parts of its firmware
that decide what the strips show and what the board keeps or installs:

- **Open Pixel Control server** (`lib/OpenPixelControl/OpenPixelControl.cpp`):
  - a resumable decoder for the Open Pixel Control wire format: a 4-byte
    header of channel, command and big-endian length, then RGB triples;
  - it drains what a TCP client has sent and validates each header;
  - it repaints one strip of the frame buffer per accepted payload chunk;
  - it coalesces hardware refreshes so a multi-channel frame is shown once.
- **LED engine** (`lib/LED/LED.cpp`):
  - integer colour packing and the HSL conversion;
  - flat pixel addressing;
  - the per-tick pattern choice (off, client-driven, solid or red test ramp);
  - the frame-rate counter and the mode setters.
- **Persisted settings** (`lib/Persist/Persist.cpp`): the settings struct is
  kept in EEPROM behind the signature `'b','C'` and carries its own size as a
  version. `write` stores it; `setup` loads it back or falls back to defaults.
- **Over-the-air updates**, two Intel HEX upload handlers:
  - the `TeensyOtaUpdater` state machine (`lib/Ota/TeensyOtaUpdater.cpp`);
  - the simpler line assembler of `lib/Ota/Ota.cpp`.
- **MAC address** (`lib/TcpServer/MacAddress.cpp`): six bytes unpacked from
  two fuse registers.

## How the model is built

Each source file keeps its own shape.

**Global state becomes a class.** The pixel buffer, the EEPROM, the `line`
buffer and the `mac` array are `array`s. Loops stay loops, with invariants.

**Each step is also a pure function.** Every stateful operation has a
specification function:

| method | specification function |
|---|---|
| `ReadAvailable` | `Poll` |
| `Setup` | `Recall` |
| `Write` | `Written` |
| `StartOta` | `Upload` |
| `HandleUpload` | `Handle` |
| `Read` | `Unpack` |

The method's postcondition says it computes that function. The properties are
then proved about the function.

**The Open Pixel Control decoder is checked against a reference framing.**
`OpcFraming.Split` is a stand-alone framing of a byte stream. The decoder's
globals are proved to agree with `Split` of every byte read since the client
connected, whatever the chunking. This is what pins down:

- which message each byte belongs to;
- what each strip shows;
- when a refresh happens.

**Code outside the core becomes parameters.** These are all function-valued
fields of an `Env` supplied by the caller:

- the Intel HEX parser `parse_hex_line`;
- the record processor `process_hex_record`;
- the flash primitives;
- `check_flash_id`;
- the buffer allocator.

Calls into the firmware buffer are recorded in a ghost log of `Effect`s:

- `Stored(dest, num, flash)` for a copy or a flash write;
- `Freed(addr, size)` for freeing the buffer.

Time (`millis()`) and the fuse registers are also parameters.

**Machine integers are explicit.** Types are `byte`, `u16` and `u32`, and
`uint32_t` arithmetic wraps explicitly with `Wrap` (`% 2^32`).

## Model

| member | source | states |
|---|---|---|
| Board.Min | lib/OpenPixelControl/OpenPixelControl.cpp:119 | the minimum of two values: below both and equal to one of them |
| Color.MakeColorRgb | lib/LED/LED.cpp:34-40 | result within 0..0xFFFFFF; each channel unpacks to its input clamped to 255 |
| Color.MakeColorRgbInjective | lib/LED/LED.cpp:34-40 | for byte inputs, two packed colours are equal iff all three channels are |
| Color.H2Rgb | lib/LED/LED.cpp:42-48 | for v1 <= v2 the unsigned difference does not wrap, and the result lies between v1*60 and v2*60 |
| Color.Var2Bounds | lib/LED/LED.cpp:73-78 | var2 <= 10000 and var2 <= 200*lightness, so var1 = lightness*200 - var2 does not wrap and var1 <= var2 |
| Color.HslChannel | lib/LED/LED.cpp:79-81 | one channel scaled by 255/600000: 0 when var2 is 0, 255 when var1 is 10000 |
| Color.HslChannelsInRange | lib/LED/LED.cpp:79-81 | the scaled channel is at most 255 and the product h2rgb*255 stays below 2^32 |
| Color.MakeColorHsl | lib/LED/LED.cpp:60-84 | result within 0..0xFFFFFF; saturation 0 gives grey lightness*255/100 in every channel; lightness 0 is BLACK; lightness >= 100 is WHITE |
| Color.HslHuePeriodic | lib/LED/LED.cpp:65 | hue h and hue h % 360 give the same colour |
| Color.HslClamps | lib/LED/LED.cpp:66-67 | saturation and lightness above 100 behave exactly as 100 |
| Led.PixelIndex | lib/LED/LED.cpp:108-110 | the flat index strip*LEDS_PER_STRIP + led is in the buffer and decodes back to (strip, led) |
| Led.PixelIndexInjective | lib/LED/LED.cpp:108-110 | two (strip, led) pairs share a flat index iff they are equal |
| Led.FrameRateStep | lib/LED/LED.cpp:165-178 | once `millis()` passes the uint32-wrapped window end the counter restarts at 0 with the window at `now`; otherwise it counts one frame modulo 2^32 and the window stays |
| Led.NextHue | lib/LED/LED.cpp:156 | the `uint8_t` hue increments and wraps from 255 to 0 |
| Led.HueAfterMod | lib/LED/LED.cpp:138-156 | after n test-pattern ticks the hue is (hue + n) mod 256 |
| Led.FramesWithinWindow | lib/LED/LED.cpp:165-178 | while the 1000 ms window has not elapsed the counter counts frames modulo 2^32 and the window start stays |
| Led.FramesWindowRestart | lib/LED/LED.cpp:169-177 | the first frame after the window elapses resets the count to 0 and restarts the window at its own time |
| Led.TickOf | lib/LED/LED.cpp:116-134 | the four-way choice of `loop`, in source order: power off, client connected, solid pattern, test pattern |
| Led.Leds.constructor | lib/LED/LED.cpp:86-99 | starts the frame window at `now` with 0 frames and loads pattern and colour from the persisted settings |
| Led.Leds.LoadPersistentData | lib/LED/LED.cpp:95-99 | pattern and solid colour are copied from the persisted settings; nothing else changes |
| Led.Leds.SetPixel | lib/LED/LED.cpp:108-110 | exactly the flat index strip*LEDS_PER_STRIP + led is written, with the given colour |
| Led.Leds.SetPixelRgb | lib/LED/LED.cpp:112-114 | exactly that one pixel is written, with make_color_rgb(r, g, b) |
| Led.Leds.Show | lib/LED/LED.cpp:210-212 | one more hardware refresh |
| Led.Leds.ShowColor | lib/LED/LED.cpp:101-106 | every pixel holds the colour, then one refresh |
| Led.Leds.CalculateFrameRate | lib/LED/LED.cpp:165-178 | the counter and window start become FrameRateStep of the old values and `now` |
| Led.Leds.PaintTestPattern | lib/LED/LED.cpp:142-147 | the nested strip/LED loops set every pixel of every strip |
| Led.Leds.Loop | lib/LED/LED.cpp:116-163 | per TickOf: power off blanks every pixel and refreshes; client connected writes nothing; solid paints rgbSolidColor and refreshes; test paints make_color_rgb(hue,0,0), advances the hue, refreshes and counts a frame |
| Led.Leds.SetSolidColor | lib/LED/LED.cpp:180-188 | solid pattern selected and mirrored with the colour into the persisted settings; nothing else changes |
| Led.Leds.TestPattern | lib/LED/LED.cpp:190-195 | test pattern selected and mirrored into the persisted settings; nothing else changes |
| Led.Leds.TogglePower | lib/LED/LED.cpp:197-202 | the power flag flips and the new value is returned |
| Led.Leds.OpenPixelClientConnection | lib/LED/LED.cpp:204-208 | the client-connected flag takes the given value |
| OpcFraming.HeaderBytes | lib/OpenPixelControl/OpenPixelControl.cpp:130-132 | a header is four bytes, length high byte first |
| OpcFraming.HeaderBytesParse | lib/OpenPixelControl/OpenPixelControl.cpp:130-132 | decoding four header bytes and encoding them again gives the bytes back |
| OpcFraming.ParseHeaderBytes | lib/OpenPixelControl/OpenPixelControl.cpp:130-132 | encoding a header and decoding it (channel = b0, command = b1, length = b2*256 + b3) gives it back |
| OpcFraming.EffectiveChannel | lib/OpenPixelControl/OpenPixelControl.cpp:142-156 | an accepted message keeps a channel in 1..8; a bad command keeps its raw channel; a set-pixels message with a bad channel gets channel 1 |
| OpcFraming.Split | lib/OpenPixelControl/OpenPixelControl.cpp:104-239 | the messages and pending piece re-assemble to the stream, complete messages carry exactly `length` bytes, and the pending piece is short of its end |
| OpcFraming.SplitFlatten | lib/OpenPixelControl/OpenPixelControl.cpp:104-239 | framing is unique: splitting an encoded well-formed framing gives it back |
| OpcFraming.SplitCons | lib/OpenPixelControl/OpenPixelControl.cpp:229-238 | a complete message at the front of a stream is split off and the rest is framed on its own |
| OpcFraming.FlattenAppend | lib/OpenPixelControl/OpenPixelControl.cpp:104-239 | encoding one more message appends its bytes |
| OpcFraming.SplitExtendHeader | lib/OpenPixelControl/OpenPixelControl.cpp:111-133 | header bytes appended to a stream move its framing as Feed says; a complete header opens its payload, or is a whole message when its length is 0 |
| OpcFraming.SplitExtendPayload | lib/OpenPixelControl/OpenPixelControl.cpp:203-238 | payload bytes, no more than the message still needs, move the framing as Feed says, and the message completes at exactly `length` bytes |
| OpcFraming.SplitFeed | lib/OpenPixelControl/OpenPixelControl.cpp:104-239 | the framing of a longer stream continues the framing of the shorter one |
| OpcFraming.HeadersSeen | lib/OpenPixelControl/OpenPixelControl.cpp:128-170 | one header per complete message, plus the pending one once its header is complete, in stream order |
| OpcFraming.MaxChannelIsMax | lib/OpenPixelControl/OpenPixelControl.cpp:164-168 | MaxChannel bounds every effective channel and is one of them, or 0 with no header |
| OpcFraming.AfterHeader | lib/OpenPixelControl/OpenPixelControl.cpp:164-168 | the highest channel never decreases and covers the new channel; a refresh becomes due iff one was due or channel >= highest |
| OpcFraming.MaxChannelSnoc | lib/OpenPixelControl/OpenPixelControl.cpp:164-168 | updating the highest channel header by header yields the maximum effective channel over all headers |
| OpenPixelControl.RgbAt | lib/OpenPixelControl/OpenPixelControl.cpp:225 | the pixel colour unpacks to the three bytes of triple i of the buffer |
| OpenPixelControl.Repaint | lib/OpenPixelControl/OpenPixelControl.cpp:223-226 | the repainted frame buffer keeps its size |
| OpenPixelControl.RepaintStrip | lib/OpenPixelControl/OpenPixelControl.cpp:223-226 | every pixel of the strip comes from its RGB triple of read_buffer (all LEDS_PER_STRIP of them, stale bytes included) and every other strip is kept |
| OpenPixelControl.RepaintUnique | lib/OpenPixelControl/OpenPixelControl.cpp:223-226 | conversely, a buffer that repaints that strip and keeps the others is the repaint |
| OpenPixelControl.CheckHeader | lib/OpenPixelControl/OpenPixelControl.cpp:130-162 | the validation cascade keeps EffectiveChannel, command and length, and throws the message away exactly when it is not Accepted; there is no multiple-of-3 check |
| OpenPixelControl.Validate | lib/OpenPixelControl/OpenPixelControl.cpp:128-170 | decoded fields, the throw-away flag and the coalescing pair after a complete header (AfterHeader on the effective channel, so discarded messages count too); ixRGB is 0; buffers and screen untouched |
| OpenPixelControl.HeaderStep | lib/OpenPixelControl/OpenPixelControl.cpp:111-170 | reads at least one byte and a suffix of the input remains; ixHeader grows and never passes 4; a short header consumes all input |
| OpenPixelControl.HeaderCount | lib/OpenPixelControl/OpenPixelControl.cpp:111-120 | the header step reads exactly as many bytes as ixHeader grows by, so at most the 4 - ixHeader still missing |
| OpenPixelControl.Refreshed | lib/OpenPixelControl/OpenPixelControl.cpp:232-236 | one more hardware refresh, the frame counter stepped by FrameRateStep, the refresh flag cleared; pixels and every decoder global unchanged |
| OpenPixelControl.BodyStep | lib/OpenPixelControl/OpenPixelControl.cpp:176-238 | the state stays consistent between calls and the call reads a prefix of the input |
| OpenPixelControl.Poll | lib/OpenPixelControl/OpenPixelControl.cpp:104-239 | one call reads a prefix of the input, at least one byte when any is there; with nothing available it changes nothing |
| OpenPixelControl.Restarted | lib/OpenPixelControl/OpenPixelControl.cpp:69-80 | after the connect reset (ixHeader, ixRGB, highest channel 0) the decoder agrees with the empty stream |
| OpenPixelControl.Reset | lib/OpenPixelControl/OpenPixelControl.cpp:69-80 | a new connection zeroes ixHeader, ixRGB, the highest channel and rgHeader and keeps the read buffer, the pixels and cbMessage |
| OpenPixelControl.BodyConsumed | lib/OpenPixelControl/OpenPixelControl.cpp:198-204 | a body read takes min(available, cbMessage - ixRGB) bytes, at least one, never past the current message |
| OpenPixelControl.BodyCloses | lib/OpenPixelControl/OpenPixelControl.cpp:215-218 | the message closes (ixHeader = ixRGB = 0) exactly when `length` payload bytes have been read, and input is left unread only then |
| OpenPixelControl.DiscardEffects | lib/OpenPixelControl/OpenPixelControl.cpp:206-220 | a discarded body writes no pixel, causes no refresh and leaves the coalescing state alone |
| OpenPixelControl.KeepBuffer | lib/OpenPixelControl/OpenPixelControl.cpp:203-204 | a kept body's bytes land after the earlier ones at the front of read_buffer, within 3*LEDS_PER_STRIP |
| OpenPixelControl.KeepEffects | lib/OpenPixelControl/OpenPixelControl.cpp:222-238 | a kept body repaints the strip; a refresh, with a frame counted, happens iff the message completes with a refresh due; the flag is then cleared |
| OpenPixelControl.HeaderEmptyMessage | lib/OpenPixelControl/OpenPixelControl.cpp:185-192 | a zero-length message returns to header state at once, without reading further, repainting or refreshing |
| OpenPixelControl.BodyIdle | lib/OpenPixelControl/OpenPixelControl.cpp:194-196 | with nothing available in a message body, the call changes nothing |
| OpenPixelControl.PollFraming | lib/OpenPixelControl/OpenPixelControl.cpp:104-239 | under any chunking the decoder agrees with Split of every byte read; a call completes at most one message, keeps earlier ones, stops right after the one it completes, and reads something whenever input is there |
| OpenPixelControl.PollTracks | lib/OpenPixelControl/OpenPixelControl.cpp:104-239 | the decoder state after a call agrees with the framing of the longer stream |
| OpenPixelControl.PollPixels | lib/OpenPixelControl/OpenPixelControl.cpp:222-227 | only a call reading body bytes of an accepted message repaints, and only that message's strip channel-1; a completed accepted message's payload sits at the front of read_buffer, so pixel i of the strip is make_color_rgb of payload triple i |
| OpenPixelControl.PollShows | lib/OpenPixelControl/OpenPixelControl.cpp:164-168 | the highest channel and refresh flag follow the header read; a refresh happens exactly when an accepted, non-empty message completes with one due, and the flag is cleared |
| OpenPixelControl.Decoder.constructor | lib/OpenPixelControl/OpenPixelControl.cpp:31-61 | listening, nothing read; ixHeader, ixRGB, channel, command, cbMessage, highest are 0, throwAway and the refresh flag are false; rgHeader and the whole read buffer are zero-filled, which is what a first frame shows for pixels the client did not send |
| OpenPixelControl.Decoder.ReadClient | lib/OpenPixelControl/OpenPixelControl.cpp:222 | `client.read` moves the next n bytes into the buffer at the offset and leaves the rest of the buffer alone |
| OpenPixelControl.Decoder.ReadHeaderBytes | lib/OpenPixelControl/OpenPixelControl.cpp:111-120 | reads min(4 - ixHeader, available) bytes into rgHeader at ixHeader, advances ixHeader by that count and extends the stream with them |
| OpenPixelControl.Decoder.DiscardBytes | lib/OpenPixelControl/OpenPixelControl.cpp:208-213 | the decrementing loop drops n bytes and adds n to ixRGB |
| OpenPixelControl.Decoder.RefreshStrip | lib/OpenPixelControl/OpenPixelControl.cpp:223-226 | the frame buffer becomes Repaint of strip channel-1 from read_buffer |
| OpenPixelControl.Decoder.ClearHeader | lib/OpenPixelControl/OpenPixelControl.cpp:190 | rgHeader is zeroed |
| OpenPixelControl.Decoder.ValidateHeader | lib/OpenPixelControl/OpenPixelControl.cpp:128-170 | the globals take the values of Validate |
| OpenPixelControl.Decoder.ReadHeader | lib/OpenPixelControl/OpenPixelControl.cpp:111-170 | computes HeaderStep; the bytes read extend the stream |
| OpenPixelControl.Decoder.EndEmptyMessage | lib/OpenPixelControl/OpenPixelControl.cpp:185-192 | ixHeader = ixRGB = 0 and rgHeader zeroed |
| OpenPixelControl.Decoder.DiscardBody | lib/OpenPixelControl/OpenPixelControl.cpp:203-220 | drops min(available, cbMessage - ixRGB) bytes, closing the message at its end |
| OpenPixelControl.Decoder.StorePayload | lib/OpenPixelControl/OpenPixelControl.cpp:222-227 | stores min(available, cbMessage - ixRGB) bytes at ixRGB and repaints the strip |
| OpenPixelControl.Decoder.CloseMessage | lib/OpenPixelControl/OpenPixelControl.cpp:229-238 | refreshes and counts a frame iff one is due; clears the flag; waits for the next header |
| OpenPixelControl.Decoder.KeepBody | lib/OpenPixelControl/OpenPixelControl.cpp:222-238 | computes BodyStep for an accepted message |
| OpenPixelControl.Decoder.ReadBody | lib/OpenPixelControl/OpenPixelControl.cpp:176-238 | computes BodyStep |
| OpenPixelControl.Decoder.Advance | lib/OpenPixelControl/OpenPixelControl.cpp:104-239 | computes Poll on the globals |
| OpenPixelControl.Decoder.ReadAvailable | lib/OpenPixelControl/OpenPixelControl.cpp:104-239 | computes Poll and keeps the globals agreeing with the framing of every byte read since the client connected |
| OpenPixelControl.Decoder.Accept | lib/OpenPixelControl/OpenPixelControl.cpp:69-80 | on connect: reports the client to the LED engine, starts a new stream, and the decoder state becomes Reset of the old one (the highest channel, ixHeader, ixRGB and rgHeader zeroed; the refresh flag, the read buffer and the pixels kept) |
| OpenPixelControl.Decoder.Drop | lib/OpenPixelControl/OpenPixelControl.cpp:85-94 | on disconnect: listening again and the LED engine told, with the decoder globals untouched |
| OpenPixelControl.Decoder.Serve | lib/OpenPixelControl/OpenPixelControl.cpp:83-99 | a gone client is dropped without reading; otherwise one Poll |
| OpenPixelControl.Decoder.Loop | lib/OpenPixelControl/OpenPixelControl.cpp:63-101 | listening with no client changes nothing; a new client is served in the same call, so the state is Poll of Reset of the old state over its bytes (or Reset alone if it is already gone); a connected client is polled by Poll; a client that has gone leaves the decoder state, input and stream unchanged |
| Persist.Cb | lib/Persist/Persist.cpp:39-42 | the little-endian `uint16_t` of the first two bytes |
| Persist.CbOnDisk | lib/Persist/Persist.cpp:39-42 | the size field stored at EEPROM offsets 2 and 3 |
| Persist.Written | lib/Persist/Persist.cpp:94-101 | the EEPROM is signed, struct byte i is at offset i+2, and every offset past the struct is unchanged |
| Persist.Recall | lib/Persist/Persist.cpp:10-71 | setup ends with a struct of the current size whose cb is kept, and a signed EEPROM |
| Persist.SameCb | lib/Persist/Persist.cpp:46-55 | equal size fields mean equal first two bytes |
| Persist.RecallUnsigned | lib/Persist/Persist.cpp:36-71 | without the signature the defaults are kept and written out |
| Persist.RecallStale | lib/Persist/Persist.cpp:46-50 | a stored size other than sizeof(data) keeps the defaults and rewrites them |
| Persist.RecallLoads | lib/Persist/Persist.cpp:51-62 | with signature and size matching, struct bytes 2.. come from offsets 4.., cb is not read again, and the EEPROM is left alone |
| Persist.RecallWritten | lib/Persist/Persist.cpp:54-62 | round trip: setup after write of a struct of the current size restores exactly that struct and leaves the EEPROM as written |
| Persist.RecallIdempotent | lib/Persist/Persist.cpp:10-71 | a second boot finds what the first left: setup is idempotent |
| Persist.Persisted.constructor | lib/Persist/Persist.cpp:8 | a struct image of the given size and an EEPROM with the given cells |
| Persist.Persisted.Write | lib/Persist/Persist.cpp:89-104 | the EEPROM becomes Written of the struct image |
| Persist.Persisted.Load | lib/Persist/Persist.cpp:53-62 | the struct becomes EEPROM offsets 2.., its cb bytes unchanged |
| Persist.Persisted.Setup | lib/Persist/Persist.cpp:10-87 | struct and EEPROM become Recall of the old EEPROM and the defaults; the struct carries its own size |
| OtaUpdater.StripNewLine | lib/Ota/TeensyOtaUpdater.cpp:380-392 | skips at most two bytes and never more than are there; only '\r'/'\n' are skipped; 0 when the first byte is not a newline; stops only at a non-newline, the end, or 2 |
| OtaUpdater.Step | lib/Ota/TeensyOtaUpdater.cpp:244-349 | one pass never enters Apply; a pass that goes on consumes input or moves to a lower-ranked state; it never rewinds off or drops a logged buffer call; it returns early only from Apply, unchanged; an error page leaves it in Error |
| OtaUpdater.Run | lib/Ota/TeensyOtaUpdater.cpp:243-350 | the loop terminates (decreasing remaining bytes, then state rank); it returns early only from Apply, with nothing changed and ApplyingPrevious |
| OtaUpdater.RunContinues | lib/Ota/TeensyOtaUpdater.cpp:243-350 | a pass that goes on hands the rest of the loop to the next pass |
| OtaUpdater.RunStops | lib/Ota/TeensyOtaUpdater.cpp:243-350 | a pass that stops ends the loop |
| OtaUpdater.Epilogue | lib/Ota/TeensyOtaUpdater.cpp:352-368 | after `done:` the state is Idle, SkipNewline, Complete or Apply; Error goes to Idle with the buffer freed and buffer_addr 0; otherwise only the state changes |
| OtaUpdater.Upload | lib/Ota/TeensyOtaUpdater.cpp:234-369 | StartOta leaves a settled state; Apply is only ever kept unchanged; any error page other than ApplyingPrevious leaves Idle with buffer_addr 0; logged buffer calls are kept |
| OtaUpdater.ApplyKept | lib/Ota/TeensyOtaUpdater.cpp:333-337 | a non-empty chunk during a pending update is refused and changes nothing |
| OtaUpdater.ApplyDroppedByEmptyChunk | lib/Ota/TeensyOtaUpdater.cpp:352-368 | an empty chunk skips the loop, so a pending Apply falls to Complete (final) or SkipNewline |
| OtaUpdater.LingeringChunk | lib/Ota/TeensyOtaUpdater.cpp:273-276 | in Idle, a chunk with index != 0 is ignored; only a final one moves to Complete |
| OtaUpdater.Starts | lib/Ota/TeensyOtaUpdater.cpp:245-272 | in Idle, a chunk at index 0 resets hexInfo (min 0xFFFFFFFF, max 0, lines 0) and goes to SkipNewline with the created buffer, or to Error with NoBuffer |
| OtaUpdater.StoreGuarded | lib/Ota/TeensyOtaUpdater.cpp:312-331 | a pass stores into the buffer only from CopyLine on a data record whose max is within FLASH_BASE_ADDR + buffer_size, and logs exactly that copy or flash write |
| OtaUpdater.AddressRejected | lib/Ota/TeensyOtaUpdater.cpp:316-319 | a data record with max past the buffer goes to Error before anything is copied or written |
| OtaUpdater.TeensyOtaUpdater.constructor | lib/Ota/TeensyOtaUpdater.cpp:46-68 | Idle, no callback, no buffer |
| OtaUpdater.TeensyOtaUpdater.RegisterCallback | lib/Ota/TeensyOtaUpdater.cpp:100-103 | records whether a callback is registered |
| OtaUpdater.TeensyOtaUpdater.StartOta | lib/Ota/TeensyOtaUpdater.cpp:234-369 | the fields and the error page are those of Upload, and Valid is kept |
| OtaUpdater.TeensyOtaUpdater.Begin | lib/Ota/TeensyOtaUpdater.cpp:245-272 | `case Idle:` takes the step Step takes: hexInfo reset, buffer created or NoBuffer and Error |
| OtaUpdater.TeensyOtaUpdater.SkipNewlines | lib/Ota/TeensyOtaUpdater.cpp:279-282 | `case SkipNewline:` takes the step Step takes: line ends skipped, then ParseLine |
| OtaUpdater.TeensyOtaUpdater.ParseLineAt | lib/Ota/TeensyOtaUpdater.cpp:284-298 | `case ParseLine:` takes the step Step takes: a parsed line advances to ProcessLine, a bad or final short line aborts, a short line stops the chunk |
| OtaUpdater.TeensyOtaUpdater.ProcessRecord | lib/Ota/TeensyOtaUpdater.cpp:300-310 | `case ProcessLine:` takes the step Step takes: a good record goes to CopyLine, a bad one aborts with InvalidHexCode |
| OtaUpdater.TeensyOtaUpdater.CopyRecord | lib/Ota/TeensyOtaUpdater.cpp:312-331 | `case CopyLine:` takes the step Step takes: the address guard, then the logged copy or flash write |
| OtaUpdater.TeensyOtaUpdater.Finish | lib/Ota/TeensyOtaUpdater.cpp:352-368 | the fields become Epilogue of the old ones |
| OtaUpdater.TeensyOtaUpdater.EndOta | lib/Ota/TeensyOtaUpdater.cpp:161-214 | Apply iff the state was Complete, a buffer exists and the flash-ID check passes (answered 200, then callback or reboot with flash_move); otherwise Idle, buffer freed, buffer_addr 0, answered 500 |
| OtaUpdater.TeensyOtaUpdater.ApplyUpdate | lib/Ota/TeensyOtaUpdater.cpp:132-149 | always reboots; moves the buffer over the firmware iff the state is Apply |
| OtaUpdater.TeensyOtaUpdater.IsUpdateReady | lib/Ota/TeensyOtaUpdater.cpp:116-119 | true exactly in Apply, and then a buffer exists |
| Ota.Text | lib/Ota/Ota.cpp:167-169 | the null-terminated string parse_hex_line sees: the line up to its first zero byte |
| Ota.Parse | lib/Ota/Ota.cpp:169 | parse_hex_line changes only addr, num and code of hex |
| Ota.Process | lib/Ota/Ota.cpp:174 | process_hex_record changes only base, min, max and eof; the parsed record and the line count stay |
| Ota.EndLine | lib/Ota/Ota.cpp:165-203 | an accepted line counts in hex.lines and empties the buffer; a rejected line (bad line, bad record, max address too large, flash error) stays uncounted; logged buffer calls are kept |
| Ota.BadLineAborts | lib/Ota/Ota.cpp:169-173 | a line parse_hex_line refuses is rejected as a bad hex line, stays in the buffer, and nothing is stored |
| Ota.InvalidRecordAborts | lib/Ota/Ota.cpp:174-178 | a record process_hex_record refuses is rejected as an invalid hex code and nothing is stored |
| Ota.MaxAddressAborts | lib/Ota/Ota.cpp:179-186 | a data record with max > FLASH_BASE_ADDR + buffer_size is rejected before any copy or flash write |
| Ota.FlashWriteAborts | lib/Ota/Ota.cpp:191-198 | a failed flash_write_block rejects the line after its one attempted write |
| Ota.AbortsOnlyFor | lib/Ota/Ota.cpp:167-202 | a line is rejected if and only if one of the four causes holds, and the rejection names that cause |
| Ota.StoreGuarded | lib/Ota/Ota.cpp:179-198 | every copy or flash write is of a data record that parsed, processed and lies within the buffer, at buffer_addr + base + addr - FLASH_BASE_ADDR, by memcpy or flash_write_block as IN_FLASH says |
| Ota.Take | lib/Ota/Ota.cpp:165-207 | '\n' or a full buffer (95 bytes) ends the line through EndLine and is not stored; '\r' is dropped; any other byte is appended; the line stays within 95 bytes with no '\r'/'\n' |
| Ota.Feed | lib/Ota/Ota.cpp:162-209 | the line stays clean and in bounds; hex.lines never decreases; the buffer is not moved |
| Ota.Stripped | lib/Ota/Ota.cpp:204-207 | no carriage return survives |
| Ota.Accumulates | lib/Ota/Ota.cpp:204-207 | bytes without '\n' that fit accumulate in the line, carriage returns left out, and nothing else changes |
| Ota.FeedConcat | lib/Ota/Ota.cpp:162-209 | the partial line survives between chunks, so feeding two chunks is feeding their concatenation; a rejected line stops the rest of the chunk |
| Ota.Handle | lib/Ota/Ota.cpp:141-225 | "OTA could not begin" iff the upload was not running and no buffer could be created, and then nothing changes; ota_status becomes true once a buffer exists; ota_final is set by a final chunk with no rejected line |
| Ota.OtaServer.constructor | lib/Ota/Ota.cpp:24-35 | empty line, hex as initialised, upload not running, not final |
| Ota.OtaServer.Append | lib/Ota/Ota.cpp:206 | the byte is appended to the pending line |
| Ota.OtaServer.FinishLine | lib/Ota/Ota.cpp:165-203 | the globals become EndLine of the old ones, with the terminator write in bounds |
| Ota.OtaServer.FeedChunk | lib/Ota/Ota.cpp:162-209 | the globals become Feed of the old ones |
| Ota.OtaServer.HandleUpload | lib/Ota/Ota.cpp:141-225 | the globals and the 400 answer are those of Handle; line_index stays at most 95 |
| Ota.OtaServer.HandleRequest | lib/Ota/Ota.cpp:83-139 | a final upload that passes the flash-ID check is answered 200 and moved over the firmware; anything else is answered 500 with the buffer freed; both reboot |
| MacAddress.Unpack | lib/TcpServer/MacAddress.cpp:10-11 | the address has six bytes |
| MacAddress.UnpackRoundTrip | lib/TcpServer/MacAddress.cpp:10-11 | mac[0]*256 + mac[1] = MAC1 mod 2^16 and mac[2..5] read big-endian is MAC0 |
| MacAddress.Snoc | lib/TcpServer/MacAddress.cpp:11 | appending a byte to a big-endian number shifts it up a byte |
| MacAddress.Digits | lib/TcpServer/MacAddress.cpp:11 | the four bytes of a 32-bit value, most significant first, put it back together |
| MacAddress.Mac.constructor | lib/TcpServer/MacAddress.cpp:6 | a six-byte `mac` array |
| MacAddress.Mac.Read | lib/TcpServer/MacAddress.cpp:8-12 | the two loops leave exactly the six bytes of Unpack in `mac` |

## Left out

- Hardware and timing are not modelled:
  - the OctoWS2811 DMA output: `leds.show()` is a counter;
  - the EEPROM cell bounds (`E2END`);
  - `millis()`, which is a parameter;
  - the Ethernet server, client and HTTP plumbing. The client is a byte queue, and `server.available()` and `client.connected()` are parameters.
- Diagnostics are not modelled: `Display::status`, `dbgprintf`, `Logger`, `Serial` output, and the HTML pages and status pages of both OTA files. Only which answer is sent is kept.
- Persist.Persisted.Setup: field-level defaults are not modelled. The struct is an opaque byte image, and its default image is a parameter.
  - The source sets the defaults at Persist.cpp lines 15-27: `cb = sizeof(data)`, colour BLACK, pattern 1, brightness 32, max power, first colour 'r', DHCP, IP 192.168.1.128, orientation 0.
  - The struct declaration in `Persist.h` does not list all of the fields `setup` assigns, so no field layout is assumed.
  - Only the size field `cb` is interpreted.
- Led.Leds: the mirror of `pattern` and `rgbSolidColor` into `Persist::data` is two fields of the LED class, not bytes of the persisted image.
- Four pieces of code are not part of this model. Each is an `Env` field whose answers the caller chooses:
  - `parse_hex_line` and `process_hex_record` (FXUtil);
  - `flash_write_block` and `IN_FLASH` (FlashTxx);
  - `check_flash_id`;
  - `firmware_buffer_init`.
- OtaUpdater.Env: `process_hex_record` may change any field of `hexInfo`. In Ota.Env it returns only `base`, `min`, `max` and `eof`, so `lines` is counted by `handleUpload` alone.
- The data copies are not modelled byte by byte:
  - The record bytes (`hexInfo.data`, `prevData`) and the contents that `memcpy`, `flash_write_block` and `flash_move` copy are not modelled.
  - The `Effect` log records only where each copy lands and how long it is.
  - `flash_move` and `REBOOT` appear only as the `Reboot` action.
- A failed `firmware_buffer_init` is modelled as leaving `buffer_addr` and `buffer_size` unchanged.
- OtaUpdater.TeensyOtaUpdater.constructor: the source does not initialise `buffer_addr`. The model starts it at 0.
- The KINETIS `FSEC` check in `EndOta` and `handleRequest` is compiled only for Kinetis boards, not for the Teensy 4.1, so it is left out.
- The firmware-buffer search under `#ifdef DEBUG` in `Ota::setup` is left out.
- `Ota::setup`, `handleNotFound` and `OpenPixelControl::setup` only register routes or start servers.
- `TeensyOtaUpdater::DisplayUpdatePage` and `SendStatusPage` render HTML.
- OtaUpdater.ApplyDroppedByEmptyChunk records a source behaviour and does not correct it: an empty chunk arriving while an update is pending (`Apply`) moves the state to `Complete` or `SkipNewline`.
