# pico-timecode core, modelled in Dafny

pico-timecode turns a Raspberry Pi Pico into an SMPTE LTC (linear
timecode) generator and reader. This project models the logic at its
core as immutable values and pure step functions, and proves properties
of them. The PIO programs, threads and hardware registers sit around
that logic and are not modelled.

The modelled parts are:

- **TimecodeValue** (`timecode.dfy`): the `timecode` class.
  - HH:MM:SS:FF stepping forwards and backwards. In drop-frame mode, frames 0 and 1 are skipped at the start of every minute not divisible by ten (SMPTE ST 12-1).
  - The 32-bit "raw" snapshot.
  - The ASCII form, with and without separators.
- **Ltc** (`ltc.dfy`): the 80-bit LTC codeword of SMPTE ST 12-1.
  - BCD time fields, eight user-bit nibbles, and the binary-group flags at bits 27, 43 and 59.
  - Polarity correction and the 0xBFFC sync word.
  - The 32-bit FIFO words, and decoding back.
- **UserText** (`userbits.dfy`): the three renderings of the user bits and their parsers: ASCII, hex, and date with the 64-entry time-zone table.
- **Engine** (`engine.dfy`): the clock controller.
  - The per-rate PIO divider table.
  - `micro_adjust` and the three one-shot timers.
  - Dithering of the divider by one fractional step.
- **Realtime** (`realtime.dfy`): the bodies of the real-time thread.
  - Start-up.
  - Receive and jam validation over the RUN/MONITOR/JAM modes.
  - The transmit refill with alternating sync framing, and the LED flash choice.
- **Mtc** (`mtc.dfy`): MIDI Time Code.
  - Quarter Frame and Full Message encoding (MIDI 1.0 Detailed Specification, MIDI Time Code).
  - USB-MIDI SysEx packetisation (USB Device Class Definition for MIDI Devices 1.0, section 4, Code Index Numbers).
- **PicoTimecodeV1** (`pico_timecode_v1.dfy`) and **LtcFreerun** (`ltc_freerun.dfy`): the two earlier codecs, which build the codeword byte by byte. They are set beside the current codec so the bit layouts can be compared.
- **Averaging** (`rolling.dfy`): the `Rolling` ring buffer of main.py, with its running sum, eviction and purge by mark.
- **Neotimer** (`neotimer.dfy`) and **StateMachines** (`statemachine.dfy`): the two utility libraries. The clock reading and the guard results are explicit parameters.
- **Segment7** (`segment7.dfy`) and **Segment14** (`segment14.dfy`): the HT16K33 7-segment and 14-segment display encoders, which write into a 16-byte buffer.
- **Text**, **Bits** and **Wrappers**: helpers.
  - Python's `chr`, `ord`, `bytes(s, "utf-8")` (RFC 3629, section 3) and list indexing.
  - Bit counts and fields.
  - `Option`.

Python integers are Dafny `int`. Shifts and masks are written as division and remainder by powers of two, which agrees with Python for every operand the code uses. `int(x / 10)` truncates toward zero, as `Bits.TruncDiv` does. Frame rates and the calibration value are IEEE floats in the source; here they are `real`, and `int()` on them is `Bits.TruncReal`. A failing `assert`, an `IndexError` or a `ValueError` in the source is `None` in the model.

## Model

| member | source | states |
|---|---|---|
| TimecodeValue.Default | pico_timecode.py:384-411 | a new timecode is 30 fps, not drop-frame, 00:00:00:00, flags BGF0 only, user bits "PICO" |
| TimecodeValue.Nominal | pico_timecode.py:525 | `int(fps + 0.1)` is the whole number n with n <= fps + 0.1 < n + 1 |
| TimecodeValue.DropForward | pico_timecode.py:424-427 | a skipped drop-frame label moves on to frame 2 of the same second; any other label is unchanged, and the result is never a skipped label |
| TimecodeValue.DropBackward | pico_timecode.py:428-437 | the reverse branch as written: from a skipped label it goes to hh-1 (23 after 0), 59:59 and the last frame; otherwise it does nothing |
| TimecodeValue.StepUp | pico_timecode.py:519-539 | one forward step in drop-frame mode never lands on a skipped label |
| TimecodeValue.StepDownFixed | pico_timecode.py:541-561 | the corrected backward step: a skipped label is replaced by the last frame of the previous minute; otherwise it is the plain count down |
| TimecodeValue.ValidateForDropFrame | pico_timecode.py:422-438 | only the time changes; forward validation always leaves a drop-frame-legal value; a value that is not drop-frame or not on a skipped label is unchanged |
| TimecodeValue.NextFrameOnce | pico_timecode.py:519-539 | one `next_frame` step changes only the time and always leaves a drop-frame-legal value |
| TimecodeValue.NextFrame | pico_timecode.py:519-539 | `next_frame(repeats)` changes only the time, and after at least one step the value is drop-frame legal |
| TimecodeValue.PrevFrameOnce | pico_timecode.py:541-561 | one `prev_frame` step changes only the time |
| TimecodeValue.PrevFrame | pico_timecode.py:541-561 | `prev_frame(repeats)` changes only the time |
| TimecodeValue.PrevFrameOnceFixed | pico_timecode.py:541-561 | the corrected `prev_frame` step changes only the time |
| TimecodeValue.SetFpsDf | pico_timecode.py:506-517 | any fps/df pair is accepted; in drop-frame mode a skipped label moves to frame 2, otherwise the time is kept |
| TimecodeValue.NextFrameKeepsRange | pico_timecode.py:519-539 | stepping forward keeps ff < int(fps+0.1), ss, mm < 60 and hh < 24 (drop-frame needs at least 3 labels per second) |
| TimecodeValue.NextFrameWraps | pico_timecode.py:519-539 | 23:59:59 and the last frame is followed by 00:00:00:00 |
| TimecodeValue.StepUpSeconds | pico_timecode.py:519-539 | within a second the frame goes up by one; at the last frame it moves to frame 0 of the next second, or frame 2 where drop-frame skips |
| TimecodeValue.NextFrameIndexNdf | pico_timecode.py:519-539 | without drop-frame, the frame count since midnight goes up by one, modulo one day of frames |
| TimecodeValue.NextFrameIndexDf | pico_timecode.py:519-539 | with drop-frame, the frame count since midnight goes up by one, or by three when the two skipped labels are jumped, modulo a day |
| TimecodeValue.IndexStep | pico_timecode.py:519-539 | from a legal in-range label, a step moves the frame count since midnight on by one, or by three onto frame 2 where drop-frame skips, modulo a day |
| TimecodeValue.CountInverse | pico_timecode.py:519-561 | counting up then down, or down then up, gives back any in-range time |
| TimecodeValue.PrevAfterNextNdf | pico_timecode.py:519-561 | without drop-frame, `prev_frame` undoes `next_frame` |
| TimecodeValue.NextAfterPrevNdf | pico_timecode.py:519-561 | without drop-frame, `next_frame` undoes `prev_frame` |
| TimecodeValue.PrevFrameDropFrameDefect | pico_timecode.py:428-437 | at 29.97 drop-frame, `prev_frame` from 00:01:00;02 gives 23:59:59;29 instead of 00:00:59;29 |
| TimecodeValue.NextAfterPrevFixed | pico_timecode.py:422-561 | with the corrected backward rule, `next_frame` undoes `prev_frame` on every legal value, drop-frame included |
| TimecodeValue.PrevAfterNextFixed | pico_timecode.py:422-561 | with the corrected backward rule, `prev_frame` undoes `next_frame` on every legal value |
| TimecodeValue.FromRaw | pico_timecode.py:490-497 | only df and the time change, and every field lands within its mask |
| TimecodeValue.RawRoundTrip | pico_timecode.py:490-504 | `from_raw(to_raw())` restores df, hh, mm, ss and ff when hh < 32, mm, ss < 64 and ff < 32 |
| TimecodeValue.RawInjective | pico_timecode.py:499-504 | two in-range values with the same snapshot have the same df and time |
| TimecodeValue.AsciiCodes | pico_timecode.py:470-484 | `to_ascii` produces 11 codes with separators and 8 without |
| TimecodeValue.ToAscii | pico_timecode.py:470-488 | a rendered string is 11 characters long with separators and 8 without |
| TimecodeValue.ToAsciiShape | pico_timecode.py:470-488 | two-digit fields render as digits, with ':' at indices 2 and 5, and '.' at index 8 exactly when df is set (':' otherwise); without separators, eight digits |
| TimecodeValue.FromAscii | pico_timecode.py:440-468 | a string parses iff its UTF-8 form is long enough; only df and the time change; without separators df is kept; the result is drop-frame legal |
| TimecodeValue.FromAsciiNoRangeCheck | pico_timecode.py:440-468 | "99999999" is accepted as 99:99:99:99 |
| TimecodeValue.AsciiRoundTrip | pico_timecode.py:440-488 | `from_ascii(to_ascii())` restores the time and df of a legal two-digit value |
| TimecodeValue.AsciiRoundTripNoSep | pico_timecode.py:440-488 | without separators the time comes back and df stays as it was |
| TimecodeValue.AsciiBytes | pico_timecode.py:440-488 | the rendered string is ASCII, so its UTF-8 bytes are its codes |
| Ltc.Placement | pico_timecode.py:572-582 | at 25 fps BGF0 and BGF2 go to bits 27 and 43; otherwise to bits 43 and 59 |
| Ltc.Correct | pico_timecode.py:599-608 | polarity correction keeps two words |
| Ltc.Packet | pico_timecode.py:584-608 | the packet is two words |
| Ltc.ToLtcPacket | pico_timecode.py:571-622 | two words, or three with `send_sync` |
| Ltc.Framed | pico_timecode.py:613-620 | the sync-framed form is three words |
| Ltc.FromLtcPacket | pico_timecode.py:624-669 | a list that is not two words long leaves the value alone and fails; two words always overwrite the fields, and the result is true iff ff < int(fps) |
| Ltc.FromLtcPacketFixed | pico_timecode.py:624-669 | the same with the check ff < int(fps + 0.1) |
| Ltc.Decode | pico_timecode.py:640-665 | decoding keeps fps and cf, yields nibble user bits, and keeps each time field within what its BCD tens and units widths can hold; the field-level meaning is stated by Ltc.DecodePacket and Ltc.DecodeWords |
| Ltc.DecodeReadsOnlyWords | pico_timecode.py:640-665 | apart from fps, which picks the flag positions, and cf, which is kept, the decoded value depends on the two words alone: every other field is overwritten |
| Ltc.Bytes | pico_timecode.py:584-597 | the codeword's eight data bytes, each a byte when the user bits are nibbles |
| Ltc.WordsAreBytes | pico_timecode.py:584-597 | each data word is four codeword bytes packed little-endian |
| Ltc.PacketLayout | pico_timecode.py:584-608 | the packet is the little-endian packing of the bytes with the flags actually sent |
| Ltc.PacketParityEven | pico_timecode.py:564-608 | with nibble user bits, 13 (the sync word's ones) plus the ones of both words is even |
| Ltc.FlagBitCounts | pico_timecode.py:599-608 | the correction bit is clear before correction, so setting it adds exactly one set bit |
| Ltc.CorrectEven | pico_timecode.py:599-608 | correction leaves an even count whenever setting its bit adds one |
| Ltc.DecodePacket | pico_timecode.py:584-665 | decoding the packet of a value whose fields fit gives back every field but cf |
| Ltc.DecodeWords | pico_timecode.py:577-665 | the flags are read back from wherever the placement put them |
| Ltc.LtcRoundTrip | pico_timecode.py:571-669 | `from_ltc_packet(to_ltc_packet(False))` with the corrected check restores the value (cf excepted) and succeeds on every valid value |
| Ltc.FromLtcPacketRejectsLastFrame | pico_timecode.py:667-669 | at 29.97 fps, valid frame 29 survives the codeword but is refused |
| Ltc.SyncFraming | pico_timecode.py:613-620 | the three framed words, split into 16-bit halves with the low half first, are sync, p0 low, p0 high, p1 low, p1 high, sync |
| LtcFreerun.Quiet | ltc_freerun.py:114-119 | cf and the three flags are cleared and nothing else changes |
| LtcFreerun.FreerunIsFixed | ltc_freerun.py:114-137 | the freerun bytes are the corrected earlier codec's bytes for the quiet value |
| LtcFreerun.FreerunSendsPacket | ltc_freerun.py:114-152 | each group of FIFO words is the current codec's packet for the quiet value, framed when a sync is due |
| LtcFreerun.FreerunParityEven | ltc_freerun.py:130-137 | 13 plus the ones of the eight bytes is even |
| LtcFreerun.FreerunStep | ltc_freerun.py:177-196 | the increment changes only the time |
| LtcFreerun.FreerunAgrees | ltc_freerun.py:177-196 | from a legal value, and for a rate within one below its label count, the increment equals the current codec's `next_frame` |
| LtcFreerun.FreerunKeepsLegal | ltc_freerun.py:177-196 | counting from a legal value never shows a skipped label |
| LtcFreerun.FreerunKeepsRange | ltc_freerun.py:177-196 | the increment keeps every field in range |
| LtcFreerun.StartTime | ltc_freerun.py:245-256 | the start string is read iff it has 11 bytes; only the time changes |
| LtcFreerun.StartAgrees | ltc_freerun.py:245-256 | the start value agrees with the earlier script's `from_ascii`, except that frame 1 of a skipped second stays at 1 where `from_ascii` moves it to 2 |
| LtcFreerun.StartsAtMidnight | ltc_freerun.py:239-256 | the firmware's start string gives 00:00:00:00 |
| LtcFreerun.DisplayShape | ltc_freerun.py:198-213 | the display is the codec's rendering with `chr(0x3A + df)` in all three separator places, and reading it back restores the time |
| LtcFreerun.ReadBackSkipsSeparators | pico-timecode.py:222-238 | reading back only looks at the digit positions |
| PicoTimecodeV1.ValidateV1 | pico-timecode.py:214-220 | the earlier validation is the current codec's forward validation |
| PicoTimecodeV1.SetFps | pico-timecode.py:253-264 | `set_fps` is the current `set_fps_df` |
| PicoTimecodeV1.NextFrameV1 | pico-timecode.py:266-283 | the step changes only the time and leaves a legal value |
| PicoTimecodeV1.NextFrameAgrees | pico-timecode.py:266-283 | for a rate within one below its label count, the step equals the current `next_frame` |
| PicoTimecodeV1.OfferedRatesAgree | pico-timecode.py:253-264 | the six rates the firmware offers all meet that condition |
| PicoTimecodeV1.AsciiV1Shape | pico-timecode.py:240-251 | the rendering is the current one with ';' instead of '.' at index 8 when df is set |
| PicoTimecodeV1.FromAsciiV1 | pico-timecode.py:222-238 | parsing succeeds iff there are 11 bytes, changes only the time (df is never set) and leaves a legal value |
| PicoTimecodeV1.AsciiV1Bytes | pico-timecode.py:240-251 | the rendering is ASCII, so its bytes are its codes |
| PicoTimecodeV1.AsciiV1RoundTrip | pico-timecode.py:222-251 | reading back the rendering restores the time and keeps the receiver's df |
| PicoTimecodeV1.BpIsPop | pico-timecode.py:173-178 | `bp` counts the set bits of the low byte, whatever lies above |
| PicoTimecodeV1.OnesIsLp | pico-timecode.py:312-314 | counting the bytes counts the same ones as counting the two packed words, as the current codec does |
| PicoTimecodeV1.CorrectBytes | pico-timecode.py:311-320 | an already even codeword is left alone |
| PicoTimecodeV1.BytesAgree | pico-timecode.py:301-309 | before correction the bytes are those of the current codec with cf clear |
| PicoTimecodeV1.CorrectAsSent | pico-timecode.py:316-320 | correcting in byte 3 gives the bytes with the flags the current codec sends |
| PicoTimecodeV1.FixedMatchesBytes | pico-timecode.py:285-323 | with the fix, the bytes are exactly the current codec's corrected bytes |
| PicoTimecodeV1.FixedMatchesPacket | pico-timecode.py:285-323 | packed little-endian, those bytes are the current codec's packet |
| PicoTimecodeV1.FixedParityEven | pico-timecode.py:311-320 | with the fix, 13 plus the ones of the bytes is even |
| PicoTimecodeV1.ParityAt25 | pico-timecode.py:316-318 | at 25 fps the code as written already equals the fix and is even |
| PicoTimecodeV1.ParityDefect | pico-timecode.py:319-320 | at 30 fps the default value's codeword comes out odd, with byte 4 overwritten |
| PicoTimecodeV1.TxWords | pico-timecode.py:352-361 | two words after a sync was sent, otherwise three; the flag toggles |
| PicoTimecodeV1.TxWordsFraming | pico-timecode.py:352-361 | the two groups are the current codec's plain and sync-framed packets |
| PicoTimecodeV1.SendsCurrentPacket | pico-timecode.py:285-361 | with the fix, every group sent is word for word the current codec's packet |
| Mtc.CinLength | pico_timecode.py:1216-1264 | each SysEx code index carries one to three bytes |
| Mtc.PlayOut | pico_timecode.py:1231-1271 | every packet is four bytes, and there are packets iff there are bytes |
| Mtc.SendSysex | pico_timecode.py:1209-1273 | every packet is four bytes |
| Mtc.SendSysexFixed | pico_timecode.py:1209-1273 | every packet is four bytes |
| Mtc.PayloadAppend | pico_timecode.py:1231-1271 | the bytes read from two runs of packets are those of the first then the second |
| Mtc.SysexPayload | pico_timecode.py:1209-1273 | the packets carry the message in order, zero padded, as written and fixed |
| Mtc.SysexFramedFixed | pico_timecode.py:1209-1273 | with continuation packets tagged 0x4, every non-empty message is one SysEx: start/continue, then exactly one end at the last packet |
| Mtc.SysexEndsEarly | pico_timecode.py:1232-1245 | as written, a message longer than six bytes has an end code on its second packet, so it is not framed as one SysEx |
| Mtc.LongMtc | pico_timecode.py:1276-1286 | the Full Message is ten bytes: the universal real-time header, four time bytes, then 0xF7 |
| Mtc.LongMtcTime | pico_timecode.py:1279-1284 | the Full Message carries the snapshot's hours with the 30 fps rate code, then minutes, seconds and frames |
| Mtc.LongMtcPackets | pico_timecode.py:1276-1286 | it goes out as four packets tagged start, end, end, end; the fix would tag them start, start, start, end |
| Mtc.QuarterData | pico_timecode.py:1301-1323 | the quarter-frame data byte has the piece number count mod 8 in its high nibble and is below 0x80 |
| Mtc.Piece | pico_timecode.py:1301-1323 | piece k has its number in the high nibble |
| Mtc.SendQuarter | pico_timecode.py:1289-1331 | one packet [0x6, 0xF1, data, 0], and the count goes up by one |
| Mtc.QuarterFramesRebuild | pico_timecode.py:1289-1331 | eight quarter frames from a piece-0 boundary let a receiver rebuild the whole time and the 30 fps rate code |
| Mtc.QuarterSeq | pico_timecode.py:1301-1330 | those eight quarter frames are the eight pieces in order |
| Mtc.PiecesOf | pico_timecode.py:1305-1323 | each piece is one nibble of the time, tagged with its number, and piece 7 carries the rate code |
| Realtime.Start | pico_timecode.py:994-1025 | the engine is marked running, the first packet is sync-framed, and the receive and scratch copies get the transmit fps and df |
| Realtime.Expect | pico_timecode.py:1101-1103 | the scratch copy changes only its df and time |
| Realtime.JamStep | pico_timecode.py:1086-1119 | at or below MONITOR only the decoded packet is kept; above, a failed packet sets JAM and a good one counts down, and at MONITOR the transmit time jumps two frames past the packet and copies BGF1 |
| Realtime.RxPacket | pico_timecode.py:1080-1084 | the received copy is the decoded packet, whatever the check says |
| Realtime.MidnightRestarts | pico_timecode.py:1101-1108 | a genuine non-drop-frame 00:00:00:00 always sends the count back to JAM |
| Realtime.JamAll | pico_timecode.py:1076-1119 | validating a run of packets keeps the configured df |
| Realtime.JamCountdown | pico_timecode.py:1086-1110 | consecutive packets count the mode down by one each |
| Realtime.JamLandsAhead | pico_timecode.py:1101-1116 | on landing at MONITOR the packet was not 0, and the transmit time is one frame ahead of the scratch copy |
| Realtime.BlinkWords | pico_timecode.py:1144-1158 | two words, the count field is 19, and the first carries the flash pattern iff the frame flashes |
| Realtime.TxFrame | pico_timecode.py:1123-1159 | one refill sends the raw snapshot and the packet, framed when due, then steps the time, toggles the framing and picks the flash for the new frame |
| Realtime.TxAlternates | pico_timecode.py:1123-1129 | two frames in a row send five words: one group of three and one of two |
| Realtime.FlashOnTime | pico_timecode.py:1152-1155 | with no flash frame set, the LED flashes on the frame whose snapshot matches the flash time |
| Engine.Init | pico_timecode.py:788-810 | a new engine is stopped in RUN mode with a 10 s period, no timers and default timecodes |
| Engine.SetStopped | pico_timecode.py:818-840 | starting changes only the flag; stopping also cancels every timer, clears powersave, BGF1 and both calibration values |
| Engine.BaseDivider | pico_timecode.py:855-868 | there is a divider exactly for the six rates in the table, and each is a whole number of fractional steps |
| Engine.ExactRate | pico_timecode.py:855-868 | 30, 25 and 24 are exact; 29.97, 24.98 and 23.98 stand for n * 1000/1001 |
| Engine.DividerRealisesRate | pico_timecode.py:855-868 | every table entry times its exact rate is 3,072,000,000: the same PIO cycles per frame at 120 MHz |
| Engine.ConfigClocks | pico_timecode.py:850-889 | an unknown rate leaves the divider alone; a known one sets base - int(calval) * 0x100, with zero meaning the stored calibration |
| Engine.IncDivider | pico_timecode.py:891-911 | the divider grows by one step, 0x100, and nothing else changes |
| Engine.DecDivider | pico_timecode.py:913-933 | the divider shrinks by one step, 0x100, and nothing else changes |
| Engine.DitherPart | pico_timecode.py:972 | the dithered part of a positive period lies in [0, period) |
| Engine.MicroAdjust | pico_timecode.py:935-977 | stopped, it only cancels the timers; running, it records the next calibration and a positive period; a commit happens only when timers 1 and 2 are idle, arming timer 2 at the period, timer 3 two seconds later, and timer 1 iff the dithered part is positive |
| Engine.TimerFired | pico_timecode.py:326-365 | nothing once stopped; timer 1 moves the divider one step and disarms; timer 2 or 3 disarms the others and re-commits the next calibration |
| Engine.InitInv | pico_timecode.py:788-810 | a new engine meets the controller invariant |
| Engine.SetStoppedInv | pico_timecode.py:818-840 | starting or stopping keeps the invariant |
| Engine.MicroAdjustInv | pico_timecode.py:935-977 | `micro_adjust` keeps the invariant |
| Engine.MicroAdjustArms | pico_timecode.py:953-977 | a commit from idle timers arms a consistent set of timers |
| Engine.TimerFiredInv | pico_timecode.py:326-365 | every timer event keeps the invariant |
| Engine.StoppedIsInert | pico_timecode.py:326-365 | once stopped, every timer event and every `micro_adjust` is a no-op |
| Engine.DitherAverage | pico_timecode.py:953-977 | over one period, the time-weighted divider is within one step of base - 0x100 * calval, so the fractional calibration is realised on average |
| Engine.SetFlashtime | pico_timecode.py:980-983 | the flash time is the frame's raw snapshot, and nothing else changes |
| Averaging.Init | main.py:268-278 | for a size of at least one, the buffer is empty and meets the ring invariant |
| Averaging.NextSlot | main.py:283-289 | `(x + 1) % max` on a ring index wraps once at the end |
| Averaging.Store | main.py:280-291 | the invariant holds; the window gains the new value and mark, and a full window first loses its oldest |
| Averaging.Read | main.py:293-295 | nothing when empty, otherwise the mean of the live values |
| Averaging.StoreRead | main.py:297-299 | store, then the mean of the new window |
| Averaging.DropOldest | main.py:302-306 | one purge step removes the oldest value and mark and keeps the invariant |
| Averaging.Purge | main.py:301-306 | purge drops a prefix of the window whose marks are all below the mark and stops at the first that is not; with ascending marks every remaining mark is at least the mark |
| Averaging.StoreEvicts | main.py:281-291 | a store into a full window keeps its size and subtracts exactly the oldest value |
| Averaging.EnterIsMod | main.py:289 | the write index is (exit + size) mod max |
| Neotimer.TicksDiff | libs/neotimer.py:176-177 | the signed distance lies in [-2^29, 2^29) and is the difference modulo 2^30 |
| Neotimer.TicksDiffExact | libs/neotimer.py:176-177 | within half a period the distance is the plain difference |
| Neotimer.Init | libs/neotimer.py:136-141 | a new timer is not started, not done, with unlimited repetitions |
| Neotimer.Reset | libs/neotimer.py:154-157 | stopped, not done, timing from now |
| Neotimer.Start | libs/neotimer.py:144-146 | started, not done, timing from now |
| Neotimer.Stop | libs/neotimer.py:149-151 | stopped, returning the time since the last start |
| Neotimer.Restart | libs/neotimer.py:160-162 | no effect once done; otherwise it resumes |
| Neotimer.Finished | libs/neotimer.py:165-173 | true iff started and the duration has passed, and then it sets done |
| Neotimer.Debounce | libs/neotimer.py:180-187 | true only for a true signal once the duration has passed, and each true result restarts timing |
| Neotimer.DebounceSpacing | libs/neotimer.py:180-187 | the first true result after a restart comes at least the duration later |
| Neotimer.Hold | libs/neotimer.py:190-197 | a false signal stops and resets; a true one starts the timer and reports whether the duration has passed |
| Neotimer.HoldStays | libs/neotimer.py:190-197 | once reported, a held signal stays reported |
| Neotimer.Repeat | libs/neotimer.py:200-209 | true iff the duration has passed, and then the timer is reset; a stopped timer starts timing from now |
| Neotimer.RepeatRestarts | libs/neotimer.py:200-209 | after a true result the next call restarts timing from that call |
| Neotimer.RepeatTimes | libs/neotimer.py:212-224 | count -1 is plain repeat; otherwise each true result uses up one repetition, and none left means false |
| Neotimer.ResetRepetitions | libs/neotimer.py:227-228 | repetitions go back to unlimited |
| Neotimer.RepeatRun | libs/neotimer.py:212-224 | one result per call |
| Neotimer.RepeatAtMost | libs/neotimer.py:212-228 | a non-negative count yields at most that many true results until reset |
| Neotimer.Waiting | libs/neotimer.py:231-235 | true iff started and not finished |
| StateMachines.Init | libs/statemachine.py:82-91 | a new machine has no states and no active state |
| StateMachines.AddState | libs/statemachine.py:95-103 | the new index is the previous length, and the first state added becomes active |
| StateMachines.Attach | libs/statemachine.py:163-165 | only the source state's transition list grows, by the target at its end |
| StateMachines.Force | libs/statemachine.py:106-108 | only the forced index changes |
| StateMachines.FirstTrue | libs/statemachine.py:167-177 | the index of the first true guard, or the length when none is |
| StateMachines.EvalTransitions | libs/statemachine.py:167-177 | the target of the first transition whose guard holds, in attachment order, otherwise the state's own index |
| StateMachines.IsNewState | libs/statemachine.py:112-125 | an attached transition wins over a forced one; afterwards all three indices agree, and the result says whether the active state changed |
| StateMachines.Jog | libs/statemachine.py:130-134 | a no-op unless in jog mode |
| StateMachines.Run | libs/statemachine.py:137-153 | -1 and no change on an empty machine; outside jog mode `execute_once` records a change of state; in jog mode the active state stays and `execute_once` is cleared |
| Segment7.Init | libs/ht16k33segment.py:33-39 | blank buffer, not rotated, lower case |
| Segment7.Rotate | libs/ht16k33segment.py:45-53 | toggles rotation and nothing else |
| Segment7.SetColon | libs/ht16k33segment.py:55-69 | only byte 4 changes, to 0x02 or 0x00 |
| Segment7.WithDot | libs/ht16k33segment.py:124-125 | the segments are kept and bit 7 is set iff a dot is asked for |
| Segment7.SetGlyph | libs/ht16k33segment.py:93-127 | succeeds iff digit < 4 and glyph < 0x80, and writes the glyph and dot to that digit's byte only |
| Segment7.Lower | libs/ht16k33segment.py:170 | ASCII letters lower-cased, every other character kept |
| Segment7.CharCode | libs/ht16k33segment.py:170-188 | a found code is an index of the character set |
| Segment7.CharCodeNames | libs/ht16k33segment.py:170-188 | a string gets code k exactly when it lower-cases to k's name: 0-9, a-f, '-', 'deg', ' ' |
| Segment7.CharCodeIgnoresCase | libs/ht16k33segment.py:170 | 'A'-'F' show as 'a'-'f' |
| Segment7.SevenBit | libs/ht16k33segment.py:27-29 | neither character set uses the dot bit |
| Segment7.SetCharacter | libs/ht16k33segment.py:150-190 | succeeds iff the digit is valid and the character known, and writes its pattern from the current set to that digit only |
| Segment7.SetNumber | libs/ht16k33segment.py:129-148 | succeeds iff digit < 4 and number < 10, and writes that digit's pattern only |
| Segment7.SetCase | libs/ht16k33segment.py:220-235 | the upper-case set is selected iff upper |
| Segment7.SetCaseIdempotent | libs/ht16k33segment.py:220-235 | setting the same case twice is setting it once |
| Segment7.Flip | libs/ht16k33segment.py:210-215 | segments 0-2 trade places with 3-5, and bits 6-7 are kept |
| Segment7.FlipInvolution | libs/ht16k33segment.py:210-215 | flipping twice restores the digit |
| Segment7.Draw | libs/ht16k33segment.py:199-215 | on a rotated display digit k gets the flipped digit 3-k; every other byte, the colon's included, is kept |
| Segment7.DrawTwice | libs/ht16k33segment.py:199-215 | two draws restore the buffer, so repeated draws alternate, and byte 4 is untouched |
| Segment14.Init | libs/ht16k33segment14.py:49-60 | blank buffer; an unknown board is SparkFun unless the HT16K33 flag is set |
| Segment14.GlyphsFit | libs/ht16k33segment14.py:44 | no character pattern uses bit 15 or the dot bit 14 |
| Segment14.CharCode | libs/ht16k33segment14.py:146-172 | a found code is one character and a valid index |
| Segment14.CharCodeInjective | libs/ht16k33segment14.py:146-172 | distinct strings never share a code, and codes below 62 are exactly the digits and letters |
| Segment14.SwapSegments | libs/ht16k33segment14.py:259-264 | bits 3 and 5 of the high byte trade places and the rest is kept |
| Segment14.SwapSegmentsInvolution | libs/ht16k33segment14.py:259-264 | swapping twice restores the byte |
| Segment14.AdafruitWrite | libs/ht16k33segment14.py:255-266 | the digit's two bytes read back as the pattern, with bit 14 for a dot, and no other byte changes |
| Segment14.SparkFunWrite | libs/ht16k33segment14.py:267-277 | the loop keeps 16 bytes and goes out of bounds iff bit 15 of the pattern is set |
| Segment14.SparkFunLamps | libs/ht16k33segment14.py:267-277 | afterwards a lamp of the digit is lit iff it was lit before or its pattern bit is set |
| Segment14.SparkFunKeeps | libs/ht16k33segment14.py:267-277 | the loop only sets bits, and only the digit's own |
| Segment14.SetDigit | libs/ht16k33segment14.py:252-278 | the write dispatches on the board, and raises iff SparkFun and bit 15 is set |
| Segment14.SetGlyph | libs/ht16k33segment14.py:67-103 | accepted iff digit < 4 and glyph < 0xFFFF, and then it is that write |
| Segment14.SetGlyphRaises | libs/ht16k33segment14.py:99-103 | on SparkFun the accepted pattern 0x8000 runs off the end of the buffer |
| Segment14.SetGlyphFixed | libs/ht16k33segment14.py:67-103 | with bit 15 dropped, the same inputs are accepted and the write never raises |
| Segment14.SetGlyphFixedAgrees | libs/ht16k33segment14.py:67-103 | the fix agrees with the original whenever bit 15 is clear |
| Segment14.SparkFunAccumulates | libs/ht16k33segment14.py:267-277 | on SparkFun two writes to one digit light the union of both patterns |
| Segment14.SetCode | libs/ht16k33segment14.py:177-200 | accepted iff digit < 4 and code < 76; the write never raises |
| Segment14.SetCharacter | libs/ht16k33segment14.py:127-175 | accepted iff the digit is valid and the character known, and is then that code's write |
| Segment14.SetNumber | libs/ht16k33segment14.py:105-125 | accepted iff digit < 4 and number < 10, and is then that digit's code |
| Segment14.SetFurniture | libs/ht16k33segment14.py:202-250 | only on SparkFun, and only bit 0 of the given byte, which is then set iff asked |
| UserText.HexCodes | pico_timecode.py:683-688 | `dehex[x]` succeeds iff every index is in Python's range, and takes each element as Python would |
| UserText.TzName | pico_timecode.py:704-709 | the table entry for a code below the table length (a negative one counts from the end, as in Python), entry 0 past the end, and an IndexError only below minus the length |
| UserText.UserToAscii | pico_timecode.py:671-712 | both date and ASCII flags give "Page/Line NA"; otherwise a '*' prefix iff BGF1, then 8 hex digits, a date, or 4 characters |
| UserText.NibblesRender | pico_timecode.py:671-712 | nibble-sized user bits always render, in every mode |
| UserText.DefaultReadsPico | pico_timecode.py:402-409 | the constructor's user bits read "PICO" |
| UserText.UserFromAscii | pico_timecode.py:714-730 | sets the ASCII mode flags and nibble user bits, and nothing else |
| UserText.AsciiUserBytes | pico_timecode.py:714-730 | reading back gives the first four UTF-8 bytes of the text padded with spaces |
| UserText.AsciiUserRoundTrip | pico_timecode.py:671-730 | for ASCII text the round trip gives the first four characters of the text plus four spaces |
| UserText.HexValuesAppend | pico_timecode.py:734-740 | collecting the hex digits of two byte lists is collecting each |
| UserText.HexPadding | pico_timecode.py:734 | the padding guarantees at least eight digits |
| UserText.UserFromBcdHex | pico_timecode.py:732-755 | sets the hex mode flags and nibble user bits, and nothing else |
| UserText.HexValuesOfUtf8 | pico_timecode.py:734-740 | the hex digits among the UTF-8 bytes of any string are the values of its hex-digit characters, since every byte of a multi-byte character is 0x80 or above |
| UserText.HexValuesOfChar | pico_timecode.py:734-740 | one character's UTF-8 bytes contribute a digit exactly when the character is a hex digit, and then its value |
| UserText.HexCharsOfHex | pico_timecode.py:734-740 | a string of hex digits loses nothing to the skipping |
| UserText.BcdDigitsOfHex | pico_timecode.py:732-752 | for any string, the digits collected are the values of its hex-digit characters followed by the '0' padding, so the eight nibbles are those of its first eight hex digits made up with '0's |
| UserText.HexUserRoundTrip | pico_timecode.py:671-755 | any string comes back as its first eight hex digits, upper-cased and made up with '0's; other characters, multi-byte ones included, are skipped and later digits dropped |
| UserText.HexUserRoundTripEight | pico_timecode.py:671-755 | eight hex digits come back as themselves, upper-cased |
| UserText.TzIndex | pico_timecode.py:773-779 | the first table index holding the name, or none |
| UserText.UserFromDate | pico_timecode.py:757-782 | succeeds iff there are 11 bytes, sets the date mode flags and user bits only, and stores a code inside the table |
| UserText.DateUserRoundTrip | pico_timecode.py:671-782 | a well-formed date with a zone from the table comes back as written |
| UserText.DateUnknownZone | pico_timecode.py:757-782 | a zone missing from the table comes back as "+0000" |
| Text.Ords | pico_timecode.py:446 | one code point per character |
| Text.Chr | pico_timecode.py:487 | `chr` succeeds exactly on Unicode scalar values, and then inverts `ord` |
| Text.Chrs | pico_timecode.py:485-487 | building a string from codes succeeds iff every code is a scalar value, and the string has those codes |
| Text.PyIndex | pico_timecode.py:685-688 | Python indexing: a negative index counts from the end, and out of range fails |
| Text.Utf8Char | pico_timecode.py:446 | one to four bytes, one exactly for ASCII |
| Text.Utf8 | pico_timecode.py:446 | at least one byte per character, each a byte |
| Text.Utf8Append | pico_timecode.py:715 | encoding distributes over concatenation |
| Text.Utf8IsOrdsIffAscii | pico_timecode.py:446 | the encoding is the code points exactly for ASCII strings |
| Bits.TruncDiv | pico_timecode.py:473 | `int(x / d)` truncates toward zero |
| Bits.TruncReal | pico_timecode.py:871 | `int(x)` on a float truncates toward zero |
| Bits.FracAbs | pico_timecode.py:972 | `abs(x) % 1` is the fractional part of the magnitude |
| Bits.SumBitsIsPop | pico_timecode.py:564-569 | adding up the bits one at a time counts the set bits |
| Bits.PopWord | pico_timecode.py:599-602 | a word's set bits are the sum of its bytes' |

## Left out

- The PIO assembly programs, the IRQ handler and its underflow flag, and `schedule` are left out. They are fixed hardware timing tables and interrupt plumbing.
- Threads and locks are left out. `acquire`/`release` and the `release=False` hand-off are no-ops, and each operation is one atomic step.
- The eight `mem32` divider registers are one integer, `divider`. The lock around them is omitted.
- USB transport: `pend_write` is always taken to have room. The "TX buffer is full" early returns of `send_sysex` and `send_quarter_mtc` are not modelled.
- Machine timers are `Option<int>` values holding their armed period. Their firing is an explicit event, `TimerFired`.
- Lightsleep, powersave and `set_powersave` are left out, apart from the flag `set_stopped` clears.
- IEEE float numerics: frame rates and `calval` are reals. Float rounding in `int(fps + 0.1)` and `abs(calval) % 1` is not modelled.
- Clocks are parameters: `ticks_ms()` is the `now` argument of every Neotimer operation, read once per call. The source reads it again inside `finished()`.
- State logic callables of the state machine are left out. Guard results are passed as a list, one per attached transition. `execute()` only calls the state's logic, so it is left out.
- `HT16K33Segment._render` and the HT16K33 base class are left out: they are the I2C write. `set_uppercase` and `set_lowercase` are one-line wrappers over `_set_case`, which is modelled as Segment7.SetCase.
- In the freerun script, the LED flash words, the start-up PIO sequencing and `print` are left out.
- The earlier script's receive FIFO draining is left out, and so is its display thread.
- The UI, the menus, the rest of main.py (phase folding, PID calibration), pt_thrifty.py, pico_slate.py, the GPS/DMA scripts, libs/umenu.py, libs/PicoOled13.py, libs/fonts.py, libs/lowpower.py, libs/config.py and check_calibration.py are not part of this model.
- Realtime.JamStep: the mode field is an unbounded int. HALTED is never reached by the jam code and is not modelled.
- Averaging.Init: a size below one is not a usable buffer; `store` would reduce indices modulo zero. The contract says nothing for it.
- TimecodeValue.ToAscii: only the length is stated for arbitrary fields. The digit-by-digit shape is stated by ToAsciiShape for two-digit fields, because `chr` of a negative code fails.
- TimecodeValue.NextFrame: `repeats` is a `nat`. In the source, `while repeats:` with a negative count never ends, because the count only goes further down; no caller passes one.
- TimecodeValue.PrevFrame: `repeats` is a `nat`, for the same reason as TimecodeValue.NextFrame.
- Text.Chr: `chr` of a surrogate code (0xD800-0xDFFF) succeeds in Python but is `None` here, because a Dafny `char` is a Unicode scalar value. Every caller passes codes below 256, so no modelled operation is affected.
- Error paths of `from_ascii`, `user_from_date` and the earlier script's `from_ascii`: a text that is too short raises IndexError after `acquire()`, so the lock stays held and the fields already assigned stay overwritten. The model returns `None` and leaves the value as it was; neither the partial update nor the held lock is modelled.
- LtcFreerun.StartAgrees: the freerun start applies its drop-frame adjustment to frame 0 only, so frame 1 of a skipped second is left out of the agreement.

## Findings

| source | as written | input that shows it | evidently intended | confidence | as-written member | corrected member |
|---|---|---|---|---|---|---|
| pico_timecode.py:428-437 | stepping back onto a skipped drop-frame label goes to hh-1, 59:59 and the last frame, although the guard requires mm % 10 != 0 | 00:01:00;02 at 29.97 drop-frame, `prev_frame()` | 00:00:59;29, the frame before in drop-frame counting | not executed | TimecodeValue.PrevFrameDropFrameDefect | TimecodeValue.PrevFrameOnceFixed (with NextAfterPrevFixed and PrevAfterNextFixed) |
| pico_timecode.py:667-669 | the frame check uses `int(self.fps)`, which is 29 at 29.97 | a packet for frame 29 at 29.97 fps | `int(self.fps + 0.1)`, the label count used everywhere else | not executed | Ltc.FromLtcPacketRejectsLastFrame | Ltc.FromLtcPacketFixed (with Ltc.LtcRoundTrip) |
| pico-timecode.py:319-320 | the correction for rates other than 25 writes byte 3's contents into `b[4]` | 00:00:00:00 at 30 fps with user bits "PICO" | set bit 3 of `b[3]` (codeword bit 27), giving an even count | not executed | PicoTimecodeV1.ParityDefect | PicoTimecodeV1.BuildPacketBytesFixed (with FixedParityEven and SendsCurrentPacket) |
| pico_timecode.py:1233-1245 | every three-byte chunk after the first is tagged CIN 0x7, "SysEx ends with three bytes" | any message of more than six bytes, such as a 10-byte Full Message | CIN 0x4, "SysEx continues", on every packet but the last | not executed | Mtc.SysexEndsEarly | Mtc.SendSysexFixed (with Mtc.SysexFramedFixed) |
| libs/ht16k33segment14.py:99-100 | `set_glyph` accepts patterns up to 0xFFFE, but the SparkFun loop reaches `buffer[16]` when bit 15 is set | `set_glyph(0x8000, 0)` on a SparkFun board | only the 15 pattern bits the board has (bits 0-14) | not executed | Segment14.SetGlyphRaises | Segment14.SetGlyphFixed (with Segment14.SetGlyphFixedAgrees) |

## Notes

- `send_quarter_mtc` tags its packets CIN 0x6, which is "SysEx ends with two bytes". A quarter frame is a two-byte system common message, for which section 4 of the USB MIDI class definition gives CIN 0x2. The model keeps 0x6.
- In the freerun script, `bf0` and `bf2` are set at start-up but never reach the codeword: its flag bits are fixed false.
- `from_ltc_packet` writes the fields before it checks the frame, and the real-time thread ignores its result. The model keeps both.
- The colour-frame flag is encoded but never decoded.
- The comment in the reverse branch of `validate_for_drop_frame` says "only happens on mm==0", but the guard requires mm % 10 != 0. The model follows the code.
- Entry 0 of the time-zone table is "+0000", so an unknown zone is stored as code 0 and renders as "+0000".
- `Segment7.Lower` models `str.lower()` on ASCII only. Every other character is kept, which is enough for the character set the display uses.
- The 14-segment character table is modelled as the 16-bit patterns that `CHARSET[2i] << 8 \| CHARSET[2i+1]` builds.
- The SparkFun path of `_set_digit` ignores `has_dot` and never clears bits. The model keeps both.
