# Sensor_System: a verified model of the alarm firmware's logic

`Sensor_System.c` is the main program of an LPC1769 board that works as a room
alarm. In detect mode it samples a light sensor and an accelerometer variance
metric. It latches an alarm (playing a tune until the SW3 interrupt clears
`CONTROL`) when the room is dark and shaken. In cooperative mode it reads a
command line over UART3, echoes it, and answers the command `report` with two
values the line reader tracks: the largest accelerometer metric and a stored
light reading. Both count only from the last SW4 press in the outer loop, and
the light value is not a true maximum (see `Control.LuxCanDecrease`). The SW4
button, sampled by level, switches between the modes.

This project models the deterministic logic of that program in Dafny, in six modules:

- `Bytes` (bytes.dfy): the C value types. `uint8_t`, `uint32_t` and `int` are
  modelled as bounded integer subset types. The file also holds the
  `int`/`unsigned int` conversions and the C-string view of a byte buffer.
- `Format` (format.dfy): the `%d` conversion of `sprintf` and a decimal parser
  that inverts it.
- `Song` (song.dfy): the song notation used by the alarm tune. It covers
  `getNote`, `getDuration` and `getPause`; the triple-by-triple walk of
  `playSong` as a specification function `Tones` and as a loop method; and the
  period counter of `playNote`.
- `Control` (control.dfy): the main loop's control state as a pure state
  machine, `Step` over events. The state is `mode`, `CONTROL`, `reset`,
  `largest_lux`, `largest_acc`, and whether main is inside its alarm loop. Its
  lemmas are about whole runs `Run(s, evs)`.
- `Serial` (serial.dfy): the line protocol. `Kept` is the filter that drops CR
  and NUL. It also has the `\r\n\0` trailer and the two report lines with the
  "lux" unit that both lines carry.
- `Monitor` (monitor.dfy): class `Device`.
  - Its fields are the globals `mode` and `CONTROL`, main's locals `reset`,
    `largest_lux`, `largest_acc` and `index`, the 101-byte `message` array,
    and the log of bytes sent on UART3.
  - Each method is one block of the main loop or the interrupt handler, and is
    proved against `Control.Step`.
  - The do-while receive loop is proved against `ReadFrom`, which is the same
    loop written as a recursive function. Lemmas then connect `ReadFrom` to
    the filter `Kept` and to the runs of `Control`.

Hardware readings are parameters: the SW4 level, `light_read()`, the variance
metric returned by `asm_variance`, and each byte received on UART3. The
interrupt is an event.

## Model

| member | source | states |
|---|---|---|
| Bytes.ToSigned | Sensor_System.c:411-413 | storing an `unsigned int` reading into the `int` `largest_lux` gives the value whose unsigned view is the reading (two's complement) |
| Bytes.SignedUnsignedRoundTrip | Sensor_System.c:411-413 | the unsigned view of an `int` converts back to the same `int`, and is the value itself when non-negative |
| Bytes.CString | Sensor_System.c:144-157 | the C string of a buffer is its longest NUL-free prefix: closed by a NUL whenever shorter than the buffer |
| Bytes.CStringOfTerminated | Sensor_System.c:423 | a buffer with a NUL at `index` and none before reads, as a C string, as exactly its first `index` bytes |
| Format.FormatInt | Sensor_System.c:431-434 | `%d` writes at least one byte, never a NUL, starts with '-' exactly for negative numbers, and writes no leading zero |
| Format.FormatRoundTrip | Sensor_System.c:431-434 | reading back the digits `%d` writes gives the number printed, negative numbers included |
| Format.FormatInt32Length | Sensor_System.c:431-434 | `%d` of any 32-bit `int` takes at most 11 bytes |
| Song.GetNote | Sensor_System.c:95-104 | non-zero exactly for 'A'..'G' and 'a'..'g'; each letter gives one full period in µs (1_000_000 / Hz, truncated) of the pitch the `notes` table names; at most 3816 |
| Song.GetNoteInjective | Sensor_System.c:53-68 | no two note letters share a period |
| Song.LowerIsOctaveUp | Sensor_System.c:53-68 | each lower-case note has a shorter period than its upper-case letter, and twice it is within 8 µs of the upper-case period |
| Song.GetDuration | Sensor_System.c:106-114 | a digit d gives 50*d ms (so 0..450, in steps of 50), every other byte 400 ms |
| Song.GetPause | Sensor_System.c:116-130 | '+' and only '+' gives 0 ms, '.' and only '.' 20 ms, '_' and only '_' 30 ms, every other byte 5 ms |
| Song.Tones | Sensor_System.c:144-157 | a song text decodes to one tone per complete triple, floor(L/3) tones for L bytes, the i-th tone decoded from bytes 3i, 3i+1, 3i+2 |
| Song.TrailingFragmentIsSilent | Sensor_System.c:144-157 | one or two bytes after the last complete triple add no tone |
| Song.PlayNote | Sensor_System.c:70-93 | a rest produces no square wave and no periods; a note produces `periods` whole periods, a multiple of the period that reaches the duration and overshoots it by less than one period (so exactly determined), without wrapping `t` |
| Song.AlarmToneLength | Sensor_System.c:76-86 | the sound length is determined by the tone: the alarm's 400 ms high G lasts exactly 314 periods of 1275 µs |
| Song.TonesFitPlayNote | Sensor_System.c:145-153 | every decoded tone meets PlayNote's no-wrap bound on `durationMs * 1000 + note` |
| Song.PlaySong | Sensor_System.c:132-158 | the loop plays exactly the tones `Tones` decodes from the song's C string, floor(L/3) of them, each with the sound length PlayNote produces for it (a whole number of periods, the least that reaches the duration) |
| Song.AlarmSongTones | Sensor_System.c:160 | the alarm tune "g8," is one 784 Hz tone of 400 ms followed by a 5 ms pause |
| Control.Step | Sensor_System.c:340-421 | the effect of each event on the control state: a SW4 reading of 0 flips the mode in either loop, and only the outer-loop one (342-347) zeroes the peaks; a dark detect reading clears `reset`, and with a metric above 75 sets `CONTROL` and enters the alarm (369-375); the alarm-loop test (376) leaves the alarm once `CONTROL` is not 1; the interrupt (line 44) sets `CONTROL` to 0; a line-reader round (406-419) makes `largest_acc` the larger of itself and the metric, and stores the second light reading into `largest_lux` when the first exceeds it compared as unsigned; no other field changes |
| Control.Init | Sensor_System.c:31-33 | the program starts in detect mode with `CONTROL` 1 and outside the alarm; main's `reset` starts at 1 and both peaks at 0 (lines 333 and 337-338) |
| Control.ModeStaysBinary | Sensor_System.c:342-347 | in every reachable state `mode` is 0 or 1 and `reset` is 0 or 1 |
| Control.ModeFollowsPresses | Sensor_System.c:406-409 | after any run, `mode` is its start plus the number of SW4 readings of 0 (in either loop), modulo 2 |
| Control.PressClearsPeaksOnlyInOuterLoop | Sensor_System.c:342-347 | an outer-loop press flips the mode and zeroes both peaks; a press in the line reader changes the mode and nothing else: its step equals the step without the press, with only `mode` flipped |
| Control.AccIsPeak | Sensor_System.c:415-419 | without an outer-loop press, `largest_acc` never decreases, bounds every metric the line reader compares, and is its start or one of those metrics (detect-mode metrics are never compared) |
| Control.AccPeakSinceLastPress | Sensor_System.c:342-347 | after the last outer-loop press, `largest_acc` is 0 or the largest metric the line reader compared since, and bounds all of those |
| Control.LuxIsAStoredReading | Sensor_System.c:411-413 | without an outer-loop press, `largest_lux` is its start or some second (stored) light reading, converted to `int` |
| Control.LuxCanDecrease | Sensor_System.c:411-413 | a round that compares one reading and stores another can lower `largest_lux` (500, then compared 600 and stored 10, gives 10) |
| Control.ResetClearedOnlyWhenDark | Sensor_System.c:369-371 | `reset` ends 0 exactly when it started 0 or some detect-mode reading was dark; otherwise it keeps its value |
| Control.AlarmNeedsDarkShock | Sensor_System.c:369-376 | the alarm is entered only after a detect-mode reading that is both darker than 100 and a metric above 75 |
| Control.DarkShockEntersAlarm | Sensor_System.c:369-376 | a detect-mode reading darker than 100 with a metric above 75 always enters the alarm with `CONTROL` 1 and clears `reset` |
| Control.LatchHoldsUntilInterrupt | Sensor_System.c:376-384 | once latched, the alarm (with `CONTROL` 1) persists through any run without an interrupt |
| Control.InterruptReleases | Sensor_System.c:38-48 | after the interrupt's `CONTROL = 0` the alarm loop's next test leaves the alarm |
| Serial.Kept | Sensor_System.c:401-405 | the stored bytes are no more than the received ones, and none of them is CR or NUL |
| Serial.KeptCounts | Sensor_System.c:401-405 | each byte other than CR and NUL is stored (and echoed) as many times as it was received; CR and NUL never |
| Serial.ReportLine | Sensor_System.c:431-434 | a report line is its caption, the `%d` field reading back as the value, and " lux\r\n"; at most 100 bytes and NUL-free, so it fits its 101-byte buffer |
| Serial.LuminanceLine | Sensor_System.c:431-432 | the first report line fits its buffer, starts with its caption, ends with " lux\r\n", and its field reads back as `largest_lux` |
| Serial.AccelerometerLine | Sensor_System.c:433-434 | the second report line fits its buffer, starts with its caption, its field reads back as `largest_acc`, and it ends in the " lux" unit |
| Serial.Response | Sensor_System.c:430-435 | the report lines are sent exactly when the line equals "report"; nothing is sent otherwise |
| Serial.ReportCommand | Sensor_System.c:430 | typing "report" then CR stores exactly "report"; the comparison is case-sensitive: the line "Report" gets no answer |
| Serial.KeptAllStored | Sensor_System.c:401-405 | a received sequence with no CR or NUL is stored whole |
| Monitor.ContinuesAfter | Sensor_System.c:421 | the do-while condition after the first n rounds: fewer than 100 bytes stored, the last byte received not CR, and the mode still 1 |
| Monitor.ReadFrom | Sensor_System.c:398-421 | the receive loop consumes at most the rounds available, at least one more once it starts, and ends by its own condition unless the rounds run out |
| Monitor.ReadFromStopsAtFirstEnd | Sensor_System.c:398-421 | the loop stores exactly the kept bytes of the rounds it consumed, steps the control state through them, met its condition (fewer than 100 stored, byte not CR, mode 1) after every round but the last, and fails it after the last unless the rounds ran out |
| Monitor.Device.constructor | Sensor_System.c:329-338 | the device starts in the initial control state with no line and nothing sent |
| Monitor.Device.PollButton | Sensor_System.c:342-347 | the top-of-loop SW4 test is one outer-poll step; the line buffer and the UART are untouched |
| Monitor.Device.DetectSample | Sensor_System.c:369-375 | the dark and shock tests are one detect step; the line buffer and the UART are untouched |
| Monitor.Device.AlarmRound | Sensor_System.c:376-384 | each alarm-loop test keeps looping exactly while `CONTROL` is 1, playing the alarm tune once per pass, and leaves the alarm otherwise |
| Monitor.Device.Interrupt | Sensor_System.c:44 | the handler sets `CONTROL` to 0 |
| Monitor.Device.Round | Sensor_System.c:399-419 | one receive round appends the byte to `message[..index]` and to the UART log exactly when it is neither CR nor NUL, and takes one line-reader step of the control state |
| Monitor.Device.ReadLine | Sensor_System.c:397-421 | the loop over the rounds ends with the stored line, the control state and the count of rounds that `ReadFrom` gives, `index` at most 100, and every stored byte echoed once, in order |
| Monitor.Device.FinishLine | Sensor_System.c:423-435 | the terminator is written inside the buffer, the line is unchanged, and the UART gets the trailer 13, 10, 0 followed by the response to the line |
| Monitor.Device.ServeLine | Sensor_System.c:397-435 | `message[..index]` is the kept bytes of the rounds read; the line is finished exactly when a round failed the condition (the first such round ends it), otherwise all rounds met it; a finished line is NUL-terminated and the UART gets the echo, the trailer and the report when the line is "report"; a line still being read has only been echoed |

## Left out

- `asm_variance` is an external assembly routine whose body is not part of this model. Its result is an input `metric`, and its effect on `mean` and `max` is not modelled.
- Peripheral bring-up (`init_ssp`, `init_i2c`, `init_GPIO`, `pinsel_uart3`, `init_uart` and the driver init calls) is bus and pin configuration with no logic.
- The OLED output and the `sprintf` text for the display ("Light: %u", "DETECT MODE", "ALARM", …) are presentation only. Only the UART report lines are modelled.
- The note pin toggling, `Timer0_Wait` and `Timer0_us_Wait`, the pause after each tone, and the RGB LED toggle in the alarm loop are hardware timing.
  - PlayNote models only the counter `t` and the number of periods.
  - PlaySong records each tone and its pause rather than waiting.
- Song.PlayNote: requires `durationMs * 1000 + note < 2^32`, so the model does not follow `t` wrapping around as a 32-bit counter. Song.TonesFitPlayNote shows that every tone a song text can decode to meets this bound.
- UART reception blocks until a byte arrives. The model feeds the receive loop a finite sequence of rounds, each with its received byte and its SW4, light and metric readings. When the sequence runs out mid-line, the model stops where the device would still be waiting.
- The interrupt handler runs concurrently with `main`. It is modelled only as the `Interrupt` event and method, which any run may interleave with the others. Two things are not modelled: the race on `CONTROL`, and the handler's `asm_variance` call on its uninitialised local `max`.
- The scheduling of the blocks by the endless `while (1==1)` loop is not one method. The blocks are the methods `PollButton`, `DetectSample`, `AlarmRound`, `Interrupt` and `ServeLine`. The `Control` lemmas prove properties of every sequence of their events.
- `check_failed` is an infinite loop and is not part of this model.
- Converting an `unsigned int` reading above `INT_MAX` to `int` is implementation-defined in C. Bytes.ToSigned models it as two's-complement wrap-around.
