# LED effect engine of the ESP32 Blinker light

This project models the light effects of an ESP32 WS2813 strip controller.
It covers the integer colour arithmetic, the four effect renderers and the
small state machine that starts and stops them. The strip driver is modelled
as a trace of `set_pixel`, `refresh` and `clear` calls. The number of pixels
is a parameter `n`. Each effect is a pure function from its inputs to the
trace it produces.

Modules, one per file:

- `LedTypes` (`led_types.dfy`): the status, effect and colour enums with
  their integer codes, the brightness record, the `C_*` colour constants, and
  the 24-bit channel split and pack.
- `Strip` (`strip.dfy`): strip events, the CIRCLE mask {0, 2, 14, 16}, the
  masked pixel pass, and frames made of a pass plus a flush.
- `ColorMath` (`color_math.dfy`): the six-sector HSV to RGB conversion, its
  inverse at full saturation, and the 64-entry brightness table `gama`.
- `Rainbow` (`rainbow.dfy`): the rainbow chase, sweep by sweep, with the
  16-bit phase `start_rgb`.
- `Breathe` (`breathe.dfy`): the breathing effect. Covers the preset
  channels, the 8-bit counter with its direction flag, and the triangle wave
  it follows.
- `AlwaysOn` (`always_on.dfy`): the steady light scaled by brightness.
- `Flash` (`flash.dfy`): `led_flash_ctl` as a function and as a loop method,
  and the flash and test wrappers.
- `Engine` (`engine.dfy`): the globals as the record `Globals`. Covers `set_led_effect`,
  the dispatch table, one pass of the render task, the button, power-command
  and data handlers, and the invariant of every state reachable with the
  corrected data handler.
- `Handshake` (`handshake.dfy`): the OFF / IDLE / ON handshake between the
  handlers and the render task, as an interleaving of atomic steps. It comes
  in two versions: the protocol as written, and a corrected one.

The environment becomes parameters:

- the status reads an effect makes are the number of checks that see ON;
- the mask flag and brightness read at each frame are a list of per-frame
  readings;
- `rand()` is a natural-number argument of the open-button handler;
- the JSON value of a data message is an optional integer.

Two results of the integer arithmetic are easy to misread:

- Scaling truncates rather than rounds, so orange (0xFFA500) at half
  brightness is (127, 82, 0), not (128, 83, 0) (`AlwaysOn.HalfBrightness`).
- A bounded flash with a positive count `times` draws 2 · times − 1 frames,
  not 2 · times: the count drops after every second frame and the loop stops
  as soon as it reaches zero, so the last frame shows the first colour
  (`Flash.FlashCtl`, `Flash.FlashEndsOnFirst`).

## Model

| member | source | states |
|---|---|---|
| LedTypes.StatusOfCode | main/ws2813.h:17-21 | exactly the codes 0, 1, 2 name a status, and each decodes to the status that encodes to it |
| LedTypes.StatusCodeRoundTrip | main/ws2813.h:17-21 | OFF, ON and IDLE encode to codes that decode back to themselves |
| LedTypes.EffectOfCode | main/ws2813.h:23-32 | every code below LED_EFFECT_MAX names the effect whose code it is |
| LedTypes.EffectCodesBijective | main/ws2813.h:23-32 | effect codes are one-to-one, so a uniformly chosen code below 7 can select any effect, CIRCLE included |
| LedTypes.Split | main/ws2813.c:190-192 | the channel split of a 32-bit colour yields three bytes |
| LedTypes.SplitPack | main/ws2813.h:6-15 | a colour below 2^24 is recovered by packing its split channels |
| LedTypes.PackSplit | main/ws2813.c:190-192 | splitting packed byte channels gives the channels back |
| LedTypes.PaletteRoundTrips | main/ws2813.h:6-15 | every `C_*` constant fits in 24 bits and survives split-then-pack |
| Strip.PaintFrom | main/ws2813.c:170-174 | the pixel loop writes exactly the unmasked pixels of its range, in ascending order, each once, all with the frame's colour |
| Strip.PaintShape | main/ws2813.c:198-202 | a pixel pass makes no flush or clear, and with the mask on never writes a masked pixel |
| Strip.Render | main/ws2813.c:165-176 | a run of frames flushes once per frame, never clears, and frames drawn with the mask on avoid masked pixels |
| Strip.RenderHasFrame | main/ws2813.c:170-175 | in a run of frames, frame j writes every pixel below N that its mask flag does not skip with that frame's colour |
| Strip.RenderAppend | main/ws2813.c:233-242 | rendering one more frame appends exactly that frame's calls |
| ColorMath.SectorColor | main/ws2813.c:35-72 | for a hue in 0..359 every channel lies between the two bounds, one channel equals the upper bound and one the lower bound |
| ColorMath.Hsv2Rgb | main/ws2813.c:29-73 | the same bounds for any 32-bit hue after the reduction mod 360 |
| ColorMath.HuePeriodic | main/ws2813.c:31 | a hue and the same hue plus 360 give the same colour |
| ColorMath.HueRoundTrip | main/ws2813.c:35-72 | at full saturation and value the hue mod 360 can be read back from the colour |
| ColorMath.Hsv2RgbInjective | main/ws2813.c:29-73 | hues that differ mod 360 give different fully saturated colours |
| ColorMath.GamaStrictlyIncreasing | main/ws2813.c:106-113 | the table has 64 entries, runs from 0 to 255, and is strictly increasing |
| ColorMath.GamaAt | main/ws2813.c:106-113 | a table read is a byte, and is 0 only at index 0 and 255 only at index 63 |
| ColorMath.GamaMonotone | main/ws2813.c:106-113 | a larger index reads a strictly larger value, and conversely |
| Rainbow.GroupIndexFacts | main/ws2813.c:87-89 | the inner loop visits exactly the unmasked indices below N in the residue class of its start mod 3, in ascending order |
| Rainbow.Sweep | main/ws2813.c:86-101 | every pixel a sweep writes is below N and gets the hue of its position, `j * 360 / N + start_rgb` kept to 16 bits, at full saturation and value |
| Rainbow.SweepCoverage | main/ws2813.c:86-101 | one sweep writes every unmasked pixel below N exactly once and no masked one, with 3 flushes and 3 clears |
| Rainbow.StartAfterClosedForm | main/ws2813.c:102 | after k sweeps the phase has grown by 60 k mod 2^16 |
| Rainbow.SweepPaints | main/ws2813.c:86-101 | one sweep writes every unmasked pixel below N with the hue of its position at the sweep's phase |
| Rainbow.RunPaints | main/ws2813.c:75-104 | sweep i of a run writes every pixel its mask flag leaves unmasked with its hue at the phase after i sweeps |
| Rainbow.Run | main/ws2813.c:75-104 | k sweeps flush 3k times and clear 3k times, advance the phase k steps, and with the mask on avoid masked pixels |
| Breathe.ChannelsOfCode | main/ws2813.c:124-158 | red is lit exactly for warm white, yellow and red; green for all but blue and red; blue for all but yellow, green and red; other codes keep green and blue |
| Breathe.PresetChannels | main/ws2813.c:125-158 | the channel set of each of the six presets |
| Breathe.Level | main/ws2813.c:166-168 | enabled channels get `gama[count]`, disabled ones 0 |
| Breathe.Turn | main/ws2813.c:178-184 | with a threshold of at most 63 a step keeps the counter where the next frame can read the table (at most 62 while rising, 1..63 while falling); its value over many frames is the triangle wave of Breathe.BreatheTriangle |
| Breathe.PeakBound | main/ws2813.c:183 | the flip threshold of an 8-bit brightness is at most 160, and at most 63 exactly up to brightness 101 |
| Breathe.StepInTable | main/ws2813.c:178-184 | up to brightness 101 a step keeps the counter where the next read stays inside the table |
| Breathe.FirstPeriod | main/ws2813.c:178-184 | over its first period the counter climbs from 0 to max(1, threshold) and back to 0, where its direction turns up again |
| Breathe.BreatheTriangle | main/ws2813.c:178-184 | at a constant brightness the counter follows the triangle wave between 0 and max(1, 63 b / 100), for every 8-bit b |
| Breathe.BreatheBoundedIff | main/ws2813.c:166-184 | the counter stays below 64 at every frame exactly when the brightness is at most 101 |
| Breathe.BreatheOverrun | main/ws2813.c:183 | from brightness 102 on, the counter reaches 64 after 64 frames |
| Breathe.DimmedReadable | main/ws2813.c:166-183 | a run whose every frame reads a brightness of at most 101 never reads past the table |
| Breathe.ReadableAfter | main/ws2813.c:166-183 | at a constant brightness a run reads only inside the table exactly when the counter stays below 64 at every frame |
| Breathe.SteadyReadable | main/ws2813.c:166-183 | at a constant brightness b a run from the start reads only inside the table exactly when b ≤ 101 or it lasts at most 64 frames |
| Breathe.Frames | main/ws2813.c:165-185 | for any run that reads only inside the table: one frame per status check that saw ON, each with that frame's mask flag, the first one at the starting counter's level |
| Breathe.AfterInTable | main/ws2813.c:178-184 | up to brightness 101 the counter stays inside the table at every frame |
| Breathe.FramesFollow | main/ws2813.c:165-184 | at any constant brightness, frame j of a readable run is drawn at the counter value after j steps |
| Breathe.FramesWave | main/ws2813.c:165-184 | at a constant brightness up to 101, frame j has its own mask flag and the preset's channels at `gama` of the triangle wave's value for j |
| Breathe.Effect | main/ws2813.c:160-185 | brightness 0 makes no strip call; otherwise one flush per frame, no clear, and with the mask on no masked pixel; at a constant brightness in 1..101 the trace is exactly the triangle-wave frames, rendered |
| Breathe.EffectPaints | main/ws2813.c:166-175 | at a constant brightness in 1..101, frame j writes every unmasked pixel below N with the triangle wave's colour for j |
| AlwaysOn.Scale | main/ws2813.c:193-195 | the truncated percentage: 100 v ≤ ch · b < 100 v + 100, never above the channel up to 100, the channel itself at 100 |
| AlwaysOn.Color | main/ws2813.c:190-195 | each channel of the split colour is scaled with truncation; up to 100 the result is a byte triple no brighter than the colour; at 100 it is the colour |
| AlwaysOn.HalfBrightness | main/ws2813.c:193-195 | yellow at 50 is (127, 127, 0) and orange at 50 is (127, 82, 0) |
| AlwaysOn.Effect | main/ws2813.c:188-207 | exactly the unmasked pixels below N are written, each once in ascending order, all with the scaled colour, followed by exactly one flush and nothing else |
| Flash.FlashFrames | main/ws2813.c:235-238 | the frames alternate between the first colour on even frames and the second on odd ones, unmasked |
| Flash.FlashCtl | main/ws2813.c:215-243 | rate 0 or times 0 makes no call; positive times gives 2 · times − 1 flushes; negative times one per status check that saw ON; never a clear |
| Flash.FlashLoop | main/ws2813.c:218-242 | the while loop with `flag_id` and `times` produces exactly the trace of the frame-sequence definition |
| Flash.FlashEndsOnFirst | main/ws2813.c:233-242 | a bounded flash ends with a frame of the first colour |
| Flash.FlashIgnoresMask | main/ws2813.c:234-236 | a flash writes every pixel below N, masked corners included |
| Flash.FlashEffect | main/ws2813.c:246-250 | the unbounded flash flushes once per status check that saw ON |
| Flash.ToI8 | main/ws2813.c:252-255 | the 8-bit count read as `int8_t` agrees with it mod 256 and is negative exactly from 128 on |
| Flash.TestEffect | main/ws2813.c:252-256 | a count in 1..127 gives 2 · times − 1 flushes whatever the status; from 128 on the flash runs while ON; rate 0 or count 0 makes no call |
| Engine.SetLedEffect | main/blinker_light_main.c:56-71 | CIRCLE toggles the mask and keeps the effect, other kinds select; while ON the handler writes OFF, waits for IDLE and writes ON; otherwise it writes ON only when forced; it never writes IDLE and its writes replay to its final status |
| Engine.CircleRestarts | main/blinker_light_main.c:58-67 | a CIRCLE request while ON still runs the OFF, wait, ON restart |
| Engine.Dispatch | main/blinker_light_main.c:85-106 | only CIRCLE dispatches to no renderer |
| Engine.DispatchInjective | main/blinker_light_main.c:85-106 | distinct effects make distinct renderer calls |
| Engine.EffectEvents | main/blinker_light_main.c:85-106 | per effect: breathe one flush per frame (none at brightness 0), drawing the triangle wave at brightness 1..101, rainbow three flushes and three clears per sweep, steady light one flush with every unmasked pixel at the scaled colour, flash one per frame, test five, CIRCLE none; the masking effects avoid masked pixels; breathe at a nonzero brightness is admitted whenever its run stays inside the table, which holds for any length up to brightness 101 and for at most 64 frames above it; every other effect admits any brightness |
| Engine.LedTaskPass | main/blinker_light_main.c:79-110 | unless ON the pass changes nothing and calls nothing; otherwise it runs the effect, ends with a clear, and reports IDLE, with the flush and clear counts of the effect |
| Engine.ButtonClose | main/blinker_light_main.c:142 | the status becomes OFF at once, without waiting, and nothing else changes |
| Engine.ButtonOpen | main/blinker_light_main.c:131 | the lights end up ON with the effect named by the random code and the mask kept, or for CIRCLE the mask toggled and the effect kept; the brightness record is unchanged |
| Engine.Miot | main/blinker_light_main.c:166-178 | "on" is a forced request for the white steady light that changes only the status and the effect, with the restart steps when already ON; "off" stops at once; a missing or other string changes nothing |
| Engine.DataUpdateAsWritten | main/blinker_light_main.c:153-156 | the JSON integer is stored in the 8-bit field keeping its low eight bits and nothing else changes; a message without the key changes nothing |
| Engine.DataUpdate | main/blinker_light_main.c:153-156 | the corrected update clamps to 0..100, agreeing with Engine.DataUpdateAsWritten on 0..100 |
| Engine.StoredBrightnessOverruns | main/blinker_light_main.c:154 | a stored brightness of 150 breaks the engine invariant and drives the breathing counter to 64, one past the table |
| Engine.ApplyAsWritten | main/blinker_light_main.c:153-156 | with the data handler as written, an input differs from the corrected one only for a data value outside 0..100 |
| Engine.ApplyKeepsInv | main/blinker_light_main.c:56-71 | with the corrected data handler, every handler and render pass keeps CIRCLE unselected and the brightness a percentage |
| Engine.Reachable | main/ws2813.c:12-15 | with the corrected data handler, from the initial globals and after any inputs, CIRCLE is never dispatched and the breathing counter never leaves the table |
| Handshake.Step | main/blinker_light_main.c:56-110 | only a request changes the selection, only the render task writes IDLE or changes its phase, only a handler writes ON or starts or ends a wait, and no step touches the brightness record; a running effect leaves while ON only when it returns on its own (test, CIRCLE, breathe at brightness 0, main/ws2813.c:160-161) |
| Handshake.RequestAgrees | main/blinker_light_main.c:56-71 | the interleaved request agrees with the sequential handler up to its wait |
| Handshake.CorrectedKeepsInv | main/blinker_light_main.c:63-70 | in the corrected protocol IDLE is seen only while the render task waits, a running effect that sees ON is the selected one, and a waiting handler never sees ON |
| Handshake.CorrectedRuns | main/blinker_light_main.c:79-110 | the corrected invariant holds after every schedule |
| Handshake.NoLostRequest | main/blinker_light_main.c:69-70 | in the corrected protocol every handler ON finds the render task waiting, and its next step starts the selected effect |
| Handshake.HandlerProceeds | main/blinker_light_main.c:63-67 | in the corrected protocol a waiting handler gets through after two render steps |
| Handshake.StaleEffectAsWritten | main/blinker_light_main.c:69-70 | as written, a stop and a forced request leave the old effect rendering under ON with another effect selected |
| Handshake.UnwoundReached | main/blinker_light_main.c:142 | as written, start, render, stop, render reaches the unwinding state |
| Handshake.UnwoundReachedCorrected | main/blinker_light_main.c:80-83 | the corrected protocol reaches the same unwinding state, which satisfies its invariant |
| Handshake.LostRequestAsWritten | main/blinker_light_main.c:108-109 | as written, a forced request met by the unwinding render task ends in IDLE with the new effect never started, however long the task polls |
| Handshake.ForcedRequestServed | main/blinker_light_main.c:63-70 | in the corrected protocol a forced request from any admissible state ends with the requested effect running under ON |
| Handshake.DeadlockReached | main/blinker_light_main.c:63-66 | as written, two forced requests during the render task's wait leave the handler waiting for IDLE with the status OFF |
| Handshake.DeadlockAsWritten | main/blinker_light_main.c:80-83 | from there no schedule changes the state: the handler waits forever |

## Left out

- Floating point: the two float expressions that derive the channel bounds from saturation and value (main/ws2813.c:32-33) become integer inputs. The only call site passes 100 and 100, giving 255 and 0.
- Timing: `vTaskDelay` and the delays it is given (chase speed, breathe interval, flash period) are not modelled. Time only orders the events.
- Driver setup and teardown (`led_ws2813_init`, `led_ws2813_resume`): hardware configuration.
- `ESP_ERROR_CHECK` aborts and all logging: strip calls are taken to succeed.
- JSON parsing, widget and power-state replies, the press counter and `app_main`: library glue. `rand()` is an argument.
- The `BLINKER_CMD_ON` and `BLINKER_CMD_OFF` strings are defined outside these files. They are taken to be "on" and "off", the strings the handler echoes back.
- `led_refresh`: the data handler sets it, but no modelled code reads it.
- AlwaysOn.Effect: the mask flag is read once per pass. The source reads it at every pixel (main/ws2813.c:199).
- Flash.ToI8: converting a count of 128 or more from `uint8_t` to `int8_t` is implementation-defined in C. The model takes the two's-complement reading that GCC documents (modulo 2^8).
- Rainbow.Run: the mask flag is read once per sweep. The source reads it at every pixel, so a toggle in the middle of a sweep is not modelled.
- Breathe.Effect: the mask flag and brightness are read once per frame. The source reads the flag at every pixel.
- Breathe.Effect: at a nonzero brightness it requires the run to read only inside the table (Breathe.Readable), because a frame past that point reads `gama[64]`, outside the source's array. Up to brightness 101 every run qualifies (Breathe.DimmedReadable); a larger brightness qualifies for at most 64 frames (Breathe.SteadyReadable). Breathe.BreatheOverrun shows the overrun, and Engine.Reachable shows that the corrected data handler rules it out.
- Breathe.Frames: the same condition as Breathe.Effect, for the same reason.
- Engine.LedTaskPass: when the status is ON and breathe is selected at a nonzero brightness, it requires the activation to read only inside the table, as Breathe.Effect does; every other effect admits any 8-bit brightness. The globals are taken to stay fixed while an effect runs; concurrent changes are the Handshake module's subject.
- Engine.EffectEvents: the same condition on breathe at a nonzero brightness as Engine.LedTaskPass, with the globals fixed while the effect runs.
- Rainbow.Hue: `j * 360` is computed in `int` and could overflow only for strips longer than about six million pixels. That overflow is not modelled.
- Concurrency is modelled only as the interleaving of atomic steps over the status in the Handshake module. Each handler step and each render step is atomic. The handlers are taken to run one at a time on the library's callback task.

## Findings

| source | as written | input that shows it | evidently intended | confidence | as-written member | corrected member |
|---|---|---|---|---|---|---|
| main/blinker_light_main.c:154 | the data handler stores any JSON integer into the 8-bit brightness; the breathing effect flips at `63 * brightness / 100` (main/ws2813.c:183) and reads `gama[count]` | brightness 150: the threshold is 94, so after 64 frames the counter is 64 and the next frame reads `gama[64]` | brightness kept a percentage, so the counter stays in 0..63 | not executed | Engine.StoredBrightnessOverruns | Engine.Reachable |
| main/blinker_light_main.c:69-70 | a forced request that finds the status not ON writes ON at once, even while the render task is still inside or leaving the previous effect | start the rainbow, stop it, let the render task see the stop, then send "on": the render task's IDLE write (main/blinker_light_main.c:109) overwrites the ON and the white light never starts; without the render step the rainbow keeps running under ON with the white light selected | a forced request waits for the render task to report IDLE before writing ON | not executed | Handshake.LostRequestAsWritten | Handshake.ForcedRequestServed |
| main/blinker_light_main.c:63-66 | a restart writes OFF and waits for IDLE, but a render task still in its polling wait (main/blinker_light_main.c:80-83) never writes IDLE | two forced requests in a row from the idle state before the render task polls: the second handler waits for IDLE forever | the render task acknowledges OFF with IDLE while it waits | not executed | Handshake.DeadlockAsWritten | Handshake.HandlerProceeds |
