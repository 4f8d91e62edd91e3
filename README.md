# E-ink weather display firmware: wake-cycle core

A Particle device wakes and synchronises its configuration: latitude, longitude and POSIX timezone from a cloud ledger. It publishes a `weather` telemetry event, and that event triggers a forecast webhook. The webhook's JSON response arrives in chunks. The device extracts up to four forecast periods, draws a temperature and precipitation chart, and pushes the rendered frame to an e-ink panel. Then it hibernates for an hour.

This project models the three pieces of `src/eink-gcal-particle.cpp` that have stateable behaviour:

- **Frame inversion** (`Frame`, `frame.dfy`). The flush callback copies the renderer's 1-bit buffer into a new buffer of `w * h / 8` bytes. Each copied byte is complemented. The renderer's 8-byte header is skipped.
- **Forecast extraction** (`Forecast`, `forecast.dfy`, and `Firmware.Device.HandleWeatherResponse`). For the first `min(count, 4)` entries of the parsed `list`, in order, the handler fills one `forecastList` slot. A slot holds the hour label with one leading `'0'` removed, the temperature, and `(int)(pop * 100)`. The handler also widens the global `minTemperature` / `maxTemperature`. Then it redraws, which sets `didUpdateScreen`.
- **Duty-cycle controller** (`Cycle`, `cycle.dfy`, and `Firmware.Device.Setup` / `LedgerSyncCallback` / `Loop`). This covers the three flags `didSync`, `didUpdateScreen` and `didPublish`. A pass of `loop()` acts only when the cloud is connected and the configuration is synchronised. It requests hibernation once the screen has been redrawn. If that request fails, or the screen was not redrawn, it publishes until one publish is confirmed.

The globals of the program are the fields of one class, `Firmware.Device`. Its methods are proved against value-level functions:

- `HandleWeatherResponse` is proved against `Forecast.HandleResponse`.
- `Loop` is proved against `Cycle.LoopPass`.

Lemmas about those functions state what the source promises. `Cycle.Run` applies a sequence of loop passes, sync callbacks and redraws. It is used to state properties of whole wake cycles.

Inputs that come from libraries or the outside world are parameters of the model:

- the JSON parser's answers ("chunk added", "parsed") and the parsed list entries;
- the local-time library's `"%I %p"` label for each entry's timestamp, carried in the entry;
- the ledger's values;
- cloud connectivity;
- whether a hibernation request takes effect (`System.sleep` at line 288 does not return) or fails and returns;
- the outcome of a publish: sent, failed, or still sending when the 60-second wait ends.

Behaviour of the code that the model keeps, and that a reader might not expect:

- The telemetry field `cnt` is the constant 4 (`NUM_FORECAST_ENTRIES`, lines 36 and 296), not the number of extracted samples.
- A successful extraction rewrites only the slots below `count` (line 204). Later slots keep their earlier contents.
- The bounds start at 1000.0 and 0.0 (lines 47-48), not at extreme sentinels. So the maximum never drops below 0.0 (`Forecast.SeedBoundsSurvive`).
- An incomplete and a malformed response take the same path: `parse()` returns false and the handler returns (lines 192-195, whose comment assumes the response is incomplete). A failed chunk append also only returns (lines 187-190).
- `loop()` checks `didUpdateScreen` before `didPublish` (lines 282 and 291). So once the screen is redrawn, a pass publishes only if its hibernation request failed and returned (`Cycle.NoPublishAfterRedraw`, `Cycle.FailedSleepFallsThrough`). Hibernation does not wait for a confirmed publish.
- The frame conversion never checks sizes (lines 89-93). The model instead requires the source buffer to hold the header plus `w * h / 8` bytes.

## Model

| member | source | states |
|---|---|---|
| `Frame.FrameSize` | src/eink-gcal-particle.cpp:85-90 | The output size is `w * h / 8` computed in 32-bit unsigned arithmetic. It equals `w * h / 8` whenever the product fits in 32 bits, and it is below 2^29. |
| `Frame.InvertPixelMap` | src/eink-gcal-particle.cpp:89-93 | The loop returns a new buffer of exactly `FrameSize(w, h)` bytes. Byte `i` is the bitwise complement of source byte `i + 8`, for every `i`. |
| `Frame.ComplementInvolution` | src/eink-gcal-particle.cpp:93 | Complementing every byte twice gives back the original sequence. |
| `Frame.InvertedRoundTrip` | src/eink-gcal-particle.cpp:90-93 | The panel buffer has `n` bytes. Complementing it again recovers exactly the payload bytes after the 8-byte header. |
| `Frame.BlankPayloadInvertsToOnes` | src/eink-gcal-particle.cpp:90-93 | An all-zero payload after the header becomes an all-0xFF buffer of the frame size, whatever the header holds. |
| `Frame.InvertedIgnoresHeader` | src/eink-gcal-particle.cpp:93 | Two sources with the same payload give the same panel buffer, whatever their headers hold. |
| `Frame.FullPanelSize` | src/eink-gcal-particle.cpp:27-28 | The full 250 x 122 panel gives a 3812-byte buffer. |
| `Forecast.TruncateToInt` | src/eink-gcal-particle.cpp:221 | The C cast `(int)x` truncates toward zero. For `x >= 0` the result `r` is non-negative with `r <= x < r + 1`. For `x < 0` it is non-positive with `r - 1 < x <= r`. |
| `Forecast.PercentInRange` | src/eink-gcal-particle.cpp:209 | A probability fraction in 0..1 gives a stored percentage in 0..100. |
| `Forecast.PercentTruncates` | src/eink-gcal-particle.cpp:209 | The percentage truncates rather than rounds: 0.0 gives 0, 1.0 gives 100, 0.456 gives 45 and 0.999 gives 99. |
| `Forecast.StripLeadingZeroSpec` | src/eink-gcal-particle.cpp:216-217 | The label loses exactly its first character if and only if that character is `'0'`. Otherwise it is kept unchanged. |
| `Forecast.StripFormattedHour` | src/eink-gcal-particle.cpp:214-217 | For every 12-hour clock hour 1..12 and either meridiem, stripping the two-digit `"%I %p"` label gives the unpadded hour. The result never starts with `'0'`. |
| `Forecast.StripExamples` | src/eink-gcal-particle.cpp:216-217 | `"09 AM"` becomes `"9 AM"` and `"12 PM"` stays `"12 PM"`. |
| `Forecast.WidenMaxIsMaximum` | src/eink-gcal-particle.cpp:227-228 | Applying `if (temp > max) max = temp` over the temperatures gives a result that is at least the seed and at least every temperature, and equal to one of them. |
| `Forecast.WidenMinIsMinimum` | src/eink-gcal-particle.cpp:229-230 | Applying `if (temp < min) min = temp` over the temperatures gives a result that is at most the seed and at most every temperature, and equal to one of them. |
| `Forecast.BoundsDependOnPrefix` | src/eink-gcal-particle.cpp:204 | Two lists that agree on their first `n` entries give the same bounds after `n` entries. |
| `Forecast.ExtractOrderAndExtent` | src/eink-gcal-particle.cpp:204-222 | Extraction gives four slots. Slot `i < min(count, 4)` is built from list entry `i`. Every later slot keeps its previous contents. |
| `Forecast.ExtractCharacterised` | src/eink-gcal-particle.cpp:204-222 | Conversely, any four slots with the visited entries in order and the old contents elsewhere are the extraction result. |
| `Forecast.FailureLeavesStateUnchanged` | src/eink-gcal-particle.cpp:187-196 | If the chunk append fails or the parse fails, the slots, both bounds and `didUpdateScreen` are all unchanged. |
| `Forecast.RedrawExactlyOnSuccess` | src/eink-gcal-particle.cpp:182 | `didUpdateScreen` is set exactly when the chunk was added and the buffer parsed. It is never cleared. |
| `Forecast.EmptyListOnlyRedraws` | src/eink-gcal-particle.cpp:201-204 | With an empty list, the slots and both bounds are unchanged, and `didUpdateScreen` still becomes true. |
| `Forecast.BoundsCoverVisited` | src/eink-gcal-particle.cpp:204 | After a successful extraction, every visited temperature lies between the new minimum and maximum. The minimum has not grown and the maximum has not shrunk. |
| `Forecast.SeedBoundsSurvive` | src/eink-gcal-particle.cpp:47-48 | The bounds start from the 1000.0 / 0.0 seeds and are not true extremes. With temperatures -5.0 and -2.0 from boot, the maximum stays 0.0 and the minimum becomes -5.0. |
| `Forecast.TailIgnored` | src/eink-gcal-particle.cpp:204 | Entries after the fourth never matter. A list and its first four entries lead to the same slots, bounds and flag. |
| `Forecast.FourEntryScenario` | src/eink-gcal-particle.cpp:185-234 | Four entries with temperatures 40.2, 45.0, 38.5, 42.1, probabilities 0.1, 0.5, 0.2, 0.9 and labels `09 AM`, `12 PM`, `03 PM`, `06 PM`, starting from the boot bounds, give percentages 10, 50, 20, 90, labels `9 AM`, `12 PM`, `3 PM`, `6 PM`, bounds 38.5 and 45.0, and a redraw. |
| `Cycle.LoopPassSpec` | src/eink-gcal-particle.cpp:278-319 | A pass does nothing unless connected and synchronised. It hibernates exactly when the screen has been redrawn and the sleep takes effect. It publishes exactly when not yet published and it did not hibernate, including after a failed sleep. `didPublish` is set only by a confirmed publish. |
| `Cycle.RunWidens` | src/eink-gcal-particle.cpp:182-312 | Over any sequence of passes and callbacks, no flag ever goes from true back to false. |
| `Cycle.NoPublishAfterConfirmed` | src/eink-gcal-particle.cpp:291 | Once a publish has been confirmed, no later pass of the cycle attempts another publish. |
| `Cycle.NoPublishAfterRedraw` | src/eink-gcal-particle.cpp:282-291 | Once the screen has been redrawn, every publish of a run comes from a pass whose hibernation request failed. The hibernation check comes first. |
| `Cycle.FailedSleepFallsThrough` | src/eink-gcal-particle.cpp:282-291 | After the redraw, with no publish confirmed, a pass whose hibernation request fails goes on to publish. `didPublish` is then set exactly when that publish is confirmed. |
| `Cycle.AtMostOneConfirmedPublish` | src/eink-gcal-particle.cpp:307-312 | A wake cycle contains at most one confirmed publish, and none if one was already confirmed. |
| `Cycle.HibernateIsLast` | src/eink-gcal-particle.cpp:282-288 | Hibernation that takes effect is the last action of a run. The run then ends hibernated with the screen redrawn. |
| `Cycle.FailedPublishRetried` | src/eink-gcal-particle.cpp:314-318 | `n` passes whose publish fails make `n` publish attempts and leave the flags unchanged. There is no retry limit. |
| `Cycle.NominalCycle` | src/eink-gcal-particle.cpp:273-312 | A cycle of sync, confirmed publish, redraw and pass does nothing, then publishes, does nothing, then hibernates. It ends with every flag set. |
| `Firmware.Device.constructor` | src/eink-gcal-particle.cpp:45-56 | Static initialisation gives four blank slots, bounds 1000.0 and 0.0, every flag false, zero coordinates, an empty timezone and a cleared event. |
| `Firmware.Device.LedgerSyncCallback` | src/eink-gcal-particle.cpp:236-251 | The callback copies latitude, longitude and timezone from the ledger and sets `didSync`. Nothing else changes, and the four slots stay in place. |
| `Firmware.Device.Setup` | src/eink-gcal-particle.cpp:271-273 | `setup()` runs the sync callback itself, so `didSync` is true from boot. The other flags are unchanged. |
| `Firmware.Device.HandleWeatherResponse` | src/eink-gcal-particle.cpp:185-234 | The handler's new slots, bounds and `didUpdateScreen` are `HandleResponse` of the old ones. Its loop keeps the slots equal to `Extract` of the entries visited so far and the bounds equal to the seeds widened by their temperatures. The other globals are unchanged. |
| `Firmware.Device.Loop` | src/eink-gcal-particle.cpp:276-323 | The new flags are `LoopPass` of the old ones, so a failed hibernation falls through to the publish check. A publish appends `{lat, lon, cnt = 4}` to the outgoing events. The event is cleared on a confirmed or failed publish and stays staged while still sending. |

## Left out

- JSON chunk assembly and parsing (`addChunkedData`, `parse`, the 4096-byte buffer, the 2048-token limit) are a foreign library. Their two results are boolean inputs and the parsed list is an input. So the chunking and capacity properties of the assembler are not modelled.
- Local-time conversion and `"%I %p"` formatting, and the POSIX timezone configuration, are a foreign library. Each entry carries its formatted label. The timezone is only stored as a string.
- Floating point: temperatures and probabilities are exact reals. Single-precision rounding of `pop * 100` and of the comparisons is not modelled. Neither is the undefined behaviour of `(int)` on an out-of-range float.
- The chart layout and labels of `drawWeatherForecast` (lines 106-181) are widget calls. Only their effect `didUpdateScreen = true` is modelled. The `snprintf` temperature labels and all logging are left out.
- E-paper driver calls (`clearBuffer`, `drawBitmap`, `display`) and `lv_display_flush_ready` are hardware I/O. So is how the renderer and the driver lay out rows whose width is not a multiple of 8. The model only builds the buffer handed to `drawBitmap`.
- Cloud I/O is an input. This covers `Particle.publish`, the 60-second `waitForNot`, the subscription, and connectivity. The publish outcome is one of sent, failed, or still sending. Published events are recorded in `outbox`.
- `System.sleep` in hibernate mode: whether it takes effect is an input. When it does, `hibernated` becomes true and no method may run afterwards; the 60-minute duration and the restart are not modelled. When it fails, the pass continues at line 291; the log line at 289 is not modelled. Why a sleep request fails is not modelled.
- `lv_timer_handler`, `delay(5)`, the `millis` tick, LVGL initialisation and the ledger's `onSync` registration are framework and timing calls.
- `Forecast.WidenMaxIsMaximum`, `Forecast.WidenMinIsMinimum`: these are stated over exact reals. A NaN temperature, which the float comparisons would skip, is not modelled.
