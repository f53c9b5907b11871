# e-ink control panel — a Dafny model of its update logic

This project models the logic of a Raspberry Pi e-ink control panel. The panel shows weather, garbage-collection reminders and the on/off state of household devices. Device state arrives over MQTT. The model is written and proved in Dafny. It covers:

- **`DisplayController`** (`display_controller.py`), the coordinator of all writes to the Waveshare panel. One shared counter counts every panel operation: full renders, partial updates, dialog shows and dialog restores. A full render first clears the panel when that count is divisible by 4, and a partial update becomes a full render when it is divisible by 5. It shows a modal dialog with a timed restore of the pixels beneath it. It debounces full renders and has a stop flag. The model (`controller.dfy`) is a pure state machine:
  - a `State` record holds the operation counter, the cached last frame, the open dialog session, the pending debounce render, the stop flag and the log of panel calls;
  - each public method is one transition, and each timer is an explicit "fires at `now`" transition.
- **The dialog builder** (`dialog.py`): greedy word wrap into at most 6 lines, then top-down line placement that stops at the bottom padding (`dialog.dfy`).
- **The device registry** (`devices.py`): update by topic, update by label, and the devices column region (`devices.dfy`).
- **The garbage-collection section** (`garbage.py`): choosing the next two collections, the Swedish reminder wording, and the line layout (`garbage.dfy`).
- **The weather adapter** (`weather_api.py`):
  - the cache freshness rule;
  - the cache → network → fallback fetch order;
  - the UV summary (day maximum and the span of high-UV hours);
  - the icon table;
  - the five-day forecast;
  - the fallback display (`weather.dfy`).
- **The MQTT debug decoder** (`mqtt_debug.py`): payload interpretation and the device-state annotation (`mqtt.dfy`).
- **The runner's message rule** (`run_display.py`): an on/off message on a device topic updates the registry. If a device flipped, the redrawn devices column is pushed through `partial_update` (`dispatch.dfy`).

Supporting modules:
- `wrappers.dfy`: `Option` and `Result`.
- `text.dfy`: Python's `strip`, `split()`, `" ".join`, ASCII `lower` and `str(int)`, with round-trip lemmas.
- `raster.dfy`: grey-level images with PIL's `crop` and `paste`, and the crop/paste round trips.

What cannot be observed without hardware or a clock becomes a parameter:
- the composed frame (`compose_panel()`);
- the text measure and line height of the font;
- the calendar functions of the local clock;
- the current time;
- the JSON parser.

## Model

| member | source | states |
|---|---|---|
| Controller.Create | display_controller.py:28-54 | a new controller has a zero operation count, no cached frame, no dialog, no pending render, is not stopped, has made no panel calls, and satisfies the invariant |
| Controller.CentredBox | display_controller.py:167-172 | the dialog box is 200×100 and centred on the panel with floor division (its left/top edge is half the slack, rounded down) |
| Controller.Render | display_controller.py:66-80 | a full render adds panel calls, caches the frame and counts one operation; the dialog session, pending render and stop flag are untouched, and the invariant is preserved |
| Controller.RenderCalls | display_controller.py:70-76 | a render's panel calls start with `init` and end with `sleep`, include `display`, include a clear exactly when the count is a multiple of 4, and never write a region |
| Controller.PartialUpdate | display_controller.py:113-140 | counts one operation; every 5th call is a full render; a patch whose size differs from the box gets `init_part` and then a full render; a fitting patch is written as `init_part`, a `display_Partial` of that size into that box, and `sleep`, and is pasted into the cached frame; the invariant is preserved |
| Controller.PartialUpdateCache | display_controller.py:133-139 | after a written patch, the cached frame keeps its size, and exactly the pixels inside the box become the patch's |
| Controller.PartialUpdateCropsToPatch | display_controller.py:137-138 | after a written patch inside the frame, cropping the cache at the box gives the patch back |
| Controller.MismatchedPatchFallsBack | display_controller.py:125-132 | a wrongly sized patch is never written: the new panel calls are `init_part`, `init`, …, with no region write, and the cache becomes the full frame |
| Controller.EscalatedPartialWritesNoRegion | display_controller.py:120-124 | on a count divisible by 5, the partial update's panel calls are exactly a full render's: they start with `init`, with no `init_part` and no region write |
| Controller.PartialRun | display_controller.py:125-139 | `n` fitting partial updates that do not reach a multiple of 5 each add `init_part`, one region write of the patch into the box, and `sleep`, and count `n` operations |
| Controller.FifthPartialEscalates | display_controller.py:120-139 | from any count not divisible by 5, the fitting partial updates up to the next multiple of 5 (one to four of them) are written as regions, and the next one is a full render |
| Controller.ShowDialogWith | display_controller.py:143-211 | a missing baseline triggers a render first; a visible dialog blocks a new one; otherwise the covered pixels are backed up from the cached frame, the panel calls are the baseline render's (if any) followed by `init_part`, one write of the dialog image into the centred box and `sleep`, one more operation is counted and the restore time is `duration` after now; the invariant is preserved |
| Controller.ShowDialog | display_controller.py:179-184 | as written, the dialog pushed to the panel is 203×103, because the builder adds its default 3-pixel shadow |
| Controller.ShowDialogDefault | display_controller.py:143 | without a duration, the dialog is restored five seconds after it is shown |
| Controller.DialogOverrunsItsBox | display_controller.py:179-184 | as written, the pushed image is wider and taller than the box it is written into, by the shadow offset |
| Controller.ShowDialogFitted | display_controller.py:179-184 | with the dialog built to its box, the image written has exactly the dimensions of the centred box |
| Controller.SecondDialogIgnored | display_controller.py:162-165 | while a dialog is visible, a new dialog request changes nothing (the code ignores it; it does not restore the first one) |
| Controller.RestoreFires | display_controller.py:190-207 | the restore timer does nothing before its time, after `stop()` or without a backup; otherwise it writes the backup into the box, pastes it into the cache, counts one operation and closes the session |
| Controller.ShowThenRestore | display_controller.py:174-207 | showing a dialog and letting its timer fire gives back the cached frame exactly as it was before the dialog, and closes the session |
| Controller.DialogAcceptedAfterRestore | display_controller.py:163-211 | once the restore has run, the next dialog request is shown |
| Controller.StoppedDialogStays | display_controller.py:190-193 | after `stop()`, the restore timer does nothing, so the dialog stays and every later dialog request is ignored |
| Controller.ScheduleRender | display_controller.py:94-104 | scheduling replaces any pending render with one due `delay` later and changes nothing else |
| Controller.RenderTimerFires | display_controller.py:99-100 | the debounce timer does a full render once it is due, and nothing before |
| Controller.DebounceCollapses | display_controller.py:94-104 | a burst of schedule calls leaves one pending render, due `delay` after the last call; it renders exactly once, and firing again does nothing |
| Controller.Stop | display_controller.py:56-63 | `stop()` sets the stop flag and cancels the pending render, and nothing else |
| Controller.StopCancelsPendingRender | display_controller.py:56-62 | after `stop()` the debounce timer never renders |
| Controller.StoppedIsSticky | display_controller.py:56-57 | no operation clears the stop flag |
| Controller.RenderClears | display_controller.py:71-73 | one render adds one clear exactly when the count is divisible by 4 |
| Controller.RendersClearOnTurns | display_controller.py:69-79 | `n` renders in a row clear once for each of the counts they start at that is divisible by 4, and add `n` to the count |
| Controller.EightRendersClearTwice | display_controller.py:69-79 | eight renders of a new controller clear the panel exactly twice |
| Dialog.Step | dialog.py:14-22 | one word of greedy wrap: no word is lost or reordered, at most one line is pushed (none while the current line is empty), and every pushed line still fits or is a single word |
| Dialog.Flush | dialog.py:25-26 | the last partial line is appended only when there is room for it |
| Dialog.WrapWords | dialog.py:10-27 | the wrapped lines are non-empty, each fits or is one over-long word, there are at most `max_lines` of them, their words are a prefix of the input words, and all words are kept when there are fewer words than lines |
| Dialog.WrapText | dialog.py:10-27 | `_wrap_text` on a string: non-empty lines, at most `max_lines`, each within the width unless it is a single word, and re-splitting the lines gives a prefix of `text.split()` (all of it when it has fewer words than `max_lines`) |
| Dialog.CandidateText | dialog.py:15 | stripping `current + " " + w` is the same as joining the line's words with `w` appended |
| Dialog.Place | dialog.py:94-100 | lines are drawn from the top padding at a pitch of line height + 2, every drawn line ends above the bottom padding, and drawing stops at the first line that would not |
| Dialog.Build | dialog.py:30-102 | the image is the inner size plus the shadow offset when shadowed; text is wrapped to the width minus twice the padding into at most 6 lines, which are placed as in `Place`; a line is left undrawn only when the next line would pass the bottom padding |
| Raster.Crop | display_controller.py:175 | a crop has the box's size and shows the pixels under the box |
| Raster.Paste | display_controller.py:138 | a paste keeps the destination's size, shows the source inside its rectangle and the destination elsewhere |
| Raster.CropAfterPaste | display_controller.py:137-138 | pasting a patch into a box inside the image and cropping that box gives the patch back |
| Raster.PasteOfCrop | display_controller.py:175-202 | pasting back what was cropped leaves the image unchanged |
| Devices.UpdateDeviceByTopic | devices.py:73-81 | the first device on the topic whose state differs is set and returned; no other device changes and no name, topic or icon changes; `None` is returned, and nothing changes, exactly when no device on the topic differs |
| Devices.UpdateByTopicIdempotent | devices.py:73-81 | with one device per topic, repeating an update finds nothing to change |
| Devices.DuplicateTopicSecondCallFlipsAgain | devices.py:75-80 | with two devices on one topic, one message flips only the first of them; the same message again flips the second |
| Devices.UpdateDeviceState | devices.py:63-71 | the first device with the label is set; an unknown label is appended with no topic and the default icon; nothing else changes |
| Devices.UpdateDeviceStateThenLookup | devices.py:63-71 | after an update by label, looking that label up gives the new state |
| Devices.DrawDeviceIcons | devices.py:26-42 | the i-th icon is drawn at a pitch of `icon_size + 8`, in black when the device is on and light grey when it is off |
| Devices.GetDevicesRegion | devices.py:44-61 | the region exists exactly when the height minus the padding on both sides is not negative; its box is `(p, p, p + 72, h - p)` and its image has exactly the box's size |
| Dispatch.OnMessage | run_display.py:46-55 | a message is acted on only on a device topic with a stripped, lower-cased payload of `on` or `off`; the registry is updated by topic, and only a device that actually flipped triggers a partial update of the devices column |
| Dispatch.FlipNeverFallsBack | run_display.py:51-55 | the devices column always fits its box, so a flip is either the every-fifth full render or exactly one region write of the 72×448 column at `(16, 16, 88, 464)` |
| Dispatch.RepeatedMessageIsIgnored | run_display.py:51-55 | with one device per topic, the same message twice changes nothing the second time |
| Dispatch.OtherPayloadIgnored | run_display.py:51 | a message on a topic that is not a device topic, or whose payload is neither `on` nor `off` once stripped and lower-cased, leaves the registry and the panel alone |
| Dispatch.PayloadNormalised | run_display.py:48-52 | surrounding blanks and letter case do not matter: a payload that normalises to `on` or `off` acts exactly like that word |
| Garbage.QualifyingMembers | garbage.py:22-30 | a collection is a candidate exactly when it is in the table and not before today |
| Garbage.SortByDateSorts | garbage.py:33 | the sort is a permutation and orders the candidates by date |
| Garbage.SortIsStable | garbage.py:33 | the sort is stable: collections on the same day keep their table order (household before garden) |
| Garbage.NextCollectionsEarliest | garbage.py:17-36 | the result is the `min(2, n)` earliest candidates in date order, and no candidate left out is earlier than one returned |
| Garbage.GetNextCollection | garbage.py:17-36 | over the built-in table (through `NextCollections`): the `min(2, n)` earliest collections not before today, in date order, each from the table, with no candidate left out earlier than one returned |
| Garbage.NextCollectionsQualify | garbage.py:17-36 | every returned collection is from the table and not before today |
| Garbage.NextCollectionOnDefaultDay | garbage.py:9-15 | on the default day 2025-05-29, the next collections are garden on 2025-05-30 and household on 2025-06-11 |
| Garbage.DaysUntil | garbage.py:38-48 | `idag` exactly for 0 days, `imorgon` exactly for 1 day, and `om N dagar` otherwise |
| Garbage.DaysUntilInjective | garbage.py:38-48 | different day counts give different wording |
| Garbage.ReminderMessage | garbage.py:50-58 | a reminder starts with the kind's Swedish name and ends with the days-until wording in parentheses |
| Garbage.ReminderNamesKind | garbage.py:55-58 | two collections with the same reminder text are of the same kind: the kinds' names never start alike |
| Garbage.Instruction | garbage.py:84-88 | the "put it out" line is drawn exactly when the first collection is today or tomorrow, below the reminders, naming that collection's kind |
| Garbage.DrawGarbageCollection | garbage.py:60-88 | one reminder line per chosen collection, one line height apart from below the title; the instruction line, when due, is below every reminder |
| Garbage.InstructionTexts | garbage.py:86-87 | the instruction nouns are lower-cased to `hushållssoporna` and `trädgårdsavfallet` |
| Weather.GetUvInfo | weather_api.py:142-172 | the current UV defaults to 0, and the maximum is at least the current UV |
| Weather.UvMaxIsDayMaximum | weather_api.py:149-163 | the maximum is at least every hour of the current day, and is either the current UV or one of those hours |
| Weather.UvSpanIffHighHour | weather_api.py:168-175 | a span is reported exactly when some hour of the current day reaches UV 3 |
| Weather.UvSpanCoversHighHours | weather_api.py:169-181 | every hour of the day with UV of at least 3 lies inside the reported span |
| Weather.UvSpanEndsAreHighHours | weather_api.py:180-181 | both ends of the span are hours of the current day with UV of at least 3 |
| Weather.IconFor | weather_api.py:215 | a known code gets its glyph from the table and an unknown one the cloudy glyph |
| Weather.IconForInTable | weather_api.py:21-47 | every glyph returned is in the table; an unknown code looks like scattered clouds |
| Weather.IconCode | weather_api.py:194 | a missing condition list gives `01d`; an empty one is the `IndexError` that sends the display to its fallback |
| Weather.ForecastDaysOf | weather_api.py:210 | the forecast takes the daily entries after today, at most five |
| Weather.ForecastOf | weather_api.py:210-225 | one entry per day in order, failing exactly when some day has an empty condition list |
| Weather.GetWeatherDisplayData | weather_api.py:186-257 | an empty condition list, for the current weather or for a forecast day, gives the fixed fallback display; otherwise the icon and UV of the current weather and the forecast of the following days |
| Weather.ForecastShowsFollowingDays | weather_api.py:209-225 | the forecast's k-th entry describes daily entry k + 1 |
| Weather.GetCachedData | weather_api.py:60-72 | the cached payload is returned exactly when the file exists and is younger than the cache duration (a missing timestamp counts as 0) |
| Weather.CacheRoundTrip | weather_api.py:60-84 | data saved at time t is read back at any time less than the cache duration after t, and not later |
| Weather.FreshnessIsMonotone | weather_api.py:68 | a cache that is fresh now was fresh at every earlier time |
| Weather.SaveToCache | weather_api.py:74-84 | the cache file records the payload and the time it was saved |
| Weather.FetchWeatherData | weather_api.py:86-119 | the cache wins; otherwise the network answer; otherwise the fallback data |
| Weather.FetchServesSavedPayload | weather_api.py:60-119 | a payload saved at time t is what every fetch returns until the cache duration has passed, whatever the network says; after that a network answer wins |
| Weather.FallbackData | weather_api.py:121-140 | the fallback payload has UV 1 and the clear-day code now, no hourly data, and five days from now on, one day apart, each clear with 10° to 20° |
| Weather.FallbackDataShowsFourDays | weather_api.py:121-140 | the fallback payload has five days, so the forecast shows four, all with the clear-day glyph |
| Mqtt.InterpretPayload | mqtt_debug.py:59-84 | a blank payload is `""`; a payload is a boolean exactly when its stripped, lower-cased form is one of the six words, and `True` exactly for `on`/`true`/`1`; it is JSON exactly when it is not such a word, is bracketed and parses; otherwise it is the stripped text |
| Mqtt.OnMessage | mqtt_debug.py:103-122 | a device annotation is produced exactly for a known device topic, with that device's label |
| Mqtt.DeviceStateByWords | mqtt_debug.py:107-119 | a device is shown ON, OFF or unknown exactly according to whether the stripped, lower-cased payload is one of `on/true/1`, one of `off/false/0`, or neither |
| Mqtt.TextPayloadIsUnknown | mqtt_debug.py:113-118 | the text branch never yields ON or OFF, because such words were already turned into booleans |
| Mqtt.CaseDoesNotMatter | mqtt_debug.py:66-77 | `ON` decodes as true, `False` as false, and blank as the empty string |
| Text.Strip | mqtt_debug.py:66 | `strip()` leaves no whitespace at either end, and is empty exactly for an all-whitespace input |
| Text.SplitJoin | dialog.py:11-15 | splitting a line joined from words gives the words back |
| Text.IntToStringInjective | garbage.py:48 | different integers print differently |

## Left out

- Controller.ScheduleRender: the debounce delay `MQTT_RENDER_DEBOUNCE_SECONDS` (display_controller.py:102) comes from the configuration, so it is the `delay` parameter. All times are seconds as `real`, like Python's float seconds.
- Threads and the render lock. The transitions are sequential, and a timer firing is an explicit transition. The lock is not modelled, and neither are its consequences. One such consequence: `partial_update` calls `render()` while holding the non-reentrant lock (display_controller.py:119-131), so as written both the escalation and the size-mismatch fallback deadlock. The model gives them the full render the code evidently intends.
- `show_dialog`'s docstring says a new dialog first restores the previous one (display_controller.py:151). The code ignores the new request (display_controller.py:162-165). The model follows the code (`Controller.SecondDialogIgnored`).
- The EPD driver, `getbuffer` and the SPI transfer. Each driver call is a `PanelOp` entry in the log.
- Pixels drawn by PIL: text, rectangles, borders, the shadow, and the icon and text fonts. Images are modelled only where the controller moves pixels (crop, paste, size checks). The dialog image records only its size and its placed lines. The device and garbage sections record what is drawn where, not the pixels.
- `compose_panel`, the weather, dishes, electricity-price and last-update sections, and `to_image`: the composed frame is a parameter.
- `fast_render` is commented out (display_controller.py:82-92). `run_dev.py:61` still calls it, but it is not part of this model.
- Stale callers, which are not part of this model:
  - `run_display.py:59` constructs the controller without the EPD that display_controller.py:28 requires;
  - `mqtt_listener.py:17` and `mqtt_listener.py:49` use `get_devices` and a three-argument `update_device_state`, which `devices.py` does not provide.
- Dispatch.OnMessage: assumes a controller is attached; the `userdata` being absent (run_display.py:53) is not modelled.
- Dispatch.OnMessage: the devices column uses the sizes `WIDTH, HEIGHT = 800, 480` and `PADDING = 16` of compose.py:26-27; the column paint is a parameter that yields an image of the region's size.
- HTTP requests, file reads and writes, `json.load(s)`, and UTF-8 decoding. The fetch outcome, the cache file contents and the JSON parser are parameters. A cache file that is not valid JSON is the same as a missing one.
- Weather.GetWeatherDisplayData: falls back only on an empty condition list. The source's `except` (weather_api.py:238) also catches `fromtimestamp` range errors (weather_api.py:198-199, 211) and type errors from null or non-numeric fields. The model's payload is typed and its calendar is total, so these failures cannot be represented.
- Weather.FetchWeatherData: the source tests the cached payload for truthiness (weather_api.py:91), so an empty JSON object counts as a miss. The model treats every present payload as a hit.
- Float formatting (`:.0f`, `:.1f`), `strftime`, and the temperature, wind, sunrise/sunset and rain fields of the weather display. The UV summary is modelled as its numbers, not its text. Timestamps, dates, weekdays and hours come from a calendar parameter.
- Garbage.DrawGarbageCollection: dates are day numbers (Python's proleptic ordinals). The `%d/%m` text of a date comes from a parameter.
- Text.Lower: lower-cases ASCII letters only. It is used in two places. A payload is compared with the English words `on`, `off`, `true`, `false`, `1` and `0`; no non-ASCII character lower-cases into one of these words' letters, so the comparisons agree with Python's full `str.lower`. The garbage instruction lower-cases the kind nouns `Hushållssoporna` and `Trädgårdsavfallet`, whose only capital is ASCII, so the results agree too (`Garbage.InstructionTexts`).
- Configuration, the MQTT client, and the entry scripts (`run_display.py` main, `run_dev.py`, `mqtt_listener.py`, the `to_display` variants, `mqtt_debug.py` main). The device topic map and the topic list are parameters.
- Devices.UpdateDeviceByTopic: the registry is passed in and returned instead of being the module-level list `DEVICES`. The source's `label` field is named `name`.
- `gui_constant` is not part of this model. Its `icon_size` is taken as the 36 of constant.py:10, and its colours as constant.py:2-7.

## Findings

| source | as written | input that shows it | evidently intended | confidence | as-written member | corrected member |
|---|---|---|---|---|---|---|
| display_controller.py:179-184 | `build_dialog_image` is called with its default `shadow=True`, so the image is 203×103, and it is pushed with `display_Partial` into the 200×100 box | any `show_dialog` call while no dialog is visible | the image written into the box has the box's size (the shadow turned off, or the box grown by the offset) | not executed | Controller.DialogOverrunsItsBox | Controller.ShowDialogFitted |
