# LED controller: firmware preview state machine, client session and request builder

The system is an ESP8266 LED-strip controller with an Android remote. The firmware
(`firmware/src/main.cpp`) keeps three things: a base colour per LED, a local brightness
per LED, and a global brightness. A client claims a range of LEDs with `/select`. The
firmware then snapshots that range. `/set` and `/lbright` preview colours and
brightnesses on the range. `/cancel` rolls the range back to the snapshot. `/save`
writes the scene to flash and makes the preview permanent. `/load` reads it back and
`/state` reports it as JSON.

There are two clients:

- the main screen (`MainActivity.kt`) keeps optimistic `selectionActive` and
  `selectionDirty` flags, debounces its sliders and colour wheel, and builds request
  URLs;
- `LedApi` (`net/Api.kt`) builds the same requests from typed arguments and records each
  request and its status code in `RequestBus.last`.

The Dafny modules follow that structure:

| module | file | models |
|---|---|---|
| `Text`, `Wrappers` | text.dfy, wrappers.dfy | bytes, C and Kotlin integer conversions, Kotlin `trim`/`trimEnd`/`removePrefix`, decimal rendering; `Option`/`Result` |
| `CNum` | cnum.dfy | newlib `strtol` (bases 10 and 16, saturating) and Arduino `String::toInt` |
| `Strip` | strip.dfy | the LED arrays, the selection, `parseHexColor`, `clampRange`, `freeSelection`, `restoreSelection`, `createSelection` |
| `Handlers` | handlers.dfy | `/select`, `/set`, `/lbright`, `/cancel`, `/blink`, `/brightness` as pure transitions returning a status code |
| `Storage` | storage.dfy | `/save` and `/load`: the packed header, the byte image of the arrays, the header check, short reads |
| `StateReport` | state_report.dfy | `/state`: the JSON body, and a reader for exactly that layout |
| `Preview` | preview.dfy | the select → previews → cancel/save life cycle |
| `Query` | query.dfy | joining `k=v` pairs with `&`, and splitting them again as the web server does |
| `ClientText` | client_text.dfy | `normalizeBaseUrl`, `filterDigits`, `toIntOrNull`, the `%02X%02X%02X` colour, `urlEnc`, the `httpGet` URL |
| `Session` | session.dfy | the flag machine in the `onSuccess`/`onFailure` callbacks, the requests each control sends, `refreshState` |
| `Debounce` | debounce.dfy | `Debouncer` over a timeline of submissions |
| `LedApi` | led_api.dfy | the base address, `url`, `get`/`getStatus`/`stateRaw` and their `RequestBus` writes, and every endpoint's path |
| `Protocol` | protocol.dfy | the three programs together: what the device does with each request a client sends, and whether the main screen's flags track the device |

Every firmware handler needs the invariant `Strip.Valid`, which every reachable state
satisfies (`Strip.InitValid`), and preserves it.

The proofs bring out four points where the programs behave differently from what one
reads at first:

- **`clampRange` swaps an inverted pair.** A start past the end is not collapsed to
  a single index or refused: `std::swap` exchanges the two (`Strip.ClampRangeSwaps`).
- **A successful save leaves the flags out of step.** `handleSave` frees the device's
  selection. The main screen's `onSuccess` for save clears only `selectionDirty`, so
  the screen still shows the selection as active. Its next colour preview is refused
  with 409 (`Protocol.SaveDesync`).
- **A `/select` that fails to allocate also leaves the flags out of step.** The failure
  comes after the old selection was already released. The screen keeps showing it as
  active (`Protocol.FailedSelectDesync`).
- **A cancelled preview leaves the flags out of step for a while.** `submit` cancels
  the previous job. If that job's `/set` or `/lbright` request is already under way,
  the device still applies it and marks the selection dirty. `withContext` then ends
  in a cancellation, which `runCatching` passes to `onFailure`. The screen shows an
  error and keeps `selectionDirty` false (`Protocol.CancelledPreviewDesync`). The next
  preview that completes sets the flag again.

Every other command keeps the flags in step whatever the device answers, provided
each debounced block runs to completion (`Protocol.PreviewKeepsAgreement`,
`Protocol.CancelAndLoadKeepAgreement`). `refreshState` brings them back into line.

Two more behaviours of the code are modelled as written:

- `ping` is true for any response with a readable body, whatever the status code
  (`LedApi.Ping`);
- an empty or blank address normalises to `http:` (`ClientText.NormalizeEmptyAddress`).

Source paths below are relative to the repository root.

## Model

| member | source | states |
|---|---|---|
| CNum.Strtol | firmware/src/main.cpp:79 | the value is always within the 32-bit `long` range; `endptr` never passes the end; an input holding no digit of the base gives value 0 with `endptr` at the start; when `endptr` moves, it stops right after a digit and at a character that is not one |
| CNum.StrtolOfDigits | firmware/src/main.cpp:79 | a string made only of digits of the base is consumed whole and read as its value, saturated to the `long` range |
| CNum.ToIntOfIntToDec | firmware/src/main.cpp:147-148 | `toInt` reads back every 32-bit integer printed in decimal, negative ones included |
| Strip.InitValid | firmware/src/main.cpp:323-329 | the start-up state is valid, with all LEDs black at full local brightness and no selection |
| Strip.ParseHexColor | firmware/src/main.cpp:74-82 | anything that is not six characters after the optional `#` of a 7-character argument is rejected |
| Strip.ParseHexColorAcceptsSixHexDigits | firmware/src/main.cpp:74-82 | six hex digits, bare or after `#`, are accepted and read as `RRGGBB`: `(v>>16)&0xFF`, `(v>>8)&0xFF`, `v&0xFF` |
| Strip.ParseHexColorAcceptsSign | firmware/src/main.cpp:78-81 | the parse is laxer than `RRGGBB`: `strtol` takes a sign, so `-00001` is accepted and reads as white |
| Strip.ClampRange | firmware/src/main.cpp:84-88 | the result is an ordered pair within `0..NUM_LEDS-1`, made of the two capped bounds; an ordered in-range pair is unchanged |
| Strip.ClampRangeIdempotent | firmware/src/main.cpp:84-88 | clamping a clamped pair changes nothing, so the second clamp in `createSelection` has no effect |
| Strip.ClampRangeSwaps | firmware/src/main.cpp:87 | an inverted in-range pair is swapped, not collapsed |
| Strip.RestoreSelection | firmware/src/main.cpp:109-117 | with an active selection, the backup is copied back over the range, the rest is untouched and the selection is freed; without one nothing changes |
| Strip.FreeSelection | firmware/src/main.cpp:103-107 | the selection is cleared: inactive, clean, length 0 and no backup. The range bounds, both arrays and the global brightness are kept |
| Strip.Release | firmware/src/main.cpp:120-121 | before a new selection, a dirty selection is rolled back: the result is exactly `Strip.RestoreSelection` of the state, with the backup written back over the range. A clean one is freed with the arrays kept |
| Strip.CreateSelection | firmware/src/main.cpp:119-138 | on success: active, clean, the clamped range, `selLen` its width, and backups equal to the arrays on the range (taken after any dirty preview was rolled back); on allocation failure no selection |
| Handlers.BlinkSelection | firmware/src/main.cpp:155-165 | the white/black blink followed by the copy-back leaves the arrays as they were whenever the backup matches them |
| Handlers.Claim | firmware/src/main.cpp:150-166 | 500 with no selection when allocation fails, otherwise 200 with a clean selection of exactly the given range whose backup matches the arrays |
| Handlers.HandleSelect | firmware/src/main.cpp:141-167 | 400 unchanged without `start` and `end`; 500 with the old selection released when allocation fails; 200 exactly when both are present and allocation succeeds, claiming the `uint16_t`-converted, clamped range |
| Handlers.HandleSetPreview | firmware/src/main.cpp:169-193 | 409 unchanged without a selection (checked first), 400 unchanged for a missing or bad `hex`; 200 exactly otherwise, painting the range, setting `lbright` clamped only when given, leaving the rest and marking dirty |
| Handlers.Paint | firmware/src/main.cpp:179-190 | inside the range the colour and, when given, the brightness; outside it nothing changes; the selection becomes dirty |
| Handlers.HandleLocalBrightness | firmware/src/main.cpp:195-205 | 409 without a selection, 400 without `value`; otherwise the range's local brightness becomes `value` clamped to 0..255, colours untouched, dirty set |
| Handlers.HandleCancel | firmware/src/main.cpp:207-211 | always 200 and no selection afterwards; with no selection nothing changes; otherwise the range gets its backup back and the rest is untouched |
| Handlers.HandleGlobalBrightness | firmware/src/main.cpp:231-242 | 400 unchanged without `value`; otherwise only the global brightness changes, to `value` clamped to 0..255 |
| Handlers.HandleBlink | firmware/src/main.cpp:213-229 | the flashing touches only the LED output: the model state (colours, local and global brightness, selection) is unchanged and the answer is 200 |
| Storage.EncodeHeader | firmware/src/main.cpp:45-50 | the nine packed header bytes decode to magic `0xBEEFCAFE`, version 3, `NUM_LEDS` and the global brightness |
| Storage.HeaderOkIsEncoded | firmware/src/main.cpp:266-267 | a header passes the load check exactly when its bytes are the ones a save writes |
| Storage.UnflattenFlatten | firmware/src/main.cpp:271-273 | reading the colour bytes back gives the colours that were written |
| Storage.HandleSave | firmware/src/main.cpp:244-258 | on any file error 500 and nothing changes; otherwise 200, the file holds the header and both arrays, and the selection is freed without rollback |
| Storage.HandleLoad | firmware/src/main.cpp:260-280 | 404 without a file, 400 unchanged for a short or wrong header; 200 exactly for a full file with a good header, taking its brightness and arrays and freeing the selection |
| Storage.SaveLoadRoundTrip | firmware/src/main.cpp:244-280 | loading what a successful save wrote brings back the saved arrays and global brightness, with no selection |
| StateReport.ReadRender | firmware/src/main.cpp:284-292 | the `/state` JSON layout is unambiguous: it reads back as the report it renders |
| StateReport.HandleState | firmware/src/main.cpp:282-294 | the state is unchanged, the answer is 200 and the body opens with `{"ok":true,"num_leds":99,`; the rest is read back by `StateReport.StateBodyReadsBack` |
| StateReport.StateBodyReadsBack | firmware/src/main.cpp:282-294 | the body of `/state` reads back as the device's LED count, global brightness and selection |
| Preview.RunIsPreview | firmware/src/main.cpp:169-205 | any sequence of previews, brightness changes, blinks and state reads keeps the selection and its backup and changes nothing outside the range |
| Preview.CancelUndoesPreview | firmware/src/main.cpp:207-211 | cancelling after previews gives back the arrays the selection's backup was taken from |
| Preview.SelectPreviewCancel | firmware/src/main.cpp:119-138 | select, any previews and cancel give back the arrays as `createSelection` found them, with no selection |
| Preview.SelectPreviewCancelRestores | firmware/src/main.cpp:207-211 | from a state without a dirty selection, select, previews and cancel restore exactly the original arrays |
| Preview.SaveThenCancelKeepsPreview | firmware/src/main.cpp:256 | after a save, a cancel has nothing to roll back, so the preview stays |
| ClientText.NormalizeBaseUrl | android/app/src/main/java/com/example/ledctrl/MainActivity.kt:286-291 | the result never ends with `/`; a trimmed address with `http://` or `https://` gets no prefix, any other gets `http://` before the slashes are trimmed |
| ClientText.NormalizeBareHost | android/app/src/main/java/com/example/ledctrl/MainActivity.kt:286-291 | a bare host such as `192.168.1.50` becomes `http://` followed by the host |
| ClientText.NormalizeEmptyAddress | android/app/src/main/java/com/example/ledctrl/MainActivity.kt:286-291 | the empty address is not rejected and becomes `http:` |
| ClientText.FilterDigits | android/app/src/main/java/com/example/ledctrl/MainActivity.kt:284 | the result has only digits, is an order-preserving subsequence of the input and keeps every digit as often as the input has it |
| ClientText.FilterDigitsFixesDigits | android/app/src/main/java/com/example/ledctrl/MainActivity.kt:284 | a digit string is its own filtering |
| ClientText.FilterDigitsIdempotent | android/app/src/main/java/com/example/ledctrl/MainActivity.kt:284 | filtering twice is filtering once |
| ClientText.Utf16Length | android/app/src/main/java/com/example/ledctrl/MainActivity.kt:155 | Kotlin's `length` counts UTF-16 units: between one and two per character, and exactly one per character iff none lies outside the Basic Multilingual Plane |
| ClientText.EditRangeField | android/app/src/main/java/com/example/ledctrl/MainActivity.kt:155-163 | an edit of at most five UTF-16 units is kept with its non-digits removed, a longer one is refused; a field of at most five digits stays one, and the field never grows past five units |
| ClientText.EditCountsUtf16Units | android/app/src/main/java/com/example/ledctrl/MainActivity.kt:155 | four digits and an emoji are six units, so the edit is refused and the field keeps its text |
| ClientText.ToIntOrNull | android/app/src/main/java/com/example/ledctrl/MainActivity.kt:172-173 | a non-empty digit string whose value fits in `Int` reads as that value; the empty string reads as null |
| ClientText.FieldIndex | android/app/src/main/java/com/example/ledctrl/MainActivity.kt:172-173 | an empty field means index 0, a field of up to five digits means its decimal value |
| ClientText.Hex | android/app/src/main/java/com/example/ledctrl/MainActivity.kt:79-84 | six upper-case hex digits, two per channel, spelling `(c shr 16) and 0xFF`, `(c shr 8) and 0xFF` and `c and 0xFF` |
| Protocol.HexRoundTrip | android/app/src/main/java/com/example/ledctrl/MainActivity.kt:79-84 | the firmware's `parseHexColor` reads the screen's hex text back as exactly the colour's three channels |
| ClientText.UrlEnc | android/app/src/main/java/com/example/ledctrl/MainActivity.kt:293-294 | the encoding is made of unreserved characters, `+` and `%`; text of unreserved characters is left as it is |
| ClientText.HttpGetUrl | android/app/src/main/java/com/example/ledctrl/MainActivity.kt:88-98 | the URL is the normalised base, the path, then `?` and the encoded pairs only when there are parameters |
| ClientText.TargetArgs | android/app/src/main/java/com/example/ledctrl/MainActivity.kt:92-97 | whatever the parameters hold, the server splits the request target back into exactly the encoded parameters |
| Query.ParseJoin | android/app/src/main/java/com/example/ledctrl/MainActivity.kt:94-96 | splitting pairs joined with `=` and `&` gives back the pairs when no key holds a separator |
| Session.OnSuccess | android/app/src/main/java/com/example/ledctrl/MainActivity.kt:171-242 | select sets active and clears dirty; cancel and load clear both; save clears only dirty; a colour or local-brightness preview sets only dirty; global brightness touches neither |
| Session.OnResult | android/app/src/main/java/com/example/ledctrl/MainActivity.kt:174-181 | a 2xx answer applies the command's `onSuccess`. Any other outcome only marks the status failed: a non-2xx code (which `httpGet` turns into an error) or an exception |
| Session.FailureKeepsFlags | android/app/src/main/java/com/example/ledctrl/MainActivity.kt:174-181 | a failed request leaves both flags as they were, whatever the command |
| Session.SelectCancelAndSelectPreviewSave | android/app/src/main/java/com/example/ledctrl/MainActivity.kt:171-234 | select then cancel leaves no selection; select, preview, save leaves a clean active selection |
| Session.OnColorChange | android/app/src/main/java/com/example/ledctrl/MainActivity.kt:200-209 | a colour preview is sent exactly while a selection is active, as `/set` with the hex the callback captured |
| Session.OnLocalSlider | android/app/src/main/java/com/example/ledctrl/MainActivity.kt:214-225 | a local-brightness preview is sent exactly while a selection is active |
| Session.OnGlobalSlider | android/app/src/main/java/com/example/ledctrl/MainActivity.kt:247-258 | the global slider always sends `/brightness` and shows the value at once |
| Session.OnSelectClick | android/app/src/main/java/com/example/ledctrl/MainActivity.kt:171-176 | `/select` with `start`, `end` as the fields' `toIntOrNull() ?: 0` in decimal and `blink=1`; `toInt` of each sent value gives back the field's index |
| Session.OnCancelClick | android/app/src/main/java/com/example/ledctrl/MainActivity.kt:184-190 | cancel can be sent exactly while a selection is active |
| Session.OnSaveClick | android/app/src/main/java/com/example/ledctrl/MainActivity.kt:228-234 | save can be sent exactly while the selection is dirty |
| Session.Refresh | android/app/src/main/java/com/example/ledctrl/MainActivity.kt:108-119 | a readable report sets the flags, the LED count and the global brightness from the device; a failure changes only the status |
| Debounce.Submit | android/app/src/main/java/com/example/ledctrl/MainActivity.kt:275-281 | a new submission cancels the pending job unless it is already due, in which case that job's block has run |
| Debounce.RunsBelow | android/app/src/main/java/com/example/ledctrl/MainActivity.kt:270-282 | the submissions that run are exactly those followed by a gap of at least the delay, in increasing order |
| Debounce.FeedState | android/app/src/main/java/com/example/ledctrl/MainActivity.kt:270-282 | after any number of submissions the last one is pending and exactly the earlier ones with a long enough gap have run |
| Debounce.RanIsRuns | android/app/src/main/java/com/example/ledctrl/MainActivity.kt:270-282 | once things settle, a submission's block runs exactly when it is the last or the next comes at least the delay later; runs are in order and the last always runs |
| Debounce.RunsIffQuiet | android/app/src/main/java/com/example/ledctrl/MainActivity.kt:270-282 | with times in order, a block runs exactly when no later submission comes within the delay |
| Debounce.BurstRunsLast | android/app/src/main/java/com/example/ledctrl/MainActivity.kt:70-72 | a burst with every gap shorter than the delay runs only its last block |
| Debounce.WheelDragSendsLast | android/app/src/main/java/com/example/ledctrl/MainActivity.kt:70 | with the 120 ms colour delay, a drag reporting less than 120 ms apart sends only its last colour |
| Debounce.SpacedSlidesAllRun | android/app/src/main/java/com/example/ledctrl/MainActivity.kt:71-72 | with the 80 ms slider delays, moves at least 80 ms apart each send their value |
| Protocol.SelectClickReceived | android/app/src/main/java/com/example/ledctrl/MainActivity.kt:171-176 | "select and blink" reaches the device as the two field indices and `blink=1`, unchanged |
| Protocol.ClientSelectClaims | android/app/src/main/java/com/example/ledctrl/MainActivity.kt:171-181 | "select and blink" claims, when memory allows, the range the two fields name, `uint16_t`-converted and clamped |
| Protocol.ColorReceived | android/app/src/main/java/com/example/ledctrl/MainActivity.kt:204 | the colour preview reaches the device as its single `hex` argument |
| Protocol.ClientColorPaints | android/app/src/main/java/com/example/ledctrl/MainActivity.kt:200-209 | the hex the wheel callback captured paints the device's selected range with that colour's channels, or gets 409 without a selection |
| Protocol.SelectKeepsAgreement | android/app/src/main/java/com/example/ledctrl/MainActivity.kt:174-181 | a select answered with 200 or 400 keeps the screen's flags equal to the device's |
| Protocol.FailedSelectDesync | android/app/src/main/java/com/example/ledctrl/MainActivity.kt:174-181 | a select that fails for memory drops the device's selection while the screen still shows it active |
| Protocol.PreviewKeepsAgreement | android/app/src/main/java/com/example/ledctrl/MainActivity.kt:200-258 | colour, local and global brightness requests keep the flags equal to the device's, whatever it answers |
| Protocol.CancelAndLoadKeepAgreement | android/app/src/main/java/com/example/ledctrl/MainActivity.kt:184-242 | cancel and load keep the flags equal to the device's, whatever it answers |
| Protocol.SaveDesync | android/app/src/main/java/com/example/ledctrl/MainActivity.kt:228-234 | a successful save leaves the screen showing an active selection the device has freed, and the next colour is refused with 409; a failed save keeps the flags in step |
| Protocol.CancelledPreviewDesync | android/app/src/main/java/com/example/ledctrl/MainActivity.kt:200-223 | starting from a clean selection the screen agrees with, a `/lbright` (with `value`) or a `/set` answered 200, whose block ends in `onFailure`, leaves the device dirty while the screen stays active and clean |
| Protocol.RefreshAgrees | android/app/src/main/java/com/example/ledctrl/MainActivity.kt:108-119 | refreshing from the device's `/state` makes the flags, LED count and global brightness equal to the device's |
| LedApi.WithScheme | android/app/src/main/java/com/example/ledctrl/net/Api.kt:22-24 | the text always has a scheme afterwards; `http://` is added exactly when neither `http://` nor `https://` starts it |
| LedApi.MakeBase | android/app/src/main/java/com/example/ledctrl/net/Api.kt:18-32 | the input is trimmed and given `http://` unless it has a scheme. An address `URI` cannot parse fails as a bad address naming the original input; a parsed one yields `LedApi.BaseOf` of the parse |
| LedApi.BaseOf | android/app/src/main/java/com/example/ledctrl/net/Api.kt:28-31 | no host and no authority fails as no host. Otherwise the base is the scheme (`http` if none), `://`, the host or else the authority, then `:` and the decimal port when there is a port; it equals the bare `scheme://host` exactly when the port is -1 |
| LedApi.NormalizeIsWithScheme | android/app/src/main/java/com/example/ledctrl/net/Api.kt:22-24 | the main screen's normalisation adds the scheme by the same rule as `LedApi` |
| LedApi.Url | android/app/src/main/java/com/example/ledctrl/net/Api.kt:40 | a path with a leading `/` is appended as it is, any other after a `/` |
| LedApi.UrlLeadingSlash | android/app/src/main/java/com/example/ledctrl/net/Api.kt:40 | `url("/" + p)` equals `url(p)` exactly when `p` has no leading `/` of its own |
| LedApi.Get | android/app/src/main/java/com/example/ledctrl/net/Api.kt:44-57 | the bus first shows the URL without a code, then with the status code on a response or without one after an exception; the result is true exactly on a 2xx status |
| LedApi.GetStatus | android/app/src/main/java/com/example/ledctrl/net/Api.kt:59-72 | the code and body on a response whose body can be read, null otherwise; the bus ends with a code exactly when the result is not null |
| LedApi.StateRaw | android/app/src/main/java/com/example/ledctrl/net/Api.kt:76-89 | the body of any response that has a readable one, whatever its status |
| LedApi.Ping | android/app/src/main/java/com/example/ledctrl/net/Api.kt:91 | true exactly when the device replied with a readable body, even with an error status |
| LedApi.BusEndsWithCodeOnResponse | android/app/src/main/java/com/example/ledctrl/net/Api.kt:44-72 | both helpers leave a status code on the bus exactly when a response was read, and the same one |
| LedApi.SelectArgs | android/app/src/main/java/com/example/ledctrl/net/Api.kt:93-94 | `start` and `end` always, `blink=1` exactly when blinking is asked for |
| LedApi.SelectPath | android/app/src/main/java/com/example/ledctrl/net/Api.kt:93-94 | the `select` path is `select?` followed by exactly those arguments joined |
| LedApi.CleanHex | android/app/src/main/java/com/example/ledctrl/net/Api.kt:98 | the hex is trimmed and loses at most one leading `#` |
| LedApi.SetArgs | android/app/src/main/java/com/example/ledctrl/net/Api.kt:97-101 | the cleaned hex always, `lbright` clamped to 0..255 exactly when given |
| LedApi.SetPath | android/app/src/main/java/com/example/ledctrl/net/Api.kt:97-101 | the `set` path is `set?` followed by exactly those arguments joined |
| LedApi.SetPreviewHexStatus | android/app/src/main/java/com/example/ledctrl/net/Api.kt:97-101 | the request goes to `set?` plus the joined `SetArgs`; the pair is present exactly when a response arrived whose body did not fail to read, and it carries the status code and the body text |
| LedApi.SetPreviewHex | android/app/src/main/java/com/example/ledctrl/net/Api.kt:103-104 | true exactly for a 200 response whose body did not fail to read, so a 200 with no body counts too; another 2xx code counts as failure |
| LedApi.ValuePath | android/app/src/main/java/com/example/ledctrl/net/Api.kt:106-110 | brightness paths carry one `value`, clamped to 0..255 |
| LedApi.BlinkArgs | android/app/src/main/java/com/example/ledctrl/net/Api.kt:115-116 | at least one blink of at least 20 ms |
| LedApi.BlinkPath | android/app/src/main/java/com/example/ledctrl/net/Api.kt:115-116 | the `blink` path is `blink?` followed by exactly those arguments joined |
| Protocol.ApiSelectReceived | android/app/src/main/java/com/example/ledctrl/net/Api.kt:93-94 | `select` reaches the device with its arguments unchanged |
| Protocol.ApiSelectClaims | android/app/src/main/java/com/example/ledctrl/net/Api.kt:93-94 | `select` claims, when memory allows, the `uint16_t`-converted, clamped range it names |
| Protocol.CleanHashHex | android/app/src/main/java/com/example/ledctrl/net/Api.kt:98 | `#RRGGBB` is sent as its six digits |
| Protocol.ApiSetReceived | android/app/src/main/java/com/example/ledctrl/net/Api.kt:97-101 | `setPreviewHex("#RRGGBB", lbright)` reaches the device as the six digits and, when given, the clamped brightness |
| Protocol.ApiSetArgsRead | android/app/src/main/java/com/example/ledctrl/net/Api.kt:97-101 | the device reads that `hex`, sees `lbright` exactly when it was given, and reads it as the clamped value |
| Protocol.ApiSetPaints | android/app/src/main/java/com/example/ledctrl/net/Api.kt:97-101 | on a device holding a selection, `setPreviewHex("#RRGGBB", lbright)` paints the range with that colour and, when given, the clamped brightness |
| Protocol.ApiGlobalBrightness | android/app/src/main/java/com/example/ledctrl/net/Api.kt:109-110 | `setGlobalBrightness(v)` sets exactly the global brightness, to `v` clamped |
| Protocol.ApiLocalBrightness | android/app/src/main/java/com/example/ledctrl/net/Api.kt:106-107 | `setLocalBrightness(v)` sets the selected range's local brightness to `v` clamped |

## Left out

- FastLED output (`applyToStrip`, `scale8_video`, `FastLED.show`) and every `delay`: they only read the model state. `handleBlink` only drives the output, so `Handlers.HandleBlink` leaves the state unchanged and answers 200. The `uint8_t`/`uint16_t` conversions of `times` and `ms` affect only the output.
- Wi-Fi, mDNS, OTA, `handleReboot`, `handleOptions`, the `/` and not-found routes, CORS headers and response bodies other than `/state`: these are outside the preview logic.
- The scene autoload in `setup()`: a start-up copy of `handleLoad` without a reply.
- LittleFS: writes are a parameter (all succeed, open fails, or a write comes up short), and a load gets the file's bytes or nothing. A partially written file after a failed save is not modelled.
- The web server library's argument parsing is not part of this repository. `Query.Args` stands in for it, without percent-decoding, which none of the proved requests need.
- `org.json` in `refreshState`: `StateReport.ReadReport` reads exactly the layout the firmware writes, so the defaults for missing fields are not modelled.
- `HSVToColor`, the colour wheel and `roundToInt` of the sliders: `colorInt` and the rounded slider value are inputs.
- Compose state plumbing and `statusText` wording. `Session.Status` only says which command completed or that one failed.
- Which colour the wheel sends. The block the wheel callback submits sends `hex`. This is a plain value computed when the callback was created, so the hex sent can be stale. The wheel installs its gesture handler once (`pointerInput(Unit)`) and keeps the `onChange` of its first composition. The model takes the hex the callback captured as an input (`Session.OnColorChange`, `Protocol.ClientColorPaints`) and does not model which composition it came from.
- The local-brightness block reads the `localBright` state when it runs, not when it was submitted. The model takes that value as an input.
- The follow-up `refreshState()` after a successful load is modelled by `Session.Refresh`, not chained.
- Coroutine cancellation of a block that has already started. A job whose delay has expired by the next submission counts as run (`Debounce`), including at the same instant. Whether its request had reached the device when the cancellation came is not modelled as a sequence. Both endings are modelled: `Protocol.PreviewKeepsAgreement` covers a block that completes, and `Protocol.CancelledPreviewDesync` one whose request was applied but which ends in `onFailure`.
- OkHttp, timeouts and `Dispatchers.IO`: the transport outcome is a parameter (an exception, or a status code with an absent, readable or failing body).
- Concurrent writers to `RequestBus.last`: each call's own writes are modelled, in order. `Log.d` is left out.
- `java.net.URI`: its parse is a parameter reporting scheme, host, authority and port.
- Kotlin `Char.isDigit` also accepts non-ASCII digits. The model accepts ASCII digits only.
- `LedApi` endpoints with no logic of their own (`save`, `cancel`, and the `Get` calls wrapping each path) have no rows; their URLs and results follow from `LedApi.Get` and the path members.
- Strip.ParseHexColor: its own contract states only the length rejection. Acceptance of six hex digits is stated by `Strip.ParseHexColorAcceptsSixHexDigits`. The rejection of a non-hex character before the end is in the body, but no contract states it.
- ClientText.ToIntOrNull: the contract states the digit-string and empty cases. Signs and the rejection of values outside `Int` are modelled in the body but not stated.
- StateReport.HandleState: its own contract states only the fixed start of the body. The whole body is stated through `StateReport.StateBodyReadsBack`.
