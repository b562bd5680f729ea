# ESP_DispSpotTrack firmware core in Dafny

ESP_DispSpotTrack is an ESP8266 sketch. It shows the track currently playing
on Spotify, as published over MQTT by Home Assistant, on a 4-module MAX7219
LED matrix. This project models the sketch's core as it is written
(`ESP_DispSpotTrack/src/main.cpp`) and proves properties of that model.

- `platform.dfy` (module `Platform`) covers the pieces of the Arduino
  platform the sketch relies on:
  - bytes and the 32-bit `millis()` clock, with its wrap-around subtraction;
  - C strings, `strncpy` and `snprintf` into fixed-size fields;
  - `String::trim`, `toUpperCase` and `toInt` (`atol`, with 32-bit saturation).
- `storage.dfy` (module `Storage`) covers the 512-byte emulated EEPROM:
  - the 260-byte `Config` record, which is `sizeof(Config)`, at address 0;
  - the 128-byte last-message record at 256;
  - brightness at 384 and the big-endian scroll speed at 385..386.
  - For every save there is a lemma saying what each load then sees,
    including how the configuration and the message record overlap at
    256..259.
- `display.dfy` (module `DisplayText`) covers the text pipeline of
  `updateDisplay`: upper-case, keep printable ASCII, cut to 64, and pad
  four spaces on each side.
- `commands.dfy` (module `Commands`) covers the decisions made on inbound
  requests:
  - the MQTT callback's routing of (topic, payload): a range check that
    ignores out-of-range values;
  - the HTTP setters, which clamp instead;
  - the configuration form's field updates and the MAC-derived client id.
- `supervisor.dfy` (module `Supervisor`) models one pass of `loop` as a
  function of the flags it reads and what the radio, broker and clock
  report. Lemmas about runs of passes show that:
  - broker attempts are more than 5 s of real time apart, across the
    `millis()` wrap;
  - READY is shown for exactly the first 5 s after the station connects;
  - access-point-only mode is final;
  - a reconnect does not show READY again.
- `firmware.dfy` (module `Firmware`) covers the global state as a class,
  `Device`:
  - the EEPROM is an `array<byte>`;
  - the sketch's globals are fields;
  - the panel is a log of draw commands.
  - Each function of the sketch that changes state is a method. It is
    specified through the definitions of the modules above.

The radio, the broker session, the panel's animation state and `millis()`
appear as parameters:
- `Inputs` for one pass of `loop`;
- `stationJoined` for `setup`;
- the delivered MQTT messages;
- `animationDone` for `displayAnimate()`;
- the MAC address for `handleConfig`.

## Model

| member | source | states |
|---|---|---|
| Platform.Sub32 | ESP_DispSpotTrack/src/main.cpp:183 | `unsigned long` subtraction is the difference modulo 2^32: exact when no wrap, plus 2^32 when the clock wrapped |
| Platform.ElapsedFromClock | ESP_DispSpotTrack/src/main.cpp:200-201 | for two readings less than 2^32 ms apart, the wrapped difference of the `millis()` values is the real elapsed time |
| Platform.CString | ESP_DispSpotTrack/src/main.cpp:391-393 | a C-string reader sees the prefix before the first NUL, which holds no NUL and is followed by a NUL or the end |
| Platform.CStringOfTerminated | ESP_DispSpotTrack/src/main.cpp:391-393 | a NUL-free text followed by a NUL or nothing reads back as itself |
| Platform.CStringAppend | ESP_DispSpotTrack/src/main.cpp:391-393 | a C-string reader reads a NUL-free text and then whatever the rest holds before its first NUL |
| Platform.ToIntCutsAtNul | ESP_DispSpotTrack/src/main.cpp:411 | `toInt` of a NUL-free text followed by anything depends only on what comes before the first NUL |
| Platform.Strncpy | ESP_DispSpotTrack/src/main.cpp:628-632 | `strncpy` into a field gives `CopiedInto`: cells from `n` on are untouched; a shorter source reads back exactly, and the cells from its end up to `n` are all NUL; a longer one fills all `n` cells with its first `n` bytes and no NUL |
| Platform.Snprintf | ESP_DispSpotTrack/src/main.cpp:637 | `snprintf` into a field: the stored C string is the text cut to `n - 1` bytes, and cells after its NUL are untouched |
| Platform.LeadingSpaces | ESP_DispSpotTrack/src/main.cpp:397 | the white-space prefix that is skipped is all white space, and the byte after it is not |
| Platform.Trim | ESP_DispSpotTrack/src/main.cpp:397 | `trim` returns a slice of its input; everything before and after it is white space; its ends are not white space |
| Platform.TrimNulFree | ESP_DispSpotTrack/src/main.cpp:397 | trimming a NUL-free text leaves no NUL |
| Platform.TrimPadded | ESP_DispSpotTrack/src/main.cpp:397 | a text with non-space ends, surrounded by any white space, is trimmed to exactly that text |
| Platform.TrimStartPadded | ESP_DispSpotTrack/src/main.cpp:411 | white space before a text that does not start with white space is all that `toInt` skips |
| Platform.TrimStart | ESP_DispSpotTrack/src/main.cpp:411 | the white space `toInt` skips is a prefix of the text made of white space only, and what remains does not start with white space |
| Platform.SkipSpacesTo | ESP_DispSpotTrack/src/main.cpp:397 | the forward white-space scan stops exactly at the first non-space byte |
| Platform.SkipSpacesBackTo | ESP_DispSpotTrack/src/main.cpp:397 | the backward white-space scan stops exactly after the last non-space byte |
| Platform.ToUpper | ESP_DispSpotTrack/src/main.cpp:753-754 | `toUpperCase` keeps the length, applies C `toupper` to every byte before the first NUL, and leaves that NUL and every byte after it as it was |
| Platform.UpperStopsAtNul | ESP_DispSpotTrack/src/main.cpp:753-754 | for a NUL-free text, upper-casing the text, a NUL and anything after it upper-cases the text alone |
| Platform.LeadingDigits | ESP_DispSpotTrack/src/main.cpp:411 | the digit run `atol` reads is a prefix of digits not followed by a digit |
| Platform.Saturate32 | ESP_DispSpotTrack/src/main.cpp:411 | a 32-bit `long` result: in-range values are kept, out-of-range ones saturate to the nearest bound |
| Platform.ToInt | ESP_DispSpotTrack/src/main.cpp:411 | `toInt` on text with no digits and no sign after the white space is 0 |
| Platform.ToIntOfDecimal | ESP_DispSpotTrack/src/main.cpp:411 | `toInt` reads any number written in decimal, after any white space and before any non-digit text (a NUL included), as the number itself when it fits 32 bits and as 2147483647 when it does not |
| Platform.ToIntOfSignedDecimal | ESP_DispSpotTrack/src/main.cpp:411 | a `-` in front of the digits negates the value and a `+` does nothing, whatever text follows; the signed value saturates at the 32-bit bounds |
| Platform.SkipsToSign | ESP_DispSpotTrack/src/main.cpp:411 | after the white space, `toInt` finds the sign and then digits with the number's value |
| Platform.ToIntOfSigned | ESP_DispSpotTrack/src/main.cpp:411 | a sign and the value of the digits after it give `toInt` its saturated signed result |
| Platform.SignThenDecimal | ESP_DispSpotTrack/src/main.cpp:411 | a sign, decimal digits and NUL-free text contain no NUL, and the sign is not white space |
| Platform.SignedTextNulFree | ESP_DispSpotTrack/src/main.cpp:411 | white space, a sign and decimal digits hold no NUL |
| Platform.ToIntOfDigits | ESP_DispSpotTrack/src/main.cpp:411 | unsigned digits after the white space give `toInt` their saturated value |
| Platform.DigitsValueOfDecimal | ESP_DispSpotTrack/src/main.cpp:411 | the decimal digits of a number have that number as their value |
| Platform.LeadingDigitsOfDigits | ESP_DispSpotTrack/src/main.cpp:411 | the digit run of digits followed by a non-digit is exactly those digits |
| Platform.SpacesBefore | ESP_DispSpotTrack/src/main.cpp:411 | before a NUL-free text, `toInt` skips exactly the leading white space |
| Storage.WriteAt | ESP_DispSpotTrack/src/main.cpp:254-256 | an EEPROM write puts the data at its address and leaves every other byte as it was |
| Storage.DecodeConfig | ESP_DispSpotTrack/src/main.cpp:47-55 | `EEPROM.get` of 260 bytes yields a `Config` whose arrays have their declared sizes |
| Storage.EncodeConfig | ESP_DispSpotTrack/src/main.cpp:47-55 | `EEPROM.put` lays the seven fields out in declaration order, 260 bytes, the port as 4 little-endian bytes at 128 |
| Storage.PortRoundTrip | ESP_DispSpotTrack/src/main.cpp:51 | every 32-bit port survives its 4-byte little-endian encoding |
| Storage.PortBytesOfValue | ESP_DispSpotTrack/src/main.cpp:51 | every 4 bytes read as a port encode back to the same bytes |
| Storage.DecodeEncodeConfig | ESP_DispSpotTrack/src/main.cpp:47-55 | `EEPROM.get` after `EEPROM.put` returns the same `Config` |
| Storage.EncodeDecodeConfig | ESP_DispSpotTrack/src/main.cpp:47-55 | `EEPROM.put` of what `EEPROM.get` read writes back the same 260 bytes |
| Storage.Terminate | ESP_DispSpotTrack/src/main.cpp:225-230 | the forced NULs land at ssid[31], password[63], mqtt_host[31] and client_id[31]; everything else, and validity, is kept |
| Storage.LoadConfig | ESP_DispSpotTrack/src/main.cpp:218-231 | the configuration is valid exactly when neither the first SSID byte nor the first host byte is 0 or 0xFF |
| Storage.ConfigValid | ESP_DispSpotTrack/src/main.cpp:222-223 | a configuration counts as valid only when its SSID and its host are non-empty C strings |
| Storage.StoredText | ESP_DispSpotTrack/src/main.cpp:250-252 | `toCharArray(buffer, 127)` keeps the message's C string cut to 126 characters: a NUL-free prefix of exactly that length |
| Storage.MessageRecord | ESP_DispSpotTrack/src/main.cpp:248-256 | the 128 bytes written are the stored text followed by NULs |
| Storage.DecodeMessage | ESP_DispSpotTrack/src/main.cpp:261-275 | a message is loaded exactly when the first byte is neither 0 nor 0xFF, and it is the record's NUL-free prefix, ended by a NUL or by the record's end |
| Storage.DecodeBrightness | ESP_DispSpotTrack/src/main.cpp:277-284 | a stored brightness is taken exactly when it is 0..15 |
| Storage.BrightnessByte | ESP_DispSpotTrack/src/main.cpp:286-288 | `EEPROM.write` keeps the low byte of the brightness; any 0..15 is stored as itself and loads back |
| Storage.DecodeSpeed | ESP_DispSpotTrack/src/main.cpp:292-301 | a stored speed (high byte times 256 plus low byte) is taken exactly when it is 50..500 |
| Storage.SpeedBytes | ESP_DispSpotTrack/src/main.cpp:303-305 | the high and low bytes written recombine to the speed for every 16-bit speed, and any 50..500 loads back |
| Storage.ErasedImageLoadsNothing | ESP_DispSpotTrack/src/main.cpp:218-301 | on an erased (all 0xFF) EEPROM every loader keeps its default |
| Storage.SaveMessageThenLoad | ESP_DispSpotTrack/src/main.cpp:248-275 | save-then-load returns the message cut to 126 characters, unless it starts with NUL or 0xFF; brightness, speed and config validity are unchanged; client_id[28..31] now holds the first four record bytes |
| Storage.SaveBrightnessThenLoad | ESP_DispSpotTrack/src/main.cpp:277-290 | save-then-load returns any brightness 0..15, and no other record changes |
| Storage.SaveScrollSpeedThenLoad | ESP_DispSpotTrack/src/main.cpp:292-308 | save-then-load returns any speed 50..500, and no other record changes |
| Storage.SaveConfigThenLoad | ESP_DispSpotTrack/src/main.cpp:218-238 | save-then-load returns the configuration (with the forced NULs) and its validity; brightness and speed are kept; the message record now starts with client_id[28..31] |
| Storage.ConfigSaveLeavesSettings | ESP_DispSpotTrack/src/main.cpp:233-238 | a configuration write leaves the stored brightness and speed as they were |
| Storage.ConfigSaveMessageBytes | ESP_DispSpotTrack/src/main.cpp:233-238 | after a configuration write the message record is client_id[28..31] followed by the old bytes 260..383 |
| Storage.ResetConfigThenLoad | ESP_DispSpotTrack/src/main.cpp:240-246 | after a reset no valid configuration is found, the zeros erase the last message, and brightness and speed are kept |
| Storage.SaveConfigCutsMessage | ESP_DispSpotTrack/src/main.cpp:233-238 | saving any configuration with client_id[31] = NUL leaves a last message of at most three characters |
| Storage.ConfigRecord | ESP_DispSpotTrack/src/main.cpp:30 | the configuration record confined to the 256 reserved bytes |
| Storage.LoadConfigRecord | ESP_DispSpotTrack/src/main.cpp:218-231 | loading from the 256 reserved bytes has the same validity rule; bytes beyond them read as NUL |
| Storage.SaveConfigRecordThenLoad | ESP_DispSpotTrack/src/main.cpp:29-30 | a configuration record within its reserved bytes loads back unchanged; message, brightness and speed are untouched |
| DisplayText.Clean | ESP_DispSpotTrack/src/main.cpp:757-763 | the filter output is no longer than its input and holds only bytes 32..126 |
| DisplayText.CleanAppend | ESP_DispSpotTrack/src/main.cpp:757-763 | the filter distributes over concatenation, so kept bytes stay in order |
| DisplayText.CleanCount | ESP_DispSpotTrack/src/main.cpp:757-763 | every printable byte is kept as often as it occurs, and every other byte is dropped |
| DisplayText.CleanOfPrintable | ESP_DispSpotTrack/src/main.cpp:760 | all-printable text passes the filter unchanged |
| DisplayText.CleanText | ESP_DispSpotTrack/src/main.cpp:757-763 | the filtering loop computes exactly `Clean` of the text |
| DisplayText.UpperCleanHasNoLower | ESP_DispSpotTrack/src/main.cpp:757-763 | filtering a text without lower-case letters cannot bring one in |
| DisplayText.NoLowerAfterUpper | ESP_DispSpotTrack/src/main.cpp:752-763 | a NUL-free message has no lower-case letter once upper-cased and filtered |
| DisplayText.SanitizeKeepsCaseAfterNul | ESP_DispSpotTrack/src/main.cpp:752-763 | a letter after an embedded NUL keeps its case while the NUL itself is filtered out: "a", NUL, "b" is drawn as "Ab", and sanitising that again gives "AB" |
| DisplayText.Sanitize | ESP_DispSpotTrack/src/main.cpp:752-769 | the displayed text has at most 64 characters, all printable, and none lower-case when the message holds no NUL; it is a prefix of the filtered upper-case message, and the whole of it when shorter than 64 |
| DisplayText.SanitizeIdempotent | ESP_DispSpotTrack/src/main.cpp:752-769 | sanitising a NUL-free message a second time changes nothing; for any message a third pass changes nothing |
| DisplayText.SanitizeFixed | ESP_DispSpotTrack/src/main.cpp:752-769 | printable text of at most 64 characters without lower-case letters is its own sanitised form |
| DisplayText.ScrollBuffer | ESP_DispSpotTrack/src/main.cpp:772 | the scroll buffer is 8..72 bytes, with four spaces on each side of the sanitised text |
| DisplayText.ScrollBufferOfPrintable | ESP_DispSpotTrack/src/main.cpp:752-772 | printable text of at most 64 characters scrolls as exactly its upper-case form between the margins |
| Commands.PayloadText | ESP_DispSpotTrack/src/main.cpp:388-397 | the message text is the C string of the first 511 payload bytes with the white space at both ends removed, and only that: it is NUL-free and its ends are not white space |
| Commands.Route | ESP_DispSpotTrack/src/main.cpp:401-426 | an unknown topic is ignored; the message topic shows the trimmed text or clears when it is empty, and only that topic shows or clears; the brightness and speed topics set the `toInt` value when it is in 0..15 and 50..500, and are ignored otherwise |
| Commands.RouteOfMessage | ESP_DispSpotTrack/src/main.cpp:403-410 | on the message topic the trimmed payload is shown, or the panel cleared when it is empty |
| Commands.RouteOffMessageTopic | ESP_DispSpotTrack/src/main.cpp:401-426 | off the message topic nothing is shown or cleared |
| Commands.RouteIgnoresBytesPastCap | ESP_DispSpotTrack/src/main.cpp:389 | payload bytes past the 511th never change the action |
| Commands.RouteBrightnessNumber | ESP_DispSpotTrack/src/main.cpp:409-417 | a decimal number of any size surrounded by white space sets that brightness when it is 0..15, and is ignored otherwise (numbers past 2147483647 saturate and are ignored) |
| Commands.RouteScrollSpeedNumber | ESP_DispSpotTrack/src/main.cpp:418-425 | a decimal number of any size surrounded by white space sets that speed when it is 50..500, and is ignored otherwise |
| Commands.PayloadOfNumber | ESP_DispSpotTrack/src/main.cpp:397-411 | the trimmed payload of a padded decimal number reads back as that number, saturated to 32 bits |
| Commands.PaddedDigits | ESP_DispSpotTrack/src/main.cpp:388-397 | digits padded with white space, within 511 bytes, come out of the payload handling as the digits |
| Commands.DecimalAlone | ESP_DispSpotTrack/src/main.cpp:411 | `toInt` of a decimal number alone is its value, saturated to 32 bits |
| Commands.NumberTextNulFree | ESP_DispSpotTrack/src/main.cpp:391-393 | a decimal number padded with white space holds no NUL |
| Commands.PayloadOfNulFree | ESP_DispSpotTrack/src/main.cpp:388-397 | a NUL-free payload within 511 bytes is only trimmed |
| Commands.RouteNoNumber | ESP_DispSpotTrack/src/main.cpp:409-425 | a payload whose text holds no number where `atol` looks for one (after white space, neither a digit nor a sign followed by a digit) reads as 0: brightness 0 is set and a speed is ignored |
| Commands.ToIntNoNumber | ESP_DispSpotTrack/src/main.cpp:411 | text with no digit, and no sign followed by a digit, after its leading white space reads as 0 |
| Commands.ClampBrightness | ESP_DispSpotTrack/src/main.cpp:678-680 | the HTTP brightness is always 0..15: in-range values are kept, others go to the nearer bound |
| Commands.ClampScrollSpeed | ESP_DispSpotTrack/src/main.cpp:698-700 | the HTTP speed is always 50..500: in-range values are kept, others go to the nearer bound |
| Commands.HttpClampsWhereMqttIgnores | ESP_DispSpotTrack/src/main.cpp:409-425 | any number above 15 (or 500), however large, is clamped to the maximum by HTTP while MQTT ignores it |
| Commands.NegativeValue | ESP_DispSpotTrack/src/main.cpp:409-425 | a negative number is ignored on both MQTT topics but clamped to 0 and 50 by the HTTP setters |
| Commands.SignedPayload | ESP_DispSpotTrack/src/main.cpp:388-397 | a minus sign followed by digits passes the payload trim unchanged |
| Commands.ApplyConfigForm | ESP_DispSpotTrack/src/main.cpp:617-637 | SSID and password are kept when their argument is empty and otherwise copied by `strncpy` (31 and 63 bytes); host, user and MQTT password are always copied the same way, so a long value fills its field without a NUL and the last cell keeps its old byte; the port is the `toInt` value, or 1883 when that is 0 or less; the client id is the text cut to 30 bytes, and the cells after its NUL keep their old bytes |
| Commands.Ascii | ESP_DispSpotTrack/src/main.cpp:637 | the bytes of an ASCII literal are its character codes |
| Commands.HexDigit | ESP_DispSpotTrack/src/main.cpp:637 | a `%x` digit is a lower-case hex digit (0-9, a-f), never NUL, and reads back as its value |
| Commands.Hex2 | ESP_DispSpotTrack/src/main.cpp:637 | `%02x` prints exactly two lower-case hex digits, high nibble first, which read back as the byte |
| Commands.ClientIdText | ESP_DispSpotTrack/src/main.cpp:634-637 | the client id is "esp8266_spotify_" followed by `%02x` of MAC bytes 3, 4 and 5 in that order: 22 bytes, NUL-free |
| Commands.ClientIdDistinguishesDevices | ESP_DispSpotTrack/src/main.cpp:637 | two devices get the same client id exactly when the last three bytes of their MAC addresses agree |
| Commands.FirstByteOfCopy | ESP_DispSpotTrack/src/main.cpp:618-628 | the first byte of a field filled by `strncpy` from a short text is NUL exactly when the text is empty, else the text's first byte |
| Commands.CopyThenTerminate | ESP_DispSpotTrack/src/main.cpp:225-229 | a field filled by `strncpy(field, src, n)` and given a NUL at index n reads back as the C string of src cut to n bytes, and starts with NUL exactly when that C string is empty |
| Commands.ConfigFormThenBoot | ESP_DispSpotTrack/src/main.cpp:617-639 | after the form is saved, the next boot finds it valid exactly when the SSID in force (the stored one when the argument is empty) and the submitted host both start with a byte other than NUL and 0xFF; then an empty SSID argument loads the stored SSID with a NUL at index 31, and any other SSID, and the host, read back as the submitted C string cut to 31 bytes |
| Commands.TerminatedKeepsText | ESP_DispSpotTrack/src/main.cpp:226-229 | forcing a NUL at the last index keeps a shorter C string unchanged |
| Commands.FormKeepsClientTail | ESP_DispSpotTrack/src/main.cpp:634-637 | after a boot without a valid configuration the form rewrites the client id only up to its NUL, so client_id[28..31] keep the bytes loaded from addresses 256..259 |
| Commands.FormAfterInvalidBootKeepsMessage | ESP_DispSpotTrack/src/main.cpp:611-639 | after a boot without a valid configuration, saving the form leaves the message record and the stored message as they were |
| Commands.FormAfterValidBootCutsMessage | ESP_DispSpotTrack/src/main.cpp:611-639 | after a boot with a valid configuration, saving the form leaves a stored message of at most three characters |
| Supervisor.Step | ESP_DispSpotTrack/src/main.cpp:158-167 | the access-point-only branch changes no flag but its redraw timer |
| Supervisor.AccessPointBranch | ESP_DispSpotTrack/src/main.cpp:158-167 | that branch neither rejoins nor tries the broker, and it redraws the address, and moves its timer, exactly when more than 2 s have passed |
| Supervisor.RejoinBranch | ESP_DispSpotTrack/src/main.cpp:169-190 | otherwise a lost station is rejoined: the mode becomes access point plus station and looping stops, while the connection time is kept; the READY phase is over when it already was on a connected station or once the 5 s window has elapsed |
| Supervisor.BrokerThrottle | ESP_DispSpotTrack/src/main.cpp:192-204 | the broker is tried exactly when it is down, outside the access-point-only branch, and more than 5000 ms have passed since the last try; the timer moves only then, and `mqtt.connect` follows only on an up station |
| Supervisor.StepDrawOrder | ESP_DispSpotTrack/src/main.cpp:169-197 | outside the access-point-only branch the panel gets, in this order and nothing else: WiFi FAILED after a failed rejoin, the READY section's commands, then FAILED |
| Supervisor.StepPanelMessages | ESP_DispSpotTrack/src/main.cpp:169-197 | WiFi FAILED is shown exactly when the rejoin fails; READY exactly on connected passes while the READY phase is not over, and only inside the 5 s window; FAILED exactly when the broker is down after the READY phase and nothing is looping |
| Supervisor.ReadySection | ESP_DispSpotTrack/src/main.cpp:177-190 | only the connection time and the READY flag change, and only when the station is up and READY is not done; the connection time is set on the first connected pass and kept afterwards; READY is drawn inside the 5 s window and the phase ends with one clear after it |
| Supervisor.ReconnectSkipsReady | ESP_DispSpotTrack/src/main.cpp:170-190 | after a reconnect more than 5 s after the first connection, READY is not shown again and the READY phase ends at once |
| Supervisor.TimerHoldsLastAttempt | ESP_DispSpotTrack/src/main.cpp:200-204 | between two broker attempts the timer holds the clock of the first |
| Supervisor.LatestAttempt | ESP_DispSpotTrack/src/main.cpp:200-204 | given an earlier attempt, there is a latest attempt before any later pass |
| Supervisor.BrokerAttemptsSpaced | ESP_DispSpotTrack/src/main.cpp:200-204 | any two broker attempts of a run are more than 5 s of real time apart, across the 32-bit wrap |
| Supervisor.AccessPointModeIsFinal | ESP_DispSpotTrack/src/main.cpp:158-167 | a device in access-point-only mode stays there: no reconnect, no broker attempt, no READY or FAILED, and its flags change only in the redraw timer |
| Supervisor.ReadyWindowLasts5s | ESP_DispSpotTrack/src/main.cpp:178-190 | with the station up, READY is drawn on exactly the passes less than 5 s after the first connection, and the READY phase is over from 5 s on |
| Firmware.Displayed | ESP_DispSpotTrack/src/main.cpp:736-782 | `updateDisplay` makes the message current and loops exactly when it is non-empty, and keeps brightness, intensity and speed; panel commands are only added |
| Firmware.Effect | ESP_DispSpotTrack/src/main.cpp:401-426 | a command that is not a brightness keeps brightness and intensity, one that is not a speed keeps the speed, one that neither shows nor clears keeps the message, the scroll buffer and looping; panel commands are only added |
| Firmware.Replay | ESP_DispSpotTrack/src/main.cpp:205-206 | folding the callback over the delivered messages only adds panel commands |
| Firmware.ReplayLast | ESP_DispSpotTrack/src/main.cpp:205-206 | the last delivered message acts on the state the others left |
| Firmware.Served | ESP_DispSpotTrack/src/main.cpp:205-212 | after the messages, at most one scroll of the looping message is added and nothing else changes |
| Firmware.EffectOnBrightness | ESP_DispSpotTrack/src/main.cpp:409-417 | a brightness command sets brightness and intensity; every other command leaves both |
| Firmware.BrightnessStep | ESP_DispSpotTrack/src/main.cpp:205-206 | the last message of a pass sets brightness and intensity when it is an in-range brightness command, and keeps what the others left otherwise |
| Firmware.LastBrightnessWins | ESP_DispSpotTrack/src/main.cpp:409-417 | among the messages of one pass the last in-range brightness is the brightness and the panel intensity afterwards |
| Firmware.BrightnessKeptWithoutCommand | ESP_DispSpotTrack/src/main.cpp:409-417 | without an in-range brightness among the messages, brightness and intensity stay |
| Firmware.EffectOfMessage | ESP_DispSpotTrack/src/main.cpp:403-410 | a message on the message topic makes its trimmed text current, scrolled and looping, or clears everything when it is empty |
| Firmware.TextKeptByOtherTopics | ESP_DispSpotTrack/src/main.cpp:401-426 | messages on the other topics leave the current message, its scroll buffer and looping alone |
| Firmware.LastTextWins | ESP_DispSpotTrack/src/main.cpp:403-410 | the last message on the message topic decides what is current, scrolled and looping after the pass |
| Firmware.Device.constructor | ESP_DispSpotTrack/src/main.cpp:58-81 | the globals start with their initial values (brightness 3, speed 100, nothing looping), and the EEPROM holds the flash image |
| Firmware.Device.Put | ESP_DispSpotTrack/src/main.cpp:254-256 | the byte-by-byte write loop leaves the EEPROM as `WriteAt` |
| Firmware.Device.Get | ESP_DispSpotTrack/src/main.cpp:266-268 | the byte-by-byte read loop returns exactly the addressed bytes |
| Firmware.Device.LoadConfig | ESP_DispSpotTrack/src/main.cpp:218-231 | `config` and `config_valid` become `Storage.LoadConfig` of the EEPROM |
| Firmware.Device.SaveConfig | ESP_DispSpotTrack/src/main.cpp:233-238 | all 260 configuration bytes are written from address 0, and the configuration counts as valid |
| Firmware.Device.ResetConfig | ESP_DispSpotTrack/src/main.cpp:240-246 | the configuration is zeroed in memory and in the EEPROM and is no longer valid |
| Firmware.Device.SaveLastMessage | ESP_DispSpotTrack/src/main.cpp:248-259 | the message record is written at 256 |
| Firmware.Device.LoadLastMessage | ESP_DispSpotTrack/src/main.cpp:261-275 | the current message becomes the stored one if there is one, and is kept otherwise |
| Firmware.Device.LoadBrightness | ESP_DispSpotTrack/src/main.cpp:277-284 | a stored 0..15 becomes the brightness and is sent to the panel; otherwise both stay |
| Firmware.Device.SaveBrightness | ESP_DispSpotTrack/src/main.cpp:286-290 | the brightness byte is written at 384 |
| Firmware.Device.LoadScrollSpeed | ESP_DispSpotTrack/src/main.cpp:292-301 | a stored 50..500 becomes the scroll speed; otherwise it stays |
| Firmware.Device.SaveScrollSpeed | ESP_DispSpotTrack/src/main.cpp:303-308 | the high and low speed bytes are written at 385..386 |
| Firmware.Device.UpdateDisplay | ESP_DispSpotTrack/src/main.cpp:736-782 | the new state is `Displayed` of the old: an empty message clears the panel and stops looping without touching the EEPROM; any other is saved and scrolled as `ScrollBuffer` at the current speed, and looping starts |
| Firmware.Device.LoopMessage | ESP_DispSpotTrack/src/main.cpp:785-792 | a finished scroll of a looping message restarts with the same buffer and speed; otherwise nothing is drawn |
| Firmware.Device.Perform | ESP_DispSpotTrack/src/main.cpp:401-426 | each decoded command has exactly its effect on the message, settings, EEPROM and panel, and nothing else changes; the new state is `Effect` of the old |
| Firmware.Device.MqttCallback | ESP_DispSpotTrack/src/main.cpp:386-427 | the new state is `Effect` of the old for the routed command: show and save, clear, set and save brightness or speed, or change nothing, with the panel commands of each |
| Firmware.Device.HandleBrightnessApi | ESP_DispSpotTrack/src/main.cpp:672-690 | a missing value gives 400 and changes nothing; otherwise 200, and the clamped value is applied, sent to the panel and saved |
| Firmware.Device.HandleScrollSpeedApi | ESP_DispSpotTrack/src/main.cpp:692-710 | a missing value gives 400 and changes nothing; otherwise 200, and the clamped value is applied and saved |
| Storage.WriteAtTwice | ESP_DispSpotTrack/src/main.cpp:287-288 | writing the same bytes twice at one EEPROM address leaves what writing them once leaves |
| Firmware.HttpSettersIdempotent | ESP_DispSpotTrack/src/main.cpp:672-710 | repeating a brightness or scroll-speed request with the same value sets the same clamped value and leaves the EEPROM as the first request left it |
| Firmware.Device.HandleTestMessageApi | ESP_DispSpotTrack/src/main.cpp:712-723 | a missing text gives 400 and changes nothing; otherwise 200, and the untrimmed text goes through `UpdateDisplay`, with its EEPROM write and panel commands |
| Firmware.Device.HandleConfig | ESP_DispSpotTrack/src/main.cpp:611-666 | without `mqtt_host`, 400 and nothing changes; otherwise the form and the MAC-derived client id are applied, saved and marked valid, with 200 |
| Firmware.Device.LoadStoredState | ESP_DispSpotTrack/src/main.cpp:121-129 | the four loads leave configuration, message, brightness, panel intensity and speed as the EEPROM records say |
| Firmware.Device.Setup | ESP_DispSpotTrack/src/main.cpp:111-149 | after the loads the panel is cleared at intensity 3; without a valid configuration the access point opens and CONFIG is shown; otherwise the station is joined and WiFi FAILED is shown on failure |
| Firmware.Device.Supervise | ESP_DispSpotTrack/src/main.cpp:158-204 | the loop flags and panel commands become those of `Supervisor.Step`; the message, settings and EEPROM are untouched |
| Firmware.Device.Deliver | ESP_DispSpotTrack/src/main.cpp:205-206 | the new state is `Replay` of the old: the callback's effect for each delivered message, in delivery order |
| Firmware.Device.Serve | ESP_DispSpotTrack/src/main.cpp:205-212 | the new state is `Served` of the old: the delivered messages, then the animation step |
| Firmware.Device.Loop | ESP_DispSpotTrack/src/main.cpp:152-215 | the supervisor flags end as `Step` says, with its commands first; an access-point-only pass changes nothing else; otherwise the delivered messages (none while the broker is down) take effect in order as `Replay` says, and then a looping message gets its animation step, as `Served` says |

## Left out

- Wi-Fi and the broker are inputs, not models: `WiFi.begin`, the 40 × 500 ms
  join loop of `connectWiFi`, and `mqtt.connect`/`subscribe`. Their outcomes
  are the `Inputs` fields and `stationJoined`. `setupMQTT` only hands
  settings to the client library.
- The panel library (MD_Parola) is a log of `Draw` commands. Fonts,
  animation timing, the alignment and spacing calls, and the `displayText`
  timing arguments are not modelled. `displayAnimate()` is the
  `animationDone` input.
- The web server is not modelled beyond the decisions of the handlers
  (`Firmware.Device.Handle*`): routing, HTML pages (`handleRoot`),
  `handleNotFound`, `setupWebServer` and mDNS are left out. Form arguments
  are a map, and a missing argument reads as empty.
- The two-second `delay` and `ESP.restart()` at the end of `handleConfig`
  are left out; a restart is `Setup` on a new `Device` built from the
  EEPROM image.
- `createAccessPoint` and the soft AP of `connectWiFi` only format SSIDs and
  IP settings; the Wi-Fi mode they set is the `WifiMode` field.
- Serial logging, `delay(10)`, `EEPROM.commit` (the RAM copy is the model)
  and `display_enabled` (never read) are not modelled.
- Supervisor.Step: each of the `millis()` pairs at lines 161-162 and
  179-183 is taken as one reading. The code reads the clock twice, a few
  microseconds apart.
- Firmware.Device.LoadLastMessage: a 128-byte record with no NUL makes
  `String(buffer)` read past the buffer in the sketch. The model stops at
  the record's end.
- DisplayText.SanitizeIdempotent: states idempotence only for a NUL-free
  message. `toUpperCase` stops at the first NUL while the printable filter
  drops that NUL, so "a", NUL, "b" is drawn as "Ab", and sanitising "Ab"
  again gives "AB" (`DisplayText.SanitizeKeepsCaseAfterNul`).
- DisplayText.Sanitize: "no lower-case letter" is likewise stated only for
  a NUL-free message. MQTT payloads reach it without a NUL (`PayloadText`
  stops at the first one); a test-message argument may hold one.
- Out-of-range MQTT brightness and speed values are ignored, not clamped
  as the HTTP setters do (`Commands.HttpClampsWhereMqttIgnores`,
  `Commands.NegativeValue`). READY is not shown again after a reconnect
  once 5 s have passed since the first connection, because
  `wifi_connected_time` is kept (`Supervisor.ReconnectSkipsReady`).
- `setupDisplay` sets the panel intensity to 3 after `loadBrightness`
  has set it to the stored value, so at boot the panel runs at 3 while
  `brightness` holds the stored value. The model keeps this
  (`Firmware.Device.Setup`).

## Findings

| source | as written | input that shows it | evidently intended | confidence | as-written member | corrected member |
|---|---|---|---|---|---|---|
| ESP_DispSpotTrack/src/main.cpp:233-238 | `EEPROM.put(CONFIG_START, config)` writes `sizeof(Config)` = 260 bytes. Only 256 are reserved (`CONFIG_SIZE`), and the message record starts at 256. | A `saveConfig` after a boot with a valid configuration, or whenever client_id[31] is NUL, cuts the last message to its first three characters: client_id[28..31] lands on addresses 256..259. After a boot without one, `handleConfig` writes back the four bytes it loaded from 256..259, so the message survives (`Commands.FormAfterInvalidBootKeepsMessage`). | The configuration stays inside its 256 reserved bytes, and the last message survives a configuration save. | not executed | Commands.FormAfterValidBootCutsMessage | Storage.SaveConfigRecordThenLoad |

`Firmware.Device` keeps the 260-byte write, because it models the firmware
as shipped. The corrected layout is `Storage.ConfigRecord` and
`Storage.LoadConfigRecord`, and `Storage.SaveConfigRecordThenLoad` proves
that the records stay disjoint under it.
