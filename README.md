# Parking-gate access control: iButton allow-list and remote-session coordinator

This project models the core of an ESP32 parking-gate controller in Dafny and
proves properties of the model.

- **The iButton allow-list** (`ibutton_manager.cpp` / `.h`). It is a table of 20 records
  `{is_valid, associated_id, ibutton_id[8]}` in EEPROM. It offers:
  - `readIButton`: checks the ROM's CRC, then its DS1990A family code;
  - `registerIButton`: rejects duplicates and a full table, and writes the first free slot;
  - `isIButtonRegistered`: a lookup that returns the associated id, or 0;
  - `deleteIButton`: soft deletion by clearing `is_valid`.

  The module `IButtonManager` keeps the EEPROM image as an `array` in the class
  `IButtonStore`. Its three scan loops are methods, each proved against a pure
  function on `seq<IButtonRecord>` (`Registered`, `FindValid`, `Deleted`). The
  lemmas about those functions state what the source promises: no duplicates,
  the lowest free slot, register-then-find, delete-then-not-found, and that
  delete undoes register. The 1-Wire CRC is the Dallas/Maxim CRC-8 of Maxim
  Application Note 27, in the module `OneWireCrc`.
- **The session coordinator** (`mqtt_manager.cpp`). It handles:
  - the pairing, two-factor (2FA) and delete-mode globals;
  - the five inbound commands of `mqttCallback`;
  - the three timeout checks of `loopMQTTManager`;
  - `publish2FARequest`;
  - the clear/reset helpers;
  - the outbound events.

  The module `MqttManager` describes each step as a pure transition on a
  `Session` value, which returns the new session and the messages published.
  The class `MqttManager.Globals` holds the same globals as fields. Each of its
  methods ensures `State() == <transition>(old(State()))`, and that the outbox
  grows by the transition's messages while the client is connected.
- **The text codec** that the coordinator uses (module `MqttCodec`):
  - the `%02X` id spelling and its decoding;
  - Arduino `String::indexOf`;
  - the lenient `"key": "` / `"key":"` field extraction, with the spaced
    spelling tried first;
  - the substring test for `allow_entry`;
  - `equalsIgnoreCase`;
  - `%u`;
  - the `snprintf` payload builders, which write into the 256-byte `char_buffer`.

Time (`millis()`), the result of `EEPROM.commit()`, the outcome of the 1-Wire bus
search and `WiFi.status()` are all parameters. Elapsed time is computed like the
source's `unsigned long` subtraction: `(now - start) mod 2^32`.

Facts about the code that the model keeps:
- The code has no occupancy counter, presence flag, storage signature or
  reformatting.
- `registerIButton` stores the caller's `associated_id`; it does not generate
  one. It also accepts `associated_id` 0, which is the value a failed lookup
  reports.
- `initiate_pairing` is not refused while another flow is active. It
  overwrites any pairing in progress and can run alongside delete mode
  (`PairingDuringDeleteModeLeavesBothActive`).
- Only `initiate_delete_mode` checks the other flows.
- A 2FA reply never ends the wait. It only sets the grant flag, and the caller
  clears the wait.

## Model

| member | source | states |
|---|---|---|
| OneWireCrc.Crc8FromAppend | ibutton_manager.cpp:27 | Extending the data by one byte is one more byte step of the CRC-8 register. |
| OneWireCrc.Crc8SelfCheck | ibutton_manager.cpp:27 | Appending the CRC-8 of any data to that data gives a CRC-8 of zero over the whole. |
| OneWireCrc.Application27Example | ibutton_manager.cpp:27 | The CRC of the 7-byte ROM prefix 02 1C B8 01 00 00 00 from Maxim Application Note 27 is A2. |
| IButtonManager.SlotsFitAndAreDisjoint | ibutton_manager.h:15-22 | Slot `i` at `i * sizeof(IButtonRecord)` lies inside `EEPROM_SIZE`, and no two slots overlap. |
| IButtonManager.ReadIButton | ibutton_manager.cpp:19-41 | A read is accepted iff the bus search found a ROM, byte 7 is the CRC-8 of bytes 0..6, and byte 0 is the DS1990A family code 0x01. |
| IButtonManager.CrcCheckedBeforeFamily | ibutton_manager.cpp:26-37 | A bad CRC is reported as a CRC error whatever the family code is. |
| IButtonManager.AcceptedRomIsSelfChecking | ibutton_manager.cpp:26-40 | An accepted ROM is a DS1990A whose 8 bytes together have CRC-8 zero. |
| IButtonManager.Application27RomIsRejectedByFamily | ibutton_manager.cpp:32-37 | The Application Note 27 ROM (family 0x02) passes the CRC test and is rejected by the family test. |
| IButtonManager.FindValidFrom | ibutton_manager.cpp:91-100 | The scan finds a valid record holding the id from `from` on, or proves that none exists there. |
| IButtonManager.FirstFreeFrom | ibutton_manager.cpp:48-61 | The scan finds an invalid slot from `from` on, or proves that every slot there is valid. |
| IButtonManager.RegisterRejectsDuplicate | ibutton_manager.cpp:51-56 | If any valid slot already holds the id, registration fails and the table is unchanged. |
| IButtonManager.RegisterRejectsWhenFull | ibutton_manager.cpp:63-67 | If every slot is valid, registration fails and the table is unchanged. |
| IButtonManager.RegisterWritesLowestFreeSlot | ibutton_manager.cpp:57-74 | A successful registration writes `{valid, associated_id, id}` into the lowest invalid slot; every slot before it is valid and no other slot changes. |
| IButtonManager.RegisterThenFind | ibutton_manager.cpp:69-96 | After a successful registration the lookup finds the id in that slot, with the given associated id. |
| IButtonManager.RegisterPreservesDistinct | ibutton_manager.cpp:47-74 | If no two valid slots hold the same id, that stays true after a registration. |
| IButtonManager.DeleteClearsOnlyTheFlag | ibutton_manager.cpp:124-130 | Deletion clears `is_valid` of the first matching slot only; it keeps that slot's associated id and id bytes and changes no other slot. |
| IButtonManager.DeleteOfUnknownIdWritesNothing | ibutton_manager.cpp:118-122 | Deleting an id that no valid slot holds leaves the table unchanged. |
| IButtonManager.DeletePreservesDistinct | ibutton_manager.cpp:124-130 | Deletion keeps the valid ids distinct. |
| IButtonManager.DeleteThenNotFound | ibutton_manager.cpp:108-130 | When the valid ids are distinct, the lookup cannot find an id after it is deleted. |
| IButtonManager.DeleteUndoesRegister | ibutton_manager.cpp:69-130 | Registering then deleting the same id restores every slot's validity and every valid slot's contents. |
| IButtonManager.IButtonStore.RegisterIButton | ibutton_manager.cpp:43-87 | The image afterwards is `Registered(old image)`. The result is true iff the id was absent, a slot was free and the commit succeeded. The write happens before the commit. |
| IButtonManager.IButtonStore.IsIButtonRegistered | ibutton_manager.cpp:89-101 | Found iff some valid slot holds the id. If found, the associated id is that of the first such slot; otherwise it is `INVALID_ASSOCIATED_ID`. |
| IButtonManager.IButtonStore.DeleteIButton | ibutton_manager.cpp:103-141 | The image afterwards is `Deleted(old image)`. The result is true iff the id was found and the commit succeeded. |
| MqttCodec.HexOf | mqtt_manager.cpp:161-170 | The spelling has two characters per byte: the `%02X` high digit at `2i` and the low digit at `2i+1`. |
| MqttCodec.IButtonBytesToHexString | mqtt_manager.cpp:162-170 | The loop builds the 16-character upper-case hex spelling of the 8 id bytes. |
| MqttCodec.HexRoundTrip | mqtt_manager.cpp:162-170 | Decoding the hex spelling gives back the id bytes. |
| MqttCodec.IndexOf | mqtt_manager.cpp:194-206 | The result is -1 iff no occurrence starts at or after `from`. Otherwise it is the first such occurrence. |
| MqttCodec.ExtractStringField | mqtt_manager.cpp:191-214 | The extracted value has no quote. A non-empty value sits between one spelling of the key and a closing quote in the payload. |
| MqttCodec.IndexOfFirstOccurrence | mqtt_manager.cpp:194 | `indexOf` from the start returns the first occurrence of the pattern. |
| MqttCodec.ExtractTakesFirstKeyUpToNextQuote | mqtt_manager.cpp:194-208 | The value is the text between the first occurrence of the chosen key spelling and the next quote. The spaced spelling is chosen whenever it occurs anywhere in the payload, even after a compact one; otherwise the compact one is used. |
| MqttCodec.ExtractWithoutClosingQuoteIsEmpty | mqtt_manager.cpp:204-211 | If no quote follows the chosen key spelling, the value is empty. |
| MqttCodec.ExtractReadsSpacedField | mqtt_manager.cpp:191-208 | A payload `{"key": "v"…` yields `v`, whatever follows. |
| MqttCodec.ExtractReadsCompactField | mqtt_manager.cpp:197-208 | A payload `{"key":"v"}` yields `v`: the spaced spelling cannot be found in it. |
| MqttCodec.ExtractOfMissingKeyIsEmpty | mqtt_manager.cpp:212-214 | With neither spelling of the key present, the field is empty. |
| MqttCodec.ParseAllowEntry | mqtt_manager.cpp:305-312 | The result is true iff a `true` pattern occurs. It is false iff no `true` pattern and some `false` pattern occurs. It is unparsed otherwise. |
| MqttCodec.LowerCaseSpellingMatches | mqtt_manager.cpp:322 | A lower-case spelling of a string equals that string ignoring case. |
| MqttCodec.DecimalString | mqtt_manager.cpp:375 | `%u` yields decimal digits without a leading zero. |
| MqttCodec.DecimalRoundTrip | mqtt_manager.cpp:375 | Reading the `%u` digits back gives the number. |
| MqttCodec.Snprintf | mqtt_manager.cpp:9 | A payload written into the 256-byte buffer is a prefix of the formatted text, at most 255 characters long, and whole when it fits. |
| MqttCodec.PairingReadyRoundTrip | mqtt_manager.cpp:392-393 | Extracting `pairing_session_id` from the formatted pairing-ready text, before it is cut to the buffer, gives back the session id. |
| MqttManager.ElapsedAcrossRollover | mqtt_manager.cpp:127 | `millis() - start` in 32-bit unsigned arithmetic reads `d` when `d` ms have passed, even across a rollover. |
| MqttManager.PairingReadyEventCarriesSessionId | mqtt_manager.cpp:392-395 | For a session id of at most 230 characters without a quote, the pairing-ready payload as published (after `snprintf` into the 256-byte buffer) gives the id back. |
| MqttManager.InitiatePairingOverridesAnySession | mqtt_manager.cpp:186-227 | From any session, any payload whose `pairing_session_id` parses non-empty makes pairing active with that id and a start time of now, and publishes pairing-ready for it. The key may be in either spelling and anywhere in the payload. Every other field, including 2FA and delete state, is unchanged. |
| MqttManager.InitiatePairingEmptyIdIgnored | mqtt_manager.cpp:216-226 | Whenever the id parses as empty (missing key, empty value or no closing quote), `initiate_pairing` changes nothing and publishes nothing. |
| MqttManager.InitiatePairingWithoutIdIsIgnored | mqtt_manager.cpp:216-226 | Without either spelling of the key, `initiate_pairing` changes nothing and publishes nothing. |
| MqttManager.CancelPairingIff | mqtt_manager.cpp:229-273 | `cancel_pairing` changes the session iff the parsed id is non-empty, pairing is active and the id equals the stored one. It then clears the three pairing fields, leaves every other field as it was, and publishes failure `cancelled_by_app` for the old id. Otherwise it publishes nothing. |
| MqttManager.MismatchedCancelKeepsPairing | mqtt_manager.cpp:261-269 | After pairing starts for one session id, a cancel that names a different id leaves pairing active with the first id and publishes nothing. |
| MqttManager.TwoFaResponseOnlySetsGrant | mqtt_manager.cpp:322-337 | A 2FA reply changes nothing but the grant flag, and never ends the wait. |
| MqttManager.TwoFaResponseDecides | mqtt_manager.cpp:275-347 | The grant flag takes the `allow_entry` value exactly when a wait is pending, the id is non-empty and equal ignoring case, and `allow_entry` parsed. Otherwise the session is unchanged. |
| MqttManager.TwoFaMismatchIsIgnored | mqtt_manager.cpp:338-343 | A reply for a different id is ignored. |
| MqttManager.LowerHexIsQuoteFree | mqtt_manager.cpp:162-170 | The lower-case hex spelling of an id contains no quote. |
| MqttManager.SpacedAllowTrueParses | mqtt_manager.cpp:306 | Any payload containing the spaced `"allow_entry": true` anywhere allows entry. |
| MqttManager.TwoFaLowerCaseReplyGrants | mqtt_manager.cpp:410-415 | After a 2FA request, a reply spelling the id in lower case with `allow_entry` true grants entry, and the wait stays open. |
| MqttManager.DeleteModeActivationIff | mqtt_manager.cpp:349-361 | Delete mode switches on iff delete, pairing and 2FA are all idle. It then starts its timer now, changes no other field, and publishes delete-ready. Otherwise the session is unchanged, including any running pairing or 2FA flow, and nothing is published. |
| MqttManager.PairingDuringDeleteModeLeavesBothActive | mqtt_manager.cpp:217-220 | Pairing started during delete mode leaves both flows active. |
| MqttManager.CancelDeleteModeIsSilent | mqtt_manager.cpp:363-370 | `cancel_delete_mode` leaves delete mode off and publishes nothing; no other state changes. |
| MqttManager.UnknownTopicIsIgnored | mqtt_manager.cpp:172-371 | A topic other than the five command topics changes nothing and publishes nothing. |
| MqttManager.PairingTimeout | mqtt_manager.cpp:126-131 | An active pairing ends in the tick iff more than 60 s have elapsed. It then publishes failure `timeout` for its id first and clears the id and timer. |
| MqttManager.DeleteTimeout | mqtt_manager.cpp:142-148 | An active delete mode ends in the tick iff more than 60 s have elapsed. It then clears its timer, and the last message of the tick is the `timeout` delete failure without an id. |
| MqttManager.TwoFaTimeoutDenies | mqtt_manager.cpp:133-140 | A 2FA wait of 30 s or more ends as a denial, with the stored id cleared. |
| MqttManager.TwoFaWaitSurvivesBeforeDeadline | mqtt_manager.cpp:135 | Under 30 s, a 2FA wait survives the tick with its id and grant flag. |
| MqttManager.TimeoutBoundariesDiffer | mqtt_manager.cpp:127-144 | At exactly 60 s, pairing and delete mode are still active, while a 2FA wait of exactly 30 s has ended. |
| MqttManager.NoTimeoutAcrossRollover | mqtt_manager.cpp:126-148 | Each flow has its own start, and idle flows are unconstrained. If each active flow is within its limit (pairing and delete at most 60 s old, the 2FA wait under 30 s old), the tick ends nothing and publishes nothing, even across a `millis()` rollover. |
| MqttManager.TimeoutMessagesInSourceOrder | mqtt_manager.cpp:126-148 | When pairing and delete expire in the same tick, the pairing failure is published before the delete failure. |
| MqttManager.Request2faStartsWaitFromAnyState | mqtt_manager.cpp:410-415 | `publish2FARequest` opens a wait from any session. The new session is the old one with only four fields changed: the stored id is the hex of the iButton (and decodes back to it), the wait is open, the grant is reset and the 2FA timer starts now. Every other field, including the pairing and delete flags, ids and timers, is unchanged. |
| MqttManager.ClearWaitKeepsGrant | mqtt_manager.cpp:477-483 | Clearing the 2FA wait keeps the grant flag for the caller to read. |
| MqttManager.Globals.constructor | mqtt_manager.cpp:11-27 | The globals start idle, with empty ids and zero timers. |
| MqttManager.Globals.PublishMqttMessage | mqtt_manager.cpp:151-159 | A publish succeeds iff the client is connected. A publish on a connected client appends exactly that message; a disconnected client sends nothing. |
| MqttManager.Globals.PublishPairingReady | mqtt_manager.cpp:392-395 | Publishes the pairing-ready payload for the session id, cut to the buffer. |
| MqttManager.Globals.PublishPairingFailure | mqtt_manager.cpp:404-408 | Publishes the pairing-failure payload with the session id and reason, cut to the buffer. |
| MqttManager.Globals.PublishDeleteReady | mqtt_manager.cpp:425-428 | Publishes the fixed delete-ready payload, not passed through the buffer. |
| MqttManager.Globals.ClearPairingMode | mqtt_manager.cpp:460-464 | Pairing becomes inactive, with an empty id and a zero timer. |
| MqttManager.Globals.Clear2faWaitingState | mqtt_manager.cpp:477-483 | The wait ends with an empty id and a zero timer; the grant flag is kept. |
| MqttManager.Globals.Reset2faGrantStatus | mqtt_manager.cpp:489-492 | Only the grant flag is reset. |
| MqttManager.Globals.ClearDeleteIButtonMode | mqtt_manager.cpp:498-502 | Delete mode becomes inactive with a zero timer. |
| MqttManager.Globals.HandleInitiatePairing | mqtt_manager.cpp:186-227 | The globals and outbox follow `InitiatePairing`. |
| MqttManager.Globals.HandleCancelPairing | mqtt_manager.cpp:229-273 | The globals and outbox follow `CancelPairing`. |
| MqttManager.Globals.HandleTwoFaResponse | mqtt_manager.cpp:275-347 | The globals follow `TwoFaResponse`, and nothing is published. |
| MqttManager.Globals.HandleInitiateDeleteMode | mqtt_manager.cpp:349-361 | The globals and outbox follow `InitiateDeleteMode`. |
| MqttManager.Globals.HandleCancelDeleteMode | mqtt_manager.cpp:363-370 | The globals follow `CancelDeleteMode`, and nothing is published. |
| MqttManager.Globals.MqttCallback | mqtt_manager.cpp:172-371 | Exact topic equality picks at most one command branch, and the globals and outbox follow `Callback`. |
| MqttManager.Globals.CheckPairingTimeout | mqtt_manager.cpp:126-131 | The globals and outbox follow the pairing check. |
| MqttManager.Globals.CheckTwoFaTimeout | mqtt_manager.cpp:133-140 | The globals follow the 2FA check, and nothing is published. |
| MqttManager.Globals.CheckDeleteTimeout | mqtt_manager.cpp:142-148 | The globals and outbox follow the delete check. |
| MqttManager.Globals.LoopTimeouts | mqtt_manager.cpp:107-148 | With WiFi down nothing happens. Otherwise the three checks run in source order, as `Timeouts`. |
| MqttManager.Globals.Publish2faRequest | mqtt_manager.cpp:410-422 | The globals and outbox follow `Request2fa`; the hex spelling comes from the byte loop. |
| MqttManager.Globals.PublishStatus | mqtt_manager.cpp:374-378 | Publishes the status payload, truncated to the buffer, as a retained message. |
| MqttManager.Globals.PublishIButtonScanned | mqtt_manager.cpp:380-390 | Publishes the scanned payload; it includes the associated id only for a registered iButton. |
| MqttManager.Globals.PublishPairingSuccess | mqtt_manager.cpp:397-402 | Publishes the pairing-success payload with the hex id. |
| MqttManager.Globals.PublishDeleteSuccess | mqtt_manager.cpp:430-434 | Publishes the delete-success payload with the hex id. |
| MqttManager.Globals.PublishDeleteFailure | mqtt_manager.cpp:436-444 | Publishes the delete-failure payload. It includes `ibutton_id_attempted` only when an id is given, the model's stand-in for a non-null pointer. |

## Left out

- WiFi and MQTT connection management (`setupWiFi`, `reconnectMQTT`, `setupMQTTManager`, subscriptions, `mqttClient.loop()`) is left out. It is I/O; `connected` and `wifiConnected` are inputs.
- `isMQTTConnected` and the getters (`isPairingModeActive`, `getCurrentPairingSessionId`, `isWaitingFor2FA`, `get2FA_iButtonId_Str`, `get2FA_GrantStatus`, `isDeleteIButtonModeActive`) have no members of their own. They read a field of `Globals`, and the fields are public.
- MqttManager.Globals.PublishMqttMessage treats a publish on a connected client as delivered. The result of `mqttClient.publish` (for example, a payload over the client's 512-byte buffer) is not modelled. Messages keep the sub-topic, not `base_topic_prefix + sub_topic`.
- MqttManager.Globals.LoopTimeouts reads the clock once for all three checks, where the source calls `millis()` separately in each.
- MqttManager.PairingReadyEventCarriesSessionId is stated only for session ids of at most 230 characters. The client accepts messages up to 512 bytes, so longer ids reach the 256-byte buffer: a 231-character id loses only the closing brace, and from 232 characters on the closing quote is lost too, so an app cannot read the id back.
- The payload is taken as the list of its characters. `String` behaviour on embedded NUL bytes is not modelled.
- The multi-field payload builders (`StatusPayload`, `IButtonScannedPayload`, `PairingSuccessPayload`, `PairingFailurePayload`, `TwoFaRequestPayload`, `DeleteSuccessPayload`, `DeleteFailurePayload`) have no read-back lemma. Their `%s` arguments are not escaped, so a quote in an argument would change what a reader extracts.
- `setupIButtonManager` (`EEPROM.begin`, `ESP.restart`), the 1-Wire bus search and `printIButtonID` / `printAllRegisteredIButtons` are left out. They are hardware I/O and serial logging.
- The EEPROM image is a table of record values. The byte serialisation of `IButtonRecord` appears only as the 16-byte slot size. The flash contents after a failed `EEPROM.commit()` are not modelled: the RAM image keeps the write either way, as in the source.
- `lcd_manager.cpp` and `MQTTConfig` are not part of this model.
- Serial logging and the debug prints in every branch are not modelled.
