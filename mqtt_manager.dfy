/**
  The remote-session coordinator: the pairing, two-factor and delete-mode
  state kept in module globals, the inbound command dispatch of
  `mqttCallback`, the timeout checks of `loopMQTTManager`, the start of a 2FA
  wait, the clear/reset helpers and the outbound events, which go to an
  append-only outbox while the client is connected.
 */
module MqttManager {
  import opened Common
  import opened MqttCodec

  // ---------------------------------------------------------------- constants

  const PAIRING_TIMEOUT_DURATION_MS: U32 := 60000
  const TWO_FA_TIMEOUT_DURATION_MS: U32 := 30000
  const DELETE_IBUTTON_TIMEOUT_DURATION_MS: U32 := 60000

  /** `millis() - start` in `unsigned long` arithmetic, which wraps modulo 2^32. */
  function Elapsed(start: U32, now: U32): U32 {
    (now - start) % U32_MODULUS
  }

  /** The elapsed time is right across a rollover of `millis()`: `d` ms after `start` reads as `d`. */
  lemma ElapsedAcrossRollover(start: U32, d: U32)
    ensures Elapsed(start, (start + d) % U32_MODULUS) == d
  {
    if start + d >= U32_MODULUS {
      assert (start + d) % U32_MODULUS == start + d - U32_MODULUS;
      assert (start + d - U32_MODULUS - start) % U32_MODULUS == d;
    }
  }

  // --------------------------------------------------------------- data model

  /** The module globals of the coordinator, as one value. */
  datatype Session = Session(
    pairingModeActive: bool,
    currentPairingSessionId: string,
    pairingTimeoutStartMs: U32,
    waitingFor2faResponse: bool,
    twoFaIButtonId: string,
    twoFaTimeoutStartMs: U32,
    twoFaGranted: bool,
    deleteIButtonModeActive: bool,
    deleteIButtonTimeoutStartMs: U32)

  /** The initial values of the globals. */
  const INITIAL_SESSION: Session := Session(false, "", 0, false, "", 0, false, false, 0)

  /** One `publishMQTTMessage(sub_topic, payload, retained)`. */
  datatype Message = Message(subTopic: string, payload: string, retained: bool)

  /** The new session and the messages published on the way, in order. */
  datatype Step = Step(next: Session, sent: seq<Message>)

  /** The outbox after publishing `sent`: every publish is dropped while disconnected. */
  function Deliver(outbox: seq<Message>, connected: bool, sent: seq<Message>): seq<Message> {
    if connected then outbox + sent else outbox
  }

  // ---------------------------------------------------------- outbound events

  function PairingReadyMessage(sessionId: string): Message {
    Message("pairing/ready_for_ibutton", Snprintf(PairingReadyPayload(sessionId)), false)
  }

  function PairingFailureMessage(sessionId: string, reason: string): Message {
    Message("pairing/failure", Snprintf(PairingFailurePayload(sessionId, reason)), false)
  }

  const DELETE_READY_MESSAGE: Message := Message("ibutton/delete_ready", DELETE_READY_PAYLOAD, false)

  function DeleteFailureMessage(reason: string, attempted: Option<string>): Message {
    Message("ibutton/delete_failure", Snprintf(DeleteFailurePayload(reason, attempted)), false)
  }

  function TwoFaRequestMessage(ibuttonHex: string, associatedId: U32, deviceId: string): Message {
    Message("auth/2fa_request", Snprintf(TwoFaRequestPayload(ibuttonHex, associatedId, deviceId)), false)
  }

  // ------------------------------------------------- clear and reset helpers

  /** `clearPairingMode`. */
  function PairingCleared(s: Session): Session {
    s.(pairingModeActive := false, currentPairingSessionId := "", pairingTimeoutStartMs := 0)
  }

  /** `clear2FA_WaitingState`: the grant flag is deliberately left for the caller to read. */
  function TwoFaWaitCleared(s: Session): Session {
    s.(waitingFor2faResponse := false, twoFaIButtonId := "", twoFaTimeoutStartMs := 0)
  }

  /** `reset2FA_GrantStatus`. */
  function TwoFaGrantReset(s: Session): Session {
    s.(twoFaGranted := false)
  }

  /** `clearDeleteIButtonMode`. */
  function DeleteModeCleared(s: Session): Session {
    s.(deleteIButtonModeActive := false, deleteIButtonTimeoutStartMs := 0)
  }

  // -------------------------------------------------------- inbound commands

  /** `base_topic_prefix + "cmd/" + suffix`. */
  function CommandTopic(prefix: string, suffix: string): string {
    prefix + "cmd/" + suffix
  }

  /** `initiate_pairing`: a non-empty session id starts pairing whatever was going on. */
  function InitiatePairing(s: Session, payload: string, now: U32): Step {
    var receivedSessionId := ExtractStringField(payload, "pairing_session_id");
    if receivedSessionId != "" then
      Step(s.(currentPairingSessionId := receivedSessionId, pairingModeActive := true, pairingTimeoutStartMs := now),
           [PairingReadyMessage(receivedSessionId)])
    else Step(s, [])
  }

  /**
    The pairing-ready event as published (after `snprintf` into the 256-byte
    buffer) gives the session id back, for ids of up to 230 characters. A
    231-character id loses only the closing brace; from 232 characters on the
    closing quote is lost too.
   */
  lemma PairingReadyEventCarriesSessionId(sessionId: string)
    requires |sessionId| <= 230
    requires forall i :: 0 <= i < |sessionId| ==> sessionId[i] != '"'
    ensures ExtractStringField(PairingReadyMessage(sessionId).payload, "pairing_session_id") == sessionId
  {
    assert |PairingReadyPayload(sessionId)| == 25 + |sessionId|;
    PairingReadyRoundTrip(sessionId);
  }

  /** `cancel_pairing`: only the active session, named exactly, is cancelled. */
  function CancelPairing(s: Session, payload: string): Step {
    var sessionToCancel := ExtractStringField(payload, "pairing_session_id");
    if sessionToCancel != "" && s.pairingModeActive && sessionToCancel == s.currentPairingSessionId then
      Step(PairingCleared(s), [PairingFailureMessage(s.currentPairingSessionId, "cancelled_by_app")])
    else Step(s, [])
  }

  /** `auth/2fa_response`: a matching id with a parsed `allow_entry` sets the grant flag; nothing else changes. */
  function TwoFaResponse(s: Session, payload: string): Session {
    if s.waitingFor2faResponse then
      var receivedId := ExtractStringField(payload, "ibutton_id");
      var allowEntry := ParseAllowEntry(payload);
      if receivedId != "" && EqualsIgnoreCase(receivedId, s.twoFaIButtonId) && allowEntry.Some?
      then s.(twoFaGranted := allowEntry.value)
      else s
    else s
  }

  /** `ibutton/initiate_delete_mode`: only when no delete, pairing or 2FA is in progress. */
  function InitiateDeleteMode(s: Session, now: U32): Step {
    if !s.deleteIButtonModeActive && !s.pairingModeActive && !s.waitingFor2faResponse then
      Step(s.(deleteIButtonModeActive := true, deleteIButtonTimeoutStartMs := now), [DELETE_READY_MESSAGE])
    else Step(s, [])
  }

  /** `ibutton/cancel_delete_mode`: clears an active delete mode and publishes nothing. */
  function CancelDeleteMode(s: Session): Session {
    if s.deleteIButtonModeActive then DeleteModeCleared(s) else s
  }

  /** `mqttCallback`: the first command topic equal to `topic` selects the branch. */
  function Callback(s: Session, prefix: string, topic: string, payload: string, now: U32): Step {
    if topic == CommandTopic(prefix, "initiate_pairing") then InitiatePairing(s, payload, now)
    else if topic == CommandTopic(prefix, "cancel_pairing") then CancelPairing(s, payload)
    else if topic == CommandTopic(prefix, "auth/2fa_response") then Step(TwoFaResponse(s, payload), [])
    else if topic == CommandTopic(prefix, "ibutton/initiate_delete_mode") then InitiateDeleteMode(s, now)
    else if topic == CommandTopic(prefix, "ibutton/cancel_delete_mode") then Step(CancelDeleteMode(s), [])
    else Step(s, [])
  }

  // ---------------------------------------------------------------- timeouts

  /** First check: pairing expires strictly after its 60 s and reports "timeout" for its session id. */
  function PairingTimeoutCheck(s: Session, now: U32): Step {
    if s.pairingModeActive && Elapsed(s.pairingTimeoutStartMs, now) > PAIRING_TIMEOUT_DURATION_MS then
      Step(PairingCleared(s), [PairingFailureMessage(s.currentPairingSessionId, "timeout")])
    else Step(s, [])
  }

  /** Second check: a 2FA wait expires at 30 s or later as a denial, silently. */
  function TwoFaTimeoutCheck(s: Session, now: U32): Session {
    if s.waitingFor2faResponse && Elapsed(s.twoFaTimeoutStartMs, now) >= TWO_FA_TIMEOUT_DURATION_MS then
      TwoFaWaitCleared(s.(twoFaGranted := false))
    else s
  }

  /** Third check: delete mode expires strictly after its 60 s and reports "timeout" without an id. */
  function DeleteTimeoutCheck(s: Session, now: U32): Step {
    if s.deleteIButtonModeActive && Elapsed(s.deleteIButtonTimeoutStartMs, now) > DELETE_IBUTTON_TIMEOUT_DURATION_MS then
      Step(DeleteModeCleared(s), [DeleteFailureMessage("timeout", None)])
    else Step(s, [])
  }

  /** The three timeout checks of `loopMQTTManager`, in source order. */
  function Timeouts(s: Session, now: U32): Step {
    var afterPairing := PairingTimeoutCheck(s, now);
    var afterTwoFa := TwoFaTimeoutCheck(afterPairing.next, now);
    var afterDelete := DeleteTimeoutCheck(afterTwoFa, now);
    Step(afterDelete.next, afterPairing.sent + afterDelete.sent)
  }

  // -------------------------------------------------------------- 2FA start

  /** `publish2FARequest`: starts a 2FA wait unconditionally and publishes the request. */
  function Request2fa(s: Session, ibuttonId: seq<Byte>, associatedId: U32, deviceId: string, now: U32): Step {
    var ibHex := HexOf(ibuttonId);
    Step(s.(twoFaIButtonId := ibHex, waitingFor2faResponse := true, twoFaGranted := false, twoFaTimeoutStartMs := now),
         [TwoFaRequestMessage(ibHex, associatedId, deviceId)])
  }

  // ------------------------------------------------------------- properties

  /**
    `initiate_pairing` with a non-empty parsed id, in either key spelling and
    anywhere in the payload, takes over from any state; 2FA and delete state
    are untouched.
   */
  lemma InitiatePairingOverridesAnySession(s: Session, payload: string, now: U32)
    requires ExtractStringField(payload, "pairing_session_id") != ""
    ensures var id := ExtractStringField(payload, "pairing_session_id");
            var step := InitiatePairing(s, payload, now);
            && step.next == s.(pairingModeActive := true, currentPairingSessionId := id, pairingTimeoutStartMs := now)
            && step.sent == [PairingReadyMessage(id)]
  {
  }

  /** An `initiate_pairing` whose id parses as empty (no key, empty value, no closing quote) changes nothing. */
  lemma InitiatePairingEmptyIdIgnored(s: Session, payload: string, now: U32)
    requires ExtractStringField(payload, "pairing_session_id") == ""
    ensures InitiatePairing(s, payload, now) == Step(s, [])
  {
  }

  /** An `initiate_pairing` with neither spelling of the key changes nothing and publishes nothing. */
  lemma InitiatePairingWithoutIdIsIgnored(s: Session, payload: string, now: U32)
    requires forall p :: !OccursAt(payload, SpacedKey("pairing_session_id"), p)
                         && !OccursAt(payload, CompactKey("pairing_session_id"), p)
    ensures InitiatePairing(s, payload, now) == Step(s, [])
  {
    ExtractOfMissingKeyIsEmpty(payload, "pairing_session_id");
    InitiatePairingEmptyIdIgnored(s, payload, now);
  }

  /** `cancel_pairing` acts exactly when pairing is active and the parsed id equals the stored one. */
  lemma CancelPairingIff(s: Session, payload: string)
    ensures var id := ExtractStringField(payload, "pairing_session_id");
            var step := CancelPairing(s, payload);
            (step.next != s) <==> (id != "" && s.pairingModeActive && id == s.currentPairingSessionId)
    ensures var step := CancelPairing(s, payload);
            step.next != s ==> && !step.next.pairingModeActive && step.next.currentPairingSessionId == ""
                               && step.next.pairingTimeoutStartMs == 0
                               && step.sent == [PairingFailureMessage(s.currentPairingSessionId, "cancelled_by_app")]
    ensures var step := CancelPairing(s, payload);
            step.next != s ==> step == Step(PairingCleared(s), [PairingFailureMessage(s.currentPairingSessionId, "cancelled_by_app")])
    ensures var step := CancelPairing(s, payload);
            step.next == s ==> step.sent == []
  {
  }

  /** The `initiate_pairing` / `cancel_pairing` message the app sends for a session id. */
  function SessionPayload(sessionId: string): string {
    "{" + SpacedKey("pairing_session_id") + sessionId + QUOTE + "}"
  }

  /** Cancelling a different session than the active one leaves pairing running with its own id. */
  lemma MismatchedCancelKeepsPairing(s: Session, active: string, other: string, now: U32)
    requires active != "" && other != "" && active != other
    requires forall i :: 0 <= i < |active| ==> active[i] != '"'
    requires forall i :: 0 <= i < |other| ==> other[i] != '"'
    ensures var started := InitiatePairing(s, SessionPayload(active), now).next;
            var after := CancelPairing(started, SessionPayload(other));
            && after.next.pairingModeActive && after.next.currentPairingSessionId == active
            && after.sent == []
  {
    ExtractReadsSpacedField("pairing_session_id", active, "}");
    ExtractReadsSpacedField("pairing_session_id", other, "}");
  }

  /** A 2FA response never touches anything but the grant flag, and never ends the wait. */
  lemma TwoFaResponseOnlySetsGrant(s: Session, payload: string)
    ensures TwoFaResponse(s, payload) == s.(twoFaGranted := TwoFaResponse(s, payload).twoFaGranted)
    ensures TwoFaResponse(s, payload).waitingFor2faResponse == s.waitingFor2faResponse
  {
  }

  /** The grant flag follows `allow_entry` exactly when waiting, the id matches ignoring case and `allow_entry` parsed. */
  lemma TwoFaResponseDecides(s: Session, payload: string)
    ensures var id := ExtractStringField(payload, "ibutton_id");
            var allow := ParseAllowEntry(payload);
            var acts := s.waitingFor2faResponse && id != "" && EqualsIgnoreCase(id, s.twoFaIButtonId) && allow.Some?;
            && (acts ==> TwoFaResponse(s, payload).twoFaGranted == allow.value)
            && (!acts ==> TwoFaResponse(s, payload) == s)
  {
  }

  /** A reply whose id differs from the pending one (even ignoring case) is ignored. */
  lemma TwoFaMismatchIsIgnored(s: Session, payload: string)
    requires !EqualsIgnoreCase(ExtractStringField(payload, "ibutton_id"), s.twoFaIButtonId)
    ensures TwoFaResponse(s, payload) == s
  {
  }

  /** The lower-case hex spelling of an iButton id has no quote in it, so it can sit in a JSON string. */
  lemma LowerHexIsQuoteFree(ibuttonId: seq<Byte>)
    ensures forall i :: 0 <= i < |ToLowerString(HexOf(ibuttonId))| ==> ToLowerString(HexOf(ibuttonId))[i] != '"'
  {
    var hex := HexOf(ibuttonId);
    forall i | 0 <= i < |hex| ensures ToLowerAscii(hex[i]) != '"' {
      var k := i / 2;
      assert i == 2 * k || i == 2 * k + 1;
      assert hex[i] == HexDigit(ibuttonId[k] / 16) || hex[i] == HexDigit(ibuttonId[k] % 16);
      assert hex[i] in HEX_DIGITS;
    }
  }

  /** Any payload holding a spaced `"allow_entry": true` anywhere allows entry. */
  lemma SpacedAllowTrueParses(payload: string, p: int)
    requires OccursAt(payload, ALLOW_TRUE_SPACED, p)
    ensures ParseAllowEntry(payload) == Some(true)
  {
  }

  /** A reply ending in `, "allow_entry": true}` allows entry, whatever comes before. */
  lemma AllowTrueTailParses(head: string)
    ensures ParseAllowEntry(head + ", \"allow_entry\": true}") == Some(true)
  {
    var payload := head + ", \"allow_entry\": true}";
    assert payload[|head| + 2..|head| + 2 + |ALLOW_TRUE_SPACED|] == ALLOW_TRUE_SPACED;
    SpacedAllowTrueParses(payload, |head| + 2);
  }

  /**
    End to end: after `publish2FARequest` for an iButton, an app reply that
    spells the id in lower case and allows entry grants it, and the wait stays
    open until the caller clears it.
   */
  lemma TwoFaLowerCaseReplyGrants(s: Session, ibuttonId: seq<Byte>, associatedId: U32, deviceId: string, now: U32)
    requires |ibuttonId| == 8
    ensures var waiting := Request2fa(s, ibuttonId, associatedId, deviceId, now).next;
            var reply := "{" + SpacedKey("ibutton_id") + ToLowerString(HexOf(ibuttonId)) + QUOTE + ", \"allow_entry\": true}";
            var after := TwoFaResponse(waiting, reply);
            after.twoFaGranted && after.waitingFor2faResponse
  {
    var hex := HexOf(ibuttonId);
    var lower := ToLowerString(hex);
    var head := "{" + SpacedKey("ibutton_id") + lower + QUOTE;
    var reply := head + ", \"allow_entry\": true}";
    LowerHexIsQuoteFree(ibuttonId);
    ExtractReadsSpacedField("ibutton_id", lower, ", \"allow_entry\": true}");
    LowerCaseSpellingMatches(hex);
    AllowTrueTailParses(head);
    assert ExtractStringField(reply, "ibutton_id") == lower;
    assert lower != "";
    assert ParseAllowEntry(reply) == Some(true);
  }

  /** Delete mode switches on exactly when delete, pairing and 2FA are all idle, and then announces itself. */
  lemma DeleteModeActivationIff(s: Session, now: U32)
    ensures var step := InitiateDeleteMode(s, now);
            (step.next.deleteIButtonModeActive && !s.deleteIButtonModeActive)
              <==> (!s.deleteIButtonModeActive && !s.pairingModeActive && !s.waitingFor2faResponse)
    ensures var step := InitiateDeleteMode(s, now);
            step.next != s ==> step.sent == [DELETE_READY_MESSAGE] && step.next.deleteIButtonTimeoutStartMs == now
    ensures var step := InitiateDeleteMode(s, now);
            step.next == s ==> step.sent == []
    ensures InitiateDeleteMode(s, now)
            == if !s.deleteIButtonModeActive && !s.pairingModeActive && !s.waitingFor2faResponse
               then Step(s.(deleteIButtonModeActive := true, deleteIButtonTimeoutStartMs := now), [DELETE_READY_MESSAGE])
               else Step(s, [])
  {
  }

  /** Pairing does not check for delete mode, so both can end up active together. */
  lemma PairingDuringDeleteModeLeavesBothActive(s: Session, sessionId: string, now: U32)
    requires s.deleteIButtonModeActive
    requires sessionId != "" && forall i :: 0 <= i < |sessionId| ==> sessionId[i] != '"'
    ensures var step := InitiatePairing(s, SessionPayload(sessionId), now);
            step.next.pairingModeActive && step.next.deleteIButtonModeActive
  {
    ExtractReadsSpacedField("pairing_session_id", sessionId, "}");
    InitiatePairingOverridesAnySession(s, SessionPayload(sessionId), now);
  }

  /** `cancel_delete_mode` clears an active delete mode, leaves everything else, and publishes nothing. */
  lemma CancelDeleteModeIsSilent(s: Session, prefix: string, payload: string, now: U32)
    ensures var step := Callback(s, prefix, CommandTopic(prefix, "ibutton/cancel_delete_mode"), payload, now);
            && step.sent == []
            && !step.next.deleteIButtonModeActive
            && (s.deleteIButtonModeActive ==> step.next == DeleteModeCleared(s))
            && (!s.deleteIButtonModeActive ==> step.next == s)
  {
  }

  /** A topic that is none of the five commands changes nothing. */
  lemma UnknownTopicIsIgnored(s: Session, prefix: string, topic: string, payload: string, now: U32)
    requires topic !in {CommandTopic(prefix, "initiate_pairing"), CommandTopic(prefix, "cancel_pairing"),
                        CommandTopic(prefix, "auth/2fa_response"), CommandTopic(prefix, "ibutton/initiate_delete_mode"),
                        CommandTopic(prefix, "ibutton/cancel_delete_mode")}
    ensures Callback(s, prefix, topic, payload, now) == Step(s, [])
  {
  }

  /** Pairing expires strictly after 60 s, with a "timeout" failure for the stored session id. */
  lemma PairingTimeout(s: Session, now: U32)
    ensures var step := Timeouts(s, now);
            (s.pairingModeActive && Elapsed(s.pairingTimeoutStartMs, now) > PAIRING_TIMEOUT_DURATION_MS)
              <==> (s.pairingModeActive && !step.next.pairingModeActive)
    ensures var step := Timeouts(s, now);
            (s.pairingModeActive && !step.next.pairingModeActive) ==>
              && |step.sent| >= 1 && step.sent[0] == PairingFailureMessage(s.currentPairingSessionId, "timeout")
                  && step.next.currentPairingSessionId == "" && step.next.pairingTimeoutStartMs == 0
  {
  }

  /** Delete mode expires strictly after 60 s; the last message of the tick is then the "timeout" failure without an id. */
  lemma DeleteTimeout(s: Session, now: U32)
    ensures var step := Timeouts(s, now);
            (s.deleteIButtonModeActive && Elapsed(s.deleteIButtonTimeoutStartMs, now) > DELETE_IBUTTON_TIMEOUT_DURATION_MS)
              <==> (s.deleteIButtonModeActive && !step.next.deleteIButtonModeActive)
    ensures var step := Timeouts(s, now);
            (s.deleteIButtonModeActive && !step.next.deleteIButtonModeActive) ==>
              && |step.sent| >= 1 && step.sent[|step.sent| - 1] == DeleteFailureMessage("timeout", None)
              && step.next.deleteIButtonTimeoutStartMs == 0
  {
  }

  /** A 2FA wait expires at 30 s (inclusive) as a denial, and the wait is closed without any reply. */
  lemma TwoFaTimeoutDenies(s: Session, now: U32)
    requires s.waitingFor2faResponse && Elapsed(s.twoFaTimeoutStartMs, now) >= TWO_FA_TIMEOUT_DURATION_MS
    ensures var next := Timeouts(s, now).next;
            !next.waitingFor2faResponse && !next.twoFaGranted && next.twoFaIButtonId == ""
  {
  }

  /** Before its 30 s are up a 2FA wait survives the check, and so does its grant flag. */
  lemma TwoFaWaitSurvivesBeforeDeadline(s: Session, now: U32)
    requires s.waitingFor2faResponse && Elapsed(s.twoFaTimeoutStartMs, now) < TWO_FA_TIMEOUT_DURATION_MS
    ensures var next := Timeouts(s, now).next;
            next.waitingFor2faResponse && next.twoFaGranted == s.twoFaGranted && next.twoFaIButtonId == s.twoFaIButtonId
  {
  }

  /** Exactly 60 s after the start pairing and delete mode are still alive, while a 2FA wait 30 s old is over. */
  lemma TimeoutBoundariesDiffer(s: Session, start: U32)
    requires s.pairingModeActive && s.deleteIButtonModeActive && s.waitingFor2faResponse
    requires s.pairingTimeoutStartMs == start && s.deleteIButtonTimeoutStartMs == start
    requires s.twoFaTimeoutStartMs == (start + 30000) % U32_MODULUS
    ensures var next := Timeouts(s, (start + 60000) % U32_MODULUS).next;
            next.pairingModeActive && next.deleteIButtonModeActive && !next.waitingFor2faResponse
  {
    var now := (start + 60000) % U32_MODULUS;
    ElapsedAcrossRollover(start, 60000);
    ElapsedAcrossRollover(s.twoFaTimeoutStartMs, 30000);
    assert (s.twoFaTimeoutStartMs + 30000) % U32_MODULUS == now;
  }

  /** A `millis()` rollover ends no flow early: each active flow still within its own limit since its own start survives. */
  lemma NoTimeoutAcrossRollover(s: Session, now: U32, dPairing: U32, dTwoFa: U32, dDelete: U32)
    requires s.pairingModeActive ==>
               (s.pairingTimeoutStartMs + dPairing) % U32_MODULUS == now && dPairing <= PAIRING_TIMEOUT_DURATION_MS
    requires s.waitingFor2faResponse ==>
               (s.twoFaTimeoutStartMs + dTwoFa) % U32_MODULUS == now && dTwoFa < TWO_FA_TIMEOUT_DURATION_MS
    requires s.deleteIButtonModeActive ==>
               (s.deleteIButtonTimeoutStartMs + dDelete) % U32_MODULUS == now && dDelete <= DELETE_IBUTTON_TIMEOUT_DURATION_MS
    ensures Timeouts(s, now) == Step(s, [])
  {
    ElapsedAcrossRollover(s.pairingTimeoutStartMs, dPairing);
    ElapsedAcrossRollover(s.twoFaTimeoutStartMs, dTwoFa);
    ElapsedAcrossRollover(s.deleteIButtonTimeoutStartMs, dDelete);
  }

  /** When pairing and delete expire together the pairing failure is published first. */
  lemma TimeoutMessagesInSourceOrder(s: Session, now: U32)
    requires s.pairingModeActive && Elapsed(s.pairingTimeoutStartMs, now) > PAIRING_TIMEOUT_DURATION_MS
    requires s.deleteIButtonModeActive && Elapsed(s.deleteIButtonTimeoutStartMs, now) > DELETE_IBUTTON_TIMEOUT_DURATION_MS
    ensures Timeouts(s, now).sent == [PairingFailureMessage(s.currentPairingSessionId, "timeout"),
                                      DeleteFailureMessage("timeout", None)]
  {
  }

  /** `publish2FARequest` checks nothing: it opens a wait for the id's hex spelling from any state. */
  lemma Request2faStartsWaitFromAnyState(s: Session, ibuttonId: seq<Byte>, associatedId: U32, deviceId: string, now: U32)
    requires |ibuttonId| == 8
    ensures var step := Request2fa(s, ibuttonId, associatedId, deviceId, now);
            && step.next == s.(twoFaIButtonId := HexOf(ibuttonId), waitingFor2faResponse := true,
                               twoFaGranted := false, twoFaTimeoutStartMs := now)
            && ParseHex(step.next.twoFaIButtonId) == Some(ibuttonId)
  {
    HexRoundTrip(ibuttonId);
  }

  /** Clearing the 2FA wait keeps the grant flag for the caller to read. */
  lemma ClearWaitKeepsGrant(s: Session)
    ensures !TwoFaWaitCleared(s).waitingFor2faResponse
    ensures TwoFaWaitCleared(s).twoFaGranted == s.twoFaGranted
  {
  }

  // ------------------------------------------------------------- the globals

  /**
    The module globals of `mqtt_manager.cpp` that the core updates, with the
    outbox standing for the MQTT client's publish calls. `connected` is what
    `mqttClient.connected()` reports; connection management is not modelled.
   */
  class Globals {
    const baseTopicPrefix: string
    var connected: bool
    var outbox: seq<Message>

    var pairingModeActive: bool
    var currentPairingSessionId: string
    var pairingTimeoutStartMs: U32

    var waitingFor2faResponse: bool
    var twoFaIButtonId: string
    var twoFaTimeoutStartMs: U32
    var twoFaGranted: bool

    var deleteIButtonModeActive: bool
    var deleteIButtonTimeoutStartMs: U32

    /** The globals as a `Session` value. */
    function State(): Session
      reads this
    {
      Session(pairingModeActive, currentPairingSessionId, pairingTimeoutStartMs,
              waitingFor2faResponse, twoFaIButtonId, twoFaTimeoutStartMs, twoFaGranted,
              deleteIButtonModeActive, deleteIButtonTimeoutStartMs)
    }

    constructor (prefix: string, isConnected: bool)
      ensures baseTopicPrefix == prefix && connected == isConnected
      ensures State() == INITIAL_SESSION && outbox == []
    {
      baseTopicPrefix := prefix;
      connected := isConnected;
      outbox := [];
      pairingModeActive, currentPairingSessionId, pairingTimeoutStartMs := false, "", 0;
      waitingFor2faResponse, twoFaIButtonId, twoFaTimeoutStartMs, twoFaGranted := false, "", 0, false;
      deleteIButtonModeActive, deleteIButtonTimeoutStartMs := false, 0;
    }

    /** `publishMQTTMessage`: false and nothing sent while disconnected. */
    method PublishMqttMessage(subTopic: string, payload: string, retained: bool) returns (ok: bool)
      modifies this`outbox
      ensures ok == connected
      ensures outbox == Deliver(old(outbox), connected, [Message(subTopic, payload, retained)])
    {
      if !connected {
        return false;
      }
      outbox := outbox + [Message(subTopic, payload, retained)];
      return true;
    }

    /** Publishes one prepared message (the helpers below ignore the publish result, as the source does). */
    method Send(m: Message)
      modifies this`outbox
      ensures outbox == Deliver(old(outbox), connected, [m])
    {
      var _ := PublishMqttMessage(m.subTopic, m.payload, m.retained);
    }

    /** `publishPairingReady`. */
    method PublishPairingReady(sessionId: string)
      modifies this`outbox
      ensures outbox == Deliver(old(outbox), connected, [PairingReadyMessage(sessionId)])
    {
      Send(PairingReadyMessage(sessionId));
    }

    /** `publishPairingFailure`. */
    method PublishPairingFailure(sessionId: string, reason: string)
      modifies this`outbox
      ensures outbox == Deliver(old(outbox), connected, [PairingFailureMessage(sessionId, reason)])
    {
      Send(PairingFailureMessage(sessionId, reason));
    }

    /** `publishDeleteReady`: a fixed payload, not formatted through the buffer. */
    method PublishDeleteReady()
      modifies this`outbox
      ensures outbox == Deliver(old(outbox), connected, [DELETE_READY_MESSAGE])
    {
      Send(DELETE_READY_MESSAGE);
    }

    // ---------------------------------------------------- clear and reset

    method ClearPairingMode()
      modifies this
      ensures State() == PairingCleared(old(State()))
      ensures outbox == old(outbox) && connected == old(connected)
    {
      pairingModeActive := false;
      currentPairingSessionId := "";
      pairingTimeoutStartMs := 0;
    }

    method Clear2faWaitingState()
      modifies this
      ensures State() == TwoFaWaitCleared(old(State()))
      ensures outbox == old(outbox) && connected == old(connected)
    {
      waitingFor2faResponse := false;
      twoFaIButtonId := "";
      twoFaTimeoutStartMs := 0;
    }

    method Reset2faGrantStatus()
      modifies this
      ensures State() == TwoFaGrantReset(old(State()))
      ensures outbox == old(outbox) && connected == old(connected)
    {
      twoFaGranted := false;
    }

    method ClearDeleteIButtonMode()
      modifies this
      ensures State() == DeleteModeCleared(old(State()))
      ensures outbox == old(outbox) && connected == old(connected)
    {
      deleteIButtonModeActive := false;
      deleteIButtonTimeoutStartMs := 0;
    }

    // ------------------------------------------------ inbound commands

    method HandleInitiatePairing(payload: string, now: U32)
      modifies this
      ensures State() == InitiatePairing(old(State()), payload, now).next
      ensures outbox == Deliver(old(outbox), connected, InitiatePairing(old(State()), payload, now).sent)
      ensures connected == old(connected)
    {
      var receivedSessionId := ExtractStringField(payload, "pairing_session_id");
      if receivedSessionId != "" {
        currentPairingSessionId := receivedSessionId;
        pairingModeActive := true;
        pairingTimeoutStartMs := now;
        PublishPairingReady(currentPairingSessionId);
      }
    }

    method HandleCancelPairing(payload: string)
      modifies this
      ensures State() == CancelPairing(old(State()), payload).next
      ensures outbox == Deliver(old(outbox), connected, CancelPairing(old(State()), payload).sent)
      ensures connected == old(connected)
    {
      var sessionToCancel := ExtractStringField(payload, "pairing_session_id");
      if sessionToCancel != "" {
        if pairingModeActive && sessionToCancel == currentPairingSessionId {
          PublishPairingFailure(currentPairingSessionId, "cancelled_by_app");
          ClearPairingMode();
        }
      }
    }

    method HandleTwoFaResponse(payload: string)
      modifies this
      ensures State() == TwoFaResponse(old(State()), payload)
      ensures outbox == old(outbox) && connected == old(connected)
    {
      if waitingFor2faResponse {
        var receivedIbId := ExtractStringField(payload, "ibutton_id");
        var allowEntry := ParseAllowEntry(payload);
        if receivedIbId != "" && EqualsIgnoreCase(receivedIbId, twoFaIButtonId) {
          if allowEntry.Some? {
            twoFaGranted := allowEntry.value;
          }
        }
      }
    }

    method HandleInitiateDeleteMode(now: U32)
      modifies this
      ensures State() == InitiateDeleteMode(old(State()), now).next
      ensures outbox == Deliver(old(outbox), connected, InitiateDeleteMode(old(State()), now).sent)
      ensures connected == old(connected)
    {
      if !deleteIButtonModeActive && !pairingModeActive && !waitingFor2faResponse {
        deleteIButtonModeActive := true;
        deleteIButtonTimeoutStartMs := now;
        PublishDeleteReady();
      }
    }

    method HandleCancelDeleteMode()
      modifies this
      ensures State() == CancelDeleteMode(old(State()))
      ensures outbox == old(outbox) && connected == old(connected)
    {
      if deleteIButtonModeActive {
        ClearDeleteIButtonMode();
      }
    }

    /** `mqttCallback`: at most one branch runs, chosen by exact topic equality. */
    method MqttCallback(topic: string, payload: string, now: U32)
      modifies this
      ensures State() == Callback(old(State()), baseTopicPrefix, topic, payload, now).next
      ensures outbox == Deliver(old(outbox), connected, Callback(old(State()), baseTopicPrefix, topic, payload, now).sent)
      ensures connected == old(connected)
    {
      if topic == CommandTopic(baseTopicPrefix, "initiate_pairing") {
        HandleInitiatePairing(payload, now);
      } else if topic == CommandTopic(baseTopicPrefix, "cancel_pairing") {
        HandleCancelPairing(payload);
      } else if topic == CommandTopic(baseTopicPrefix, "auth/2fa_response") {
        HandleTwoFaResponse(payload);
      } else if topic == CommandTopic(baseTopicPrefix, "ibutton/initiate_delete_mode") {
        HandleInitiateDeleteMode(now);
      } else if topic == CommandTopic(baseTopicPrefix, "ibutton/cancel_delete_mode") {
        HandleCancelDeleteMode();
      }
    }

    // ---------------------------------------------------------- timeouts

    method CheckPairingTimeout(now: U32)
      modifies this
      ensures State() == PairingTimeoutCheck(old(State()), now).next
      ensures outbox == Deliver(old(outbox), connected, PairingTimeoutCheck(old(State()), now).sent)
      ensures connected == old(connected)
    {
      if pairingModeActive && Elapsed(pairingTimeoutStartMs, now) > PAIRING_TIMEOUT_DURATION_MS {
        PublishPairingFailure(currentPairingSessionId, "timeout");
        ClearPairingMode();
      }
    }

    method CheckTwoFaTimeout(now: U32)
      modifies this
      ensures State() == TwoFaTimeoutCheck(old(State()), now)
      ensures outbox == old(outbox) && connected == old(connected)
    {
      if waitingFor2faResponse && Elapsed(twoFaTimeoutStartMs, now) >= TWO_FA_TIMEOUT_DURATION_MS {
        twoFaGranted := false;
        Clear2faWaitingState();
      }
    }

    method CheckDeleteTimeout(now: U32)
      modifies this
      ensures State() == DeleteTimeoutCheck(old(State()), now).next
      ensures outbox == Deliver(old(outbox), connected, DeleteTimeoutCheck(old(State()), now).sent)
      ensures connected == old(connected)
    {
      if deleteIButtonModeActive && Elapsed(deleteIButtonTimeoutStartMs, now) > DELETE_IBUTTON_TIMEOUT_DURATION_MS {
        PublishDeleteFailure("timeout", None);
        ClearDeleteIButtonMode();
      }
    }

    /** The timeout part of `loopMQTTManager`; nothing happens while WiFi is down. */
    method LoopTimeouts(now: U32, wifiConnected: bool)
      modifies this
      ensures State() == (if wifiConnected then Timeouts(old(State()), now).next else old(State()))
      ensures outbox == Deliver(old(outbox), connected, if wifiConnected then Timeouts(old(State()), now).sent else [])
      ensures connected == old(connected)
    {
      if !wifiConnected {
        return;
      }
      ghost var s0, o0 := State(), outbox;
      CheckPairingTimeout(now);
      CheckTwoFaTimeout(now);
      CheckDeleteTimeout(now);
      ghost var a := PairingTimeoutCheck(s0, now);
      ghost var c := DeleteTimeoutCheck(TwoFaTimeoutCheck(a.next, now), now);
      assert connected ==> outbox == o0 + a.sent + c.sent;
      assert o0 + a.sent + c.sent == o0 + (a.sent + c.sent);
    }

    // ------------------------------------------------------ outbound events

    method Publish2faRequest(ibuttonId: seq<Byte>, associatedId: U32, deviceId: string, now: U32)
      requires |ibuttonId| == 8
      modifies this
      ensures State() == Request2fa(old(State()), ibuttonId, associatedId, deviceId, now).next
      ensures outbox == Deliver(old(outbox), connected, Request2fa(old(State()), ibuttonId, associatedId, deviceId, now).sent)
      ensures connected == old(connected)
    {
      var ibIdStr := IButtonBytesToHexString(ibuttonId);
      twoFaIButtonId := ibIdStr;
      waitingFor2faResponse := true;
      twoFaGranted := false;
      twoFaTimeoutStartMs := now;
      Send(TwoFaRequestMessage(ibIdStr, associatedId, deviceId));
    }

    /** `publishStatus` (retained); `ip` stands for the station's address. */
    method PublishStatus(online: bool, occupancy: U32, totalSpaces: U32, ip: string)
      modifies this`outbox
      ensures outbox == Deliver(old(outbox), connected,
                                [Message("status", Snprintf(StatusPayload(online, occupancy, totalSpaces, ip)), true)])
    {
      Send(Message("status", Snprintf(StatusPayload(online, occupancy, totalSpaces, ip)), true));
    }

    method PublishIButtonScanned(ibuttonId: seq<Byte>, isRegistered: bool, associatedId: U32)
      requires |ibuttonId| == 8
      modifies this`outbox
      ensures outbox == Deliver(old(outbox), connected,
                                [Message("ibutton/scanned", Snprintf(IButtonScannedPayload(HexOf(ibuttonId), isRegistered, associatedId)), false)])
    {
      var ibIdStr := IButtonBytesToHexString(ibuttonId);
      Send(Message("ibutton/scanned", Snprintf(IButtonScannedPayload(ibIdStr, isRegistered, associatedId)), false));
    }

    method PublishPairingSuccess(sessionId: string, ibuttonId: seq<Byte>, associatedId: U32)
      requires |ibuttonId| == 8
      modifies this`outbox
      ensures outbox == Deliver(old(outbox), connected,
                                [Message("pairing/success", Snprintf(PairingSuccessPayload(sessionId, HexOf(ibuttonId), associatedId)), false)])
    {
      var ibIdStr := IButtonBytesToHexString(ibuttonId);
      Send(Message("pairing/success", Snprintf(PairingSuccessPayload(sessionId, ibIdStr, associatedId)), false));
    }

    method PublishDeleteSuccess(ibuttonId: seq<Byte>)
      requires |ibuttonId| == 8
      modifies this`outbox
      ensures outbox == Deliver(old(outbox), connected,
                                [Message("ibutton/delete_success", Snprintf(DeleteSuccessPayload(HexOf(ibuttonId))), false)])
    {
      var ibIdStr := IButtonBytesToHexString(ibuttonId);
      Send(Message("ibutton/delete_success", Snprintf(DeleteSuccessPayload(ibIdStr)), false));
    }

    method PublishDeleteFailure(reason: string, attempted: Option<seq<Byte>>)
      requires attempted.Some? ==> |attempted.value| == 8
      modifies this`outbox
      ensures outbox == Deliver(old(outbox), connected,
                                [DeleteFailureMessage(reason, if attempted.Some? then Some(HexOf(attempted.value)) else None)])
    {
      if attempted.Some? {
        var ibIdStr := IButtonBytesToHexString(attempted.value);
        Send(DeleteFailureMessage(reason, Some(ibIdStr)));
      } else {
        Send(DeleteFailureMessage(reason, None));
      }
    }
  }
}
