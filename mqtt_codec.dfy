/**
  The text helpers of the MQTT coordinator: the hex spelling of an iButton id,
  Arduino `String::indexOf`, the lenient extraction of a string field from a
  JSON-like payload, the `allow_entry` detection, `equalsIgnoreCase`, `%u`
  formatting and the fixed-shape outbound payloads.
 */
module MqttCodec {
  import opened Common

  // ------------------------------------------------------------ hex strings

  const HEX_DIGITS: string := "0123456789ABCDEF"

  /** The `%X` digit of a nibble. */
  function HexDigit(n: int): char
    requires 0 <= n < 16
  {
    HEX_DIGITS[n]
  }

  /** `sprintf("%02X", b)`: two upper-case digits, zero padded. */
  function HexPair(b: Byte): string {
    [HexDigit(b / 16), HexDigit(b % 16)]
  }

  /** The concatenated `%02X` spelling of `bytes`, byte `i` at characters `2i` and `2i+1`. */
  function HexOf(bytes: seq<Byte>): (s: string)
    ensures |s| == 2 * |bytes|
    ensures forall i :: 0 <= i < |bytes| ==> s[2 * i] == HexDigit(bytes[i] / 16) && s[2 * i + 1] == HexDigit(bytes[i] % 16)
    decreases |bytes|
  {
    if bytes == [] then "" else HexOf(bytes[..|bytes| - 1]) + HexPair(bytes[|bytes| - 1])
  }

  /** `ibuttonBytesToHexString`: the loop appending one `%02X` pair per byte. */
  method IButtonBytesToHexString(idBytes: seq<Byte>) returns (hexStr: string)
    requires |idBytes| == 8
    ensures hexStr == HexOf(idBytes)
    ensures |hexStr| == 16
    ensures forall c :: c in hexStr ==> c in HEX_DIGITS
  {
    hexStr := "";
    var i := 0;
    while i < 8
      invariant 0 <= i <= 8
      invariant hexStr == HexOf(idBytes[..i])
      invariant forall c :: c in hexStr ==> c in HEX_DIGITS
    {
      assert idBytes[..i + 1][..i] == idBytes[..i];
      hexStr := hexStr + HexPair(idBytes[i]);
      i := i + 1;
    }
    assert idBytes[..8] == idBytes;
  }

  /** The value of a hex digit in either case. */
  function HexValue(c: char): Option<int> {
    if '0' <= c <= '9' then Some(c as int - '0' as int)
    else if 'A' <= c <= 'F' then Some(c as int - 'A' as int + 10)
    else if 'a' <= c <= 'f' then Some(c as int - 'a' as int + 10)
    else None
  }

  /** Decodes a hex string two digits per byte; None on an odd length or a non-digit. */
  function ParseHex(s: string): Option<seq<Byte>>
    decreases |s|
  {
    if |s| == 0 then Some([])
    else if |s| == 1 then None
    else
      var front := ParseHex(s[..|s| - 2]);
      var hi := HexValue(s[|s| - 2]);
      var lo := HexValue(s[|s| - 1]);
      if front.Some? && hi.Some? && lo.Some? && 0 <= hi.value < 16 && 0 <= lo.value < 16
      then Some(front.value + [hi.value * 16 + lo.value])
      else None
  }

  lemma HexDigitValue(n: int)
    requires 0 <= n < 16
    ensures HexValue(HexDigit(n)) == Some(n)
  {
  }

  /** Appending the spelling of one more byte appends that byte to the decoding. */
  lemma ParseHexAppendPair(t: string, front: seq<Byte>, b: Byte)
    requires ParseHex(t) == Some(front)
    ensures ParseHex(t + HexPair(b)) == Some(front + [b])
  {
    var s := t + HexPair(b);
    assert s[..|s| - 2] == t;
    assert s[|s| - 2] == HexDigit(b / 16) && s[|s| - 1] == HexDigit(b % 16);
    HexDigitValue(b / 16);
    HexDigitValue(b % 16);
  }

  /** Decoding the hex spelling gives the bytes back. */
  lemma {:induction false} HexRoundTrip(bytes: seq<Byte>)
    ensures ParseHex(HexOf(bytes)) == Some(bytes)
    decreases |bytes|
  {
    if bytes != [] {
      var front := bytes[..|bytes| - 1];
      var b := bytes[|bytes| - 1];
      HexRoundTrip(front);
      ParseHexAppendPair(HexOf(front), front, b);
      assert front + [b] == bytes;
    }
  }

  // ----------------------------------------------------- String::indexOf

  /** `pat` occurs in `s` starting at index `i`. */
  predicate OccursAt(s: string, pat: string, i: int) {
    0 <= i && i + |pat| <= |s| && s[i..i + |pat|] == pat
  }

  /**
    Arduino `String::indexOf(pat, from)`: -1 when `from` is past the end,
    otherwise the first occurrence at or after `from` (`strstr`), or -1.
   */
  function IndexOf(s: string, pat: string, from: nat): (r: int)
    requires |pat| > 0
    ensures r == -1 || (from <= r && OccursAt(s, pat, r))
    ensures r == -1 ==> forall i :: from <= i ==> !OccursAt(s, pat, i)
    ensures r != -1 ==> forall i :: from <= i < r ==> !OccursAt(s, pat, i)
    decreases |s| - from
  {
    if from >= |s| then -1
    else if OccursAt(s, pat, from) then from
    else IndexOf(s, pat, from + 1)
  }

  /** `s.indexOf(pat) > -1`. */
  predicate Contains(s: string, pat: string)
    requires |pat| > 0
  {
    IndexOf(s, pat, 0) > -1
  }

  /** A one-character pattern occurs exactly where that character is. */
  lemma OccursAtChar(s: string, c: char, i: int)
    ensures OccursAt(s, [c], i) <==> 0 <= i < |s| && s[i] == c
  {
    if 0 <= i < |s| {
      assert s[i..i + 1] == [s[i]];
    }
  }

  /** The first `c` at or after `from` is at `from + k` when the `k` characters before it are not `c`. */
  lemma IndexOfCharAt(s: string, c: char, from: nat, k: nat)
    requires from + k < |s| && s[from + k] == c
    requires forall i :: from <= i < from + k ==> s[i] != c
    ensures IndexOf(s, [c], from) == from + k
  {
    OccursAtChar(s, c, from + k);
    var r := IndexOf(s, [c], from);
    if r != -1 {
      OccursAtChar(s, c, r);
    }
  }

  // ------------------------------------------------- field extraction

  const QUOTE: string := "\""

  /** `"key": "` — the spelling with one space, tried first. */
  function SpacedKey(key: string): string {
    QUOTE + key + "\": \""
  }

  /** `"key":"` — the compact spelling, tried second. */
  function CompactKey(key: string): string {
    QUOTE + key + "\":\""
  }

  /**
    The lenient parse repeated in every `mqttCallback` branch: find the key
    (spaced spelling first, then compact), and return the text up to the next
    double quote, or "" when the key or the closing quote is missing.
   */
  function ExtractStringField(payload: string, key: string): (v: string)
    ensures forall i :: 0 <= i < |v| ==> v[i] != '"'
    ensures v != "" ==> exists p :: OccursAt(payload, SpacedKey(key) + v + QUOTE, p)
                                    || OccursAt(payload, CompactKey(key) + v + QUOTE, p)
  {
    var withSpace := SpacedKey(key);
    var noSpace := CompactKey(key);
    var spacedPos := IndexOf(payload, withSpace, 0);
    var idStartPos := if spacedPos == -1 then IndexOf(payload, noSpace, 0) else spacedPos;
    var keyLen := if spacedPos == -1 then |noSpace| else |withSpace|;
    if idStartPos > -1 then
      var valStart := idStartPos + keyLen;
      var valEnd := IndexOf(payload, QUOTE, valStart);
      if valEnd > -1 then
        FieldValueFacts(payload, if spacedPos == -1 then noSpace else withSpace, idStartPos, valEnd);
        payload[valStart..valEnd]
      else ""
    else ""
  }

  /** What the extraction knows once it has found the key at `pos` and the closing quote at `valEnd`. */
  lemma FieldValueFacts(payload: string, keyPat: string, pos: nat, valEnd: int)
    requires OccursAt(payload, keyPat, pos)
    requires valEnd == IndexOf(payload, QUOTE, pos + |keyPat|) && valEnd > -1
    ensures pos + |keyPat| <= valEnd < |payload|
    ensures forall i :: pos + |keyPat| <= i < valEnd ==> payload[i] != '"'
    ensures OccursAt(payload, keyPat + payload[pos + |keyPat|..valEnd] + QUOTE, pos)
  {
    OccursAtChar(payload, '"', valEnd);
    forall i | pos + |keyPat| <= i < valEnd ensures payload[i] != '"' {
      OccursAtChar(payload, '"', i);
    }
    var whole := keyPat + payload[pos + |keyPat|..valEnd] + QUOTE;
    assert payload[pos..valEnd + 1] == whole;
  }

  /** An app message of the shape `{"key": "v"…` yields `v`, whatever follows. */
  lemma ExtractReadsSpacedField(key: string, v: string, rest: string)
    requires forall i :: 0 <= i < |key| ==> key[i] != '"'
    requires forall i :: 0 <= i < |v| ==> v[i] != '"'
    ensures ExtractStringField("{" + SpacedKey(key) + v + QUOTE + rest, key) == v
  {
    var payload := "{" + SpacedKey(key) + v + QUOTE + rest;
    var ws := SpacedKey(key);
    assert payload[1..1 + |ws|] == ws;
    assert !OccursAt(payload, ws, 0) by {
      assert payload[0] == '{' && ws[0] == '"';
    }
    assert IndexOf(payload, ws, 0) == 1;
    var valStart := 1 + |ws|;
    assert payload[valStart + |v|] == '"';
    assert forall i :: valStart <= i < valStart + |v| ==> payload[i] == v[i - valStart];
    IndexOfCharAt(payload, '"', valStart, |v|);
    assert payload[valStart..valStart + |v|] == v;
  }

  /** The spaced spelling cannot occur in `{"key":"v"}` when the key has no quote or colon and `v` no quote. */
  lemma SpacedKeyAbsentFromCompact(key: string, v: string)
    requires |key| > 0
    requires forall i :: 0 <= i < |key| ==> key[i] != '"' && key[i] != ':'
    requires forall i :: 0 <= i < |v| ==> v[i] != '"'
    ensures forall p :: !OccursAt("{" + CompactKey(key) + v + "\"}", SpacedKey(key), p)
  {
    forall p ensures !OccursAt("{" + CompactKey(key) + v + "\"}", SpacedKey(key), p) {
      SpacedKeyNotAt(key, v, p);
    }
  }

  /** The case analysis of `SpacedKeyAbsentFromCompact` at one position `p`. */
  lemma SpacedKeyNotAt(key: string, v: string, p: int)
    requires |key| > 0
    requires forall i :: 0 <= i < |key| ==> key[i] != '"' && key[i] != ':'
    requires forall i :: 0 <= i < |v| ==> v[i] != '"'
    ensures !OccursAt("{" + CompactKey(key) + v + "\"}", SpacedKey(key), p)
  {
    var payload := "{" + CompactKey(key) + v + "\"}";
    var ws := SpacedKey(key);
    var k, n := |key|, |v|;
    if 0 <= p && p + |ws| <= |payload| {
      assert |payload| == k + n + 7;
      assert |ws| == k + 5;
      assert ws[0] == '"' && ws[1] == key[0] && ws[k + 1] == '"' && ws[k + 3] == ' ';
      if p == 1 {
        assert payload[k + 4] == '"';
        MismatchAt(payload, ws, p, k + 3);
      } else if p == k + 2 {
        assert payload[k + 3] == ':';
        MismatchAt(payload, ws, p, 1);
      } else if p == k + 4 {
        assert payload[p + k + 1] == v[k];
        MismatchAt(payload, ws, p, k + 1);
      } else {
        assert payload[0] == '{';
        assert payload[k + 3] == ':';
        assert p >= k + 5 ==> payload[p] == v[p - k - 5];
        assert 2 <= p < k + 2 ==> payload[p] == key[p - 2];
        MismatchAt(payload, ws, p, 0);
      }
    }
  }

  /** One differing character rules an occurrence out. */
  lemma MismatchAt(s: string, pat: string, p: int, i: int)
    requires 0 <= p && 0 <= i < |pat| && p + |pat| <= |s| && s[p + i] != pat[i]
    ensures !OccursAt(s, pat, p)
  {
    assert s[p..p + |pat|][i] == s[p + i];
  }

  /** An app message of the exact shape `{"key":"v"}` yields `v`. */
  lemma ExtractReadsCompactField(key: string, v: string)
    requires |key| > 0
    requires forall i :: 0 <= i < |key| ==> key[i] != '"' && key[i] != ':'
    requires forall i :: 0 <= i < |v| ==> v[i] != '"'
    ensures ExtractStringField("{" + CompactKey(key) + v + "\"}", key) == v
  {
    var payload := "{" + CompactKey(key) + v + "\"}";
    var cs := CompactKey(key);
    SpacedKeyAbsentFromCompact(key, v);
    assert IndexOf(payload, SpacedKey(key), 0) == -1;
    assert payload[1..1 + |cs|] == cs;
    assert !OccursAt(payload, cs, 0) by {
      assert payload[0] == '{' && cs[0] == '"';
    }
    assert IndexOf(payload, cs, 0) == 1;
    var valStart := 1 + |cs|;
    assert payload[valStart + |v|] == '"';
    assert forall i :: valStart <= i < valStart + |v| ==> payload[i] == v[i - valStart];
    IndexOfCharAt(payload, '"', valStart, |v|);
    assert payload[valStart..valStart + |v|] == v;
  }

  /** Neither spelling of the key present: the field is empty. */
  lemma ExtractOfMissingKeyIsEmpty(payload: string, key: string)
    requires forall p :: !OccursAt(payload, SpacedKey(key), p) && !OccursAt(payload, CompactKey(key), p)
    ensures ExtractStringField(payload, key) == ""
  {
  }

  /** `indexOf` from the start returns the first occurrence. */
  lemma IndexOfFirstOccurrence(s: string, pat: string, p: nat)
    requires |pat| > 0 && OccursAt(s, pat, p)
    requires forall i :: 0 <= i < p ==> !OccursAt(s, pat, i)
    ensures IndexOf(s, pat, 0) == p
  {
    var r := IndexOf(s, pat, 0);
    assert r != -1;
    assert OccursAt(s, pat, r);
  }

  /** The key spelling the parse settles on: the spaced one wherever it occurs, else the compact one. */
  function ChosenKey(key: string, spaced: bool): string {
    if spaced then SpacedKey(key) else CompactKey(key)
  }

  /**
    The value read is the text between the FIRST occurrence of the chosen
    key spelling and the next double quote. The spaced spelling is chosen
    whenever it occurs anywhere, even after a compact one.
   */
  lemma ExtractTakesFirstKeyUpToNextQuote(payload: string, key: string, spaced: bool, p: nat, q: nat)
    requires !spaced ==> forall i :: !OccursAt(payload, SpacedKey(key), i)
    requires OccursAt(payload, ChosenKey(key, spaced), p)
    requires forall i :: 0 <= i < p ==> !OccursAt(payload, ChosenKey(key, spaced), i)
    requires p + |ChosenKey(key, spaced)| <= q < |payload| && payload[q] == '"'
    requires forall i :: p + |ChosenKey(key, spaced)| <= i < q ==> payload[i] != '"'
    ensures ExtractStringField(payload, key) == payload[p + |ChosenKey(key, spaced)|..q]
  {
    var k := ChosenKey(key, spaced);
    if spaced {
      IndexOfFirstOccurrence(payload, SpacedKey(key), p);
    } else {
      assert IndexOf(payload, SpacedKey(key), 0) == -1;
      IndexOfFirstOccurrence(payload, CompactKey(key), p);
    }
    IndexOfCharAt(payload, '"', p + |k|, q - p - |k|);
  }

  /** A key whose value is never closed by a double quote yields the empty string. */
  lemma ExtractWithoutClosingQuoteIsEmpty(payload: string, key: string, spaced: bool, p: nat)
    requires !spaced ==> forall i :: !OccursAt(payload, SpacedKey(key), i)
    requires OccursAt(payload, ChosenKey(key, spaced), p)
    requires forall i :: 0 <= i < p ==> !OccursAt(payload, ChosenKey(key, spaced), i)
    requires forall i :: p + |ChosenKey(key, spaced)| <= i < |payload| ==> payload[i] != '"'
    ensures ExtractStringField(payload, key) == ""
  {
    var k := ChosenKey(key, spaced);
    if spaced {
      IndexOfFirstOccurrence(payload, SpacedKey(key), p);
    } else {
      assert IndexOf(payload, SpacedKey(key), 0) == -1;
      IndexOfFirstOccurrence(payload, CompactKey(key), p);
    }
    forall i | p + |k| <= i ensures !OccursAt(payload, QUOTE, i) {
      OccursAtChar(payload, '"', i);
    }
  }

  // ---------------------------------------------------- allow_entry

  const ALLOW_TRUE_COMPACT: string := "\"allow_entry\":true"
  const ALLOW_TRUE_SPACED: string := "\"allow_entry\": true"
  const ALLOW_FALSE_COMPACT: string := "\"allow_entry\":false"
  const ALLOW_FALSE_SPACED: string := "\"allow_entry\": false"

  /** `allow_entry` as the 2FA branch reads it: a substring test, true patterns first; None when neither parses. */
  function ParseAllowEntry(payload: string): (r: Option<bool>)
    ensures r == Some(true) <==> exists p :: OccursAt(payload, ALLOW_TRUE_COMPACT, p) || OccursAt(payload, ALLOW_TRUE_SPACED, p)
    ensures r == Some(false) <==> (forall p :: !OccursAt(payload, ALLOW_TRUE_COMPACT, p) && !OccursAt(payload, ALLOW_TRUE_SPACED, p))
                                  && exists p :: OccursAt(payload, ALLOW_FALSE_COMPACT, p) || OccursAt(payload, ALLOW_FALSE_SPACED, p)
    ensures r == None <==> forall p :: !OccursAt(payload, ALLOW_TRUE_COMPACT, p) && !OccursAt(payload, ALLOW_TRUE_SPACED, p)
                                       && !OccursAt(payload, ALLOW_FALSE_COMPACT, p) && !OccursAt(payload, ALLOW_FALSE_SPACED, p)
  {
    if Contains(payload, ALLOW_TRUE_COMPACT) || Contains(payload, ALLOW_TRUE_SPACED) then Some(true)
    else if Contains(payload, ALLOW_FALSE_COMPACT) || Contains(payload, ALLOW_FALSE_SPACED) then Some(false)
    else None
  }

  // ---------------------------------------------------- equalsIgnoreCase

  /** C `tolower` in the "C" locale. */
  function ToLowerAscii(c: char): char {
    if 'A' <= c <= 'Z' then (c as int - 'A' as int + 'a' as int) as char else c
  }

  /** Arduino `String::equalsIgnoreCase`: equal lengths and equal characters after `tolower`. */
  predicate EqualsIgnoreCase(a: string, b: string) {
    |a| == |b| && forall i :: 0 <= i < |a| ==> ToLowerAscii(a[i]) == ToLowerAscii(b[i])
  }

  /** The lower-case spelling of `s`. */
  function ToLowerString(s: string): (r: string)
    ensures |r| == |s| && forall i :: 0 <= i < |s| ==> r[i] == ToLowerAscii(s[i])
  {
    seq(|s|, i requires 0 <= i < |s| => ToLowerAscii(s[i]))
  }

  /** A reply that spells the id in lower case still matches the upper-case id the coordinator stored. */
  lemma LowerCaseSpellingMatches(s: string)
    ensures EqualsIgnoreCase(ToLowerString(s), s)
  {
  }

  // ---------------------------------------------------------- %u

  function DigitChar(d: int): char
    requires 0 <= d < 10
  {
    ('0' as int + d) as char
  }

  /** `%u`: decimal digits without leading zeros. */
  function DecimalString(n: nat): (s: string)
    ensures |s| >= 1
    ensures forall i :: 0 <= i < |s| ==> '0' <= s[i] <= '9'
    ensures |s| > 1 ==> s[0] != '0'
    decreases n
  {
    if n < 10 then [DigitChar(n)] else DecimalString(n / 10) + [DigitChar(n % 10)]
  }

  /** Reads a string of decimal digits back as a number. */
  function ParseDecimal(s: string): nat
    requires forall i :: 0 <= i < |s| ==> '0' <= s[i] <= '9'
    decreases |s|
  {
    if s == [] then 0 else ParseDecimal(s[..|s| - 1]) * 10 + (s[|s| - 1] as int - '0' as int)
  }

  /** `%u` is read back as the number it printed. */
  lemma {:induction false} DecimalRoundTrip(n: nat)
    ensures ParseDecimal(DecimalString(n)) == n
    decreases n
  {
    if n >= 10 {
      var s := DecimalString(n);
      assert s[..|s| - 1] == DecimalString(n / 10);
      DecimalRoundTrip(n / 10);
    }
  }

  // ------------------------------------------------ outbound payloads

  /** `char_buffer` holds 256 bytes, so an `snprintf` into it keeps at most 255 characters. */
  const PAYLOAD_BUFFER_SIZE: nat := 256

  function Snprintf(formatted: string): (s: string)
    ensures |s| <= PAYLOAD_BUFFER_SIZE - 1
    ensures |formatted| < PAYLOAD_BUFFER_SIZE ==> s == formatted
    ensures s == formatted[..|s|]
  {
    if |formatted| < PAYLOAD_BUFFER_SIZE then formatted else formatted[..PAYLOAD_BUFFER_SIZE - 1]
  }

  function BoolText(b: bool): string {
    if b then "true" else "false"
  }

  /** `publishStatus`; `ip` stands for `WiFi.localIP().toString()`. */
  function StatusPayload(online: bool, occupancy: U32, totalSpaces: U32, ip: string): string {
    "{\"online\":" + BoolText(online) + ", \"occupancy\":" + DecimalString(occupancy)
      + ", \"total_spaces\":" + DecimalString(totalSpaces) + ", \"ip\":\"" + ip + "\"}"
  }

  /** `publishIButtonScanned`; the associated id is only included for a registered iButton. */
  function IButtonScannedPayload(ibuttonHex: string, isRegistered: bool, associatedId: U32): string {
    if isRegistered
    then "{\"ibutton_id\":\"" + ibuttonHex + "\", \"is_registered\":true, \"associated_id\":" + DecimalString(associatedId) + "}"
    else "{\"ibutton_id\":\"" + ibuttonHex + "\", \"is_registered\":false}"
  }

  function PairingReadyPayload(sessionId: string): string {
    "{\"pairing_session_id\":\"" + sessionId + "\"}"
  }

  function PairingSuccessPayload(sessionId: string, ibuttonHex: string, associatedId: U32): string {
    "{\"pairing_session_id\":\"" + sessionId + "\", \"ibutton_id\":\"" + ibuttonHex
      + "\", \"associated_id\":" + DecimalString(associatedId) + "}"
  }

  function PairingFailurePayload(sessionId: string, reason: string): string {
    "{\"pairing_session_id\":\"" + sessionId + "\", \"reason\":\"" + reason + "\"}"
  }

  function TwoFaRequestPayload(ibuttonHex: string, associatedId: U32, deviceId: string): string {
    "{\"ibutton_id\":\"" + ibuttonHex + "\", \"associated_id\":" + DecimalString(associatedId)
      + ", \"device_id\":\"" + deviceId + "\"}"
  }

  /** `publishDeleteReady` passes this literal directly, without `snprintf`. */
  const DELETE_READY_PAYLOAD: string := "{\"status\":\"ready_for_delete\"}"

  function DeleteSuccessPayload(ibuttonHex: string): string {
    "{\"ibutton_id\":\"" + ibuttonHex + "\", \"status\":\"deleted\"}"
  }

  /** `publishDeleteFailure`; `attempted` is None where the source passes `nullptr`. */
  function DeleteFailurePayload(reason: string, attempted: Option<string>): string {
    match attempted
    case Some(ibuttonHex) =>
      "{\"reason\":\"" + reason + "\", \"ibutton_id_attempted\":\"" + ibuttonHex + "\", \"status\":\"delete_failed\"}"
    case None => "{\"reason\":\"" + reason + "\", \"status\":\"delete_failed\"}"
  }

  /** The pairing-ready event carries the session id so that the app can read it back. */
  lemma PairingReadyRoundTrip(sessionId: string)
    requires forall i :: 0 <= i < |sessionId| ==> sessionId[i] != '"'
    ensures ExtractStringField(PairingReadyPayload(sessionId), "pairing_session_id") == sessionId
  {
    assert PairingReadyPayload(sessionId) == "{" + CompactKey("pairing_session_id") + sessionId + "\"}";
    ExtractReadsCompactField("pairing_session_id", sessionId);
  }
}
