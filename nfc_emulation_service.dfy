/**
 * The host card emulation responder: the registry of emulated cards, the
 * response builders and the dispatcher that answers each reader frame.
 */
module NfcEmulationService {
  import opened Wrappers
  import opened Encoding
  import opened NfcData

  // ---------------------------------------------------------------------
  // Status words and constants
  // ---------------------------------------------------------------------

  const SW_SUCCESS: Bytes := [0x90, 0x00]
  const SW_FILE_NOT_FOUND: Bytes := [0x6A, 0x82]
  const SW_WRONG_DATA: Bytes := [0x6A, 0x00]
  const SW_UNKNOWN: Bytes := [0x6F, 0x00]

  /** The four status words a response can end in. */
  predicate EndsWithStatusWord(r: Bytes) {
    |r| >= 2 && r[|r| - 2..] in {SW_SUCCESS, SW_FILE_NOT_FOUND, SW_WRONG_DATA, SW_UNKNOWN}
  }

  const SELECT_APDU_HEADER: string := "00A40400"

  const SUPPORTED_AIDS: seq<string> := [
    "F0010203040506",
    "F0010203040507",
    "F0010203040508",
    "D2760000850101",
    "A0000002471001",
    "F0000000000000"
  ]

  /** The supported AIDs as the bytes a reader sends. */
  const SUPPORTED_AID_BYTES: seq<Bytes> := [
    [0xF0, 0x01, 0x02, 0x03, 0x04, 0x05, 0x06],
    [0xF0, 0x01, 0x02, 0x03, 0x04, 0x05, 0x07],
    [0xF0, 0x01, 0x02, 0x03, 0x04, 0x05, 0x08],
    [0xD2, 0x76, 0x00, 0x00, 0x85, 0x01, 0x01],
    [0xA0, 0x00, 0x00, 0x02, 0x47, 0x10, 0x01],
    [0xF0, 0x00, 0x00, 0x00, 0x00, 0x00, 0x00]
  ]

  const MIFARE_ULTRALIGHT: string := "android.nfc.tech.MifareUltralight"

  /** `"TEST_RESP".toByteArray()`, the answer to a diagnostic probe. */
  const TEST_RESP: Bytes := [0x54, 0x45, 0x53, 0x54, 0x5F, 0x52, 0x45, 0x53, 0x50]

  /** `"UNKNOWN_CMD".toByteArray()`, the answer to an unrecognised command. */
  const UNKNOWN_CMD: Bytes := [0x55, 0x4E, 0x4B, 0x4E, 0x4F, 0x57, 0x4E, 0x5F, 0x43, 0x4D, 0x44]

  /** The diagnostic-probe payload is the UTF-8 encoding of its text. */
  lemma TestRespIsItsUtf8()
    ensures TEST_RESP == Utf8Encode("TEST_RESP")
  {
    AsciiEncodesAsCodes("TEST_RESP", TEST_RESP);
  }

  /** The unrecognised-command payload is the UTF-8 encoding of its text. */
  lemma UnknownCmdIsItsUtf8()
    ensures UNKNOWN_CMD == Utf8Encode("UNKNOWN_CMD")
  {
    AsciiEncodesAsCodes("UNKNOWN_CMD", UNKNOWN_CMD);
  }

  function ZeroBytes(n: nat): (r: Bytes)
    ensures |r| == n && forall i :: 0 <= i < n ==> r[i] == 0
  {
    seq(n, _ => 0)
  }

  // ---------------------------------------------------------------------
  // Response builders
  // ---------------------------------------------------------------------

  /** READ BINARY's offset: bytes 2-3 big-endian, or 0 for a shorter frame. */
  function ReadBinaryOffset(frame: Bytes): (offset: nat)
    ensures offset < 0x10000
  {
    if |frame| >= 4 then frame[2] as int * 256 + frame[3] as int else 0
  }

  /**
   * `createReadBinaryResponse`: on a Mifare Ultralight capture the offset
   * selects a 4-byte page, served from the stored values by position
   * (4 zero bytes past the end); on any other capture the answer is the
   * bytes of the id text.
   */
  function ReadBinaryResponse(card: NFCData, frame: Bytes): (r: Bytes)
    ensures |r| >= 2 && r[|r| - 2..] == SW_SUCCESS
  {
    var offset := ReadBinaryOffset(frame);
    var payload :=
      if MIFARE_ULTRALIGHT in card.techList then
        var page := offset / 4;
        if page < |card.data| then card.data[page].value else ZeroBytes(4)
      else Utf8Encode(card.id);
    payload + SW_SUCCESS
  }

  /**
   * READ BINARY at any offset in 4k..4k+3 of an Ultralight capture returns
   * the k-th stored value, or 4 zero bytes when there is none; a frame too
   * short to carry an offset reads page 0; other captures get the id text.
   */
  lemma ReadBinaryServesPages(card: NFCData, frame: Bytes, k: nat)
    ensures MIFARE_ULTRALIGHT in card.techList && |frame| >= 4 &&
            4 * k <= frame[2] as int * 256 + frame[3] as int < 4 * k + 4 ==>
      ReadBinaryResponse(card, frame) ==
        (if k < |card.data| then card.data[k].value else [0, 0, 0, 0]) + SW_SUCCESS
    ensures MIFARE_ULTRALIGHT in card.techList && |frame| < 4 ==>
      ReadBinaryResponse(card, frame) ==
        (if 0 < |card.data| then card.data[0].value else [0, 0, 0, 0]) + SW_SUCCESS
    ensures MIFARE_ULTRALIGHT !in card.techList ==>
      ReadBinaryResponse(card, frame) == Utf8Encode(card.id) + SW_SUCCESS
  {
    if MIFARE_ULTRALIGHT in card.techList {
      assert ZeroBytes(4) == [0, 0, 0, 0];
    }
  }

  /** Mifare READ's page: byte 1, or 0 for a shorter frame. */
  function MifareReadPage(frame: Bytes): (page: nat)
    ensures page < 256
  {
    if |frame| >= 2 then frame[1] as int else 0
  }

  /**
   * `createMifareReadResponse`: the page-th stored value by position, or 16
   * zero bytes past the end.
   */
  function MifareReadResponse(card: NFCData, frame: Bytes): (r: Bytes)
    ensures |r| >= 2 && r[|r| - 2..] == SW_SUCCESS
  {
    var page := MifareReadPage(frame);
    var payload := if page < |card.data| then card.data[page].value else ZeroBytes(16);
    payload + SW_SUCCESS
  }

  lemma MifareReadServesPages(card: NFCData, frame: Bytes)
    ensures |frame| >= 2 ==>
      MifareReadResponse(card, frame) ==
        (if (frame[1] as int) < |card.data| then card.data[frame[1]].value else ZeroBytes(16)) + SW_SUCCESS
    ensures |frame| < 2 ==>
      MifareReadResponse(card, frame) ==
        (if 0 < |card.data| then card.data[0].value else ZeroBytes(16)) + SW_SUCCESS
    ensures |MifareReadResponse(card, frame)| >= 2
  {
  }

  /**
   * The SELECT by name handler: AID length in byte 4 (0 for a shorter
   * frame), AID in the bytes after it; a frame shorter than the AID it
   * announces is WRONG DATA, and the hex of the AID is compared without case
   * against the supported list.
   */
  function SelectResponse(frame: Bytes): (r: Bytes)
    ensures r == SW_SUCCESS || r == SW_FILE_NOT_FOUND || r == SW_WRONG_DATA
  {
    var aidLength := if |frame| >= 5 then frame[4] as int else 0;
    var aidStart := 5;
    var aidEnd := aidStart + aidLength;
    if aidEnd <= |frame| then
      var receivedAidHex := ByteArrayToHex(frame[aidStart..aidEnd]);
      if exists i :: 0 <= i < |SUPPORTED_AIDS| && EqualsIgnoreCase(SUPPORTED_AIDS[i], receivedAidHex) then
        SW_SUCCESS
      else
        SW_FILE_NOT_FOUND
    else
      SW_WRONG_DATA
  }

  /** The first three supported AIDs are written as the upper-case hex of their bytes. */
  lemma FirstAidsSpellTheirBytes()
    ensures forall i :: 0 <= i < 3 ==> SUPPORTED_AIDS[i] == UpperHex(SUPPORTED_AID_BYTES[i])
  {
  }

  /** So are the last three. */
  lemma LastAidsSpellTheirBytes()
    ensures forall i :: 3 <= i < 6 ==> SUPPORTED_AIDS[i] == UpperHex(SUPPORTED_AID_BYTES[i])
  {
  }

  /** Each supported AID is written as the upper-case hex of its bytes. */
  lemma SupportedAidsSpellTheirBytes()
    ensures |SUPPORTED_AIDS| == |SUPPORTED_AID_BYTES|
    ensures forall i :: 0 <= i < |SUPPORTED_AIDS| ==> SUPPORTED_AIDS[i] == UpperHex(SUPPORTED_AID_BYTES[i])
  {
    FirstAidsSpellTheirBytes();
    LastAidsSpellTheirBytes();
  }

  /**
   * SELECT answers 90 00 exactly for a supported AID, 6A 82 for any other
   * AID, and 6A 00 when the frame is shorter than the AID it announces.
   */
  lemma SelectAcceptsExactlySupportedAids(frame: Bytes)
    ensures |frame| < 5 || 5 + frame[4] as int > |frame| ==> SelectResponse(frame) == SW_WRONG_DATA
    ensures |frame| >= 5 && 5 + frame[4] as int <= |frame| ==>
      (SelectResponse(frame) == SW_SUCCESS <==> frame[5..5 + frame[4] as int] in SUPPORTED_AID_BYTES) &&
      (SelectResponse(frame) != SW_SUCCESS ==> SelectResponse(frame) == SW_FILE_NOT_FOUND)
  {
    if |frame| >= 5 && 5 + frame[4] as int <= |frame| {
      var aid := frame[5..5 + frame[4] as int];
      SupportedAidsSpellTheirBytes();
      forall i | 0 <= i < |SUPPORTED_AIDS|
        ensures EqualsIgnoreCase(SUPPORTED_AIDS[i], ByteArrayToHex(aid)) <==> aid == SUPPORTED_AID_BYTES[i]
      {
        HexEqualsUpperIgnoringCase(aid, SUPPORTED_AID_BYTES[i]);
      }
    }
  }

  // ---------------------------------------------------------------------
  // The dispatcher
  // ---------------------------------------------------------------------

  /**
   * The command table of `processCommandApdu`, applied to a hex rendering of
   * the frame: SELECT by name is tried first; then, when no card is stored,
   * 6F 00; otherwise the first matching prefix picks the answer.
   */
  function Dispatch(commandApdu: Bytes, commandHex: string, cardData: Option<NFCData>): Bytes {
    if StartsWith(commandHex, SELECT_APDU_HEADER) then SelectResponse(commandApdu)
    else match cardData
      case None => SW_UNKNOWN
      case Some(card) =>
        if StartsWith(commandHex, "00B0") then ReadBinaryResponse(card, commandApdu)
        else if StartsWith(commandHex, "FFCA") then Utf8Encode(card.id) + SW_SUCCESS
        else if StartsWith(commandHex, "30") then MifareReadResponse(card, commandApdu)
        else if StartsWith(commandHex, "60") || StartsWith(commandHex, "61") then SW_SUCCESS
        else if StartsWith(commandHex, "00D6") then SW_SUCCESS
        else if StartsWith(commandHex, "00") then TEST_RESP + SW_SUCCESS
        else UNKNOWN_CMD + SW_SUCCESS
  }

  /**
   * `processCommandApdu` for a given stored card (None when no card is
   * stored), as written: the table is applied to `byteArrayToHex`, which
   * renders in lower case, while several prefixes are written in upper case.
   */
  function Respond(commandApdu: Bytes, cardData: Option<NFCData>): Bytes {
    Dispatch(commandApdu, ByteArrayToHex(commandApdu), cardData)
  }

  /** The lower-case rendering never starts with a prefix holding an upper-case letter. */
  lemma UpperCasePrefixesNeverMatch(commandApdu: Bytes)
    ensures !StartsWith(ByteArrayToHex(commandApdu), SELECT_APDU_HEADER)
    ensures !StartsWith(ByteArrayToHex(commandApdu), "00B0")
    ensures !StartsWith(ByteArrayToHex(commandApdu), "FFCA")
    ensures !StartsWith(ByteArrayToHex(commandApdu), "00D6")
  {
    HexNeverStartsWithUpper(commandApdu, SELECT_APDU_HEADER, 2);
    HexNeverStartsWithUpper(commandApdu, "00B0", 2);
    HexNeverStartsWithUpper(commandApdu, "FFCA", 0);
    HexNeverStartsWithUpper(commandApdu, "00D6", 2);
  }

  /** A two-digit lower-case prefix matches exactly the frames whose first byte it spells. */
  lemma FirstBytePrefix(commandApdu: Bytes, b: Byte)
    ensures StartsWith(ByteArrayToHex(commandApdu), ByteHex(b)) <==> |commandApdu| >= 1 && commandApdu[0] == b
  {
    assert ByteArrayToHex([b]) == ByteHex(b);
    HexStartsWith(commandApdu, [b]);
    if |commandApdu| >= 1 {
      assert commandApdu[..1] == [b] <==> commandApdu[0] == b;
    }
  }

  /** With no card stored, every frame is answered with exactly 6F 00. */
  lemma NoCardAnswersUnknown(commandApdu: Bytes)
    ensures Respond(commandApdu, None) == SW_UNKNOWN
  {
    UpperCasePrefixesNeverMatch(commandApdu);
  }

  /**
   * With a card stored, only the first byte decides the answer: 0x30 is a
   * Mifare READ, 0x60 and 0x61 an authentication (90 00), 0x00 a diagnostic
   * probe ("TEST_RESP" 90 00), and anything else, the empty frame
   * included, "UNKNOWN_CMD" 90 00.
   */
  lemma RespondDispatchesOnFirstByte(commandApdu: Bytes, card: NFCData)
    ensures Respond(commandApdu, Some(card)) ==
      if |commandApdu| == 0 then UNKNOWN_CMD + SW_SUCCESS
      else if commandApdu[0] == 0x30 then MifareReadResponse(card, commandApdu)
      else if commandApdu[0] == 0x60 || commandApdu[0] == 0x61 then SW_SUCCESS
      else if commandApdu[0] == 0x00 then TEST_RESP + SW_SUCCESS
      else UNKNOWN_CMD + SW_SUCCESS
  {
    UpperCasePrefixesNeverMatch(commandApdu);
    assert ByteHex(0x30) == "30" && ByteHex(0x60) == "60" && ByteHex(0x61) == "61" && ByteHex(0x00) == "00";
    FirstBytePrefix(commandApdu, 0x30);
    FirstBytePrefix(commandApdu, 0x60);
    FirstBytePrefix(commandApdu, 0x61);
    FirstBytePrefix(commandApdu, 0x00);
  }

  /** Every frame gets a reply of at least two bytes ending in one of the four status words. */
  lemma ResponseEndsWithStatusWord(commandApdu: Bytes, cardData: Option<NFCData>)
    ensures EndsWithStatusWord(Respond(commandApdu, cardData))
  {
    UpperCasePrefixesNeverMatch(commandApdu);
    match cardData
    case None =>
    case Some(card) =>
      RespondDispatchesOnFirstByte(commandApdu, card);
      var r := Respond(commandApdu, cardData);
      assert r[|r| - 2..] == SW_SUCCESS;
  }

  // ---------------------------------------------------------------------
  // The dispatcher over an upper-case rendering
  // ---------------------------------------------------------------------

  /**
   * The same table applied to the frame rendered with "%02X", the case in
   * which its prefixes are written; SELECT, READ BINARY, GET UID and
   * UPDATE BINARY then become reachable.
   */
  function RespondIntended(commandApdu: Bytes, cardData: Option<NFCData>): Bytes {
    Dispatch(commandApdu, UpperHex(commandApdu), cardData)
  }

  /** The upper-case digits of one byte. */
  function UpperDigits(b: Byte): (s: string)
    ensures s == UpperHex([b])
  {
    [UpperHexDigit(b as int / 16), UpperHexDigit(b as int % 16)]
  }

  lemma UpperPrefix1(commandApdu: Bytes, prefix: string, b0: Byte)
    requires prefix == UpperDigits(b0)
    ensures StartsWith(UpperHex(commandApdu), prefix) <==> |commandApdu| >= 1 && commandApdu[0] == b0
  {
    UpperHexStartsWith(commandApdu, [b0]);
    if |commandApdu| >= 1 {
      assert commandApdu[..1] == [commandApdu[0]];
    }
  }

  lemma UpperPrefix2(commandApdu: Bytes, prefix: string, b0: Byte, b1: Byte)
    requires prefix == UpperDigits(b0) + UpperDigits(b1)
    ensures StartsWith(UpperHex(commandApdu), prefix) <==>
      |commandApdu| >= 2 && commandApdu[0] == b0 && commandApdu[1] == b1
  {
    assert prefix == UpperHex([b0, b1]);
    UpperHexStartsWith(commandApdu, [b0, b1]);
    if |commandApdu| >= 2 {
      assert commandApdu[..2] == [commandApdu[0], commandApdu[1]];
    }
  }

  /** The SELECT header matches exactly the frames starting 00 A4 04 00. */
  lemma SelectHeaderMatches(commandApdu: Bytes)
    ensures StartsWith(UpperHex(commandApdu), SELECT_APDU_HEADER) <==>
      |commandApdu| >= 4 && commandApdu[..4] == [0x00, 0xA4, 0x04, 0x00]
  {
    assert SELECT_APDU_HEADER == UpperHex([0x00, 0xA4, 0x04, 0x00]);
    UpperHexStartsWith(commandApdu, [0x00, 0xA4, 0x04, 0x00]);
  }

  /** SELECT by name goes to the AID check whether or not a card is stored. */
  lemma RespondIntendedSelects(commandApdu: Bytes, cardData: Option<NFCData>)
    requires |commandApdu| >= 4 && commandApdu[..4] == [0x00, 0xA4, 0x04, 0x00]
    ensures RespondIntended(commandApdu, cardData) == SelectResponse(commandApdu)
  {
    SelectHeaderMatches(commandApdu);
  }

  /** A frame whose second byte is not A4 is not a SELECT by name. */
  lemma NotSelect(commandApdu: Bytes)
    requires |commandApdu| >= 2 && commandApdu[1] != 0xA4
    ensures !StartsWith(UpperHex(commandApdu), SELECT_APDU_HEADER)
  {
    SelectHeaderMatches(commandApdu);
    if |commandApdu| >= 4 {
      assert commandApdu[..4][1] == commandApdu[1];
    }
  }

  /** With a card stored, READ BINARY reaches its builder. */
  lemma RespondIntendedReadsBinary(commandApdu: Bytes, card: NFCData)
    requires |commandApdu| >= 2 && commandApdu[0] == 0x00 && commandApdu[1] == 0xB0
    ensures RespondIntended(commandApdu, Some(card)) == ReadBinaryResponse(card, commandApdu)
  {
    NotSelect(commandApdu);
    UpperPrefix2(commandApdu, "00B0", 0x00, 0xB0);
  }

  /** With a card stored, GET UID answers the bytes of the id text. */
  lemma RespondIntendedGetsUid(commandApdu: Bytes, card: NFCData)
    requires |commandApdu| >= 2 && commandApdu[0] == 0xFF && commandApdu[1] == 0xCA
    ensures RespondIntended(commandApdu, Some(card)) == Utf8Encode(card.id) + SW_SUCCESS
  {
    NotSelect(commandApdu);
    UpperPrefix2(commandApdu, "00B0", 0x00, 0xB0);
    UpperPrefix2(commandApdu, "FFCA", 0xFF, 0xCA);
  }

  /** With a card stored, UPDATE BINARY is acknowledged with 90 00. */
  lemma RespondIntendedUpdatesBinary(commandApdu: Bytes, card: NFCData)
    requires |commandApdu| >= 2 && commandApdu[0] == 0x00 && commandApdu[1] == 0xD6
    ensures RespondIntended(commandApdu, Some(card)) == SW_SUCCESS
  {
    NotSelect(commandApdu);
    UpperPrefix2(commandApdu, "00B0", 0x00, 0xB0);
    UpperPrefix2(commandApdu, "FFCA", 0xFF, 0xCA);
    UpperPrefix1(commandApdu, "30", 0x30);
    UpperPrefix1(commandApdu, "60", 0x60);
    UpperPrefix1(commandApdu, "61", 0x61);
    UpperPrefix2(commandApdu, "00D6", 0x00, 0xD6);
  }

  /** An Ultralight capture with one 4-byte page, as a reader would meet it. */
  function SampleCard(timestamp: int): NFCData {
    NFCData("04A1B2C3", [MIFARE_ULTRALIGHT], [Entry("p0", [0x11, 0x22, 0x33, 0x44])], timestamp)
  }

  const SELECT_SUPPORTED_AID: Bytes := [0x00, 0xA4, 0x04, 0x00, 0x07, 0xF0, 0x01, 0x02, 0x03, 0x04, 0x05, 0x06, 0x00]
  const READ_BINARY_AT_0: Bytes := [0x00, 0xB0, 0x00, 0x00, 0x00]

  /**
   * As written, SELECT of a supported AID and READ BINARY at offset 0 are
   * both taken for diagnostic probes, and with no card stored the SELECT
   * gets 6F 00.
   */
  lemma SelectAndReadBinaryMissedAsWritten(timestamp: int)
    ensures Respond(SELECT_SUPPORTED_AID, Some(SampleCard(timestamp))) == TEST_RESP + SW_SUCCESS
    ensures Respond(READ_BINARY_AT_0, Some(SampleCard(timestamp))) == TEST_RESP + SW_SUCCESS
    ensures Respond(SELECT_SUPPORTED_AID, None) == SW_UNKNOWN
  {
    RespondDispatchesOnFirstByte(SELECT_SUPPORTED_AID, SampleCard(timestamp));
    RespondDispatchesOnFirstByte(READ_BINARY_AT_0, SampleCard(timestamp));
    NoCardAnswersUnknown(SELECT_SUPPORTED_AID);
  }

  lemma SelectOfSupportedAid()
    ensures SelectResponse(SELECT_SUPPORTED_AID) == SW_SUCCESS
  {
    var frame := SELECT_SUPPORTED_AID;
    assert |frame| == 13 && frame[4] as int == 7;
    assert frame[5..12] == SUPPORTED_AID_BYTES[0];
    SelectAcceptsExactlySupportedAids(frame);
  }

  /** Over the upper-case rendering, the SELECT of a supported AID is answered 90 00. */
  lemma SelectServedIntended(timestamp: int)
    ensures RespondIntended(SELECT_SUPPORTED_AID, Some(SampleCard(timestamp))) == SW_SUCCESS
  {
    assert SELECT_SUPPORTED_AID[..4] == [0x00, 0xA4, 0x04, 0x00];
    RespondIntendedSelects(SELECT_SUPPORTED_AID, Some(SampleCard(timestamp)));
    SelectOfSupportedAid();
  }

  /** Over the upper-case rendering, READ BINARY at offset 0 returns the stored page. */
  lemma ReadBinaryServedIntended(timestamp: int)
    ensures RespondIntended(READ_BINARY_AT_0, Some(SampleCard(timestamp))) == [0x11, 0x22, 0x33, 0x44, 0x90, 0x00]
  {
    var card := SampleCard(timestamp);
    RespondIntendedReadsBinary(READ_BINARY_AT_0, card);
    ReadBinaryServesPages(card, READ_BINARY_AT_0, 0);
  }

  // ---------------------------------------------------------------------
  // The registry of emulated cards (the service's companion object)
  // ---------------------------------------------------------------------

  class EmulationRegistry {
    var emulatedCardData: map<string, NFCData>
    var currentEmulatedCardId: Option<string>

    /** The current id, when there is one, names a stored card. */
    ghost predicate Valid()
      reads this
    {
      currentEmulatedCardId.Some? ==> currentEmulatedCardId.value in emulatedCardData
    }

    constructor ()
      ensures Valid()
      ensures emulatedCardData == map[] && currentEmulatedCardId == None
    {
      emulatedCardData := map[];
      currentEmulatedCardId := None;
    }

    /**
     * `setEmulatedCard`: a capture is stored under its id and becomes the
     * current one; no capture removes the id, and clears the current id
     * only when it was that id.
     */
    method SetEmulatedCard(cardId: string, data: Option<NFCData>)
      modifies this
      ensures data.Some? ==>
        emulatedCardData == old(emulatedCardData)[cardId := data.value] &&
        currentEmulatedCardId == Some(cardId)
      ensures data.None? ==>
        emulatedCardData == old(emulatedCardData) - {cardId} &&
        currentEmulatedCardId == if old(currentEmulatedCardId) == Some(cardId) then None else old(currentEmulatedCardId)
      ensures forall id :: id != cardId ==>
        (id in emulatedCardData <==> id in old(emulatedCardData)) &&
        (id in emulatedCardData ==> emulatedCardData[id] == old(emulatedCardData)[id])
      ensures old(Valid()) ==> Valid()
    {
      if data.Some? {
        emulatedCardData := emulatedCardData[cardId := data.value];
        currentEmulatedCardId := Some(cardId);
      } else {
        emulatedCardData := emulatedCardData - {cardId};
        if currentEmulatedCardId == Some(cardId) {
          currentEmulatedCardId := None;
        }
      }
    }

    /**
     * `getEmulatedCardData`: the first value of a hash map, whose order is
     * unspecified, so some stored capture, or none when nothing is stored.
     * It does not look at the current id.
     */
    method GetEmulatedCardData() returns (r: Option<NFCData>)
      ensures r.None? <==> emulatedCardData == map[]
      ensures r.Some? ==> exists id :: id in emulatedCardData && emulatedCardData[id] == r.value
    {
      if emulatedCardData == map[] {
        r := None;
      } else {
        assert exists id :: id in emulatedCardData by {
          var id :| id in emulatedCardData.Keys;
        }
        var id :| id in emulatedCardData;
        r := Some(emulatedCardData[id]);
      }
    }

    /** `getCurrentEmulatedCardId`. */
    method GetCurrentEmulatedCardId() returns (r: Option<string>)
      ensures r == currentEmulatedCardId
      ensures Valid() && r.Some? ==> r.value in emulatedCardData
    {
      r := currentEmulatedCardId;
    }
  }

  /**
   * The service's `processCommandApdu`: one reply per frame, computed from
   * the frame and whichever capture the registry hands out.
   */
  method ProcessCommandApdu(registry: EmulationRegistry, commandApdu: Bytes) returns (response: Bytes)
    ensures registry.emulatedCardData == map[] ==> response == SW_UNKNOWN
    ensures registry.emulatedCardData != map[] ==>
      exists id :: id in registry.emulatedCardData && response == Respond(commandApdu, Some(registry.emulatedCardData[id]))
    ensures EndsWithStatusWord(response)
  {
    var cardData := registry.GetEmulatedCardData();
    response := Respond(commandApdu, cardData);
    ResponseEndsWithStatusWord(commandApdu, cardData);
    if cardData.None? {
      NoCardAnswersUnknown(commandApdu);
    }
  }
}
