# NFC emulator core, modelled in Dafny

This project models the core of an Android NFC card emulator written in Kotlin. The emulator captures a tag's identifier, technology list and per-technology data, and saves it as a named card. It then answers ISO 7816-4 command frames (APDUs) from a reader as if it were that card.

The model covers three source files:

- `NFCData.kt`: the records for a captured tag (`NFCData`) and a saved card (`NFCCard`), the lower-case hex rendering `byteArrayToHex`, and the technology classifier `NFCTechHelper`. It also covers the parcel write/read pair. For `NFCData` that pair pairs keys with values by position.
- `NFCManager.kt`: the saved-card store. `saveCard` is idempotent per tag id and `removeCard` filters by id. There are three lookups by id.
- `NFCEmulationService.kt`: the process-wide registry of emulated cards (`setEmulatedCard`, `getEmulatedCardData`, `getCurrentEmulatedCardId`) and the command dispatcher `processCommandApdu` with its two response builders. It also covers the SELECT-by-AID handler and its list of supported AIDs.

Files:

- `wrappers.dfy`: `Option`, used for Kotlin's nullable values.
- `encoding.dfy`: bytes as unsigned values (`b.toInt() and 0xFF`), `String.toByteArray()` as UTF-8, `startsWith`, and `equals(…, ignoreCase = true)`.
- `nfc_data.dfy`: the records, the hex renderings, the classifier and the parcels.
- `nfc_manager.dfy`: the store, as a class whose `cards` field holds the persisted list.
- `nfc_emulation_service.dfy`: the registry, as a class with the two companion-object fields, plus the response builders, the dispatcher and `ProcessCommandApdu`.

Modelling choices:

- A Kotlin `Map` built with `mutableMapOf` is a `LinkedHashMap`, which keeps insertion order. The responders index its values by position (`values.elementAtOrNull(page)`). So a captured tag's `data` is an ordered list of key/value entries. `put` keeps the position of a key already present and appends a new one.
- The dispatcher renders the frame with `byteArrayToHex`, which prints lower case (`"%02x"`). It then tests that text with case-sensitive `startsWith` against `"00A40400"`, `"00B0"`, `"FFCA"` and `"00D6"`, all of which contain upper-case letters. `Respond` models the dispatcher exactly as written. `ProcessCommandApdu` uses it.
- `RespondIntended` is the same table applied to an upper-case rendering (`"%02X"`). The Findings section below compares the two.
- `getEmulatedCardData` returns `values.firstOrNull()` of a `ConcurrentHashMap`. Its iteration order is unspecified, so the model returns some stored value, chosen nondeterministically. It does not consult the current card id.

Two facts about the code shape the model:

- The service keeps no selection state. Every command is answered whether or not a SELECT came first, and `onDeactivated` only writes log lines.
- The card a frame is answered from is whichever stored card the hash map yields first. It is not looked up by `currentEmulatedCardId`.

## Model

| member | source | states |
|---|---|---|
| Encoding.Utf8Encode | app/src/main/java/com/sinii/nfcemulator/NFCEmulationService.kt:280 | `String.toByteArray()` gives at least one byte per character, and an ASCII text encodes as its character codes |
| NfcData.ByteArrayToHex | app/src/main/java/com/sinii/nfcemulator/NFCData.kt:64-66 | the rendering has two characters per byte, all of them in 0-9a-f |
| NfcData.HexInjective | app/src/main/java/com/sinii/nfcemulator/NFCData.kt:64-66 | two byte arrays with the same rendering are equal, so the rendering loses nothing |
| NfcData.HexConcat | app/src/main/java/com/sinii/nfcemulator/NFCData.kt:64-66 | the rendering of a concatenation is the concatenation of the renderings |
| NfcData.HexStartsWith | app/src/main/java/com/sinii/nfcemulator/NFCData.kt:64-66 | a prefix test on renderings succeeds exactly when the bytes start with the prefix bytes |
| NfcData.HexNeverStartsWithUpper | app/src/main/java/com/sinii/nfcemulator/NFCData.kt:64-66 | no rendering starts with a text containing a character outside 0-9a-f |
| NfcData.HexEqualsUpperIgnoringCase | app/src/main/java/com/sinii/nfcemulator/NFCEmulationService.kt:243-248 | the rendering of an AID equals an upper-case hex text, ignoring case, exactly when the AID is the bytes that text spells |
| NfcData.UpperHexStartsWith | app/src/main/java/com/sinii/nfcemulator/NFCEmulationService.kt:27 | over an upper-case rendering, a prefix test succeeds exactly when the bytes start with the prefix bytes |
| NfcData.TechTypeClassifiesClassNames | app/src/main/java/com/sinii/nfcemulator/NFCData.kt:123-135 | `getTechType` and the android.nfc.tech class names are inverse; UNKNOWN holds exactly for strings that are no class name |
| NfcData.DisplayNamesDistinguishTechnologies | app/src/main/java/com/sinii/nfcemulator/NFCData.kt:137-149 | "Unknown" is shown exactly for unclassified strings; two strings share a display name exactly when they classify alike |
| NfcData.GetTechType | app/src/main/java/com/sinii/nfcemulator/NFCData.kt:123-135 | a known technology is returned only for its own class name; the rest is in TechTypeClassifiesClassNames |
| NfcData.GetTechDisplayName | app/src/main/java/com/sinii/nfcemulator/NFCData.kt:137-149 | definition, the display name of the classified technology; its properties are in DisplayNamesDistinguishTechnologies |
| NfcData.Put | app/src/main/java/com/sinii/nfcemulator/NFCData.kt:32 | definition of `LinkedHashMap.put`: a new key goes last and a present key keeps its place with the new value; its properties are in PutNewKey and PutKeepsKeysDistinct |
| NfcData.WriteDataParcel | app/src/main/java/com/sinii/nfcemulator/NFCData.kt:39-45 | writes as many keys as values, one per map entry; the round trip is DataParcelRoundTrip |
| NfcData.ReadDataParcel | app/src/main/java/com/sinii/nfcemulator/NFCData.kt:23-37 | every NFCData read from a parcel has distinct keys, whatever the parcel holds; the pairing is in PairedSpec |
| NfcData.WriteCardParcel | app/src/main/java/com/sinii/nfcemulator/NFCData.kt:85-90 | definition, writing isEmulating as 1 or 0; its property is CardParcelRoundTrip |
| NfcData.IndexOfKey | app/src/main/java/com/sinii/nfcemulator/NFCData.kt:32 | the position of a key in the map is one holding that key, and -1 exactly when no entry has it |
| NfcData.PutNewKey | app/src/main/java/com/sinii/nfcemulator/NFCData.kt:32 | putting a key the map lacks appends the pair at the end |
| NfcData.PutKeepsKeysDistinct | app/src/main/java/com/sinii/nfcemulator/NFCData.kt:32 | `put` keeps each key once |
| NfcData.PairKeysWithValues | app/src/main/java/com/sinii/nfcemulator/NFCData.kt:26-35 | the `forEachIndexed` loop builds the map that puts `keys[i]` with `values[i]` for every index below both sizes, in order |
| NfcData.PutPairsFromPairs | app/src/main/java/com/sinii/nfcemulator/NFCData.kt:30-34 | every entry the loop leaves is the pair of one index it visited |
| NfcData.PutPairsOfDistinctKeys | app/src/main/java/com/sinii/nfcemulator/NFCData.kt:30-34 | with distinct keys, the first n puts leave exactly the first n pairs, in order |
| NfcData.PairedSpec | app/src/main/java/com/sinii/nfcemulator/NFCData.kt:23-37 | reading back pairs keys with values by position and drops surplus keys or values; the result is a map, and with distinct keys it holds exactly those pairs |
| NfcData.DataParcelRoundTrip | app/src/main/java/com/sinii/nfcemulator/NFCData.kt:23-45 | reading back what `writeToParcel` wrote gives the same NFCData: id, technologies, map with its order, timestamp |
| NfcData.ReadCardParcel | app/src/main/java/com/sinii/nfcemulator/NFCData.kt:78-83 | the card is emulating exactly when the stored int is 1; a missing record reads as an empty NFCData stamped with the clock |
| NfcData.CardParcelRoundTrip | app/src/main/java/com/sinii/nfcemulator/NFCData.kt:78-90 | reading back what `NFCCard.writeToParcel` wrote gives the same card, whatever the clock reads |
| NfcManager.AnyWithId | app/src/main/java/com/sinii/nfcemulator/NFCManager.kt:233 | `any { it.id == tagId }` holds exactly when some saved card has that id |
| NfcManager.FindById | app/src/main/java/com/sinii/nfcemulator/NFCManager.kt:242 | `find` returns null exactly when no card has the id, and otherwise the first card that has it |
| NfcManager.WithoutId | app/src/main/java/com/sinii/nfcemulator/NFCManager.kt:205-207 | the filtered list keeps exactly the cards with another id; it is shorter exactly when a card had the id, and unchanged otherwise |
| NfcManager.WithoutIdOfConcat | app/src/main/java/com/sinii/nfcemulator/NFCManager.kt:205 | filtering distributes over concatenation, so the kept cards stay in their order |
| NfcManager.SaveTwiceSavesOnce | app/src/main/java/com/sinii/nfcemulator/NFCManager.kt:168-189 | saving a second capture with the same id changes nothing and returns what the first save returned; the list grows by one exactly when the id was new |
| NfcManager.SaveKeepsIdsDistinct | app/src/main/java/com/sinii/nfcemulator/NFCManager.kt:170-186 | saving keeps the saved ids distinct |
| NfcManager.RemoveKeepsIdsDistinct | app/src/main/java/com/sinii/nfcemulator/NFCManager.kt:205 | removing keeps the saved ids distinct |
| NfcManager.CardStore.constructor | app/src/main/java/com/sinii/nfcemulator/NFCManager.kt:249-254 | a store without a saved file holds no cards |
| NfcManager.CardStore.IsCardExists | app/src/main/java/com/sinii/nfcemulator/NFCManager.kt:231-238 | true exactly when some saved card has the tag id |
| NfcManager.CardStore.GetCardByTagId | app/src/main/java/com/sinii/nfcemulator/NFCManager.kt:240-247 | null exactly when no saved card has the id, and otherwise the first saved card with it |
| NfcManager.CardStore.GetCardDataForEmulation | app/src/main/java/com/sinii/nfcemulator/NFCManager.kt:221-229 | null exactly when no saved card has the id, and otherwise the capture of the first saved card with it |
| NfcManager.CardStore.SaveCard | app/src/main/java/com/sinii/nfcemulator/NFCManager.kt:168-194 | a known id returns the stored card and leaves the list alone; a new id appends the card labelled with the given name or "NFC Card <id>", not emulating, and returns it; distinct ids stay distinct |
| NfcManager.CardStore.RemoveCard | app/src/main/java/com/sinii/nfcemulator/NFCManager.kt:202-219 | the result is true exactly when a card had the id; afterwards no card has it, the others keep their order, and a miss changes nothing |
| NfcEmulationService.TestRespIsItsUtf8 | app/src/main/java/com/sinii/nfcemulator/NFCEmulationService.kt:310 | the diagnostic payload is the UTF-8 encoding of "TEST_RESP" |
| NfcEmulationService.UnknownCmdIsItsUtf8 | app/src/main/java/com/sinii/nfcemulator/NFCEmulationService.kt:319 | the unknown-command payload is the UTF-8 encoding of "UNKNOWN_CMD" |
| NfcEmulationService.ReadBinaryOffset | app/src/main/java/com/sinii/nfcemulator/NFCEmulationService.kt:152-154 | the offset is a 16-bit value |
| NfcEmulationService.ReadBinaryResponse | app/src/main/java/com/sinii/nfcemulator/NFCEmulationService.kt:148-177 | every READ BINARY answer ends in 90 00 |
| NfcEmulationService.ReadBinaryServesPages | app/src/main/java/com/sinii/nfcemulator/NFCEmulationService.kt:152-176 | on an Ultralight capture, offsets 4k..4k+3 read the k-th stored value, or 4 zero bytes past the end, and a short frame reads page 0; other captures answer with the bytes of their id |
| NfcEmulationService.MifareReadPage | app/src/main/java/com/sinii/nfcemulator/NFCEmulationService.kt:186-188 | the page is one unsigned byte |
| NfcEmulationService.MifareReadResponse | app/src/main/java/com/sinii/nfcemulator/NFCEmulationService.kt:182-201 | every Mifare READ answer ends in 90 00 |
| NfcEmulationService.MifareReadServesPages | app/src/main/java/com/sinii/nfcemulator/NFCEmulationService.kt:186-200 | page n (byte 1, or 0 for a short frame) answers the n-th stored value, or 16 zero bytes past the end |
| NfcEmulationService.SelectResponse | app/src/main/java/com/sinii/nfcemulator/NFCEmulationService.kt:234-258 | the SELECT handler answers only 90 00, 6A 82 or 6A 00; which one is in SelectAcceptsExactlySupportedAids |
| NfcEmulationService.Dispatch | app/src/main/java/com/sinii/nfcemulator/NFCEmulationService.kt:230-327 | definition of the command table over a hex text of the frame: SELECT first, 6F 00 with no card, otherwise the first matching prefix; its properties are in the lemmas on Respond and RespondIntended |
| NfcEmulationService.Respond | app/src/main/java/com/sinii/nfcemulator/NFCEmulationService.kt:212-327 | definition of the table applied to the lower-case `byteArrayToHex` text, as written; its properties are in NoCardAnswersUnknown, RespondDispatchesOnFirstByte and ResponseEndsWithStatusWord |
| NfcEmulationService.RespondIntended | app/src/main/java/com/sinii/nfcemulator/NFCEmulationService.kt:212-327 | definition of the table applied to an upper-case hex text, the correction of the Findings row; its properties are in the RespondIntended* lemmas |
| NfcEmulationService.SupportedAidsSpellTheirBytes | app/src/main/java/com/sinii/nfcemulator/NFCEmulationService.kt:70-77 | each supported AID text is the upper-case hex of the AID bytes a reader sends |
| NfcEmulationService.SelectAcceptsExactlySupportedAids | app/src/main/java/com/sinii/nfcemulator/NFCEmulationService.kt:234-258 | SELECT answers 6A 00 when the frame is shorter than the AID it announces, 90 00 exactly when the AID is a supported one, and 6A 82 for any other AID |
| NfcEmulationService.UpperCasePrefixesNeverMatch | app/src/main/java/com/sinii/nfcemulator/NFCEmulationService.kt:212-301 | the lower-case command text never starts with "00A40400", "00B0", "FFCA" or "00D6" |
| NfcEmulationService.FirstBytePrefix | app/src/main/java/com/sinii/nfcemulator/NFCEmulationService.kt:286-308 | a two-digit prefix matches the command text exactly when the frame's first byte is the byte it spells |
| NfcEmulationService.NoCardAnswersUnknown | app/src/main/java/com/sinii/nfcemulator/NFCEmulationService.kt:230-327 | with no card stored, every frame is answered 6F 00 |
| NfcEmulationService.RespondDispatchesOnFirstByte | app/src/main/java/com/sinii/nfcemulator/NFCEmulationService.kt:262-323 | with a card stored, the answer depends on the first byte alone: 30 reads a Mifare page, 60/61 get 90 00, 00 gets "TEST_RESP" 90 00, and anything else (the empty frame too) "UNKNOWN_CMD" 90 00 |
| NfcEmulationService.ResponseEndsWithStatusWord | app/src/main/java/com/sinii/nfcemulator/NFCEmulationService.kt:223-328 | every reply ends in one of 90 00, 6A 82, 6A 00 or 6F 00 |
| NfcEmulationService.RespondIntendedSelects | app/src/main/java/com/sinii/nfcemulator/NFCEmulationService.kt:230-259 | over the upper-case rendering, a frame starting 00 A4 04 00 goes to the SELECT handler, whether or not a card is stored |
| NfcEmulationService.NotSelect | app/src/main/java/com/sinii/nfcemulator/NFCEmulationService.kt:230 | over the upper-case rendering, a frame whose second byte is not A4 is not taken for a SELECT |
| NfcEmulationService.RespondIntendedReadsBinary | app/src/main/java/com/sinii/nfcemulator/NFCEmulationService.kt:270-275 | over the upper-case rendering, 00 B0 reaches the READ BINARY builder |
| NfcEmulationService.RespondIntendedGetsUid | app/src/main/java/com/sinii/nfcemulator/NFCEmulationService.kt:278-283 | over the upper-case rendering, FF CA answers the id's bytes and 90 00 |
| NfcEmulationService.RespondIntendedUpdatesBinary | app/src/main/java/com/sinii/nfcemulator/NFCEmulationService.kt:301-305 | over the upper-case rendering, 00 D6 is acknowledged with 90 00 |
| NfcEmulationService.SelectAndReadBinaryMissedAsWritten | app/src/main/java/com/sinii/nfcemulator/NFCEmulationService.kt:212-313 | as written, SELECT of a supported AID and READ BINARY at offset 0 both get "TEST_RESP" 90 00, and the SELECT gets 6F 00 when no card is stored |
| NfcEmulationService.SelectOfSupportedAid | app/src/main/java/com/sinii/nfcemulator/NFCEmulationService.kt:234-250 | the SELECT handler answers 90 00 for the AID F0 01 02 03 04 05 06 |
| NfcEmulationService.SelectServedIntended | app/src/main/java/com/sinii/nfcemulator/NFCEmulationService.kt:230-250 | over the upper-case rendering, SELECT of a supported AID is answered 90 00 |
| NfcEmulationService.ReadBinaryServedIntended | app/src/main/java/com/sinii/nfcemulator/NFCEmulationService.kt:270-275 | over the upper-case rendering, READ BINARY at offset 0 of an Ultralight capture returns its first stored page and 90 00 |
| NfcEmulationService.EmulationRegistry.constructor | app/src/main/java/com/sinii/nfcemulator/NFCEmulationService.kt:38-39 | the registry starts empty with no current card |
| NfcEmulationService.EmulationRegistry.SetEmulatedCard | app/src/main/java/com/sinii/nfcemulator/NFCEmulationService.kt:79-109 | a capture is stored under the id and becomes current; none removes the id and clears the current id only when it was that id; other ids are untouched, and the current id keeps naming a stored card |
| NfcEmulationService.EmulationRegistry.GetEmulatedCardData | app/src/main/java/com/sinii/nfcemulator/NFCEmulationService.kt:111-115 | null exactly when nothing is stored, and otherwise one of the stored captures |
| NfcEmulationService.EmulationRegistry.GetCurrentEmulatedCardId | app/src/main/java/com/sinii/nfcemulator/NFCEmulationService.kt:117-120 | returns the current id, which names a stored card when the registry is consistent |
| NfcEmulationService.ProcessCommandApdu | app/src/main/java/com/sinii/nfcemulator/NFCEmulationService.kt:203-336 | with nothing stored the reply is 6F 00; otherwise it is the as-written dispatch of the frame against one stored capture; every reply ends in a status word |

## Left out

- Persistence: the Gson/JSON encoding of the card list and the file reads and writes. The `cards` field of `CardStore` stands for the list `getSavedCardsList` loads, and every change to it stands for a successful `saveCardsToFile`. Each operation reloads the file, and a failed load yields the empty list (NFCManager.kt:269-272). `saveCardsToFile` catches and logs its own exceptions (NFCManager.kt:287-290), so a failed write is reported as a success, and from then on the file no longer holds what `cards` holds. The model does not capture either failure.
- NfcManager.CardStore.SaveCard: never returns null. The source returns null when the reload inside `getCardByTagId` (NFCManager.kt:173, 242) misses an id that `isCardExists` found, which a failed or changed load causes. It also returns null when the coroutine is cancelled (NFCManager.kt:190-192). After a failed write it still returns the new card.
- NfcManager.CardStore.RemoveCard: after a failed load the source filters an empty list and returns `false` (NFCManager.kt:211-213), even when the card is stored. After a failed write it still returns `true` while the file keeps the card.
- NfcManager.CardStore.IsCardExists: after a failed load the source answers `false` for every id.
- NfcManager.CardStore.GetCardByTagId: after a failed load the source answers null for every id.
- NfcManager.CardStore.GetCardDataForEmulation: after a failed load the source answers null for every id.
- `getSavedCards` only reads the list into a Flow, and the field `cards` is that list.
- `readNFCTag` and the other tag-reading routines: they drive hardware through Android's tag technologies.
- MainActivity, LogManager and the user interface.
- Logging (`saveLog`, `Log.d`): it has no effect on any result.
- `getEmulationStatus`: it only assembles a diagnostic string.
- `onDeactivated`: it only writes log lines.
- The `testResponse` built at NFCEmulationService.kt:226: it is only logged, never returned.
- The `catch` branch at NFCEmulationService.kt:329-332: no operation in the `try` block can throw for any frame (every index is guarded), so it is unreachable.
- Concurrency: `ConcurrentHashMap`, the unsynchronised `currentEmulatedCardId`, and frames delivered on other threads. The model is sequential.
- The parcel byte stream and class loaders: a parcel is modelled as the record of fields written in order, with null wherever the reader accepts null.
- NfcData.ReadCardParcel: the default timestamp `System.currentTimeMillis()` is the parameter `now`.
- Signed bytes: every byte the core inspects is read with `and 0xFF` or printed with `%02x`, which prints the unsigned value, so bytes are modelled as 0..255.
- `String.toByteArray()` is UTF-8 over Unicode scalar values. Kotlin strings are UTF-16, and replacing lone surrogates with `?` is not modelled.
- `equals(…, ignoreCase = true)` is modelled with ASCII case folding. Both operands are always hex digits, so Unicode case folding never comes into play.
- `describeContents`, `CREATOR` and `newArray`: they carry no logic.

## Findings

| source | as written | input that shows it | evidently intended | confidence | as-written member | corrected member |
|---|---|---|---|---|---|---|
| app/src/main/java/com/sinii/nfcemulator/NFCEmulationService.kt:212-301 | the command text comes from `byteArrayToHex` (lower case, `"%02x"`) and is tested with case-sensitive `startsWith` against "00A40400", "00B0", "FFCA" and "00D6", so SELECT, READ BINARY, GET UID and UPDATE BINARY never match | with a card stored, SELECT `00 A4 04 00 07 F0 01 02 03 04 05 06 00` of the first supported AID is answered "TEST_RESP" 90 00 | 90 00 from the AID check, and the other three commands reaching their handlers | not executed | NfcEmulationService.SelectAndReadBinaryMissedAsWritten | NfcEmulationService.SelectServedIntended |
