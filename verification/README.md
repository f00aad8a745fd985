# Verified models of FaceCrypt and its smart card tools

A Dafny project beside the repository. It models its stateful cores and proves what they keep.

| part | files | what it models |
|---|---|---|
| JSON | `CodeUnits`, `JsonValue`, `JsonScalars`, `JsonParser`, `Tokener`, `JsonBounds`, `JsonStrings`, `JsonLayout`, `JsonAcceptance`, `JsonRefusal`, `JsonPrinter`, `JsonLines`, `JsonRoundTrip`, `JsonRespelling`, `JsonCalls`, `JsonWriter` | the tokener with one character of push-back, the parser constructors, the printers, the streaming writer |
| Secure messaging | `ByteStrings`, `BlockCiphers`, `CardCrypto`, `SecureMessaging`, `CommandWrapper`, `ChunkedTransfer` | MACs and encryption over streaming loops, `wrap_command` in place, STORE DATA and LOAD |
| Card files and data | `CapFile`, `CapOrder`, `CardData` | assembling and reading CAP components, TLV objects and card recognition data |
| Tunnel | `Datastore`, `Tunnel`, `TunnelCard` | PKCS#7, CBC and CBC-MAC over scratch arrays, the byte queue drained in chunks |
| Transport | `TransportT0` | T=0 response chaining against a nondeterministic card |
| Small cores | `PayloadCache`, `AtrDecoder`, `AtrText` | the bounded cache, the ATR decoder |

`Options` holds the option type and `Sequences` facts about concatenation. Code that changes state is modelled by classes, arrays and
loops, each method proved against a specification function; the properties are lemmas about those functions.
`dafny verify dfyconfig.toml` checks the whole project.

## How the pieces fit

* **JSON.** `Tokener.JSONTokener` refines the pure parser of `JsonParser`: same value or same exception, and the
  same text left unread; its `Back` always succeeds where the parser calls it, on any input.
  `JsonLayout.Layout` describes every text with the tolerated freedoms (`;`, `=`, `=>`, extra separators, white
  space, either quote, escapes), `Print` writes it, `Denotes` says what it means without parsing, and
  `LayoutReads` shows that the parser finds that meaning, and `JsonAcceptance` that it accepts nothing else. `JsonPrinter.Pretty` is the layout that `write` prints, and `JsonLines` says what it looks like, line by line;
  the round trip for all trees, indentations and key orders follows.
  `JsonRespelling.Respells` relates a layout to its lenient spellings, which denote the same. `JsonCalls` gives a stream of writer calls its meaning as
  a tree under construction; `JsonWriter.JSONWriter` keeps its four fields equal to that meaning.
* **Secure messaging.** DES is a pair of functions with the inverse law. `EvpContext` is the buffered CBC or ECB
  stream of OpenSSL with padding off; its contract speaks of all that was given and all that came out. `WrapCommand` writes exactly `Wrapped`.
  The receiver `Unwrap` is the independent partner: it computes the C-MAC it expects by its own rule, over the MAC algorithms
  whose steps `CardCrypto` spells out, down to the bits of the exclusive or.
* **Tunnel.** The applet's in-place methods compute `Frame` and `Receive`; a client's `Open` is the partner.
* **T=0.** The card chooses freely how much to hand out, what to announce by 61xx, which lengths to refuse by 6Cxx,
  with which status word to answer GET RESPONSE when nothing is left, and whether to answer a command without Le by
  9000 although a response is waiting. `Step` is the relation of one exchange, and
  `Expects` says byte by byte what the card has to be sent.

## Properties that hold only under a condition

The model keeps the code as it is. Where a desired property fails, a lemma gives the exact condition.

* `LoadFileHeaderIsBer`: the length field that `load_from_buffer` writes is BER-TLV exactly for files of 256 bytes or
  more; its `switch` falls through, so shorter files get the longer length forms as well.
* `FailsOutOfStep`: `wrap_command` can fail after it has overwritten the last C-MAC, and then host and card are out
  of step: exactly where there was room for the C-MAC, but not for the encryption. `FailsOutOfStepExample` is one byte
  of data, SCP02, into 14 bytes.
* `CaseFourIff`: a case 4 command gets response and status word exactly under a condition. Without a response: the
  status word is not 90xx, or an idle card answers GET RESPONSE with 6E00 or with the same word
  (`IdleIsReportedExample` is a card that answers 6985). With one: it does not end with 6E00, or the first GET RESPONSE
  does not get all of it. `SendApdu` adds that this can only happen to a response of at most Le bytes, and
  `LossIsPossible` that every such card may do so.
* `PlainUnwrapLimit`, `EncryptedUnwrapLimit`: with C-MAC only, a wrapped command can be taken apart exactly up to 247
  bytes of data, with encryption exactly up to 239. The
  size checks of `wrap_command` count the eight bytes of the MAC twice and let longer data pass.
* `ReceiveInvertsFrame`: of the frames that have a length byte, the card opens exactly those of messages up to
  79 bytes, because it reads Lc as a signed byte.
* `AddPayload`: the cache keeps its invariant exactly if the request was not cached before.
* `AssembledFileReadsBack`: a well-formed CAP file is read back exactly up to 32 applets; from 33 on the reader
  stores behind its local array. `LibraryPackageReads`: without an Applet component the reader takes the next
  component for it, and reports no applets exactly if that component's contents start with 0.
* `RecognitionReadsBack`: a channel identifier of less than two bytes is read before its start.
* The comment of `JSONWriter` speaks of 20 levels; the code allows 200, and so does the model.

## Model

| member | source | states |
|---|---|---|
| Tokener.JSONTokener.Back | projetFinal/src/srcFaceCrypt/json/JSONTokener.java:93-101 | puts the last character back: the unread text is what it was before that character was taken, also at the end of the input; refused exactly twice in a row or at index 0 |
| Tokener.JSONTokener.Next | projetFinal/src/srcFaceCrypt/json/JSONTokener.java:148-177 | delivers the head of the unread text, or 0 at its end, and leaves the tail |
| Tokener.JSONTokener.NextN | projetFinal/src/srcFaceCrypt/json/JSONTokener.java:206-222 | n characters, none of them 0, or the substring error |
| Tokener.JSONTokener.NextClean | projetFinal/src/srcFaceCrypt/json/JSONTokener.java:230-237 | the first character that is no blank, with all before it skipped |
| Tokener.JSONTokener.NextString | projetFinal/src/srcFaceCrypt/json/JSONTokener.java:251-299 | refines the pure string parser: same string or same exception, same rest unread |
| Tokener.JSONTokener.TakeBare | projetFinal/src/srcFaceCrypt/json/JSONTokener.java:378-383 | the loop over an unquoted token takes the longest run of token characters and puts the one behind it back |
| Tokener.JSONTokener.NextValue | projetFinal/src/srcFaceCrypt/json/JSONTokener.java:353-390 | refines the pure parser on every input, well-formed or not, across the mutual recursion |
| Tokener.JSONTokener.ReadObject | projetFinal/src/srcFaceCrypt/json/JSONObject.java:194-242 | the constructor loop refines the pure object parser, which accepts exactly the object texts without double keys |
| Tokener.JSONTokener.ReadArray | projetFinal/src/srcFaceCrypt/json/JSONArray.java:102-132 | the constructor loop refines the pure array parser; an omitted element is null |
| Tokener.ObjectOfText | projetFinal/src/srcFaceCrypt/json/JSONTokener.java:83-85 | a tokener on a string parses what the pure parser does |
| JsonParser.NextValue | projetFinal/src/srcFaceCrypt/json/JSONTokener.java:353-390 | each successful value takes at least one character, which is the termination measure |
| JsonParser.ObjectRest | projetFinal/src/srcFaceCrypt/json/JSONObject.java:202-241 | each run of the object loop takes at least one character and yields an object; what it accepts and refuses is stated by the members of `JsonAcceptance` and `JsonRefusal` |
| JsonParser.ArrayRest | projetFinal/src/srcFaceCrypt/json/JSONArray.java:109-130 | each run of the array loop takes at least one character and yields an array |
| JsonBounds.NextValueFits | projetFinal/src/srcFaceCrypt/json/JSONTokener.java:353-390 | nesting depth and every element count of a parsed value stay below the number of characters taken, for every text |
| JsonBounds.ObjectRestFits | projetFinal/src/srcFaceCrypt/json/JSONObject.java:202-241 | the same bound inside the object loop, with the members already put |
| JsonBounds.ArrayRestFits | projetFinal/src/srcFaceCrypt/json/JSONArray.java:109-130 | the same bound inside the array loop |
| JsonScalars.ParseLongInvertsLongText | projetFinal/src/srcFaceCrypt/json/JSONObject.java:1313-1318 | decimal printing of every 64-bit integer is parsed back to it |
| JsonScalars.LongTokenReadsBack | projetFinal/src/srcFaceCrypt/json/JSONObject.java:1280-1324 | the token of a printed integer becomes that integer, not a double or a string |
| JsonScalars.WordTokensReadBack | projetFinal/src/srcFaceCrypt/json/JSONObject.java:1285-1293 | true, false and null become the values they name |
| JsonScalars.IntegerToken | projetFinal/src/srcFaceCrypt/json/JSONObject.java:1313-1318 | a sign or none and ASCII digits are the integer they write, if it has 64 bits, and else stay a string |
| JsonScalars.WordToken | projetFinal/src/srcFaceCrypt/json/JSONObject.java:1285-1303 | true, false and null in any case, and every token that neither starts like one nor like a number stays a string |
| JsonScalars.DecimalToken | projetFinal/src/srcFaceCrypt/json/JSONObject.java:1304-1311 | a token that starts like a number and has a point or an exponent is left to the double parser |
| JsonScalars.LongTextIsCanonical | projetFinal/src/srcFaceCrypt/json/JSONObject.java:1532-1563 | printed integers have no sign but a minus, and no leading zero |
| JsonStrings.LiteralReadsBack | projetFinal/src/srcFaceCrypt/json/JSONTokener.java:251-299 | every literal of raw, escaped and hex characters reads as what its glyphs mean, and the reader stops behind the quote |
| JsonStrings.QuoteReadsBack | projetFinal/src/srcFaceCrypt/json/JSONObject.java:1205-1262 | for every string and any following text, reading the quoted string gives it back and stops right behind the closing quote |
| JsonStrings.SpellingsMean | projetFinal/src/srcFaceCrypt/json/JSONObject.java:1205-1262 | every character is written as a legal glyph of section 7 of RFC 8259, and together they mean the string |
| JsonStrings.SpellingTable | projetFinal/src/srcFaceCrypt/json/JSONObject.java:1216-1258 | which characters are written as themselves, by which letter, or by four lower-case hex digits, by ASCII code |
| JsonStrings.QuoteIsInjective | projetFinal/src/srcFaceCrypt/json/JSONObject.java:1205-1262 | different strings are quoted differently |
| JsonStrings.QuoteClosesNoTag | projetFinal/src/srcFaceCrypt/json/JSONObject.java:1217-1230 | a quoted string never contains `<` followed by `/` |
| JsonLayout.LayoutReads | projetFinal/src/srcFaceCrypt/json/JSONTokener.java:353-390 | the parser reads from every well-formed layout, with any mix of the tolerated spellings, what the layout denotes |
| JsonLayout.ObjectTextReads | projetFinal/src/srcFaceCrypt/json/JSONObject.java:214-240 | the same for objects, with exactly the text behind the closing brace left unread |
| JsonLayout.ArrayTextReads | projetFinal/src/srcFaceCrypt/json/JSONArray.java:107-130 | the same for arrays |
| JsonAcceptance.ObjectAcceptedIff | projetFinal/src/srcFaceCrypt/json/JSONObject.java:194-242 | an object is parsed, to a value and with a rest unread, if and only if the text is that of an object layout without double keys that denotes the value, followed by that rest |
| JsonAcceptance.ArrayAcceptedIff | projetFinal/src/srcFaceCrypt/json/JSONArray.java:102-132 | the same for arrays |
| JsonAcceptance.NextValueIsLayout | projetFinal/src/srcFaceCrypt/json/JSONTokener.java:353-390 | whatever text a value is read from is blanks and a layout that denotes it |
| JsonAcceptance.StringIsLiteral | projetFinal/src/srcFaceCrypt/json/JSONTokener.java:251-299 | whatever text a string is read from is a literal that means it, up to its closing quote |
| JsonRefusal.DoubleKeyInObject | projetFinal/src/srcFaceCrypt/json/JSONObject.java:224-224 | an object text that repeats a key, in itself or in any object inside it, is refused with the exception for that |
| JsonRefusal.DoubleKeyInArray | projetFinal/src/srcFaceCrypt/json/JSONArray.java:115-115 | the same for objects inside an array |
| JsonRefusal.RefusalsNameWhatIsMissing | projetFinal/src/srcFaceCrypt/json/JSONObject.java:199-240 | which exception names which missing sign, by ASCII code |
| JsonRefusal.RefusalsAtTheEnd | projetFinal/src/srcFaceCrypt/json/JSONTokener.java:251-298 | texts that end too early, line breaks in strings, and unknown escapes are refused for that |
| JsonRefusal.FirstSignDecides | projetFinal/src/srcFaceCrypt/json/JSONTokener.java:357-367 | what the first sign of a value decides, and which signs may stand behind a key and behind an entry, by ASCII code |
| JsonRefusal.SignsByCode | projetFinal/src/srcFaceCrypt/json/JSONTokener.java:263-287 | blanks, the signs that end a token, separators and escapes, by ASCII code |
| JsonRefusal.KeysFromValues | projetFinal/src/srcFaceCrypt/json/JSONObject.java:211-211 | the key that a null, boolean, number or string makes |
| CodeUnits.CodesAreAscii | projetFinal/src/srcFaceCrypt/json/JSONTokener.java:357-379 | the named characters and words are the ASCII ones |
| JsonPrinter.Writer.WriteQuoted | projetFinal/src/srcFaceCrypt/json/JSONObject.java:1205-1262 | the loop of `quote` appends exactly the spelling of the string |
| JsonPrinter.Writer.WriteValue | projetFinal/src/srcFaceCrypt/json/JSONObject.java:1532-1563 | appends exactly the printed layout of the value |
| JsonPrinter.Writer.WriteObject | projetFinal/src/srcFaceCrypt/json/JSONObject.java:1580-1626 | appends exactly the printed layout of the object, at every indentation |
| JsonPrinter.Writer.WriteArray | projetFinal/src/srcFaceCrypt/json/JSONArray.java:869-904 | appends exactly the printed layout of the array |
| JsonPrinter.Writer.Indent | projetFinal/src/srcFaceCrypt/json/JSONObject.java:1565-1569 | appends that many spaces, none for a negative number |
| JsonLines.PrintsLines | projetFinal/src/srcFaceCrypt/json/JSONObject.java:1580-1626 | for every tree, factor and indentation the printed text is that of the tree's lines, each indented by its level, with single entries in the line of their brackets |
| JsonRoundTrip.PrettySpells | projetFinal/src/srcFaceCrypt/json/JSONObject.java:1532-1626 | what is printed for a legal tree is a well-formed layout that denotes the tree's content |
| JsonRoundTrip.ObjectRoundTrip | projetFinal/src/srcFaceCrypt/json/JSONObject.java:1580-1626 | for every object tree, every indentFactor and indent and every key order, parsing what was printed gives the content back and leaves the following text |
| JsonRoundTrip.ArrayRoundTrip | projetFinal/src/srcFaceCrypt/json/JSONArray.java:869-904 | the same for arrays |
| JsonRoundTrip.ValueRoundTrip | projetFinal/src/srcFaceCrypt/json/JSONObject.java:1532-1563 | the same for any value before a text that cannot run into its token |
| JsonRoundTrip.PrintIsInjective | projetFinal/src/srcFaceCrypt/json/JSONObject.java:1532-1626 | different contents are never printed alike |
| JsonRoundTrip.LenientTextReadsAlike | projetFinal/src/srcFaceCrypt/json/JSONObject.java:214-240 | an object text that denotes the tree's content is parsed like its strict text |
| JsonRespelling.RespellingKeeps | projetFinal/src/srcFaceCrypt/json/JSONObject.java:214-240 | any mix of lenient spellings, at any depth, keeps a text legal and keeps what it denotes |
| JsonRespelling.RespelledObjectReadsAlike | projetFinal/src/srcFaceCrypt/json/JSONObject.java:214-240 | every lenient spelling of what `write` prints for an object is parsed to its content |
| JsonRespelling.RespelledArrayReadsAlike | projetFinal/src/srcFaceCrypt/json/JSONArray.java:107-130 | the same for arrays |
| JsonRespelling.RespellsItself | projetFinal/src/srcFaceCrypt/json/JSONObject.java:214-240 | the strict text is one of its spellings |
| JsonRoundTrip.PrintAndParse | projetFinal/src/srcFaceCrypt/json/JSONObject.java:194-242 | printer and tokener together return the content of the tree they started from |
| JsonValue.ContentIgnoresOrder | projetFinal/src/srcFaceCrypt/json/JSONObject.java:1583-1599 | the iteration order of the map is no part of an object's content |
| JsonCalls.RunKeeps | projetFinal/src/srcFaceCrypt/json/JSONWriter.java:111-283 | after any accepted run the open scopes hold legal values, distinct keys and at most 200 levels, and the calls so far are theirs |
| JsonCalls.NodeRuns | projetFinal/src/srcFaceCrypt/json/JSONWriter.java:111-283 | the call stream of a tree is accepted wherever a value may stand, and adds that tree |
| JsonCalls.CompletedRunsAreCallStreams | projetFinal/src/srcFaceCrypt/json/JSONWriter.java:61-283 | a run ends in mode d if and only if its calls are those of an array or object with distinct keys and at most 200 nested calls |
| JsonCalls.CallStreamsDiffer | projetFinal/src/srcFaceCrypt/json/JSONWriter.java:111-283 | different trees have different call streams |
| JsonWriter.JSONWriter.constructor | projetFinal/src/srcFaceCrypt/json/JSONWriter.java:97-103 | a fresh writer stands before its first call |
| JsonWriter.JSONWriter.Append | projetFinal/src/srcFaceCrypt/json/JSONWriter.java:111-131 | writes a value where one is expected, with a comma only in an array |
| JsonWriter.JSONWriter.Array | projetFinal/src/srcFaceCrypt/json/JSONWriter.java:142-150 | accepted exactly where an array may begin and the depth allows; mode, comma, stack and text follow the meaning of the call |
| JsonWriter.JSONWriter.Object | projetFinal/src/srcFaceCrypt/json/JSONWriter.java:235-247 | the same for objects |
| JsonWriter.JSONWriter.Key | projetFinal/src/srcFaceCrypt/json/JSONWriter.java:203-223 | accepted exactly where a key may stand that its object does not have yet |
| JsonWriter.JSONWriter.Value | projetFinal/src/srcFaceCrypt/json/JSONWriter.java:293-327 | accepted exactly where a value may stand; writes its compact text |
| JsonWriter.JSONWriter.End | projetFinal/src/srcFaceCrypt/json/JSONWriter.java:159-173 | closes the innermost scope; the mode is restored from the stack, and is d behind the last one |
| JsonWriter.JSONWriter.Do | projetFinal/src/srcFaceCrypt/json/JSONWriter.java:111-327 | any call succeeds exactly if the automaton of meanings accepts it, and the fields and the text stay those of the tree under construction |
| JsonWriter.JSONWriter.ToString | projetFinal/src/srcFaceCrypt/json/JSONStringer.java:75-77 | text exactly in mode d, and then that of the completed tree |
| JsonWriter.Stringify | projetFinal/src/srcFaceCrypt/json/JSONStringer.java:63-77 | text comes out exactly for the call streams of one array or object, and is the compact text of that tree |
| JsonWriter.CompletedTextReadsBack | projetFinal/src/srcFaceCrypt/json/JSONWriter.java:111-283 | the text of a completed run is parsed back to its tree |
| JsonWriter.ArrayNodeText | projetFinal/src/srcFaceCrypt/json/JSONWriter.java:142-183 | brackets and commas written call by call make up what `write` prints for the array |
| JsonWriter.ObjectNodeText | projetFinal/src/srcFaceCrypt/json/JSONWriter.java:191-247 | the same for objects with their keys in call order |
| BlockCiphers.CbcRoundTrip | projetFinal/src/srcSmartCard/with_tunnel/tunnel2.java:272-327 | CBC decryption under an inverse block function undoes CBC encryption of whole blocks |
| BlockCiphers.CbcAppends | projetFinal/apps/installSmartCard/globalplatform-6.0.0/src/crypto.c:59-75 | encrypting piece by piece, chained over the last block, equals encrypting at once |
| BlockCiphers.CbcNextBlock | projetFinal/apps/installSmartCard/globalplatform-6.0.0/src/crypto.c:58-65 | each block is enciphered with the ciphertext block before it, the first one with the IV |
| BlockCiphers.ChainInjective | projetFinal/apps/installSmartCard/globalplatform-6.0.0/src/crypto.c:425-436 | the chaining value matters: from different ICVs no message comes to the same end |
| BlockCiphers.TripleDesIs | projetFinal/apps/installSmartCard/globalplatform-6.0.0/src/crypto.c:425-425 | two-key triple DES with the halves of a key of 16 bytes |
| BlockCiphers.TripleDesIsInvertible | projetFinal/apps/installSmartCard/globalplatform-6.0.0/src/crypto.c:474-526 | two-key triple DES inherits the inverse law |
| ByteStrings.UnpadPad | projetFinal/apps/installSmartCard/globalplatform-6.0.0/src/crypto.c:66-81 | padding method 2 can be taken off again |
| ByteStrings.PadMethod2Is | projetFinal/apps/installSmartCard/globalplatform-6.0.0/src/crypto.c:66-79 | padding method 2 adds the byte 80 and the fewest zeros to a block boundary |
| ByteStrings.XorBits | projetFinal/apps/installSmartCard/globalplatform-6.0.0/src/crypto.c:425-436 | every bit of the exclusive or is set exactly where the bits differ |
| ByteStrings.XorBlockBits | projetFinal/apps/installSmartCard/globalplatform-6.0.0/src/crypto.c:425-436 | the same for every byte of a block |
| CardCrypto.EvpContext.Update | projetFinal/apps/installSmartCard/globalplatform-6.0.0/src/crypto.c:430-447 | however the input is cut into calls, what has come out so far is the encryption of the whole blocks given so far, chained over all calls |
| CardCrypto.EvpContext.UpdateLast | projetFinal/apps/installSmartCard/globalplatform-6.0.0/src/crypto.c:437-450 | a short piece and its padding release one block, which is the last block of the encryption of everything |
| CardCrypto.CalculateMac | projetFinal/apps/installSmartCard/globalplatform-6.0.0/src/crypto.c:416-462 | for every message and ICV the last block of triple-DES CBC over the padded message |
| CardCrypto.CalculateMacDes3Des | projetFinal/apps/installSmartCard/globalplatform-6.0.0/src/crypto.c:602-675 | for every message and ICV MAC Algorithm 3 of ISO/IEC 9797-1:1999 with padding method 2 |
| CardCrypto.MacAlgorithm3IsOneTripleStep | projetFinal/apps/installSmartCard/globalplatform-6.0.0/src/crypto.c:623-668 | single-DES CBC over the full blocks and one triple-DES step on the padded last one is MAC Algorithm 3 (clauses 7.3 and 6.1.2) |
| CardCrypto.MacAlgorithm3Steps | projetFinal/apps/installSmartCard/globalplatform-6.0.0/src/crypto.c:602-675 | the chaining values of MAC Algorithm 3 one by one, from the ICV, with the halves of the key |
| CardCrypto.MacTripleDesSteps | projetFinal/apps/installSmartCard/globalplatform-6.0.0/src/crypto.c:416-462 | the chaining values of the other MAC one by one |
| CardCrypto.EcbBlock | projetFinal/apps/installSmartCard/globalplatform-6.0.0/src/crypto.c:352-404 | in ECB every block is enciphered alone |
| CardCrypto.MacTripleDesIsLastBlock | projetFinal/apps/installSmartCard/globalplatform-6.0.0/src/crypto.c:416-462 | the MAC is the last ciphertext block of the whole encryption |
| CardCrypto.CalculateEncCbcScp02 | projetFinal/apps/installSmartCard/globalplatform-6.0.0/src/crypto.c:43-94 | CBC of the message, always padded by method 2 |
| CardCrypto.CalculateEncCbc | projetFinal/apps/installSmartCard/globalplatform-6.0.0/src/crypto.c:474-526 | CBC of the message, padded only if it is no multiple of eight bytes |
| CardCrypto.CalculateEncEcbSingleDes | projetFinal/apps/installSmartCard/globalplatform-6.0.0/src/crypto.c:352-404 | ECB under the first key half |
| CardCrypto.CalculateEncEcbTripleDes | projetFinal/apps/installSmartCard/globalplatform-6.0.0/src/crypto.c:288-340 | ECB under the two-key triple DES |
| SecureMessaging.DecodeInvertsEncode | projetFinal/apps/installSmartCard/globalplatform-6.0.0/src/crypto.c:858-884 | the four short APDU cases can be told apart by the length alone |
| SecureMessaging.EncodeInvertsDecode | projetFinal/apps/installSmartCard/globalplatform-6.0.0/src/crypto.c:858-884 | every APDU that is recognised has exactly one reading |
| SecureMessaging.UnwrapInvertsWrapped | projetFinal/apps/installSmartCard/globalplatform-6.0.0/src/crypto.c:830-1091 | a receiver with the same keys and last C-MAC accepts the C-MAC and recovers header, data and Le in all four cases, up to 239 bytes encrypted and 247 plain |
| SecureMessaging.ReceiverStaysInStep | projetFinal/apps/installSmartCard/globalplatform-6.0.0/src/crypto.c:940-1022 | the same over every sequence of commands: all are recovered, and both sides end on the same C-MAC (Appendix E.4.4 and E.4.6 of GlobalPlatform Card Specification 2.1.1) |
| SecureMessaging.ExpectedIsSent | projetFinal/apps/installSmartCard/globalplatform-6.0.0/src/crypto.c:942-985 | the C-MAC that is sent is the one Appendix E.4.4 prescribes for the protocol and the implementation option |
| SecureMessaging.SecuredBits | projetFinal/apps/installSmartCard/globalplatform-6.0.0/src/crypto.c:940-940 | of the class byte only the bit for secure messaging is set |
| SecureMessaging.PlainUnwrapLimit | projetFinal/apps/installSmartCard/globalplatform-6.0.0/src/crypto.c:899-910 | without encryption the receiver accepts exactly up to 247 bytes of data |
| SecureMessaging.EncryptedUnwrapLimit | projetFinal/apps/installSmartCard/globalplatform-6.0.0/src/crypto.c:887-898 | with encryption the receiver accepts exactly up to 239 bytes of data |
| CommandWrapper.WrapCommand | projetFinal/apps/installSmartCard/globalplatform-6.0.0/src/crypto.c:830-1091 | in place, for every buffer size and level: the exact status, the new last C-MAC, and on success exactly the wrapped command; what is refused before the C-MAC is computed leaves the session alone |
| CommandWrapper.SucceedsIffItFits | projetFinal/apps/installSmartCard/globalplatform-6.0.0/src/crypto.c:842-1086 | a command is wrapped if and only if the result fits the buffer, with at most 239 bytes of data under encryption, and at most 255 without Le under the C-MAC alone |
| CommandWrapper.RefusalKinds | projetFinal/apps/installSmartCard/globalplatform-6.0.0/src/crypto.c:886-910 | which lengths of data are refused as too large |
| CommandWrapper.UnrecognizedIff | projetFinal/apps/installSmartCard/globalplatform-6.0.0/src/crypto.c:858-884 | which lengths are none of the four cases |
| CommandWrapper.FailsOutOfStep | projetFinal/apps/installSmartCard/globalplatform-6.0.0/src/crypto.c:1021-1078 | a call fails although it has taken over the C-MAC if and only if it encrypts, nothing was refused before, and the ciphertext does not fit |
| CommandWrapper.FailsOutOfStepExample | projetFinal/apps/installSmartCard/globalplatform-6.0.0/src/crypto.c:1070-1072 | one data byte into a buffer of 14 bytes fails in this way |
| CommandWrapper.AppendMac | projetFinal/apps/installSmartCard/globalplatform-6.0.0/src/crypto.c:911-1028 | the half up to the C-MAC and Le |
| CommandWrapper.EncryptBody | projetFinal/apps/installSmartCard/globalplatform-6.0.0/src/crypto.c:1030-1083 | the half that replaces the data by its encryption and moves C-MAC and Le behind it |
| CommandWrapper.ComputeIcv | projetFinal/apps/installSmartCard/globalplatform-6.0.0/src/crypto.c:942-971 | the ICV is the last C-MAC, encrypted where the implementation option asks for it |
| ChunkedTransfer.StoreData | projetFinal/apps/installSmartCard/globalplatform-6.0.0/src/globalplatform.c:4147-4194 | sends exactly the encodings of the blocks in order, and stops at the first one the card refuses |
| ChunkedTransfer.StoreDataBlocks | projetFinal/apps/installSmartCard/globalplatform-6.0.0/src/globalplatform.c:4160-4188 | the blocks concatenate to the data, hold at most 239 bytes, are numbered modulo 256, and only the last has P1 = 80 |
| ChunkedTransfer.StoreDataBlocksWrap | projetFinal/apps/installSmartCard/globalplatform-6.0.0/src/crypto.c:1030-1081 | every block passes `wrap_command` with encryption: ciphertext at most 240 bytes, command at most 254, and the receiver gets the block back |
| ChunkedTransfer.LoadFromBuffer | projetFinal/apps/installSmartCard/globalplatform-6.0.0/src/globalplatform.c:1816-2009 | refuses exactly the files that are too big; otherwise sends the LOAD commands in order until one is refused |
| ChunkedTransfer.LoadBlocks | projetFinal/apps/installSmartCard/globalplatform-6.0.0/src/globalplatform.c:1966-2009 | the data fields concatenate to the header and the file, at most 239 bytes each, numbered 0, 1, 2 without wrapping, only the last with P1 = 80 |
| ChunkedTransfer.LoadBlocksWrap | projetFinal/apps/installSmartCard/globalplatform-6.0.0/src/crypto.c:1030-1081 | every LOAD command passes `wrap_command` with encryption, the last one with its Le, and the receiver gets it back |
| ChunkedTransfer.LoadFileHeaderIsBer | projetFinal/apps/installSmartCard/globalplatform-6.0.0/src/globalplatform.c:1816-1891 | the header is C4 and the BER length if and only if the file has at least 256 bytes |
| ChunkedTransfer.ShortFileHeader | projetFinal/apps/installSmartCard/globalplatform-6.0.0/src/globalplatform.c:1816-1891 | the header of a file below 256 bytes, byte by byte |
| ChunkedTransfer.LargestLoadFile | projetFinal/apps/installSmartCard/globalplatform-6.0.0/src/globalplatform.c:1816-1891 | 61180 bytes are the most that is accepted, and exactly what fills 256 blocks |
| CapFile.ExtractCapFile | projetFinal/apps/installSmartCard/globalplatform-6.0.0/src/loadfile.c:118-330 | sizes the buffer, refuses a smaller one, and otherwise writes the components in load order and nothing behind them |
| CapFile.LoadFileFits | projetFinal/apps/installSmartCard/globalplatform-6.0.0/src/loadfile.c:163-277 | the size that is asked for always suffices, and is exact when no component comes twice |
| CapFile.ArchiveOrderIsFree | projetFinal/apps/installSmartCard/globalplatform-6.0.0/src/loadfile.c:171-327 | the order of the files in the archive does not change the load file |
| CapOrder.LoadFileByNames | projetFinal/apps/installSmartCard/globalplatform-6.0.0/src/loadfile.c:171-327 | the load file is what the archive holds under the eleven names, in load order |
| CapOrder.ComponentsInLoadOrder | projetFinal/apps/installSmartCard/globalplatform-6.0.0/src/loadfile.c:283-327 | where each file holds the component its name says, walking the load file by its size fields meets the tags 1, 2, 4, 3, 6, 7, 8, 10, 5, 9, 11 in this order, each component as it was in its file |
| CapFile.ReadParameters | projetFinal/apps/installSmartCard/globalplatform-6.0.0/src/loadfile.c:512-660 | on any buffer no read passes its end, and the outcome is that of the reading function |
| CapFile.ReadIff | projetFinal/apps/installSmartCard/globalplatform-6.0.0/src/loadfile.c:512-660 | parameters are returned if and only if the buffer describes them: AID lengths of 5 to 16, the AIDs at the offsets the size fields lead to, at most 32 applets |
| CapFile.AssembledFileReadsBack | projetFinal/apps/installSmartCard/globalplatform-6.0.0/src/loadfile.c:283-660 | a well-formed CAP file, assembled from an archive in any order, is read back to its package AID and applet AIDs exactly if it has at most 32 applets (sections 6.3 and 6.5 of the Java Card 2.2 Virtual Machine Specification) |
| CapFile.LibraryPackageReads | projetFinal/apps/installSmartCard/globalplatform-6.0.0/src/loadfile.c:594-622 | without an Applet component no applets are reported exactly if the next component's contents start with 0 |
| CardData.ReadTlv | projetFinal/apps/installSmartCard/globalplatform-6.0.0/src/util.c:44-66 | the object and the length consumed, or -1 |
| CardData.FirstTlvIff | projetFinal/apps/installSmartCard/globalplatform-6.0.0/src/util.c:44-66 | an object is read if and only if its encoding starts the buffer |
| CardData.ReadDetails | projetFinal/apps/installSmartCard/globalplatform-6.0.0/src/globalplatform.c:1287-1449 | the search terminates, and the outcome is that of the reading function on any card data |
| CardData.SearchIff | projetFinal/apps/installSmartCard/globalplatform-6.0.0/src/globalplatform.c:1313-1329 | a template is found if and only if a path of first objects leads to it, all before it with other tags |
| CardData.RecognitionReadsBack | projetFinal/apps/installSmartCard/globalplatform-6.0.0/src/globalplatform.c:1329-1446 | from recognition data at any nesting the channel protocol and its implementation are the last two bytes of the fourth identifier, if it has two |
| Datastore.Datastore.PutData | projetFinal/src/srcSmartCard/with_tunnel/datastore.java:50-68 | appends to the queue, also from the datastore's own array, or fails without effect exactly where an array would be left |
| Datastore.Datastore.Respond | projetFinal/src/srcSmartCard/with_tunnel/Cypher.java:108-109 | an applet that answers in the array it was given leaves exactly its response in the queue |
| Datastore.Datastore.GetData | projetFinal/src/srcSmartCard/with_tunnel/datastore.java:71-80 | takes the oldest bytes off the queue, into any array |
| Datastore.Datastore.GetRemainingData | projetFinal/src/srcSmartCard/with_tunnel/datastore.java:81-84 | how many bytes may be taken, up to the maximum |
| Datastore.Datastore.EraseData | projetFinal/src/srcSmartCard/with_tunnel/datastore.java:86-91 | empties the queue and frees its room |
| Tunnel.FrameFits | projetFinal/src/srcSmartCard/with_tunnel/tunnel2.java:112-113 | a frame fits the scratch arrays exactly up to 223 bytes, of whole blocks 208 |
| Tunnel.Pkcs7Is | projetFinal/src/srcSmartCard/with_tunnel/tunnel2.java:126-155 | one to sixteen bytes are added, each the number of them (section 6.3 of RFC 5652) |
| Tunnel.TunnelMacIs | projetFinal/src/srcSmartCard/with_tunnel/tunnel2.java:193-218 | the MAC is the last CBC block, from a zero IV, of the length in two bytes, 14 zeros, IV and ciphertext |
| Tunnel.FrameIs | projetFinal/src/srcSmartCard/with_tunnel/tunnel2.java:193-327 | a frame is the IV, the padded message enciphered from it, and that MAC over both |
| Tunnel.OpenInvertsFrame | projetFinal/src/srcSmartCard/with_tunnel/tunnel2.java:193-327 | a client opens every frame to the message in it |
| Tunnel.ReceiveInvertsFrame | projetFinal/src/srcSmartCard/with_tunnel/tunnel2.java:226-293 | the card accepts and opens a frame to its message if and only if the message has at most 79 bytes |
| TunnelCard.Card.Pad | projetFinal/src/srcSmartCard/with_tunnel/tunnel2.java:126-155 | the padding of section 6.3 of RFC 5652, within both arrays |
| TunnelCard.Card.EncryptTunnel | projetFinal/src/srcSmartCard/with_tunnel/tunnel2.java:301-327 | the buffer holds IV and ciphertext of its former contents |
| TunnelCard.Card.ComputeMac | projetFinal/src/srcSmartCard/with_tunnel/tunnel2.java:193-218 | the MAC over length, IV and ciphertext stands behind them |
| TunnelCard.Card.CheckMac | projetFinal/src/srcSmartCard/with_tunnel/tunnel2.java:226-264 | accepts exactly the frames whose last block is their MAC |
| TunnelCard.Card.DecryptTunnel | projetFinal/src/srcSmartCard/with_tunnel/tunnel2.java:272-293 | the decrypted blocks stand at the start of the buffer, their length without padding in tab[2] |
| TunnelCard.Card.GetDataCommand | projetFinal/src/srcSmartCard/with_tunnel/tunnel2.java:472-482 | answers with the frame of the next 208 bytes and takes them off the queue; all copies stay within the 256-byte arrays |
| TunnelCard.Card.PutDataCommand | projetFinal/src/srcSmartCard/with_tunnel/tunnel2.java:460-465 | queues what the frame opens to; a refused frame changes no stored byte |
| TunnelCard.Card.StoreFrame | projetFinal/src/srcSmartCard/with_tunnel/tunnel2.java:460-465 | a frame of a message up to 79 bytes is accepted and the message queued, while there is room |
| TunnelCard.FramesCollect | projetFinal/src/srcSmartCard/with_tunnel/tunnel2.java:472-482 | a response of n bytes takes exactly the ceiling of n / 208 frames, whose opened messages concatenate to it |
| TunnelCard.Drain | projetFinal/src/srcSmartCard/with_tunnel/tunnel2.java:472-482 | repeated GET_DATA gives exactly those frames and leaves nothing |
| TunnelCard.ServeResponse | projetFinal/src/srcSmartCard/with_tunnel/datastore.java:108-129 | a response that an applet left at the start of the datastore's own array is drained whole and in order, in the ceiling of n / 208 frames |
| TransportT0.Card.Answer | projetFinal/apps/installSmartCard/gppcscconnectionplugin-1.1.0/src/gppcscconnectionplugin.c:357-376 | the assumed card wants exactly the bytes that `Expects` lists, and makes any step of the relation: it idles, refuses a length, or hands out a piece and announces the rest, by 61xx or, in case 4, by 90xx |
| TransportT0.StepKeepsValid | projetFinal/apps/installSmartCard/gppcscconnectionplugin-1.1.0/src/gppcscconnectionplugin.c:357-376 | in every step what is handed out and what is kept make up what there was, and once GET RESPONSE was sent the record of the first answers stays |
| TransportT0.Round | projetFinal/apps/installSmartCard/gppcscconnectionplugin-1.1.0/src/gppcscconnectionplugin.c:376-474 | one round of the loop appends the next piece, and the rest of the response or the demanded length decreases |
| TransportT0.Collect | projetFinal/apps/installSmartCard/gppcscconnectionplugin-1.1.0/src/gppcscconnectionplugin.c:376-474 | the loop terminates with the whole response and its status word, or fails only for want of room |
| TransportT0.AskAfterCase4 | projetFinal/apps/installSmartCard/gppcscconnectionplugin-1.1.0/src/gppcscconnectionplugin.c:492-545 | behind the first GET RESPONSE of case 4 the host stands at exactly the stage that response, status words and first piece determine: gathering, about to ask an idle card, or at an end |
| TransportT0.OutcomeAfterCase4 | projetFinal/apps/installSmartCard/gppcscconnectionplugin-1.1.0/src/gppcscconnectionplugin.c:519-543 | the same for one exchange, whatever the card answers, with the first answer put back behind 6E00 |
| TransportT0.SendApdu | projetFinal/apps/installSmartCard/gppcscconnectionplugin-1.1.0/src/gppcscconnectionplugin.c:280-696 | against every such card, which gets the whole command, without Le in case 4, and then GET RESPONSE for the announced or demanded length: case 2 returns exactly the response and the final status word whenever they fit, or the first Le bytes where the card demanded more; case 4 returns exactly the answer that `CaseFourIff` is about, and only a response of at most Le bytes can be lost; cases 1 and 3 return what one request got and the last status word |
| TransportT0.CaseOfEncoded | projetFinal/apps/installSmartCard/gppcscconnectionplugin-1.1.0/src/gppcscconnectionplugin.c:326-353 | the four cases are told apart as data and Le say |
| TransportT0.CaseFourIff | projetFinal/apps/installSmartCard/gppcscconnectionplugin-1.1.0/src/gppcscconnectionplugin.c:492-545 | a case 4 command gets response and status word if and only if, with a response, it does not end with 6E00 or did not come whole in the first GET RESPONSE, and, without one, the status word is not 90xx or the idle card answers 6E00 or the same word |
| TransportT0.LossIsPossible | projetFinal/apps/installSmartCard/gppcscconnectionplugin-1.1.0/src/gppcscconnectionplugin.c:519-543 | every non-empty response of at most Le bytes that ends with 6E00 has a run, by 61xx or by 90xx, that loses it |
| TransportT0.IdleIsReportedExample | projetFinal/apps/installSmartCard/gppcscconnectionplugin-1.1.0/src/gppcscconnectionplugin.c:537-543 | a card that answers 9000 and then 6985 is reported as 6985 |
| PayloadCache.CacheManager.AddPayload | projetFinal/src/srcFaceCrypt/cache/CacheManager.java:18-27 | after an addition the queue is free of duplicates and holds exactly the map's keys, namely the last 1500 additions, if and only if the request was not cached |
| PayloadCache.CacheManager.GetPayload | projetFinal/src/srcFaceCrypt/cache/CacheManager.java:29-34 | a payload is found if and only if the request is among the last 1500 additions, and it is the one added |
| PayloadCache.LookUpOrAdd | projetFinal/src/srcFaceCrypt/network/Client.java:740-845 | adding only after a lookup found nothing keeps the cache over every run |
| PayloadCache.FreshAddition | projetFinal/src/srcFaceCrypt/cache/CacheManager.java:22-26 | what the eviction leaves is the map and the queue of the last 1500 additions |
| PayloadCache.RepeatedAddition | projetFinal/src/srcFaceCrypt/cache/CacheManager.java:22-26 | a repeated addition always breaks the queue |
| PayloadCache.CacheHoldsLastAdditions | projetFinal/src/srcFaceCrypt/cache/CacheManager.java:18-27 | a request is cached if and only if it is one of the last 1500 additions, with the payload added |
| AtrDecoder.Decode | projetFinal/apps/installSmartCard/pcsc-lite-1.8.8/src/atrhandler.c:45-200 | terminates on every ATR, accepts exactly the decodable ones, and then returns the start protocol, one of T=0 and T=1, which is among the protocols on offer |
| AtrDecoder.AllGroups | projetFinal/apps/installSmartCard/pcsc-lite-1.8.8/src/atrhandler.c:79-192 | over all groups the current protocol is TA2's, else the first TD's, else T=0, and the offer is what the TD characters name, restarted at TA2 |
| AtrText.WrittenIsDecodable | projetFinal/apps/installSmartCard/pcsc-lite-1.8.8/src/atrhandler.c:45-200 | an ATR written from groups of interface characters is accepted if and only if it begins with 3B or 3F, its groups end within 33 bytes, and the numbers that choose the protocol are 0 or 1 |
| AtrText.WrittenIsDecoded | projetFinal/apps/installSmartCard/pcsc-lite-1.8.8/src/atrhandler.c:79-192 | and then the start protocol and the offer are those of the groups: TA of the second, else TD of the first, else T=0 |
| AtrDecoder.WithSecondGroup | projetFinal/apps/installSmartCard/pcsc-lite-1.8.8/src/atrhandler.c:159-178 | where TD1 announces a second group, TA2 decides if it is there, and a value other than T=0 and T=1 refuses the ATR |
| AtrDecoder.LaterGroups | projetFinal/apps/installSmartCard/pcsc-lite-1.8.8/src/atrhandler.c:79-184 | from the third group on the current protocol stays, and every TD adds to the offer |
| AtrDecoder.StartIsOffered | projetFinal/apps/installSmartCard/pcsc-lite-1.8.8/src/atrhandler.c:118-192 | the start protocol is always on offer |

## Left out

JSON

- doubles: a token that `Double.valueOf` accepts as finite is kept as its text; which tokens those are, `toString` of doubles, arrays and objects used as keys, and digits above ASCII are parameters of every statement.
- `Integer` and `Long` are one kind of number; a leading `+` is accepted in numbers and \u escapes, as in Java 7.
- error texts, line and character counters, `more`, `skipTo`, `nextTo`, the key pool, beans, `JSONString`, typed getters; I/O errors of readers and writers.
- int overflow of the indentation and of the character index.
- Tokener.JSONTokener.NextN: requires that no character is put back and the end was not reached, as where the parser calls it.
- Tokener.JSONTokener.NextString: requires that no character is put back, as where the parser calls it.
- Tokener.JSONTokener.NextValue: requires that the end was not reached, as where the parser calls it.
- JsonWriter.JSONWriter.Do: a run ends at its first exception; the fields of a writer behind one are not described. A nested tree handed over in one call counts as one value, not against the 200 levels.

Secure messaging

- failures of OpenSSL, and initial ICVs that are not given; that `EVP_EncryptUpdate` buffers and chains as `EvpContext` does is assumed.
- implementation options with the C-MAC on the unmodified APDU (0A, 0B, 1A, 1B), R-MAC, receipts, key derivation, and APDUs of less than four bytes.
- CommandWrapper.WrapCommand: the outcome Overrun stands for what C leaves undefined, a store one byte behind a buffer of exactly the data length and 13 in case 4, or a ciphertext of more than 240 bytes. The bits of the logical channel and a session that is not set are not modelled.
- ChunkedTransfer.LoadFromBuffer: without DAP blocks and progress callbacks, over the basic channel; the buffer of a command has the 261 bytes of its sender.

Card files and data

- CapFile.ExtractCapFile: the archive is the sequence of its files, whose names are not shorter than the suffixes they are compared with; zip errors and the file system are left out.
- CapFile.AssembledFileReadsBack: tags, magic numbers and versions are not checked by the source, so they are arbitrary.
- CardData.ReadDetails: starts from the card data that GET DATA returned.

Tunnel and transport

- the handshake, the other applets, key secrecy, and where random bytes come from: an IV is a parameter.
- TunnelCard.Card.PutDataCommand: the APDU buffer has 261 bytes.
- the T=1 branch of `OPGP_PL_send_APDU`, tracing, and readers that fail.
- TransportT0.Card.Answer: the final status word and that of an idle card are none of 61xx, 6Cxx and 9Fxx; a longer length is demanded only once, first, and exactly.
- TransportT0.SendApdu: the command buffer has room for five bytes; in cases 1 and 3 the source asks for a response only once, so only conservation of the response is stated.

Small cores

- sockets, threads, databases and the other users of the cache.
- AtrDecoder.Decode: the source ignores the length of the ATR after its first check, so the array is assumed to have the 37 bytes the loop can reach.
