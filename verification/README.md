# spring-data-multichain in Dafny

A model of the core of spring-data-multichain, a Spring Data repository
that stores JSON-serialised entities on a MultiChain blockchain stream.
Each entity becomes one stream item, keyed by the entity's `@Id`, whose
data is the hexadecimal text of the entity's UTF-8 JSON. The ledger is
append-only and has no uniqueness constraint of its own: the repository
enforces "one entity per id" by looking the key up before every publish,
and detects duplicates by asking for two items per key.

The model has three layers.

- **Repository engine** (`repository.dfy`, `ledger.dfy`):
  `SimpleMultiChainRepository`'s `findOne`, `exists`, `save` and
  `save(Iterable)` as pure functions. The RPC client is an oracle: a
  function from the requests already sent in the session and the next
  request to the decoded response. Every operation returns its result (or
  the exception it throws) together with the requests it sent. The random
  values of request identifiers are an input, `draw`, indexed by the
  position of the request in the session. `Ledger` is a reference node:
  an append-only list of items that answers lookups with the latest two
  matches and appends one item per publish. Against it the engine keeps
  keys unique and meets the contracts that `MultiChainRepository`
  documents.
- **Hexadecimal codec** (`hex.dfy`, `numerals.dfy`): `jsonToHex` and
  `hexToJson` over bytes, with `BigInteger(1, bytes).toString(16)`,
  `new BigInteger(text, 16)` and `toByteArray()` written out. The codec
  is exact whenever the first byte is 0x01 to 0x7f, which every JSON
  text satisfies. A first byte of 0x80 or more gains a 0x00 byte in
  front. A leading 0x00 byte is dropped when the next byte is 0x01 to
  0x7f. A lone 0x00 byte survives, and so does a 0x00 before a byte of
  0x80 or more. Empty input decodes to one 0x00 byte.
- **Validators and formatters**: request classes and their parameter
  arrays (`requests.dfy`), Spring's `hasText`, `isEmpty` and Java's
  `trim` (`text.dfy`), `MultiChainTemplate`'s URI, credential and
  JSON-RPC envelope construction (`template.dfy`), the seconds and
  milliseconds adapter (`timestamps.dfy`), stream-name derivation
  (`streamnames.dfy`) and `MultiChainClientFactory` (`factory.dfy`).

Requests are immutable values: the identifier is fixed when a request is
built, and `getParams` gives the same array on every call, because it is
a function of the request alone.

Java `null` is `Option.None` wherever the source handles it. Exceptions
are `Result.Failure` values that carry the exception's kind and message.
Java `int` and `long` are written out where their width matters: the
adapter's wrap-around and truncating division, and `int` ports.

Where the code and its documentation disagree, the model follows the code:

- `save(Iterable)` returns an empty list for a `null` argument. The
  interface documents a `NullPointerException` for that case.
- `hexToJson` throws `NumberFormatException` for empty text. Only
  `null` text gives a `null` entity, although the comment says that
  blank text does too.
- `Request.Command` declares only `liststreamkeyitems`, while
  `PublishRequest` sends `publish`. The model has both commands.

## Model

| member | source | states |
|---|---|---|
| Repository.NewRepository | src/main/java/org/springframework/data/multichain/repository/support/SimpleMultiChainRepository.java:63-72 | null entity information, then a null client, throw IllegalArgumentException with the source's messages; otherwise both are kept |
| Repository.Serialize | src/main/java/org/springframework/data/multichain/repository/support/SimpleMultiChainRepository.java:263-266 | the stored data is minimal lower-case hexadecimal, and it decodes back to the entity's JSON bytes whenever those start with a byte from 0x01 to 0x7f |
| Repository.Deserialize | src/main/java/org/springframework/data/multichain/repository/support/SimpleMultiChainRepository.java:189-192 | null data gives a null entity; text that is not hexadecimal throws NumberFormatException; otherwise the JSON deserializer's answer on the decoded bytes is the result |
| Repository.SerializeRoundTrip | src/main/java/org/springframework/data/multichain/repository/support/SimpleMultiChainRepository.java:189-192 | with a serializer that reads back what it writes, deserializing the serialized entity gives the entity back |
| Repository.FindOne | src/main/java/org/springframework/data/multichain/repository/support/SimpleMultiChainRepository.java:87-117 | a blank id throws before any request; otherwise exactly one liststreamkeyitems request is sent, for the trimmed stream and trimmed id, when both have text; the reply is checked in order: remote error, then no result list, then more than one item, then none (null), then the single item's entity |
| Repository.Exists | src/main/java/org/springframework/data/multichain/repository/support/SimpleMultiChainRepository.java:78-81 | same requests and failures as findOne, and true exactly when findOne returns an entity |
| Repository.Insert | src/main/java/org/springframework/data/multichain/repository/support/SimpleMultiChainRepository.java:145-157 | after the lookup, one publish of trimmed stream, trimmed id and the entity's hexadecimal JSON; a remote error throws DataAccessResourceFailure, otherwise the entity is returned |
| Repository.Save | src/main/java/org/springframework/data/multichain/repository/support/SimpleMultiChainRepository.java:123-158 | a null entity is returned as null and a null or empty id throws DataIntegrityViolation, both with no request sent; a whitespace-only id is rejected by the lookup; a found id throws DuplicateKey with the source's message and no publish; only a lookup that finds nothing leads to the publish step; success returns the entity unchanged |
| Repository.PublishOnlyWhenAbsent | src/main/java/org/springframework/data/multichain/repository/support/SimpleMultiChainRepository.java:139-149 | whenever save sends a publish, the entity is non-null, the lookup of its id found nothing, and the publish is the second and last request |
| Repository.SaveKeys | src/main/java/org/springframework/data/multichain/repository/support/SimpleMultiChainRepository.java:123-158 | one save publishes at most the entity's trimmed id, and exactly that when it succeeds |
| Repository.SaveFoundIsDuplicate | src/main/java/org/springframework/data/multichain/repository/support/SimpleMultiChainRepository.java:139-143 | when the lookup of the id finds an entity, save throws DuplicateKeyException naming the id and the stream, and publishes nothing |
| Repository.InsertKeys | src/main/java/org/springframework/data/multichain/repository/support/SimpleMultiChainRepository.java:145-157 | the publish step sends at most one key, the trimmed id, and always sends it when it returns the entity |
| Repository.SaveEach | src/main/java/org/springframework/data/multichain/repository/support/SimpleMultiChainRepository.java:171-177 | a successful batch returns a list equal to its input, null elements included |
| Repository.SaveEachFailsAt | src/main/java/org/springframework/data/multichain/repository/support/SimpleMultiChainRepository.java:171-177 | a failing batch stops at an element k: every save before k succeeds, the save of k (after their requests) fails, the batch throws k's exception, and the batch's requests are exactly those saves' requests followed by k's own |
| Repository.SaveEachKeys | src/main/java/org/springframework/data/multichain/repository/support/SimpleMultiChainRepository.java:171-177 | a successful batch publishes exactly the elements' keys, in input order, each once |
| Repository.SaveEachStops | src/main/java/org/springframework/data/multichain/repository/support/SimpleMultiChainRepository.java:171-177 | a failing batch stops at the element k whose save throws, with k's exception; the published keys are those of the elements before k, possibly followed by k's own, and no key after k |
| Repository.SaveAll | src/main/java/org/springframework/data/multichain/repository/support/SimpleMultiChainRepository.java:164-178 | a null or empty batch returns an empty list and sends nothing; any other batch is the element-by-element loop |
| Ledger.FindOneOnLedger | src/main/java/org/springframework/data/multichain/repository/MultiChainRepository.java:50-65 | against a node, findOne returns null when no item matches the trimmed stream and id, the decoded entity of a single match, and IncorrectResultSize(1, 2) for two or more matches, because only two items are requested |
| Ledger.ConsistentLookup | src/main/java/org/springframework/data/multichain/repository/MultiChainRepository.java:50-65 | on a consistent node (unique keys, every item of the stream decodes to an entity), findOne returns null exactly when the id is absent and an entity exactly when it is present |
| Ledger.ExistsOnLedger | src/main/java/org/springframework/data/multichain/repository/MultiChainRepository.java:33-48 | on a consistent node, exists returns true exactly when an item under the trimmed id is on the stream |
| Ledger.SaveDuplicateOnLedger | src/main/java/org/springframework/data/multichain/repository/MultiChainRepository.java:67-80 | saving an entity whose id is already on a consistent node throws DuplicateKey and leaves the ledger unchanged |
| Ledger.SaveMakesPresent | src/main/java/org/springframework/data/multichain/repository/MultiChainRepository.java:67-80 | after a save on a consistent node the id is on the ledger and the node stays consistent, whether the id was found or added |
| Ledger.SaveNewMatchesOnce | src/main/java/org/springframework/data/multichain/repository/support/SimpleMultiChainRepository.java:145-157 | a save of an absent id leaves exactly one item under that key, holding the serialized entity |
| Ledger.MatchingOneMore | src/main/java/org/springframework/data/multichain/server/command/ListStreamKeyItemsRequest.java:56-65 | an item appended under a key the ledger lacks is the only match for that key |
| Ledger.SaveNewOnLedger | src/main/java/org/springframework/data/multichain/repository/MultiChainRepository.java:67-80 | saving an entity whose id is absent returns the entity and appends exactly one item, under the stream and trimmed id, holding the entity's hexadecimal JSON |
| Ledger.InsertOnLedger | src/main/java/org/springframework/data/multichain/repository/support/SimpleMultiChainRepository.java:145-157 | the publish step on the node appends exactly one item, under the id, holding the serialized entity, and returns the entity |
| Ledger.SavePreservesConsistency | src/main/java/org/springframework/data/multichain/repository/support/SimpleMultiChainRepository.java:139-149 | whatever its outcome, save keeps a consistent node consistent, so no two items of a stream ever share a key |
| Ledger.SaveEachPreservesConsistency | src/main/java/org/springframework/data/multichain/repository/support/SimpleMultiChainRepository.java:171-177 | the batch loop keeps a consistent node consistent, even for a batch that holds one id twice |
| Ledger.SaveAllPreservesConsistency | src/main/java/org/springframework/data/multichain/repository/support/SimpleMultiChainRepository.java:164-178 | save(Iterable) keeps a consistent node consistent |
| Ledger.SaveThenFind | src/main/java/org/springframework/data/multichain/repository/MultiChainRepository.java:50-80 | after a save of an absent id, the next findOne of that id returns the saved entity |
| Ledger.SaveThenFindLater | src/main/java/org/springframework/data/multichain/repository/MultiChainRepository.java:50-80 | after a save of an absent id, findOne of that id returns the saved entity at any later point of the session, whatever requests came in between, as long as the node's keys stay unique |
| Ledger.SaveTwiceIsDuplicate | src/main/java/org/springframework/data/multichain/repository/MultiChainRepository.java:76-78 | saving the same entity twice in a row on a consistent node makes the second save throw DuplicateKey without publishing |
| Ledger.MatchingEmpty | src/main/java/org/springframework/data/multichain/server/command/ListStreamKeyItemsRequest.java:56-65 | a key lookup on the node finds nothing exactly when no item of the stream carries the key |
| Ledger.MatchingUnique | src/main/java/org/springframework/data/multichain/server/command/ListStreamKeyItemsRequest.java:56-65 | on a ledger with unique keys a key lookup finds at most one item |
| Ledger.Answer | src/main/java/org/springframework/data/multichain/server/command/ListStreamKeyItemsRequest.java:59-64 | the node's reply to a lookup is the last min(2, n) of the n matching items, in ledger order |
| Hex.JsonToHex | src/main/java/org/springframework/data/multichain/repository/support/SimpleMultiChainRepository.java:249-254 | null stays null; bytes become minimal lower-case hexadecimal text with no sign and no leading zero |
| Hex.HexToJson | src/main/java/org/springframework/data/multichain/repository/support/SimpleMultiChainRepository.java:235-240 | null stays null; every failure is NumberFormatException, and empty text fails; any accepted text decodes to at least one byte |
| Hex.HexRoundTrip | src/main/java/org/springframework/data/multichain/repository/support/SimpleMultiChainRepository.java:235-254 | bytes whose first byte is 0x01 to 0x7f survive jsonToHex followed by hexToJson unchanged |
| Hex.HighFirstByteGainsZero | src/main/java/org/springframework/data/multichain/repository/support/SimpleMultiChainRepository.java:235-254 | bytes whose first byte is 0x80 or more come back with one 0x00 byte in front |
| Hex.LeadingZeroLost | src/main/java/org/springframework/data/multichain/repository/support/SimpleMultiChainRepository.java:249-254 | a leading 0x00 byte does not change the hexadecimal text, and it is dropped on the way back when the next byte is 0x01 to 0x7f |
| Hex.EmptyJsonGainsZero | src/main/java/org/springframework/data/multichain/repository/support/SimpleMultiChainRepository.java:235-254 | empty bytes encode to "0", which decodes to one 0x00 byte |
| Hex.SingleZeroSurvives | src/main/java/org/springframework/data/multichain/repository/support/SimpleMultiChainRepository.java:235-254 | the single byte 0x00 encodes to "0" and comes back as the single byte 0x00 |
| Hex.ZeroBeforeHighByteSurvives | src/main/java/org/springframework/data/multichain/repository/support/SimpleMultiChainRepository.java:235-254 | bytes that start with 0x00 followed by a byte of 0x80 or more survive the round trip unchanged |
| Hex.ToHexParses | src/main/java/org/springframework/data/multichain/client/command/Request.java:81-84 | the minimal hexadecimal text of a number parses back to that number |
| Hex.ByteLengthOfUnsigned | src/main/java/org/springframework/data/multichain/repository/support/SimpleMultiChainRepository.java:238 | the two's-complement byte length of an unsigned big-endian value with a non-zero first byte is its byte count, plus one when the top bit of the first byte is set |
| Requests.GeneratedId | src/main/java/org/springframework/data/multichain/client/command/Request.java:81-84 | a request identifier is minimal lower-case hexadecimal of 1 to 32 digits that parses back to the 128-bit random value it came from |
| Requests.NewRequest | src/main/java/org/springframework/data/multichain/client/command/Request.java:43-53 | a null command throws "Command must not be null."; otherwise the request names its command, carries the generated identifier and has null parameters |
| Requests.GetCommand | src/main/java/org/springframework/data/multichain/client/command/Request.java:60-63 | the method name on the wire is the enum constant's name, and that name parses back to the command |
| Requests.CommandNameParses | src/main/java/org/springframework/data/multichain/client/command/Request.java:89-92 | every command's wire name parses back to the command |
| Requests.GetParams | src/main/java/org/springframework/data/multichain/client/command/Request.java:70-73 | a plain request has null parameters, a lookup four and a publish three |
| Requests.NewListStreamKeyItemsRequest | src/main/java/org/springframework/data/multichain/server/command/ListStreamKeyItemsRequest.java:42-65 | a blank stream, then a blank key, throws with the source's message; otherwise the parameters are trimmed stream, trimmed key, false and 2, and the identifier comes from the random value |
| Requests.NewPublishRequest | src/main/java/org/springframework/data/multichain/server/command/PublishRequest.java:47-71 | a blank stream, then a blank key, then blank data, throws with the source's message; otherwise the parameters are trimmed stream, trimmed key and the data as given |
| Requests.ListParamsVerbatim | src/main/java/org/springframework/data/multichain/server/command/ListStreamKeyItemsRequest.java:49-50 | a stream and key that are already trimmed reach the parameters unchanged |
| Requests.ListParamsFixedTail | src/main/java/org/springframework/data/multichain/server/command/ListStreamKeyItemsRequest.java:62-63 | the verbose flag false and the count 2 do not depend on any input |
| Requests.PublishDataNotTrimmed | src/main/java/org/springframework/data/multichain/server/command/PublishRequest.java:55-57 | stream and key are trimmed but the data keeps its surrounding spaces |
| Text.HasTextScan | src/main/java/org/springframework/data/multichain/repository/support/SimpleMultiChainRepository.java:89 | hasText holds exactly when the string is not null, not empty, and the scan for a non-whitespace character finds one |
| Text.EmptyOrBlank | src/main/java/org/springframework/data/multichain/repository/support/SimpleMultiChainRepository.java:134 | an empty id has no text; a non-empty id without text is exactly one made only of whitespace |
| Text.Trim | src/main/java/org/springframework/data/multichain/server/command/PublishRequest.java:56-57 | trim returns the slice of its input between the first and the last character above U+0020, and strips only characters at or below U+0020 |
| Text.TrimIdempotent | src/main/java/org/springframework/data/multichain/server/command/PublishRequest.java:56-57 | trimming twice is trimming once |
| Text.HasTextOfTrim | src/main/java/org/springframework/data/multichain/repository/support/SimpleMultiChainRepository.java:89-92 | if the trimmed id has text then the id has text |
| Text.BlankIsNotTrimmedEmpty | src/main/java/org/springframework/data/multichain/server/command/ListStreamKeyItemsRequest.java:46-50 | hasText and trim disagree: U+0001 passes hasText but trims to empty, and U+3000 fails hasText but survives trim |
| Text.LowerAscii | src/main/java/org/springframework/data/multichain/mapping/model/SimpleMultiChainPersistentEntity.java:94 | lower-casing keeps the length, maps A-Z to a-z and leaves every other character alone |
| Text.DecimalRoundTrip | src/main/java/org/springframework/data/multichain/server/support/MultiChainTemplate.java:195 | the decimal text of a port parses back to the port |
| Template.CreateUri | src/main/java/org/springframework/data/multichain/server/support/MultiChainTemplate.java:185-201 | a blank host, then a port of zero or less, throws with the source's message; otherwise the URI starts with the scheme chosen by secure and parses back to the same scheme, host and port |
| Template.UriRoundTrip | src/main/java/org/springframework/data/multichain/server/support/MultiChainTemplate.java:195 | scheme://host:port text parses back to its scheme, host and port for every host |
| Template.CreateRestTemplate | src/main/java/org/springframework/data/multichain/server/support/MultiChainTemplate.java:156-165 | a blank username, then a blank password, throws with the source's message; otherwise both are kept as the credentials |
| Template.NewTemplate | src/main/java/org/springframework/data/multichain/server/support/MultiChainTemplate.java:72-81 | the URI checks come before the credential checks; construction succeeds exactly when host, username and password have text and the port is positive, and the URI then names that endpoint |
| Template.CreateRequestPayload | src/main/java/org/springframework/data/multichain/server/support/MultiChainTemplate.java:239-253 | a null request gives a null payload; otherwise the keys are exactly jsonrpc, id, method and params, in that order, holding "1.0", the request's id, its command name and its parameters |
| Template.EnvelopeIdentifiesRequest | src/main/java/org/springframework/data/multichain/server/support/MultiChainTemplate.java:246-250 | the envelope's method parses back to the request's command, and its params are the request's parameter array, null for a plain request |
| Timestamps.Read | src/main/java/org/springframework/data/multichain/client/support/UnixTimestampDateAdapter.java:42-45 | seconds are multiplied by 1000 with 64-bit wrap-around, which is exact when the seconds are within the range that fits |
| Timestamps.Write | src/main/java/org/springframework/data/multichain/client/support/UnixTimestampDateAdapter.java:57-60 | milliseconds are divided by 1000 rounding toward zero: the seconds bracket the milliseconds from the side of zero |
| Timestamps.WriteAfterRead | src/main/java/org/springframework/data/multichain/client/support/UnixTimestampDateAdapter.java:42-60 | writing what was read gives back the seconds, for every value whose product fits in a long |
| Timestamps.ReadAfterWrite | src/main/java/org/springframework/data/multichain/client/support/UnixTimestampDateAdapter.java:42-60 | reading what was written drops the sub-second part, rounding toward zero |
| Timestamps.NegativeMillisTruncate | src/main/java/org/springframework/data/multichain/client/support/UnixTimestampDateAdapter.java:59 | -1500 milliseconds is written as -1 second, not -2 |
| Timestamps.BlockTimeExample | src/main/java/org/springframework/data/multichain/client/support/UnixTimestampDateAdapter.java:42-60 | a block time of 1700000000 seconds reads as 1700000000000 milliseconds and writes back to the same seconds |
| Timestamps.ReadWrapsBeyondRange | src/main/java/org/springframework/data/multichain/client/support/UnixTimestampDateAdapter.java:44 | seconds beyond the range that fits wrap around instead of failing |
| StreamNames.ExtractStreamName | src/main/java/org/springframework/data/multichain/mapping/model/SimpleMultiChainPersistentEntity.java:83-95 | an annotation name with text is used trimmed; otherwise the class's simple name is lower-cased character by character |
| StreamNames.NewPersistentEntity | src/main/java/org/springframework/data/multichain/mapping/model/SimpleMultiChainPersistentEntity.java:47-61 | the stream name is fixed at construction: the trimmed annotation name, or the lower-cased simple name |
| StreamNames.StreamNameOfEntity | src/main/java/org/springframework/data/multichain/mapping/model/SimpleMultiChainPersistentEntity.java:58-61 | getStreamName on built metadata returns the trimmed annotation name, which trimming again leaves unchanged, or else the simple name with A-Z lowered and the length kept |
| StreamNames.BlankAnnotationFallsBack | src/main/java/org/springframework/data/multichain/mapping/model/SimpleMultiChainPersistentEntity.java:89-94 | a missing or blank annotation name falls back to the lower-cased simple name |
| StreamNames.FallbackIsLowerCase | src/main/java/org/springframework/data/multichain/mapping/model/SimpleMultiChainPersistentEntity.java:94 | the fallback name has no upper-case letter, and lower-casing it again changes nothing |
| Factory.SetHost | src/main/java/org/springframework/data/multichain/server/support/MultiChainClientFactory.java:40-45 | a blank host throws and leaves the factory unchanged; otherwise only the host changes |
| Factory.SetPassword | src/main/java/org/springframework/data/multichain/server/support/MultiChainClientFactory.java:53-58 | a blank password throws and leaves the factory unchanged; otherwise only the password changes |
| Factory.SetPort | src/main/java/org/springframework/data/multichain/server/support/MultiChainClientFactory.java:66-71 | a port of zero or less throws and leaves the factory unchanged; otherwise only the port changes |
| Factory.SetSecure | src/main/java/org/springframework/data/multichain/server/support/MultiChainClientFactory.java:80-83 | the flag is always accepted, and nothing else changes |
| Factory.SetUsername | src/main/java/org/springframework/data/multichain/server/support/MultiChainClientFactory.java:91-96 | a blank username throws and leaves the factory unchanged; otherwise only the username changes |
| Factory.GetMultiChainClient | src/main/java/org/springframework/data/multichain/server/support/MultiChainClientFactory.java:104-107 | a client is built exactly when host, username and password have text and the port is positive, and it targets that endpoint |
| Factory.UnsetHostFails | src/main/java/org/springframework/data/multichain/server/support/MultiChainClientFactory.java:104-107 | a factory with nothing set fails on the host check first |
| Factory.ConfiguredFactoryBuilds | src/main/java/org/springframework/data/multichain/server/support/MultiChainClientFactory.java:40-107 | setting valid values through the setters always yields a client for that endpoint |

## Left out

- HTTP transport: `MultiChainTemplate.invoke` posts the envelope and decodes the reply. Both steps are the client oracle's job here, so HTTP status handling, connection failures and JSON-RPC response parsing are not modelled.
- The Gson serializer is a parameter (`Serializer`): the shape of the JSON it writes, including how it writes `null` parameters, is not modelled. The theorems that need it assume it reads back what it writes and writes text starting with an ASCII character.
- UTF-8 conversion between strings and bytes is not modelled: the codec works on the bytes directly.
- `SecureRandom` is replaced by the `draw` input that supplies one 128-bit value per request.
- `java.net.URI` parse failures inside `createURI` are not modelled: the model builds the text and proves it parses back; hosts that `java.net.URI` would reject are not singled out.
- The gap between the lookup and the publish in `save` is not modelled: two clients saving the same id at once can both publish. The ledger theorems are about one session at a time.
- Spring wiring, annotations and reflection (`MultiChainRepositoryFactory`, the factory bean, the configuration extension, `MultiChainEntityInformation` lookup, the mapping context) are not modelled: the engine receives the stream name and the id accessor directly.
- `Response.isOk()` is taken to mean "the error field is null".
- `PublishResponse`'s result is modelled as text (the transaction id), which `save` never reads.
- The message identifier on a response is carried but never compared with the request's, just as the engine never compares it.
- Of `Message` only the identifier (`Message.id`, carried as `Response.id`) is modelled, and of `ResponseError` only the code and the message, the fields the engine reads.
- A `null` `TypeInformation` in the persistent-entity constructor is not modelled: the constructor takes the class's simple name directly.
- The package-private `MultiChainTemplate(URI, RestTemplate, Gson)` constructor is not modelled: it only stores its arguments.
- StreamNames.ExtractStreamName: lower-cases only A-Z, while `toLowerCase(Locale.ENGLISH)` also lower-cases non-ASCII letters, because the Unicode case tables are not modelled.
- Hex.ParseHex: accepts only ASCII digits and letters, while `Character.digit` also accepts other Unicode digits, because the Unicode digit tables are not modelled.
- Text.IsWhitespace: follows the Unicode tables of Java 9 and later, so U+180E (MONGOLIAN VOWEL SEPARATOR), which Java 8 treats as whitespace, is not blank here.
- Text.Decimal: writes ASCII digits, as `String.format("%d")` does in the locales the library runs under; locale-specific digits are not modelled.
- Test classes and test helpers (for example the `Contract` entity) are not modelled. Two request tests disagree with the code: one expects two lookup parameters and one passes the command as text. The model follows the code.
- Gson's field renaming when it decodes stream items (`txid`, `blocktime`) is not modelled: items arrive already decoded.
