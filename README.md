# Korabli chat translator: a Dafny model of its replay and chat core

Korabli-chatrans reads World of Warships (Korabli) replays and live packet
streams. It decodes the game's packets and follows the players' in-match
chat. It also passes chat text to a machine-translation service. This
project models the core of that pipeline and proves properties of the model.

- **The replay container** (`parser/src/korabli_replay.rs`):
  - the magic header, the block count, the length-prefixed JSON metadata and
    the extra blocks added in 12.6.0 (module `KorabliReplay`);
  - the decryption loop, which decrypts each eight-byte block and XORs it with
    the previous plaintext block, working in place on an array;
  - the zlib step that yields the packet stream.

  A round-trip lemma shows that a container built from metadata, blocks and a
  ciphertext made by the inverse cipher reads back to exactly those parts.
- **Client versions** (`parser/src/version.rs`, module `ClientVersion`):
  - parsing "major,minor,patch,build" and rendering "major.minor.patch";
  - the `is_at_least` order, proved to be a total preorder that ignores the
    build number and agrees with a reference numeric rank;
  - the repository's three version-ordering tests, as lemmas.
- **The packet decoder** (`parser/src/analyzer/decoder.rs`):
  - `DecodedPacketPayload::from`, `from_entity_method` and `from_entity_info`,
    plus `DecodedPacket::from` (modules `Decoded`, `Decoder`, `Arena`, `Pickle`);
  - the audit flag, which diverts only five packet kinds, and only into an
    `Audit` text;
  - the chat RPC, which decodes exactly when its arguments have the right kinds
    and hold valid UTF-8;
  - the arena-state RPC, with its snapshot dictionary and player roster, and the
    UTF-8 normaliser over pickle values, proved idempotent;
  - the `EntityInfo` roster, which keeps exactly the entities that are not bots.
- **The two chat analyzers**:
  - `parser/src/analyzer/chat.rs` (module `ChatAnalyzer`) prints lines;
  - `chatrans/src/processor/processor.rs` (module `Processor`) sends
    `ChatMessage`s down a channel.

  Both are classes whose `process` methods are proved against a step function
  (`StepOf`). Both keep a directory from sender id to username (module
  `Usernames`). The upsert loop is proved last-write-wins; it never removes a
  key and stops at the first id that does not fit an i32.
- **The interpreter front end** (`chatrans/src/interpreter/interpreter.rs`,
  module `Interpreter`):
  - the target-language choice and its round trip;
  - a client exists exactly when both credentials are given;
  - the pass-through of `translate`.

Every `panic!`, `assert!` and `unwrap` of the core is an explicit error value
(`Result`, `Outcome`). Foreign code (Blowfish, zlib, serde_json, serde_pickle's
reader, `{:?}` formatting) is passed in as function-valued fields of a
`Codecs` record. Helper modules supply the library behaviour the core relies
on:
- `Utf8`: a UTF-8 codec, proved to round-trip both ways;
- `Text`: decimal rendering, `u32` parsing and `split`/`join`;
- `Ints`: integer widths and XOR on bytes.

## Model

| member | source | states |
|---|---|---|
| KorabliReplay.Take | parser/src/korabli_replay.rs:94 | nom's `take`: succeeds exactly when n bytes are there, and splits the input into those n bytes and the rest |
| KorabliReplay.LeU32OfU32Le | parser/src/korabli_replay.rs:65 | `le_u32` reads back the four little-endian bytes of any u32 and leaves what follows |
| KorabliReplay.LengthPrefixedSplits | parser/src/korabli_replay.rs:84-85 | a length-prefixed chunk that reads is its 4-byte length field, that many bytes, then the rest |
| KorabliReplay.LengthPrefixedOfFrame | parser/src/korabli_replay.rs:84-85 | a chunk framed with its length reads back as itself, leaving exactly the following bytes |
| KorabliReplay.DecodeMeta | parser/src/korabli_replay.rs:57-62 | metadata that is not UTF-8 fails as such; it reads exactly when it is UTF-8 and serde_json accepts the text |
| KorabliReplay.ParseMetaReads | parser/src/korabli_replay.rs:64-74 | `parse_meta` fails with Eof on a short input; on success it consumed exactly 4 + n bytes and decoded those n |
| KorabliReplay.ExtraBlocksConsumes | parser/src/korabli_replay.rs:83-88 | reading k extra blocks consumes their k length fields and their contents, nothing more |
| KorabliReplay.ExtraBlocksFailureSticks | parser/src/korabli_replay.rs:84-85 | once a block fails to read, reading more blocks fails with the same error (the `?` exits the loop) |
| KorabliReplay.ExtraBlocksNext | parser/src/korabli_replay.rs:84-87 | one more loop turn appends the next chunk to `json_list` and moves past it, or ends with its error |
| KorabliReplay.ProcessUnknownMeta | parser/src/korabli_replay.rs:77-91 | the loop returns exactly the first c - 1 blocks concatenated and the input after them; a count of zero is the underflow error |
| KorabliReplay.ExtraBlocksOfEncoded | parser/src/korabli_replay.rs:77-91 | blocks written with their lengths read back as their concatenation, in order, leaving exactly what follows |
| KorabliReplay.ReplayFormat | parser/src/korabli_replay.rs:93-105 | a short input is Eof; any other first four bytes are rejected as an invalid header naming them; success needs the magic |
| KorabliReplay.ReplayFormatReads | parser/src/korabli_replay.rs:101-104 | a successful read took the count, then the metadata, then the extra blocks, and returns what the last left |
| KorabliReplay.ParseMetaLeavesSuffix | parser/src/korabli_replay.rs:64-74 | the input `parse_meta` leaves is a suffix of its input |
| KorabliReplay.ExtraBlocksLeaveSuffix | parser/src/korabli_replay.rs:77-91 | the input `process_unknown_meta` leaves is a suffix of its input |
| KorabliReplay.ReplayFormatLeavesSuffix | parser/src/korabli_replay.rs:93-105 | the remaining input `replay_format` returns is a suffix of the file |
| KorabliReplay.ParseMetaOfFrame | parser/src/korabli_replay.rs:64-74 | framed UTF-8 metadata that serde_json accepts parses back to that metadata |
| KorabliReplay.ReplayFormatOfParts | parser/src/korabli_replay.rs:93-105 | header, count, metadata and extra blocks read in that order give the container's result |
| KorabliReplay.ReplayFormatOfEncoded | parser/src/korabli_replay.rs:93-105 | the container round trip: magic, count, metadata and blocks come back and exactly the tail remains |
| KorabliReplay.DecryptChain | parser/src/korabli_replay.rs:128-138 | the chained decryption of whole blocks has the ciphertext's length |
| KorabliReplay.EncryptChain | parser/src/korabli_replay.rs:128-138 | the matching chained encryption (the inverse used by the round trip) keeps the length |
| KorabliReplay.XorBlockCancels | parser/src/korabli_replay.rs:134-136 | XORing a block twice with the same feedback gives it back |
| KorabliReplay.DecryptChainAppend | parser/src/korabli_replay.rs:132-138 | one more ciphertext block appends its decryption XORed with the last plaintext block |
| KorabliReplay.ChainRoundTrip | parser/src/korabli_replay.rs:128-138 | with a block cipher that decryption inverts, the chained decryption gives back every whole-block plaintext |
| KorabliReplay.DecryptChainPrefix | parser/src/korabli_replay.rs:132-138 | decrypting a whole-block prefix gives the same prefix of the plaintext (earlier blocks never depend on later ones) |
| KorabliReplay.DecryptChainBlock | parser/src/korabli_replay.rs:133-137 | block k of the plaintext is D(C_k) XOR the plaintext block before it, zero for the first |
| KorabliReplay.DecryptChainStep | parser/src/korabli_replay.rs:133-137 | one loop turn extends the decrypted prefix by a block, and that block is the next feedback |
| KorabliReplay.DecryptBlockInto | parser/src/korabli_replay.rs:133-136 | the decrypted block is written at the offset and XORed byte by byte with `previous`; no byte before or after the block changes |
| KorabliReplay.DecryptInPlace | parser/src/korabli_replay.rs:125-138 | the in-place loop leaves exactly the chained decryption of a whole-block ciphertext, and fails on a partial last block |
| KorabliReplay.FromFile | parser/src/korabli_replay.rs:115-149 | `from_file` on the file's bytes: container, skip 8 bytes, decrypt, inflate, with each failure reported |
| KorabliReplay.BadHeaderRejected | parser/src/korabli_replay.rs:94-99 | a file with any other first four bytes is rejected as an invalid header, whatever follows |
| KorabliReplay.UnwrapOfEncoded | parser/src/korabli_replay.rs:115-149 | end to end: metadata, extra blocks and packet stream come back from a file built with the inverse cipher |
| ClientVersion.FromClientExe | parser/src/version.rs:16-25 | a version is read only from exactly four comma-separated parts |
| ClientVersion.ClientExeRoundTrip | parser/src/version.rs:16-25 | every version, written as the game writes it, parses back to itself |
| ClientVersion.WrongCountRejected | parser/src/version.rs:17-18 | a string with other than four parts fails on the part-count assertion |
| ClientVersion.ParsesAsSpelled | parser/src/version.rs:16-25 | the four numbers spelled in decimal and joined by commas parse to that version |
| ClientVersion.ClientExeStringSpelled | parser/src/version.rs:16-25 | the game's spelling of a version is its four decimals separated by commas |
| ClientVersion.ToPathExactlyTriple | parser/src/version.rs:27-29 | two versions have the same path exactly when major, minor and patch agree |
| ClientVersion.IsAtLeastByRank | parser/src/version.rs:31-45 | `is_at_least` is the order of the reference rank (major, minor, patch) read as one number |
| ClientVersion.IsAtLeastIgnoresBuild | parser/src/version.rs:31-45 | the build number never affects `is_at_least` |
| ClientVersion.IsAtLeastReflexive | parser/src/version.rs:31-45 | every version is at least itself |
| ClientVersion.IsAtLeastTotal | parser/src/version.rs:31-45 | of any two versions one is at least the other |
| ClientVersion.IsAtLeastTransitive | parser/src/version.rs:31-45 | `is_at_least` is transitive |
| ClientVersion.IsAtLeastAntisymmetric | parser/src/version.rs:31-45 | versions at least each other have the same path |
| ClientVersion.Parses0_10_9_0 | parser/src/version.rs:90 | "0,10,9,0" parses to version 0.10.9 build 0 |
| ClientVersion.Parses0_10_10_0 | parser/src/version.rs:91 | "0,10,10,0" parses to version 0.10.10 build 0 |
| ClientVersion.Parses0_11_0_0 | parser/src/version.rs:98 | "0,11,0,0" parses to version 0.11.0 build 0 |
| ClientVersion.Parses0_11_5_0 | parser/src/version.rs:104 | "0,11,5,0" parses to version 0.11.5 build 0 |
| ClientVersion.Parses1_0_0_0 | parser/src/version.rs:105 | "1,0,0,0" parses to version 1.0.0 build 0 |
| ClientVersion.DifferentPatch | parser/src/version.rs:88-93 | the test `different_patch`: both strings parse and the newer is at least the older, not the reverse |
| ClientVersion.DifferentMinor | parser/src/version.rs:95-100 | the test `different_minor` |
| ClientVersion.DifferentMajor | parser/src/version.rs:102-107 | the test `different_major` |
| Pickle.ConvertBytes | parser/src/analyzer/decoder.rs:454-460 | a byte string becomes the string it encodes exactly when it is valid UTF-8, and stays bytes exactly when it is not |
| Pickle.ConvertHashableBytes | parser/src/analyzer/decoder.rs:429-435 | the same for hashable byte strings |
| Pickle.ConvertKeepsScalars | parser/src/analyzer/decoder.rs:491 | every other scalar passes through unchanged |
| Pickle.ConvertKeepsShape | parser/src/analyzer/decoder.rs:461-490 | lists, tuples, sets, frozen sets and dictionaries keep their kind and their length |
| Pickle.ForgetConvertHashable | parser/src/analyzer/decoder.rs:425-450 | conversion changes nothing but the spelling of UTF-8 byte strings, in hashable values |
| Pickle.ForgetConvert | parser/src/analyzer/decoder.rs:452-493 | conversion changes nothing but the spelling of UTF-8 byte strings, anywhere in a value |
| Pickle.ConvertHashableIsNormal | parser/src/analyzer/decoder.rs:425-450 | a converted hashable value has no UTF-8 byte string left |
| Pickle.ConvertIsNormal | parser/src/analyzer/decoder.rs:452-493 | a converted value has no UTF-8 byte string left anywhere |
| Pickle.NormalHashableIsFixed | parser/src/analyzer/decoder.rs:425-450 | a hashable value without UTF-8 byte strings is left unchanged |
| Pickle.NormalIsFixed | parser/src/analyzer/decoder.rs:452-493 | a value without UTF-8 byte strings is left unchanged |
| Pickle.FixedIffNormal | parser/src/analyzer/decoder.rs:452-493 | conversion leaves a value unchanged exactly when it holds no UTF-8 byte string |
| Pickle.ConvertIdempotent | parser/src/analyzer/decoder.rs:452-493 | converting twice is converting once |
| Pickle.ConvertHashableIdempotent | parser/src/analyzer/decoder.rs:425-450 | the same for hashable values |
| Decoder.CameraModeCodeOf | parser/src/analyzer/decoder.rs:511-524 | every camera-mode code maps back to itself; the mode is `Unknown` exactly for the codes without a name |
| Decoder.CameraModeOfCode | parser/src/analyzer/decoder.rs:511-524 | every named mode, and every `Unknown` of an unnamed code, comes back from its code |
| Decoder.CruiseStateKeyOf | parser/src/analyzer/decoder.rs:537-563 | every cruise-state key maps back to itself; the state is `Unknown` exactly past key 2 |
| Decoder.CruiseStateOfKey | parser/src/analyzer/decoder.rs:537-563 | every state comes back from its key |
| Decoder.ChatOfIff | parser/src/analyzer/decoder.rs:630-648 | a chat RPC decodes to Chat(e, s, a, m) exactly when it comes from e, argument 0 is s, and arguments 1 and 2 are the UTF-8 of a and m |
| Decoder.ChatOfFails | parser/src/analyzer/decoder.rs:631-647 | a decoded chat RPC is a Chat; it fails on argument 1's UTF-8 or on argument 0's kind exactly in the cases the source checks |
| Decoder.FromEntityMethod | parser/src/analyzer/decoder.rs:623-787 | the method with its loops computes exactly the entity-method payload: chat, arena state, or the packet passed on |
| Decoder.OtherMethodPassesThrough | parser/src/analyzer/decoder.rs:784-786 | an entity method is passed on unchanged exactly when it is neither the chat nor the arena-state method |
| Decoder.ArenaStatePlayers | parser/src/analyzer/decoder.rs:649-783 | a decoded arena state carries args 0 and 1 and one player per element of the converted roster, each that element's record, in order |
| Decoder.NonBotsAreNotBots | parser/src/analyzer/decoder.rs:790-795 | the filter keeps exactly the entities that are not bots |
| Decoder.EntityInfoIsMap | parser/src/analyzer/decoder.rs:789-818 | `from_entity_info` maps the record reader over the non-bot entities, the first failure aborting |
| Decoder.EntityInfoKeepsNonBots | parser/src/analyzer/decoder.rs:789-818 | it succeeds exactly when every non-bot entity reads, giving one record per non-bot entity in order, each with an empty raw map |
| Decoder.PlayerOfEntityReads | parser/src/analyzer/decoder.rs:802-811 | a record is read exactly when the seven properties are present, and holds their string and u32 readings |
| Decoder.CameraModeDecoded | parser/src/analyzer/decoder.rs:511-524 | a camera-mode packet never fails; it is an Audit exactly when auditing an unnamed code, otherwise the mode with that code |
| Decoder.CameraModeTable | parser/src/analyzer/decoder.rs:512-517 | codes 3, 5, 6, 8, 9, 11 are OverheadMap, FollowingShells, FollowingPlanes, FollowingShip, FreeFlying, FollowingSubmarine |
| Decoder.FreeLookDecoded | parser/src/analyzer/decoder.rs:526-536 | free look 0 is off, anything else on, or an Audit exactly when auditing a value above 1 |
| Decoder.CruiseStateDecoded | parser/src/analyzer/decoder.rs:537-563 | a cruise state keeps its value and gets the state with its key, or is an Audit exactly when auditing a key above 2 |
| Decoder.NoAuditWithoutFlag | parser/src/analyzer/decoder.rs:500-621 | without the audit flag no packet decodes to an Audit |
| Decoder.MapAudited | parser/src/analyzer/decoder.rs:564-585 | when auditing, a map is diverted exactly when its flag is not 0 or 1 or its matrix is not the identity; otherwise it passes |
| Decoder.UnknownAudited | parser/src/analyzer/decoder.rs:601-618 | when auditing, an unknown packet is diverted exactly when it is of type 0x18 and not the expected 52 bytes |
| Decoder.AuditOnlyDiverts | parser/src/analyzer/decoder.rs:500-621 | the flag changes only camera-mode, free-look, cruise-state, map and unknown packets, and only into an Audit |
| Decoder.DecodePacketKeepsFrame | parser/src/analyzer/decoder.rs:833-847 | a packet decodes exactly when its payload does, keeping its type and clock |
| Arena.TryMapFails | parser/src/analyzer/decoder.rs:676-696 | one failing element fails the whole collection |
| Arena.TryMapElementwise | parser/src/analyzer/decoder.rs:676-696 | when every element succeeds the result holds each element's value in order after what was collected |
| Arena.TryMapAcc | parser/src/analyzer/decoder.rs:676-696 | what was collected before only prefixes the result and never changes success or the error |
| Arena.TryMapSucceeds | parser/src/analyzer/decoder.rs:676-696 | the collection succeeds exactly when each element does, and is then one value per element in order |
| Arena.SnapshotListElementwise | parser/src/analyzer/decoder.rs:676-696 | a snapshot list reads exactly when each element is a dictionary or None that reads, one snapshot per element |
| Arena.CollectSnapshots | parser/src/analyzer/decoder.rs:666-698 | the loop that fills `arg2` computes exactly the snapshot map |
| Arena.SnapshotsKeys | parser/src/analyzer/decoder.rs:667-698 | `arg2` reads exactly when every entry has an i64 key and a list that reads, and then holds exactly the entries' keys |
| Arena.SnapshotsLastWriteWins | parser/src/analyzer/decoder.rs:667-697 | under each entry's key `arg2` holds the snapshot list of the last entry with that key; a key no entry names keeps its earlier list |
| Arena.CollectProperties | parser/src/analyzer/decoder.rs:713-724 | the loop that fills `values` computes exactly the property map of the player's list |
| Arena.PropertiesKeys | parser/src/analyzer/decoder.rs:714-724 | the property map reads exactly when every tuple has an i64 key and a value, and then holds exactly the tuples' keys |
| Arena.PropertiesLastWriteWins | parser/src/analyzer/decoder.rs:714-721 | under each tuple's key the map holds the second item of the last tuple with that key; a key no tuple names keeps its earlier value |
| Arena.PlayerOfSucceeds | parser/src/analyzer/decoder.rs:726-775 | a player is read exactly when the eight properties are present with the kinds matched, and holds their values and every property shown |
| Arena.DumpRaw | parser/src/analyzer/decoder.rs:747-750 | the loop that fills `raw` shows every property, under its key |
| Arena.PlayerFromValues | parser/src/analyzer/decoder.rs:726-775 | the statement sequence computes exactly the player record of the property map |
| Arena.CollectPlayers | parser/src/analyzer/decoder.rs:710-777 | the roster loop computes exactly the player list |
| Arena.PlayersOnePerElement | parser/src/analyzer/decoder.rs:710-777 | a roster that is not a list has no players; a list decodes exactly when each element does, one record per element in order |
| Usernames.InsertPlayers | chatrans/src/processor/processor.rs:75-78 | the upsert loop computes exactly the directory, and the first id that does not fit an i32 |
| Usernames.UpsertedKeepsKeys | chatrans/src/processor/processor.rs:75-78 | the upsert never removes a key, whether or not it runs to the end |
| Usernames.UpsertedOverflow | chatrans/src/processor/processor.rs:77 | the upsert stops exactly when some id does not fit an i32, and then at the first such id |
| Usernames.UpsertedLastWriteWins | chatrans/src/processor/processor.rs:75-78 | when every id fits, the directory holds the old keys and the roster's, each roster id naming the last player with it, every other key unchanged |
| ChatAnalyzer.ChatLogger.constructor | parser/src/analyzer/chat.rs:16-22 | `build` starts with an empty directory and the version the game wrote |
| ChatAnalyzer.ChatLogger.Process | parser/src/analyzer/chat.rs:33-78 | `process` ends, updates the directory and prints as the step function says, appending to what was printed |
| ChatAnalyzer.UnknownChatDropped | parser/src/analyzer/chat.rs:46-49 | a chat from an unknown sender prints nothing and changes nothing |
| ChatAnalyzer.KnownChatPrinted | parser/src/analyzer/chat.rs:50-57 | a chat from a known sender prints one line of clock, username, audience and message |
| ChatAnalyzer.VoiceLineNeedsSender | parser/src/analyzer/chat.rs:59-67 | a voice line fails exactly when its sender is unknown, and never changes the directory |
| ChatAnalyzer.DirectoryOnlyGrows | parser/src/analyzer/chat.rs:33-78 | no packet removes a key, and only an arena state changes the directory |
| ChatAnalyzer.RosterLastWriteWins | parser/src/analyzer/chat.rs:69-75 | a roster whose ids all fit succeeds and names each id after the last player listed with it |
| ChatAnalyzer.RosterOverflowFails | parser/src/analyzer/chat.rs:73 | a roster with an id that does not fit an i32 fails |
| Processor.Channel.constructor | chatrans/src/processor/processor.rs:28 | a new channel is open and has accepted nothing |
| Processor.Channel.Close | chatrans/src/processor/processor.rs:67 | once closed, the channel keeps what it accepted |
| Processor.Channel.SendBlocking | chatrans/src/processor/processor.rs:67-72 | an open channel accepts the message at the end; a closed one refuses it and is unchanged |
| Processor.ChatLogger.constructor | chatrans/src/processor/processor.rs:26-34 | `build` starts with an empty directory and the given sender |
| Processor.ChatLogger.Process | chatrans/src/processor/processor.rs:45-82 | `process` ends and updates the directory as the step function says, whatever the channel does; its message is queued exactly when the channel is open |
| Processor.UnknownChatSendsNothing | chatrans/src/processor/processor.rs:56-58 | a chat from an unknown sender sends nothing and changes nothing |
| Processor.KnownChatSends | chatrans/src/processor/processor.rs:67-72 | a chat from a known sender sends one message of clock, username, audience and message |
| Processor.ChatPacketSends | chatrans/src/processor/processor.rs:45-72 | from the wire: a chat RPC with sender s and the UTF-8 of a and m sends exactly (clock, s's name, a, m) when s is known, else nothing |
| Processor.OtherPayloadsIgnored | chatrans/src/processor/processor.rs:80 | every payload but a chat and a roster sends nothing and changes nothing |
| Processor.DirectoryOnlyGrows | chatrans/src/processor/processor.rs:42-82 | no packet removes a key; only a roster changes the directory, and a step that sends never does |
| Processor.RosterLastWriteWins | chatrans/src/processor/processor.rs:74-79 | a roster whose ids all fit succeeds and names each id after the last player listed with it |
| Processor.RosterOverflowFails | chatrans/src/processor/processor.rs:77 | a roster with an id that does not fit an i32 fails |
| Interpreter.LanguageFrom | chatrans/src/interpreter/interpreter.rs:16-27 | "en" and only "en" gives English; "zh" and every other string give Chinese |
| Interpreter.LanguageName | chatrans/src/interpreter/interpreter.rs:29-36 | the name is "zh" or "en", and "en" exactly for English |
| Interpreter.LanguageRoundTrip | chatrans/src/interpreter/interpreter.rs:16-36 | reading back a language's name gives the language |
| Interpreter.NameRoundTrip | chatrans/src/interpreter/interpreter.rs:16-36 | a string survives the trip through a language exactly when it is "zh" or "en" |
| Interpreter.New | chatrans/src/interpreter/interpreter.rs:44-59 | the language is read from the string, and a client holding the credentials exists exactly when both are given |
| Interpreter.Translate | chatrans/src/interpreter/interpreter.rs:61-91 | without a client, or when the service gives no translation, the text comes back unchanged; otherwise the service's translation is returned |
| Interpreter.NoCredentialsPassThrough | chatrans/src/interpreter/interpreter.rs:50-64 | an interpreter built without both credentials never changes a text |

## Left out

- Blowfish, zlib, serde_json and serde_pickle's reader are foreign code. They
  are function parameters (`KorabliReplay.Codecs`, `Packets.Codecs`).
  Blowfish is keyed with `BLOWFISH_KEY`, which is kept only as a constant.
- Opening and reading the replay file (`parser/src/korabli_replay.rs:116-118`)
  is I/O. `FromFile` starts from the file's bytes.
- `ReplayMeta` keeps only eight of serde's fields.
- The packet framing (`packet2`, `rpc`) is not part of this model. `Packets`
  keeps only the fields the decoder reads. The entity properties' `as_string`
  and `as_u32` are given as two readings carried by each property.
- `unpack_rpc_args!` is not part of this model. Arguments 0 and 1 of the
  arena-state RPC are taken to be an i64 and an i8, and any other kind fails.
- Floating point: f32 clocks and floats are kept as bit patterns, because the
  core only copies them. `println!`, `debug!`, `warn!` and the rendering of
  floats are left out; printed lines are kept as records.
- `{:?}` formatting of pickle values is the `show` parameter. The audit texts
  use a decimal rendering of their numbers.
- serde_pickle's sets and dictionaries are B-tree collections. Here they are
  sequences in iteration order. Re-collecting a converted set or dictionary
  (two keys that become equal strings merging) is not modelled.
- In `from_entity_info` (`parser/src/analyzer/decoder.rs:796-801`) the
  `debug!` lines unwrap the same properties in another order. They run only
  when debug logging is on. The model takes logging to be off, so the first
  missing property it reports can differ from a run with logging on.
- `parser/src/analyzer/chat.rs:34` calls `DecodedPacket::from` with three
  arguments. The decoder shown takes two, so chat.rs is not current with it.
  The model decodes with the audit flag off, and the version is only kept.
- `ChatAnalyzer.ChatLogger.constructor`: the version parse panics in `build`
  on a malformed string. This is stated as a precondition rather than as an
  error result.
- `KorabliReplay.ProcessUnknownMeta`: a block count of zero makes
  `blocks_count - 1` underflow. A debug build panics there. A release build
  wraps around and reads 2^32 - 1 blocks. The model reports the underflow
  error.
- `KorabliReplay.DecryptChainBlock`: block k is stated in prefix form, as the
  decryption of the first k + 1 blocks. It is not stated as an index into the
  whole plaintext; `DecryptChainPrefix` links the two.
- `Processor.Channel.SendBlocking`: blocking until the receiver has room, and
  the receiving side, are concurrency; they are not modelled. The channel is
  a record of what it accepted and whether it is closed.
- `Interpreter.Translate`: the post body, the HTTP request through
  `AliyunCli`, and the parsing of the reply
  (`chatrans/src/interpreter/interpreter.rs:66-91`) are a `service`
  parameter. The panics of its two `unwrap`s are not modelled.
  `chatrans/src/interpreter/aliyun_cli.rs` is not part of this model.
- `Decoded.PropertyId` gives the discriminants of `ReplayPlayerProperty`.
  It has no lemma of its own.
