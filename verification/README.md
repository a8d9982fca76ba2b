# Last-Stand main server: a verified model

The server exchanges Protocol Buffers messages in length-prefixed packets,
keeps players in rooms whose work is queued as jobs, tracks health that comes
back over time, and loads a text map. This project models those parts in Dafny
and proves what they promise, for every input and every run.

**Codec.** `Wire` has the primitives of the wire format, `Records` the reading
and writing of single fields of any number and wire type (groups included), and
`Codec` the meaning of the generated code for any message type: a `Schema`
lists the fields of a message, `Parse` folds the records of an input into a
message value, `Serialize` and `Size` write and size its canonical records,
`Merge` merges. `WireForms` and `MessageBytes` say the same byte by byte, with
numbers for tags, independently of those functions. `CodecLaws`,
`CodecTheorems`, `CodecMerge` and `CodecBounds` prove the laws once, for every
schema; `Schemas` lists the 23 packet types and the two structs and shows that
all are in scope. Floats are their 32 bits, bools are 0 or 1, and an absent
scalar equals its default, as in the generated code. Input is a bounded byte
sequence; the library's read-ahead region appears only through the length limit
`MAX_LENGTH` and through the parameter `chunkEnd` of the fast loops, which hold
for every place a chunk may end.

**Message classes.** `PositionInfos`, `ObjectInfos`, `ObjectInfoLists` (a
repeated `ObjectInfo`), `Spawns`, `SpawnAlls`, `EnterGameRooms`, `Despawns` and
`Respawns` are the generated classes with their fields, cached sizes and
in-place buffers. Every method is proved against the codec of its schema, so
the laws hold of the objects. Cached sizes are cells of their own: the writing
pass reads them and never computes a size.

**Framing.** `Framing` builds and cuts packets and dispatches them; `Packets`
spells out all their bytes, for every value of the fields; `HeaderBounds` finds
how many players fit one packet.

**Map.** `MapText` has getline and stoi, `MapDatas` the loader and its index.

**Health.** `VitalSigns` has hits, regeneration and refills on 32-bit health.

**Rooms.** `RoomWorld` is the state machine of joins, leaves, deaths, respawns
and queued jobs, with its invariants over all runs, and `Rosters` says what the
clients show of it. `Rooms` and `RoomManagers` are the objects; each manager
operation performs one step of `RoomWorld`, with the abstract state kept in the
ghost field `world`, and so keeps its invariant. `JobSerializer` is not part of
this model: a room runs its jobs one at a time in the order they were pushed,
and steps of different players and rooms interleave freely. The repository's
own README says that a room processes its work in sequence; in the code,
entering a room and dying act on the room outside its queue, and the model
follows the code.

Every lemma carries `{:induction false}`: automatic induction is off.

Findings, each with an input and its exact condition: a second load of the map
breaks the walkable index (`MapDatas.LoadKeepsExact`, `MapDatas.Reloads`,
`MapDatas.ReloadExample`; every new room loads it again). A hit larger than the
health does not kill and the next regeneration may restore full health; a
damage of 2^31 or more is a negative amount and may heal beyond the maximum
(`VitalSigns.HitOutcome`, `VitalSigns.RangeExactly`, the two examples).
Rejoining a room before the leave job has run ends the new membership
(`RoomWorld.JoinLasts`, `RoomWorld.RejoinExample`). Joining another room without
waiting for the leave job spoils the client's roster (`RoomWorld.JoinShows`,
`RoomWorld.StrayExample`), and so does a respawn job that is not harmless
(`RoomWorld.RespawnExactly`, `RoomWorld.RespawnExample`);
`RoomWorld.RostersExactly` has both over whole runs, and
`Rosters.ShownExactly` says when clients really see a wrong roster. A respawn
job may run for a player that is in no room (`RoomWorld.RespawnOfLeaver`,
`RoomWorld.AbsentExample`, `RoomManagers.RoomManager.RunJob`). A header of size
0 keeps the receiving loop busy forever (`Framing.LoopEnds`,
`Framing.ForeverExample`). A player that has left is ticked until its leave job
has run, without a room that regeneration needs (`RoomWorld.LeaverExample`,
`VitalSigns.NewPlayerTicks`, `RoomManagers.RoomManager.LeaverCannotTick`,
`RoomManagers.RoomManager.DrainedRoomTicks`). An explicit zero on the wire
resets a field where a merge keeps it (`CodecMerge.MergesExactly`,
`CodecMerge.ResetExample`).

Where the code goes on with the null pointer of a room or an attacker, or lets
an exception out, the operation ends there with the `Outcome` that says so.

The bodies of `Session/Room.cpp` (constructor 8-11, entering 32-51, leaving
53-78, broadcast 80-90, attack 118-134, respawn 136-181, tick 240-251) and of
`Session/GameSession.cpp` (receive loop 9-35) are cited by their declarations:
those files are not valid UTF-8 text.

## Model

| member | source | states |
|---|---|---|
| Wire.RawVarintOfEncode | vcpkg_installed/x64-windows/x64-windows/include/google/protobuf/io/coded_stream.h:899-908 | Reading back any encoded number gives it and its length, and fails only when the encoding is longer than the reader's limit |
| Wire.EncodeLength | vcpkg_installed/x64-windows/x64-windows/include/google/protobuf/io/coded_stream.h:899-908 | A number takes at most k bytes exactly when it is below 128 to the power k |
| Wire.VarintSizeExact | vcpkg_installed/x64-windows/x64-windows/include/google/protobuf/io/coded_stream.h:1727-1758 | The size from the position of the top bit counts exactly the bytes written |
| Wire.VarintSize64Exact | vcpkg_installed/x64-windows/x64-windows/include/google/protobuf/io/coded_stream.h:1744-1752 | The library's multiply-and-shift size formula equals the division by seven and the bytes written, for all 64-bit numbers |
| Wire.SignExtendTruncate | Protocol/Struct.pb.cc:513-520 | Every 32-bit enum value, negative ones included, survives sign extension and truncation; its size term is the bytes written, ten when negative |
| Wire.FixedRoundTrip | Protocol/Struct.pb.cc:497-511 | Fixed 32- and 64-bit values read back as written |
| WireForms.EncodedGroups | vcpkg_installed/x64-windows/x64-windows/include/google/protobuf/io/coded_stream.h:899-908 | The bytes of a number are the shortest way to write it in groups of seven bits, low group first, the top bit saying that more follow |
| WireForms.VarintOfGroups | Protocol/Struct.pb.cc:219-247 | Any varint, shortest or not, is read as the number of its groups: up to ten bytes of which 64 or 32 bits are kept, five for a tag or a length, lengths up to 2147483631 |
| WireForms.OpenVarint | Protocol/Struct.pb.cc:219-247 | Bytes that all say that more follow are no varint |
| WireForms.FixedBytes | Protocol/Struct.pb.cc:497-511 | Fixed 32-bit values are their four bytes, low byte first; so are 64-bit ones (LongFixedBytes) |
| WireForms.TwosComplement | Protocol/Struct.pb.cc:513-520 | Enum values go out equal modulo 2^64 and come back equal modulo 2^32 |
| WireForms.Utf8Exactly | Protocol/Struct.pb.cc:233-238 | A text is accepted exactly when it encodes some sequence of Unicode characters, surrogates excluded, in 7, 11, 16 or 21 bits each |
| WireForms.HangulExample | Protocol/Struct.pb.cc:233-238 | One syllable in three bytes is accepted, without its last byte or as a surrogate it is not |
| Records.ReadRecord | Protocol/Struct.pb.cc:219-271 | A record that is read takes at least one byte and stays inside the input, so every parse makes progress and ends |
| Records.ReadLen | Protocol/Struct.pb.cc:248-255 | A length-delimited field never reaches past the input it is in |
| Records.ReadRecordsOfWrite | Protocol/Protocol.pb.cc:1368-1432 | Written records read back as the same records exactly when each is within the length, number and depth limits |
| Records.ReadRecordsConcat | Protocol/Protocol.pb.cc:1368-1432 | Reading a concatenation reads the first part and then the second |
| Records.ReadRecordsFit | Protocol/Protocol.pb.cc:1368-1432 | Every record that was read is within the limits |
| Records.RecordsSizeExact | Protocol/Struct.pb.cc:355 | The size counted for kept unknown fields is the length of their bytes |
| WireForms.RecordBytes | Protocol/Struct.pb.cc:257-269 | The tag and payload of each wire type, and the two tags around a group |
| WireForms.RejectedTag | Protocol/Struct.pb.cc:257-269 | Wire types 6 and 7, a stray end tag and field number 0 are rejected |
| WireForms.Truncated | Protocol/Struct.pb.cc:257-269 | No proper prefix of a written field is accepted |
| WireForms.ClosedByOther | Protocol/Struct.pb.cc:257-269 | A group is closed by its own end tag only |
| WireForms.LengthLimit | Protocol/Struct.pb.cc:257-269 | A length-delimited field is read exactly up to 2147483631 bytes |
| CodecLaws.MergeDefaultLeft | Protocol/Struct.pb.cc:365-394 | Merging any message into a cleared one gives that message, recursively |
| CodecLaws.MergeDefaultRight | Protocol/Struct.pb.cc:365-387 | Merging a cleared message changes nothing |
| CodecLaws.MergeAssociative | Protocol/Protocol.pb.cc:1514-1533 | Merging is associative on all messages, through sub-messages and repeated fields |
| CodecLaws.SizeExact | Protocol/Protocol.pb.cc:1474-1505 | The computed size of any message is the length of its serialization |
| CodecLaws.ParseAppend | Protocol/Protocol.pb.cc:1368-1432 | Parsing an input and going on with another equals parsing their concatenation |
| CodecLaws.ParseSerialized | Protocol/Struct.pb.cc:217-278 | Parsing the serialization of a well-formed message into any message merges it |
| CodecTheorems.RoundTrip | Protocol/Struct.pb.cc:217-321 | Any message parses back from its serialization exactly when it is well-formed: valid UTF-8, unknown fields that are really unknown, lengths and nesting within limits |
| CodecTheorems.ParseContent | Protocol/Struct.pb.cc:217-278 | Whatever a parser produces has valid UTF-8, only unknown fields among the unknown, and nesting within the limit |
| CodecTheorems.SuccessFits | Protocol/Struct.pb.cc:280-321 | A serialized message that parses at all has every nested and packed length within the limit |
| CodecTheorems.ParseNormalises | Protocol/Protocol.pb.cc:1368-1472 | Serializing what was parsed from any accepted input and parsing again gives the same message exactly when its nested lengths fit |
| CodecTheorems.ParseAppendMerges | Protocol/Protocol.pb.cc:1514-1533 | Last one wins: an input followed by a serialized message parses to the merge of the two |
| CodecMerge.MergesExactly | Protocol/Struct.pb.cc:217-278 | For every accepted input: parsing it into any message at all merges what it parses to alone, exactly when no singular field in it, of a sub-message neither, is last set to its default |
| CodecMerge.AppendMerges | Protocol/Struct.pb.cc:217-278 | Two inputs, the second of that kind, parse one behind the other to the merge of what they parse to |
| CodecMerge.SerializedOverwrites | Protocol/Struct.pb.cc:280-321 | What a serializer writes is of that kind |
| CodecMerge.ResetExample | Protocol/Struct.pb.cc:225-231 | The bytes 8, 0 reset an id when they are parsed into a message and keep it when their message is merged |
| CodecTheorems.FoldFieldwise | Protocol/Struct.pb.cc:219-271 | A parse splits into independent parses of the single fields: it succeeds when all do, with their values, and keeps the unknown fields in order |
| CodecTheorems.FieldOrder | Protocol/Struct.pb.cc:219-271 | Records can be reordered freely as long as those of one field, and the unknown ones, keep their order |
| CodecTheorems.SwapAdjacent | Protocol/Struct.pb.cc:219-271 | In any input, two adjacent complete records of different numbers, one of them known, can be swapped without changing the outcome |
| CodecTheorems.PermutedEncoding | Protocol/Struct.pb.cc:219-271 | Any permutation of the records of a canonical encoding of singular fields parses to the same message |
| CodecTheorems.FoldPacked | Protocol/Protocol.pb.cc:3522-3544 | A run of packed chunks and single entries yields the concatenation of their values, or fails with the first bad chunk |
| CodecBounds.ReadRecordsMinimal | Protocol/Protocol.pb.cc:1368-1432 | Records written again are never longer than the bytes they were read from |
| CodecBounds.ParseGrowth | Protocol/Protocol.pb.cc:1368-1505 | Parsing an input adds at most three times its length to the size of a message |
| CodecBounds.SmallFits | Protocol/Protocol.pb.cc:1474-1505 | A message whose total size is within the limit has all nested sizes within it |
| CodecBounds.ParseNormalisesSmall | Protocol/Protocol.pb.cc:1368-1472 | For every accepted input up to a third of the limit, serializing and parsing again gives the same message |
| Schemas.StructSchemas | Protocol/Struct.pb.cc:91-98 | Both struct types are in the scope of the laws: distinct field numbers with one-byte tags |
| Schemas.RequestSchemas | Protocol/Protocol.pb.cc:573-607 | So are the request types |
| Schemas.ScalarResponseSchemas | Protocol/Protocol.pb.cc:573-607 | So are the response types without sub-messages |
| Schemas.AttackSchemas | Protocol/Protocol.pb.cc:573-607 | So are the attack packets |
| Schemas.NestedSchemas | Protocol/Protocol.pb.cc:573-607 | So are the types with a sub-message |
| Schemas.RepeatedSchemas | Protocol/Protocol.pb.cc:573-607 | So are the types with a repeated sub-message |
| MessageBytes.PositionBytes | Protocol/Struct.pb.cc:546-585 | The bytes of every PositionInfo with its tags 13, 21 and 24 spelled out |
| MessageBytes.ObjectBytes | Protocol/Struct.pb.cc:280-321 | The bytes of every ObjectInfo with its tags 8, 18, 24 and 34 spelled out |
| Packets.BodyIs | Protocol/Protocol.pb.cc:1434-1472 | The bytes of every message of each of the 23 packet types, tag by tag and field by field |
| Streams.CachedSize.Set | vcpkg_installed/x64-windows/x64-windows/include/google/protobuf/message_lite.h:107 | A cached size keeps the low 32 bits, so it is exact up to INT_MAX |
| Streams.ParseAt | Protocol/Struct.pb.cc:219-222 | One round of the dispatch loop: the tag, rejection at a zero or end-group tag, then the field |
| Streams.ExpectedTag | Protocol/Protocol.pb.cc:1391 | A peeked byte below 128 is the whole next tag, so staying in the inner loop is a step of the plain one |
| Streams.UnknownCase | Protocol/Struct.pb.cc:257-269 | A tag that no case of the switch accepts is kept as an unknown field |
| Streams.Layout | Protocol/Struct.pb.cc:280-321 | The bytes of a message are those of its fields in order and then the unknown ones; so is its size |
| Streams.Varint32Of64 | Protocol/Struct.pb.cc:241-247 | A 32-bit field takes the bytes of a 64-bit varint and keeps the low half |
| Streams.WriteVarint | vcpkg_installed/x64-windows/x64-windows/include/google/protobuf/io/coded_stream.h:899-908 | The in-place varint loop writes exactly the encoding and nothing behind it |
| PositionInfos.PositionInfo.Clear | Protocol/Struct.pb.cc:480-490 | Leaves the default message |
| PositionInfos.PositionInfo.Written | Protocol/Struct.pb.cc:546-585 | Which field of the object goes out behind which tag |
| PositionInfos.PositionInfo.InternalParse | Protocol/Struct.pb.cc:492-544 | Accepts exactly the inputs that the codec parses into the present value, with that result |
| PositionInfos.PositionInfo.ByteSizeLong | Protocol/Struct.pb.cc:587-620 | Returns the codec's size and caches it |
| PositionInfos.PositionInfo.InternalSerialize | Protocol/Struct.pb.cc:546-585 | Writes exactly the serialization, as many bytes as were computed, and nothing else |
| PositionInfos.PositionInfo.MergeFrom | Protocol/Struct.pb.cc:629-655 | The new value is the merge of both |
| PositionInfos.PositionInfo.CopyFrom | Protocol/Struct.pb.cc:657-662 | The new value is that of the source, itself included |
| ObjectInfos.ObjectInfo.Clear | Protocol/Struct.pb.cc:200-215 | Leaves the default message without a sub-message |
| ObjectInfos.ObjectInfo.Written | Protocol/Struct.pb.cc:280-321 | Which field of the object goes out behind which tag |
| ObjectInfos.ObjectInfo.InternalParse | Protocol/Struct.pb.cc:217-278 | Accepts exactly what the codec parses into the present value, sub-message presence included |
| ObjectInfos.ObjectInfo.ParsePosInfo | Protocol/Struct.pb.cc:248-255 | A nested message is parsed into the one already there, inside its length |
| ObjectInfos.ObjectInfo.ByteSizeLong | Protocol/Struct.pb.cc:323-356 | Sums the fields in its own order to the codec's size; the nested cached size is then exact |
| ObjectInfos.ObjectInfo.InternalSerialize | Protocol/Struct.pb.cc:280-321 | With exact cached sizes, writes exactly the serialization |
| ObjectInfos.ObjectInfo.WritePosInfo | Protocol/Struct.pb.cc:309-313 | The sub-message written with its cached size is its canonical record |
| ObjectInfos.ObjectInfo.MergeFrom | Protocol/Struct.pb.cc:365-387 | The new value is the merge, recursively through posInfo, for two messages that share no parts |
| ObjectInfos.ObjectInfo.CopyFrom | Protocol/Struct.pb.cc:389-394 | The new value is that of the source |
| ObjectInfoLists.ObjectInfoList.AddParsed | Protocol/Protocol.pb.cc:1386-1388 | Appends one element parsed from a new message |
| ObjectInfoLists.ObjectInfoList.ByteSize | Protocol/Protocol.pb.cc:1482-1487 | One byte per element plus lengths and bodies is the codec's size of the field; every element's cached size is then exact |
| ObjectInfoLists.ObjectInfoList.WriteAll | Protocol/Protocol.pb.cc:1446-1452 | Writes the canonical records of all elements from cached sizes alone |
| ObjectInfoLists.ObjectInfoList.MergeFrom | Protocol/Protocol.pb.cc:1522 | Appends copies that share nothing with the source |
| EnterGameRooms.RES_ENTER_GAMEROOM.Clear | Protocol/Protocol.pb.cc:1355-1366 | Leaves the default message |
| EnterGameRooms.RES_ENTER_GAMEROOM.Written | Protocol/Protocol.pb.cc:1434-1472 | Which field of the object goes out behind which tag |
| EnterGameRooms.RES_ENTER_GAMEROOM.InternalParse | Protocol/Protocol.pb.cc:1368-1432 | With the fast inner loop, and wherever a chunk ends, accepts the inputs of the plain dispatch loop with the same result |
| EnterGameRooms.RES_ENTER_GAMEROOM.ParsePlayers | Protocol/Protocol.pb.cc:1382-1394 | The inner loop hands over to the outer one in a state from which the plain loop comes to the same end |
| EnterGameRooms.RES_ENTER_GAMEROOM.ByteSizeLong | Protocol/Protocol.pb.cc:1474-1505 | Returns the codec's size, or more than INT_MAX together with it; all nested cached sizes are then exact |
| EnterGameRooms.RES_ENTER_GAMEROOM.InternalSerialize | Protocol/Protocol.pb.cc:1434-1472 | Writes exactly the serialization from cached sizes |
| EnterGameRooms.RES_ENTER_GAMEROOM.MergeFrom | Protocol/Protocol.pb.cc:1514-1533 | The new value is the merge, with the source unchanged |
| EnterGameRooms.RES_ENTER_GAMEROOM.CopyFrom | Protocol/Protocol.pb.cc:1535-1540 | The new value is that of the source |
| Spawns.RES_SPAWN.Clear | Protocol/Protocol.pb.cc:3109-3121 | Leaves the default message |
| Spawns.RES_SPAWN.Written | Protocol/Protocol.pb.cc:3168-3193 | Which field of the object goes out behind which tag |
| Spawns.RES_SPAWN.InternalParse | Protocol/Protocol.pb.cc:3123-3166 | Accepts exactly what the codec parses, two levels of sub-messages deep |
| Spawns.RES_SPAWN.ByteSizeLong | Protocol/Protocol.pb.cc:3195-3215 | Returns the codec's size; the cached sizes of both levels are then exact |
| Spawns.RES_SPAWN.InternalSerialize | Protocol/Protocol.pb.cc:3168-3193 | Writes exactly the serialization from cached sizes |
| Spawns.RES_SPAWN.MergeFrom | Protocol/Protocol.pb.cc:3225-3241 | The new value is the merge through both levels |
| Spawns.RES_SPAWN.CopyFrom | Protocol/Protocol.pb.cc:3243-3248 | The new value is that of the source |
| SpawnAlls.RES_SPAWN_ALL.Clear | Protocol/Protocol.pb.cc:3325-3333 | Leaves the default message |
| SpawnAlls.RES_SPAWN_ALL.Written | Protocol/Protocol.pb.cc:3377-3397 | Which field of the object goes out behind which tag |
| SpawnAlls.RES_SPAWN_ALL.InternalParse | Protocol/Protocol.pb.cc:3335-3375 | With the fast inner loop, accepts the inputs of the plain dispatch loop with the same result |
| SpawnAlls.RES_SPAWN_ALL.ParsePlayers | Protocol/Protocol.pb.cc:3344-3350 | The inner loop comes to the same end as the plain one |
| SpawnAlls.RES_SPAWN_ALL.ByteSizeLong | Protocol/Protocol.pb.cc:3399-3415 | Returns the codec's size; all nested cached sizes are then exact |
| SpawnAlls.RES_SPAWN_ALL.InternalSerialize | Protocol/Protocol.pb.cc:3377-3397 | Writes exactly the serialization from cached sizes |
| SpawnAlls.RES_SPAWN_ALL.MergeFrom | Protocol/Protocol.pb.cc:3424-3434 | The new value is the merge |
| SpawnAlls.RES_SPAWN_ALL.CopyFrom | Protocol/Protocol.pb.cc:3436-3441 | The new value is that of the source |
| Despawns.RES_DESPAWN.Clear | Protocol/Protocol.pb.cc:3512-3520 | Leaves the default message |
| Despawns.RES_DESPAWN.Written | Protocol/Protocol.pb.cc:3562-3583 | Which field of the object goes out behind which tag |
| Despawns.RES_DESPAWN.InternalParse | Protocol/Protocol.pb.cc:3522-3560 | Accepts exactly what the codec parses, packed and single entries in any order |
| Despawns.RES_DESPAWN.PackedUInt64Parser | Protocol/Protocol.pb.cc:3530-3532 | Appends the values of a chunk whose varints end exactly at its length, and rejects any other |
| Despawns.RES_DESPAWN.ByteSizeLong | Protocol/Protocol.pb.cc:3585-3607 | Returns the codec's size and caches the packed length |
| Despawns.RES_DESPAWN.UInt64Size | Protocol/Protocol.pb.cc:3594-3595 | The sum over the values is the length of their packed encoding |
| Despawns.RES_DESPAWN.InternalSerialize | Protocol/Protocol.pb.cc:3562-3583 | Writes exactly the serialization, with the cached packed length |
| Despawns.RES_DESPAWN.WriteUInt64Packed | vcpkg_installed/x64-windows/x64-windows/include/google/protobuf/io/coded_stream.h:875-889 | Writes tag, given length and every value in place |
| Despawns.RES_DESPAWN.MergeFrom | Protocol/Protocol.pb.cc:3617-3627 | The new value is the merge |
| Despawns.RES_DESPAWN.CopyFrom | Protocol/Protocol.pb.cc:3629-3634 | The new value is that of the source |
| DespawnIds.AnyInterleaving | Protocol/Protocol.pb.cc:3522-3560 | Any bytes parse to all the ids in them in wire order, in packed chunks or single and among any other fields, and are rejected exactly when they do not consist of fields or a chunk is cut |
| DespawnIds.ChunkingDoesNotMatter | Protocol/Protocol.pb.cc:3522-3560 | Two inputs with the same ids in different chunks parse alike |
| DespawnIds.EncodedChunks | Protocol/Protocol.pb.cc:3522-3560 | The bytes of any sequence of single ids and packed chunks parse to all the ids in order, exactly when the length of every chunk is in range |
| DespawnIds.Repacked | Protocol/Protocol.pb.cc:3562-3607 | Written again the ids are at most one chunk, which reads back as the same ids exactly when its length fits |
| Respawns.REQ_RESPAWN.Clear | Protocol/Protocol.pb.cc:2877-2886 | Leaves the default message |
| Respawns.REQ_RESPAWN.Written | Protocol/Protocol.pb.cc:2935-2963 | Which field of the object goes out behind which tag |
| Respawns.REQ_RESPAWN.InternalParse | Protocol/Protocol.pb.cc:2888-2933 | Accepts exactly what the codec parses into the present value |
| Respawns.REQ_RESPAWN.ByteSizeLong | Protocol/Protocol.pb.cc:2965-2986 | Returns the codec's size and caches it |
| Respawns.REQ_RESPAWN.InternalSerialize | Protocol/Protocol.pb.cc:2935-2963 | Writes exactly the serialization |
| Respawns.REQ_RESPAWN.MergeFrom | Protocol/Protocol.pb.cc:2995-3010 | The new value is the merge |
| Respawns.REQ_RESPAWN.CopyFrom | Protocol/Protocol.pb.cc:3012-3017 | The new value is that of the source |
| Framing.HandlerForId | ServerPacketHandler.h:7-58 | Every request is dispatched under its own id and no response id has a handler |
| Framing.Schemas | Protocol/Protocol.pb.cc:573-607 | Every packet type of the id table is in the scope of the codec laws |
| Framing.FrameHeader | ServerPacketHandler.h:99-101 | The header of a packet gives back its whole length and its id |
| Framing.NewSendBuffer | ServerPacketHandler.h:95-101 | Sizes are kept modulo 65536; the header fits exactly when the body is at most 65531 |
| Framing.MakeDespawnBuffer | ServerPacketHandler.h:68 | A buffer results exactly when the message has at most 65531 bytes, and it is the packet of that message; otherwise the assertion or the buffer size fails |
| Framing.MakeSpawnBuffer | ServerPacketHandler.h:66 | The same for RES_SPAWN |
| Framing.MakeSpawnAllBuffer | ServerPacketHandler.h:67 | The same for RES_SPAWN_ALL |
| Framing.MakeEnterGameRoomBuffer | ServerPacketHandler.h:61 | The same for RES_ENTER_GAMEROOM |
| Framing.ServerPacketHandler.Init | ServerPacketHandler.h:47-59 | All 65535 slots hold the invalid handler but those of the eight requests |
| Framing.ServerPacketHandler.HandlePacket | ServerPacketHandler.h:76-90 | For any id and length: the registered function is called with the parsed message, or none is; or the id is one behind the table, or a handler gets a length below that of the header |
| Framing.GameSession.OnRecv | Session/GameSession.h:11 | On any bytes the loop makes the calls of `Receive` and ends as it says: with less than a packet left, behind the table, with a negative length, or never |
| Framing.LoopEnds | Session/GameSession.h:11 | The loop ends exactly when it never comes to a header of size 0 that has no handler, and then as `Receive` says; those are the inputs for which `Receive` says that it runs forever |
| Framing.ForeverExample | Session/GameSession.h:11 | Four zero bytes keep the loop at the same place for any number of rounds |
| Framing.ReceiveOfCut | Session/GameSession.h:11 | On a stream of whole packets with sizes and ids in range the calls are exactly those of the packets, in order, and the loop ends |
| Framing.CutExactly | Session/GameSession.h:11 | Cutting by the header sizes is the only way to read bytes as whole packets and an incomplete rest |
| Framing.FrameRoundTrip | ServerPacketHandler.h:82-105 | A sent message of at most 65531 bytes is received as an equal message exactly when it can be parsed at all |
| Framing.StreamRoundTrip | ServerPacketHandler.h:76-105 | Any number of requests sent back to back arrive as those requests in order, whatever incomplete packet follows |
| Packets.FrameIs | ServerPacketHandler.h:9-31 | The four header bytes of every packet type with its id spelled out |
| Packets.ParsedAs | ServerPacketHandler.h:82-90 | Every packet of UTF-8 texts and at most 65531 bytes is parsed from the bytes spelled out to the fields that were put in |
| Packets.Received | ServerPacketHandler.h:49-58 | Every such request calls its handler with those fields and every response calls none, and the loop goes on with what follows |
| Packets.AnyHeader | Session/GameSession.h:11 | What the loop does with any bytes, told from the four bytes of the header and the eight request ids |
| Packets.Unparsed | ServerPacketHandler.h:82-90 | A request that cannot be parsed calls nothing, and the loop goes on; so with a name that is not UTF-8 (UnparsedExample) |
| Packets.EnterExample | ServerPacketHandler.h:51 | The bytes of an enter request for any name of 1 to 127 bytes, and what the handler gets |
| Packets.PlainRoundTrip | ServerPacketHandler.h:82-105 | Any message of any packet type, its unknown fields included, is received as it was sent if its texts are UTF-8 and its unknown fields are no groups |
| Packets.NestingLimit | ServerPacketHandler.h:82-90 | Groups one inside the other are received exactly up to a hundred, and up to 99 in a sub-message (NestingLimitInside) |
| Framing.ReceiveInPieces | Session/GameSession.h:11 | What receiving two pieces at once does, against receiving the first: the same as one after the other if the first leaves no bytes over |
| HeaderBounds.PositionFits | Protocol/Struct.pb.cc:587-620 | A PositionInfo with at most u bytes of unknown fields takes at most 21 bytes and u more |
| HeaderBounds.ObjectFits | Protocol/Struct.pb.cc:323-356 | The bound of an ObjectInfo with such a position and a name of at most k bytes |
| HeaderBounds.EntriesFit | Protocol/Protocol.pb.cc:3399-3415 | n players take at most n times the bound of one entry |
| HeaderBounds.LargestRosterSize | Protocol/Protocol.pb.cc:3399-3415 | A roster of n largest players takes exactly that |
| HeaderBounds.HeaderBound | ServerPacketHandler.h:95-96 | For every n, k and u: all rosters of n players with names of at most k bytes and positions with at most u bytes of unknown fields fit the 16-bit size exactly when the n largest entries do |
| HeaderBounds.PlayersOfShortNames | ServerPacketHandler.h:95-96 | With names of at most 127 bytes and no unknown fields, exactly up to 380 players of at most 172 bytes each |
| MapText.SegmentsCons | Storage/MapData.cpp:22 | getline takes the text up to the first delimiter and goes on behind it |
| MapText.StoiExactly | Storage/MapData.cpp:31-32 | stoi takes any text exactly when a digit follows its white space and sign and the number is one of 32 bits, whatever follows the digits; that number is the result |
| MapText.EveryTextSplits | Storage/MapData.cpp:31-32 | Every text has such parts |
| MapText.StoiOfIntText | Storage/MapData.cpp:31-32 | stoi of a written 32-bit number, behind any white space and before anything but a digit, is that number; so it is behind a plus |
| MapDatas.MapData.LoadMapFromTxt | Storage/MapData.cpp:11-46 | A load appends exactly the rows and index entries of the text, up to the cell that stoi rejects, and tells how it ended |
| MapDatas.MapData.LoadRow | Storage/MapData.cpp:24-38 | One line appends its walkable cells at once, before the row itself |
| MapDatas.GetLine | Storage/MapData.cpp:22-29 | One getline call takes the next segment |
| MapDatas.LoadOfText | Storage/MapData.cpp:20-42 | Any grid of 32-bit numbers in comma-joined rows, each padded in any way that stoi takes, loads as that grid cell for cell, empty and ragged rows included, and the index lists its ones row by row |
| MapDatas.LoadOfBadCell | Storage/MapData.cpp:24-38 | A cell that stoi rejects, after any grid and any cells of its row: the grid is kept, the row is not, and the index lists the ones of both |
| MapDatas.LoadKeepsExact | Storage/MapData.cpp:20-53 | A load into an exact map leaves the index exact -- the walkable cells, each once, row by row -- exactly when the map was empty or the text has no walkable cell, and no walkable cell preceded a rejected one in its row |
| MapDatas.MapData.IsWalkable | Storage/MapData.cpp:48-53 | Whether a cell of the map is walkable, false outside it |
| MapDatas.Reloads | Session/Room.h:9 | After k loads of any file the index lists exactly the cells that `IsWalkable` accepts, exactly when k is 0, or no walkable cell came before a rejected one in its row and k is 1 or nothing is walkable |
| MapDatas.ReloadExample | Session/Room.h:9 | A file with one walkable cell is indexed exactly by one load and not by two |
| VitalSigns.Vitals.TakeDamage | Object/GameObject.cpp:25-42 | Health after a hit in 32-bit arithmetic, and death exactly at zero |
| VitalSigns.Vitals.Tick | Object/Player.cpp:49-70 | Health and regeneration time after a tick |
| VitalSigns.NewPlayerTicks | Object/Player.cpp:49-70 | A new player of full health regenerates too, exactly from 5000 milliseconds on |
| VitalSigns.HitExact | Object/GameObject.cpp:27 | A hit takes away exactly its amount exactly when the result is a 32-bit number |
| VitalSigns.HitOutcome | Object/GameObject.cpp:25-42 | For every amount, negative ones included: the health stays in range exactly when health less amount is between 0 and 100; death exactly when the amount is the health; and what the next regeneration makes of it |
| VitalSigns.OverkillExample | Object/GameObject.cpp:25-42 | A hit of 50 on health 10 leaves 4294967256, then full health |
| VitalSigns.OverhealExample | Object/GameObject.cpp:25-42 | A requested damage of 0xFFFFFFFF is the amount -1 and makes health 100 into 101 |
| VitalSigns.RangeExactly | Object/GameObject.cpp:25-42 | Over any run the health stays between 0 and 100 at every point exactly when it is so at the start and each hit, of any sign, leaves health less amount between 0 and 100 |
| VitalSigns.HealthAccount | Object/Player.cpp:49-70 | After any run health is the start less the damage plus the gains, the refills and 2^32 for each time a subtraction wraps; it never does in a run whose hits leave the health in range |
| VitalSigns.RegenerationBound | Object/Player.cpp:57-59 | Regenerations in a window, counted from the last one before it |
| VitalSigns.GainsInWindow | Object/Player.cpp:49-70 | In any window of T milliseconds, whatever the hits, ticks add at most 10 * (T/5000 + 1); they take none away if the hits leave the health in range |
| VitalSigns.NoGainAfterHit | Object/Player.cpp:54-55 | After any run that ends with a hit, whatever happens next, no health comes back within 3000 milliseconds |
| VitalSigns.EventAfterRun | Object/Player.cpp:49-70 | What a hit, a tick and a refill make of the health after any run, told from its events: a tick brings ten points back, up to 100, exactly 3000 milliseconds after the last hit and 5000 after the last tick that was due |
| VitalSigns.BoundIsReached | Object/Player.cpp:57-62 | Ticks every 5000 milliseconds reach the bound |
| RoomWorld.StepInv | Object/Player.cpp:77-94 | Every join, leave, death, respawn and job keeps: whoever is or will be put in a room that is not its current one has a leave job as its last job there |
| RoomWorld.StaleMembersLeave | Object/Player.cpp:77-94 | Over every run: a member of a room that is not its current one has its leave job queued there, so a drained room has no stale member |
| RoomWorld.RespawnOfLeaver | Session/Room.h:22 | Over every run: a respawn job that finds its player in no room has that player's leave job behind it |
| RoomWorld.AbsentExample | ServerPacketHandler.cpp:48-54 | A run from the start that comes to that: join, ask for a respawn, leave |
| RoomWorld.MemberStays | Manager/RoomManager.cpp:15-59 | A member without a queued leave job stays, whatever the others do |
| RoomWorld.DrainRemoves | Session/Room.h:17 | Running the jobs up to a leave job ends that player's membership |
| RoomWorld.JoinLasts | Manager/RoomManager.cpp:15-59 | A join lasts through everything the others do exactly when the player was not in that room and no leave job of it waits there |
| RoomWorld.RejoinExample | Manager/RoomManager.cpp:15-59 | Joining the same room twice ends with the player in the room but not among its players |
| RoomWorld.StepAgrees | Manager/RoomManager.cpp:28-50 | From agreeing rosters one step of any kind leaves every member's roster equal to its only room's players exactly when it is orderly: a join by a member of no other room, a respawn job that is harmless |
| RoomWorld.RespawnExactly | Session/Room.h:22 | A respawn job keeps the rosters exactly when the player is still in the room, or is in no room, comes back to an empty one and has itself as its roster |
| RoomWorld.RostersExactly | Manager/RoomManager.cpp:28-50 | Over every run, with any joins and respawns: each member's roster (join reply, then notices) is the player map of its only room all along exactly when every step is orderly |
| RoomWorld.RosterAgreement | Manager/RoomManager.cpp:28-50 | From the start, over any orderly run in any number of rooms, the roster of a member is its room's player map |
| RoomWorld.JoinShows | Manager/RoomManager.cpp:28-50 | After a join the roster of the joiner stays right, whatever orderly steps the others take, exactly when it was in no other room any more (given another player in no room) |
| RoomWorld.StrayNotice | Manager/RoomManager.cpp:28-50 | After a join while still in another room, a newcomer to that room appears in the mover's roster of the new one |
| RoomWorld.StrayExample | Manager/RoomManager.cpp:28-50 | A run from the start that comes to that: p joins a and then b, q joins a |
| RoomWorld.RespawnUntold | Session/Room.h:22 | From any state with two members of a room without jobs: one asks for a respawn, dies and comes back, and is missing from the other's roster |
| RoomWorld.RespawnExample | Session/Room.h:22 | A run from the start that comes to that |
| RoomWorld.LeaverExample | Object/Player.cpp:87-94 | A run from the start after which a room holds a player that is in no room |
| RoomWorld.DeadPointsThere | Object/GameObject.cpp:44-54 | A death ends the membership of that player only, and leaves it pointing to the room, where it can ask to come back |
| Rosters.StepShown | Manager/RoomManager.cpp:28-50 | One step of any kind leaves every client showing its current room, where that room holds it, exactly when it is quiet: no notice from another room that still holds a client is news to it, and a respawn adds nobody that a client does not show |
| Rosters.ShownExactly | Manager/RoomManager.cpp:28-50 | Over every run: all along every client shows its current room exactly when every step is quiet |
| Rosters.ShownFromStart | Manager/RoomManager.cpp:28-50 | So it is of every run from the start |
| Rosters.OrderlyIsQuiet | Manager/RoomManager.cpp:28-50 | Every orderly run is quiet |
| Rosters.QuietExample | Manager/RoomManager.cpp:28-50 | Not only they: a player that changes rooms alone, without waiting, never sees a wrong roster |
| Rooms.Player.EnterRoom | Object/Player.cpp:77-85 | Queues the leave job on the old room, moves, and is entered unless present; entering no room only leaves |
| Rooms.Player.LeaveRoom | Object/Player.cpp:87-94 | Queues the leave job and leaves at once |
| Rooms.Room.EnterObject | Session/Room.h:16 | Inserts a player or a monster exactly when absent from the map of its kind |
| Rooms.Room.LeaveObject | Session/Room.h:17 | Erases a player or a monster exactly when present and tells the players that remain |
| Rooms.Room.BroadCast | Session/Room.h:18 | Every session of the room but the excepted one gets the message once |
| Rooms.Room.ListPlayers | Manager/RoomManager.cpp:31-36 | The list, in whatever order, stands for the room's player map |
| RoomManagers.RoomManager.StalePlayersLeave | Object/Player.cpp:77-94 | Of the objects: a player that a room still holds but that points elsewhere has its leave job in that room's queue |
| RoomManagers.RoomManager.HandleCreateRoom | Manager/RoomManager.cpp:9-13 | Loads the map once more, whatever the name; then a new room exactly when the name is free, or nothing if the load throws |
| RoomManagers.CreateKeepsIndex | Manager/RoomManager.cpp:9-13 | A create request leaves an exact walkable index exact exactly when the map was empty or the file has nothing walkable, and no walkable cell preceded a rejected one in its row |
| RoomManagers.RoomManager.HandleJoinGameRoom | Manager/RoomManager.cpp:15-51 | Performs the join step: rooms, queues, current rooms and every client's roster; the one who joins is sent each player of the room once, the others the new one, and nobody else anything; for a room that is neither there nor created it performs the leave step and then uses a null room |
| RoomManagers.RoomManager.HandleLeaveGameRoom | Manager/RoomManager.cpp:53-59 | Performs the leave step |
| RoomManagers.RoomManager.RequestRespawn | ServerPacketHandler.cpp:48-54 | Performs the respawn request step |
| RoomManagers.RoomManager.RunJob | Session/Room.h:16-22 | Runs the job at the front of any queue as the job step, with the messages of a leave or a respawn; it uses a null room exactly when a respawn job finds its player in no room |
| RoomManagers.RoomManager.LeaveObject | Session/Room.h:17 | Removes a player, updates the rosters of those who remain and sends each of them one leave notice |
| RoomManagers.RoomManager.HandleRespawnPlayer | Session/Room.h:22 | Re-enters the player and sets its health to 100; the player is sent one spawn packet as its own, each other player of its room one that is not, and nobody else anything; the room is used, null or not |
| RoomManagers.RoomManager.HandleAttack | Session/Room.h:21 | For any requested damage, any player or nothing as the target and a known or unknown attacker: the health after the hit, the death step exactly when it is zero in a room by a known attacker, where a null room or attacker is used, and to whom each message goes: the new health to all the room holds, the victim included, then the death, the leave and the attack |
| RoomManagers.RoomManager.TakeDamage | Object/GameObject.cpp:25-42 | The same without the attack notice: an unknown attacker is used only by a death, after the health has been announced |
| RoomManagers.RoomManager.OnDead | Object/GameObject.cpp:44-54 | Performs the death step: out of the room at once, still pointing to it, with the messages sent; without an attacker or a room nothing happens |
| RoomManagers.RoomManager.TickPlayer | Object/Player.cpp:49-70 | The health after the tick, announced to the room exactly when it regenerates; then a null room is used exactly when the player is in none |
| RoomManagers.RoomManager.TickRoom | Session/Room.h:26 | Ticks the players that the room holds, each at most once, and all of them exactly when each one that regenerates is in a room |
| RoomManagers.RoomManager.LeaverCannotTick | Object/Player.cpp:49-70 | The tick of a player that a room holds and that is in none uses a null room exactly when it regenerates |
| RoomManagers.RoomManager.DrainedRoomTicks | Object/Player.cpp:77-94 | A player that a room holds, and that has no leave job queued there, points to that room, so its tick has one |

## Left out

- Sockets, threads, sessions beyond `OnRecv`, start-up and console output: input and output around code that is not part of this model. `GetTickCount64` is a parameter; two readings within one call are taken as one.
- Protobuf runtime: arenas, reflection, `InternalSwap`, `set_allocated`, destructors. The parsers of unknown fields, of strings and of packed fields, and `SerializeToArray`, are library code that is not part of the repository; they are modelled from the Protocol Buffers Encoding guide.
- The library's read-ahead buffers: a read past the limit fails at once, where the library reads on into slop bytes and fails afterwards.
- The eleven response and seven request types without a class of their own: all are covered by the codec laws through their schemas, and received requests are parsed by the codec directly.
- `MakeSendBuffer` of the response types other than the four above: the same template over the same shapes.
- Framing.ServerPacketHandler.HandlePacket: what reading behind the handler table, or parsing with a negative length, does is not modelled; the outcome says that it comes to that.
- Framing.StreamRoundTrip: sends requests, as a client does; the client itself is not part of the repository.
- Framing.ReceiveInPieces: what a session does with the bytes that `OnRecv` leaves over is not part of this model.
- HeaderBounds.HeaderBound: unknown fields only in positions, which a client's move request may fill; the server builds the rest itself.
- Packet contents after `MakeSendBuffer` when the assertion is compiled out.
- The type and order of `PacketHeader` (a 16-bit size, then a 16-bit id) are taken from its uses; its declaration is not part of the repository.
- RoomManagers.RoomManager.HandleAttack: attacks on monsters are not modelled; the damage and power fields of the attack notice are left out.
- RoomManagers.RoomManager.HandleRespawnPlayer: the name, health and position in the spawn packets are left out; their ids, owners and receivers are stated.
- RoomManagers.RoomManager.RunJob: the queue holds leave and respawn jobs; the attacks, moves, spawns and ticks of the same queue do not change who is in a room, but for deaths, which are steps of their own at any time.
- RoomManagers.RoomManager.TickRoom: ticks players; the tick of a monster only keeps its own clock. The messages of the players of one tick are stated by TickPlayer one at a time, since their order is that of the iteration.
- RoomManagers.RoomManager.HandleJoinGameRoom: for a room that is neither there nor created the code also stores a null room under the name; the model ends where that room is used.
- RoomWorld.RostersExactly: spawn packets are not counted as roster messages.
- RoomWorld.JoinShows: the counterexample needs a second player that is in no room; without one nobody may be left to spoil the roster.
- Monsters beyond entering and leaving a room, path finding, movement, spawn positions and `HandleEnterRoom`.
- `MAX_WIDTH` and `MAX_HEIGHT` of the map: the loader does not use them.
- Two threads inside one room at once: entering runs in the manager's queue while the room runs its own; the model takes each operation as one step.
