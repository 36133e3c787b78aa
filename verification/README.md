# Potoq: a verified model of its core

A Dafny model of the core of Potoq, a Minecraft proxy: the frame layer, the packet codecs, the
CFB-8 stream cipher, the session machine with its reader goroutines and upstream switches, the
incremental tab list, the online count, chat formatting, the login digest and the permission
sets. `dafny verify dfyconfig.toml` checks all of it.

Code that changes objects or loops over state is modelled by classes and methods with loops. Each
is tied to a specification function or to one step of a state machine, and what the proxy is
meant to guarantee is proved about those. Concurrency is a step relation: a run is any sequence of
steps, and the choices of the environment (what filters decide, which writes succeed, when a
connection ends, in which order a range loop visits a map) are arguments of the steps. A filter
holds a pointer to the packet it is given, so a step of a parsed packet also carries what the
filters left of it, and that is what is written.

## The files

| file | what it holds |
|---|---|
| `Common.dfy` | shared types |
| `Wire.dfy` | unsigned LEB128 (section 7.6 of DWARF 4), VarInts with 32-bit wrap-around, fixed-width integers, strings |
| `Frames.dfy` | the frame format with optional compression: reading undoes writing for whole streams, and for streams cut at any byte |
| `PacketIO.dfy` | `packetWriter` with its shared FIFO and sticky error, `packetReader` with its lazy decompression |
| `StructCodec.dfy` | the schema-driven struct codec |
| `PlayPackets.dfy` | player list, tab completion and team packets |
| `PlayerTable.dfy`, `Messages.dfy` | what packets do to the player list of the client that receives them; the switch block |
| `Session.dfy` | readers, channels, main loop and commands as a state machine |
| `SessionOrder.dfy` | packet order over whole runs, in both directions |
| `SessionMirror.dfy` | the mirrored player list over whole runs |
| `SessionCommands.dfy` | injected packets over whole runs, against the commands that were accepted |
| `SessionInjected.dfy` | the injected entries of the client over whole runs; the tab list inside a session |
| `Filters.dfy` | the bit array and the filter registry |
| `Handler.dfy` | the handler's methods, each proved to be one step of the session machine |
| `MsgWire.dfy` | the session's writer of whole packets over the writer of frames; the client's player list from the bytes |
| `TabList.dfy` | the tab list whose full update is serialized late from the live cells |
| `TabTitle.dfy` | the title of the player list, which others write too |
| `Buffers.dfy` | ownership of pooled payload buffers |
| `Players.dfy` | the online map and its counter |
| `Cfb8.dfy` | the sliding window against the shift register of section 6.3 of NIST SP 800-38A |
| `Chat.dfy`, `JavaUtf.dfy`, `AuthDigest.dfy`, `Permissions.dfy` | one module for each algorithm |

## Main results

* Streams. Whatever packets are written to one stream, however the compressor's input is cut into
  chunks, they are read back in order and the reader stands at the end of the stream; a stream cut
  at any byte yields a prefix of them. The bytes in the sink are always a prefix of the frames of
  the accepted packets, whatever fails, and `err` is set only when the sink failed or a packet did
  not serialize.
* Order. In every interleaving the client receives, session by session, what that session's
  upstream sent, in order and without repetition; only packets of an ID that some filter asked for
  can be missing or changed; one switch block stands between two sessions; and nothing of an earlier
  session follows. The packets of the client go up in order too, unchanged unless a filter asked for
  them, and never to an upstream that was left.
* Mirror. Unless a later filter drops or changes a player-list packet, the proxy's player list equals
  the client's without the injected entries, after every step, and both are empty from the first
  packet of a switch block on, whatever the map order; the injected entries change only by
  injections, which are the payloads of the accepted commands in order and once each.
* Tab list. The client converges to the 80 cells although a full update is read cell by cell from
  the live array while it is changed, and other packets arrive in between. Of the title this is not
  so: it shows the last one set only if nobody else's title came after it (see Findings). Inside a
  session the injected entries are what the accepted commands alone make of them, so the tab list
  converges there too, across switches.
* CFB-8. The window in the 256-byte array is the shift register, decryption undoes encryption in
  place, and no cut of the stream into reads and writes shows.
* Permissions. After a load, a query is decided by the most specific key of the groups that count for
  the player, the latest group first and the default group last.
* Buffers, count, codecs, chat, digest: as in the table.

## Findings

Where a promise does not hold of the code as it stands, the code is modelled as it is and the exact
condition is proved.

* A compressed packet with an empty body is refused by the reader when its decompressor returns the
  last byte together with the end of the stream, as io.Reader allows and zlib does for short
  streams; exactly those packets are (`TypedUnderstoodExactly`). For any declared data length, a
  compressed frame that holds an ID and nothing else is such an input (`IdOnlyStreamExactly`).
* A `TabCompletePacketCB` with a negative count is accepted and re-encoded with count zero
  (`TabCompleteReencodesExactly`).
* `authDigest` prints the empty string for the zero digest (`Digest`). The comment on
  `twosComplement` says little endian (auth.go:165); the loop treats the bytes as big endian.
* A `TabList.Flush` refused by a full command queue throws its changes away, full updates included:
  the drained client shows the cells if and only if the queue had room or what was pending was no
  news (`TabList.Flush`, `RefusedFlushExactly`, `RefusedFlushIsLost`).
* The proxy writes player lists whose items hold more than their action carries: the removal of a
  switch (commands.go:115-123) and the updates of a tab list. Such a list does not read back as
  itself but as its carried form, exactly if that is within the parser's bounds
  (`PlayerListReadsBackExactly`); the client's list comes out the same (`CarriedApplies`).
* The title of a `TabList` is lost in every upstream switch: `SendDimensionSwitch` writes an empty
  header and footer (commands.go:131-138) and the tab list is not told (`TitleLostInSwitch`). The
  client shows the last title set if and only if no title of someone else reached it after the tab
  list's last, or the same one did last, and that title was not refused, or is the one accepted
  before (`TitleShownExactly`).
* The reader reports io.EOF, the error of a clean end, also for a stream that ends right after a
  length prefix (`CleanEndExactly` gives all such cuts), and for a compressed packet whose one plain
  byte comes with the end (`TypedUnderstoodExactly`).
* When a later filter drops or edits a player-list packet, the mirror breaks; the exact conditions
  are on the last items that name each UUID (`DroppedPlayerListExactly`, `EditedPlayerListExactly`).
  Filters do edit packets: the chat filter turns a leading backslash into a slash
  (filters/cloudychat/cloudychat.go:109-114).
* What `LoadPermissions` installs depends on the map iteration order exactly if two nicknames that
  differ only in case have different permissions (`LoadOrderExactly`).
* Server-bound packet ID 256, which the frame reader lets pass, shares a filter slot with
  client-bound ID 0 (`SlotsExact`); client-bound ID 256 is the one packet whose slot is outside both
  tables (`SlotsInTables`), and the bit array's guard, off by one word, does not stop it
  (`GuardMissesExactly`).
* The writer does not check frame sizes; a frame over 128 KiB is written and then refused by the
  reader (`FrameReadBackExactly`). The struct writer does not look at `max_length` or at the room
  in a length prefix either, and an `eof` field swallows what follows it; `FieldRoundTrip` and
  `StructRoundTrip` say exactly which values read back.
* `injectPacketCommand` ignores the error of every single write; its final flush still reports
  success only if every packet was written (`InjectAll`).

## Model

| member | source | states |
|---|---|---|
| Wire.UvarintLength | packets/ioutils.go:136-141 | the LEB128 form of a 32-bit value never exceeds 5 bytes, so it fits the 8-byte buffers of the writers |
| Wire.UvarintRoundTrip | packets/ioutils.go:48-55 | every 32-bit value reads back from its LEB128 form, and the bytes behind it are left untouched |
| Wire.UvarintLayout | packets/ioutils.go:136-141 | what is written is the LEB128 form of the number, seven bits a byte, least first, and the shortest |
| Wire.ReadLeb128 | packets/ioutils.go:48-55 | what is read is the number the LEB128 bytes stand for, shortest or not, up to nine of them |
| Wire.UvarintTruncated | packets/ioutils.go:48-55 | a VarInt cut short anywhere is an error, never another value |
| Wire.VarIntRoundTrip | packets/ioutils.go:136-141 | signed VarInts, negative ones included, survive the unsigned wire form |
| Wire.SameModulo | packets/ioutils.go:48-55 | both conversions between the signed and the unsigned form keep the number modulo 2^32 |
| Wire.BigEndianRoundTrip | packets/ioutils.go:411-428 | big-endian bytes stand for the number they were made from, at every width that holds it |
| Wire.NumberCons | packets/ioutils.go:232-249 | of n bytes the first weighs 256^(n-1) |
| Wire.NumberBound | packets/ioutils.go:232-249 | n bytes stand for a number below 256^n |
| Wire.BoolRoundTrip | packets/ioutils.go:107-114 | flags read back |
| Wire.BoolExactly | packets/ioutils.go:16-21 | a flag is one byte, 1 or 0; any byte but 1 is read as false |
| Wire.StringRoundTrip | packets/ioutils.go:67-84 | a string within the bound of its reader reads back and leaves the bytes behind it |
| Wire.StringLayout | packets/ioutils.go:151-158 | a string is its length in bytes, in LEB128, and then its bytes |
| Wire.ReadString | packets/ioutils.go:67-84 | whatever the input, the result is within the bound, an error returns no text, and nothing is ever put back |
| Frames.StoredCodecIsLawful | packets/writer.go:90-104 | the law assumed of zlib can be met, whether or not the last byte comes with the end |
| Frames.ContentRoundTrip | packets/reader.go:71-111 | the content of a frame for any packet, raw, below the threshold, or compressed from any chunking, is understood as that packet; the data length of a typed one is its plain size if compressed and zero otherwise |
| Frames.TypedUnderstoodExactly | packets/reader.go:102-109 | a typed packet is understood if and only if its ID is in the accepted range and it is not a compressed one with an empty body read by a decompressor that returns the last byte with the end; exactly a one-byte packet of that kind reads as a clean end |
| Frames.IdOnlyStreamExactly | packets/ioutils.go:190-193 | whatever data length is declared, a compressed stream that holds an ID and nothing else is refused if and only if the decompressor returns the last byte with the end |
| Frames.PrefixedRoundTrip | packets/reader.go:54-71 | a length-prefixed content of accepted size is taken off the stream exactly, whatever follows, and with the verdict on its content |
| Frames.FrameRoundTrip | packets/reader.go:48-112 | one frame written is one packet read with the same ID and body, ending at the end of the frame |
| Frames.FrameReadBackExactly | packets/reader.go:59-62 | a frame comes off the stream as it was written if and only if its content is at most MaxPacketSize long |
| Frames.FrameLayout | packets/writer.go:45-124 | the bytes of small frames: a raw payload behind its length; uncompressed the length, the ID and the body; below the threshold a zero between length and ID; from the threshold on length, plain size and the compressed stream of ID and body |
| Frames.DataLengthCases | packets/reader.go:73-100 | a declared data length of zero or below means plain bytes, one below the threshold is refused, any other means a compressed stream |
| Frames.StreamRoundTrip | packets/writer.go:40-125 | any sequence of packets written to one stream is read back in order, ending with a clean end of stream |
| Frames.FrameTruncated | packets/reader.go:54-70 | a frame cut at any byte is an error, and it is that of a clean end exactly for nothing at all and for a complete length prefix with nothing behind it |
| Frames.CutStreamYieldsPrefix | packets/reader.go:48-112 | a stream cut at any byte yields a prefix of the packets, nothing else |
| Frames.CleanEndExactly | packets/reader.go:54-70 | a cut stream ends with io.EOF, the error of a clean end, if and only if it is cut between frames or right after a length prefix |
| Frames.RawForwardKeepsPacket | packets/writer.go:45-55 | a frame taken in with any encoding of its length and sent on raw reads back with the same ID, data length, payload and body |
| PacketIO.PacketWriter.constructor | packets/writer.go:28-38 | a new writer has accepted nothing, has no error and counts from what the sink held |
| PacketIO.PacketWriter.CompressInPlace | packets/writer.go:84-105 | for every chunking the FIFO ends up as the whole compressed stream of the plain bytes and nothing else |
| PacketIO.PacketWriter.ChunkStep | packets/writer.go:96-99 | after each copied chunk the FIFO holds the unread plain bytes followed by the compressed bytes emitted so far |
| PacketIO.PacketWriter.EmitFrame | packets/writer.go:107-124 | the sink gains a prefix of the frame, the whole of it unless the sink failed, and the error is set exactly when it did |
| PacketIO.PacketWriter.WritePacket | packets/writer.go:40-125 | the sink always holds a prefix of the frames of the accepted packets; after an error nothing is ever added; a packet that does not serialize adds no byte; an accepted packet sets the error exactly if the sink failed |
| PacketIO.PacketWriter.Flush | packets/writer.go:127-135 | an error sticks; a new one is set exactly if the sink's flush failed |
| PacketIO.PacketWriter.InjectAll | commands.go:209-225 | although the error of each write is ignored, success means that all packets were accepted, and it is reported exactly if there was no error before, the sink never failed and every packet serialized |
| PacketIO.PacketReader.ReadPacket | packets/reader.go:48-112 | returns and consumes what the frame format says of the input, for every malformed input too, telling io.EOF from the other errors; an error sticks and consumes nothing more |
| PacketIO.PacketReader.Payload | packets/reader.go:114-125 | the body, inflated only now; a compressed stream without a clean end is an error |
| PacketIO.PacketReader.ParsePackets | packets/reader.go:139-155 | the packet is handed to the first wanted type with its ID; an unwanted one is not inflated and no error of the reader |
| PacketIO.PacketReader.ReceiveAll | handler.go:229-251 | receiving until the first error yields the packets of the stream and that error |
| PacketIO.SinkIsReadBack | packets/writer.go:40-135 | whatever failed, what the other side reads from the sink is a prefix of the accepted packets, and all of them with a clean end while nothing failed |
| StructCodec.FieldRoundTrip | packets/ioutils.go:213-380 | for every field type a value reads back, leaving the bytes behind it, if and only if it is within the tags and no byte behind it is taken for its own |
| StructCodec.StructRoundTrip | packets/ioutils.go:197-383 | for every schema: the written values come back, ignored fields keep what they had and following bytes are untouched, if and only if all values are within their tags and an eof field at the end is full or followed by nothing |
| StructCodec.FieldLayout | packets/ioutils.go:396-520 | the bytes of every field type: numbers big-endian in two's complement, VarInts and lengths in LEB128, byte fields behind their kind of length prefix, UUIDs as they stand, ignored fields nothing |
| StructCodec.StructLayout | packets/ioutils.go:388-390 | a struct is its fields, one after another |
| StructCodec.MergedAt | packets/ioutils.go:209-211 | field by field: an ignored field has its old value, every other the written one |
| StructCodec.FieldReadInRange | packets/ioutils.go:213-380 | whatever is accepted for a field has its type and is within its tags |
| StructCodec.StructReadInRange | packets/ioutils.go:197-383 | whatever struct is accepted has typed values within the tags |
| StructCodec.StructReencodes | packets/ioutils.go:385-525 | writing whatever was accepted, normal or not, and reading it back gives the same values |
| StructCodec.StringFieldExact | packets/ioutils.go:455-458 | a string field reads back if and only if it is within max_length, which the writer does not look at, and its length within 31 bits |
| StructCodec.BytesFieldExact | packets/ioutils.go:459-492 | a byte field reads back if and only if it is within max_length and within the width of its length prefix, or, with eof, full or followed by nothing |
| StructCodec.EofFieldExact | packets/ioutils.go:317-341 | an eof field reads back if and only if it is full, or shorter and followed by nothing |
| StructCodec.ReadMinecraftStruct | packets/ioutils.go:197-383 | the loop that sets the fields one by one and stops at the first error yields what the schema says of the input |
| StructCodec.WriteMinecraftStruct | packets/ioutils.go:385-525 | the loop writes the bytes the schema says, in order |
| PlayPackets.PlayerListRoundTrip | packets/play_clientbound.go:340-405 | every player list within the parser's bounds reads back, for every action, known or not |
| PlayPackets.PlayerListLayout | packets/play_clientbound.go:407-456 | a list of short values byte by byte, for every action: action, count, and for each item its UUID and what actions 0, 1, 2, 3 and the others carry, in order |
| PlayPackets.TruncatedAdditionAccepted | packets/play_clientbound.go:357-385 | an addition that ends behind its property count is taken, with the missing values zero |
| PlayPackets.PlayerListReadsBackExactly | packets/play_clientbound.go:407-456 | any list reads back as what its action carries of the items, if and only if that is within the parser's bounds, and as itself if and only if its items hold nothing more |
| PlayPackets.PlayerListReencodes | packets/play_clientbound.go:407-456 | whatever was accepted, normal or not, is within the bounds and decodes to the same value after re-encoding |
| PlayPackets.PlayerListItemPacketCB.Parse | packets/play_clientbound.go:340-405 | the parsing loop is the decoder, including the errors it ignores |
| PlayPackets.PlayerListItemPacketCB.Serialize | packets/play_clientbound.go:407-456 | the writing loop is the encoder that the decoder undoes |
| PlayPackets.TabCompleteRoundTrip | packets/play_clientbound.go:251-280 | every completion within bounds reads back with its count set to the number of matches |
| PlayPackets.TabCompleteLayout | packets/play_clientbound.go:282-307 | a completion of short values byte by byte: transaction, start, length, number of matches, and each text with its flag and tooltip |
| PlayPackets.TabCompleteReencodesExactly | packets/play_clientbound.go:282-307 | re-encoding an accepted packet keeps its value if and only if the decoded count was not negative |
| PlayPackets.TabCompletePacketCB.Parse | packets/play_clientbound.go:251-280 | the parsing loop is the decoder |
| PlayPackets.TabCompletePacketCB.Serialize | packets/play_clientbound.go:282-307 | sets the count and writes the bytes the decoder undoes |
| PlayPackets.TeamsRoundTrip | packets/play_clientbound.go:529-563 | every team packet within bounds reads back, for every mode |
| PlayPackets.TeamsByMode | packets/play_clientbound.go:529-594 | for modes 0, 1, 2, 3, 4 and the others: exactly what bytes stand behind the mode byte, and that the parser makes of them exactly the fields of that mode, with the others empty |
| PlayPackets.TeamFieldsExactly | packets/play_clientbound.go:565-594 | two packets have the same bytes if and only if they agree on name, mode, the four info fields if the mode is 0 or 2, and the players if it is 0, 3 or 4 |
| PlayPackets.TeamsReencodes | packets/play_clientbound.go:565-594 | whatever was accepted can be written and decodes to the same value again |
| PlayPackets.TeamsPacketCB.Parse | packets/play_clientbound.go:529-563 | the parser with its overwritten errors and its loop over the players is the decoder |
| PlayPackets.TeamsPacketCB.Serialize | packets/play_clientbound.go:565-594 | fails exactly when it has more players than the parser takes, else writes the bytes the decoder undoes |
| PlayerTable.ApplyUnreserved | filters.go:66-97 | packets about other UUIDs act on a part of the table as if the reserved entries were not there |
| PlayerTable.ApplyReserved | filters/tab/tablist.go:99-136 | packets about reserved UUIDs leave the rest of the table as it is |
| PlayerTable.RemoveItems | filters.go:90-94 | a removal leaves exactly the entries it does not name |
| PlayerTable.EffectIsEntry | filters.go:53-97 | what a packet makes of an entry depends only on the last item that names its UUID |
| PlayerTable.ChangesNothingExactly | filters.go:66-97 | a packet leaves the table as it is if and only if no item that is the last of its UUID says anything new: an addition finds the identical entry, a removal none, an update the same field or no entry |
| PlayerTable.CarriedApplies | filters.go:53-97 | a client's list depends on no more of the items than the action carries |
| PlayerTable.RemoveAllEmpties | commands.go:112-129 | removing the values of the mirrored list, in any order, empties the client's part that agrees with it |
| Messages.ReservedMessages | commands.go:196-232 | injected packets about reserved UUIDs do not show in the rest of the client's list |
| Messages.SwitchBlockEmpties | commands.go:109-186 | from its first packet on a switch block leaves nothing of the old list on the client, before anything of the new upstream is shown |
| Messages.SwitchLeadsInto | commands.go:131-185 | wherever the client was, a switch block brings it into the world and game mode of the JoinGame, which it sees exactly once with a respawn after it; before it the client was sent to the end if that world is the overworld; the title is cleared |
| Messages.EditsExactly | handler.go:292-307 | a filter can make of a packet exactly another of its kind |
| Session.StepKeepsWellformed | handler.go:426-481 | every step keeps each reader's hand-over consistent: at most one packet in hand, none after closing |
| SessionOrder.StepKeepsOrdered | handler.go:426-481 | every step of readers, main loop and commands keeps the order of the history |
| SessionOrder.SwitchKeepsOrdered | commands.go:53-82 | a switch appends one block built from the new session's first packet as filters left it, or what of the block was written before the session ended |
| SessionOrder.RunIsOrdered | handler.go:224-286 | in every run the client's packets are the rendering of a history in which only the next packet of the current session, changed at most by filters that asked for it, one switch block or injected packets may follow |
| SessionOrder.EventBounds | handler.go:288-320 | every event of the history carries the packet its upstream sent at that index; only a packet some filter asked for is dropped, or written other than it was read, and then as a packet of the same type |
| SessionOrder.EventsInOrder | handler.go:426-481 | sessions never go back and indices only grow within a session |
| SessionOrder.NoGaps | handler.go:456-469 | every index below the count of a session stands in the history |
| SessionOrder.SessionsInOrder | handler.go:426-481 | in every run the client's packets are, session by session, an in-order repetition-free rendering of what the upstreams sent; only packets some filter asked for are missing or changed, every switch leads into the world of its JoinGame, and every handed-over packet is accounted for until the session stops |
| SessionCommands.InjectedAsPushed | commands.go:196-232 | in every run, in both directions, the injected packets are the payloads of the accepted commands, in order and once each, up to those still queued; after the end of the session the last may be cut off |
| SessionCommands.StepKeepsTraced | handler.go:430-436 | every step keeps that account |
| SessionOrder.RunIsOrderedUp | handler.go:437-455 | in every run the client's packets go up one by one in order, each the packet read or, if a filter asked for its ID, what the filters left of it, to the upstream of the moment, never back to one that was left |
| SessionOrder.SentToUpstreamOfMoment | handler.go:437-455 | in every run, what went up went to the newest of the upstreams there were at the time |
| SessionMirror.SwitchEmptiesBoth | commands.go:112-129 | after a completed switch the proxy's list and the client's are empty, the client's since the first packet of the block, whatever filters made of the JoinGame |
| SessionMirror.TakeUpstreamKeepsMirror | filters.go:66-97 | saving a player-list packet and relaying it unchanged keep both lists equal |
| SessionMirror.InjectKeepsMirror | commands.go:196-232 | injections about reserved UUIDs, complete or cut off, keep the mirror |
| SessionMirror.StepKeepsMirror | handler.go:426-481 | every step keeps the mirror unless a later filter drops or changes a player-list packet |
| SessionMirror.RunKeepsMirror | filters.go:53-97 | in every run without such a drop or change the proxy's list is the client's without injected entries, after every step until the session stops |
| SessionMirror.ReservedEntriesKept | commands.go:112-129 | relayed packets, switches and reconnects, complete or cut off, leave every injected entry of the client as it was |
| SessionInjected.ReservedEntriesAsPushed | commands.go:196-232 | in every tame run a reserved entry of the client is what the payloads of the accepted client-bound commands alone make of it |
| SessionInjected.ClientIsArrived | filters/tab/tablist.go:99-136 | the client of the tab list machine has what the packets that reached it make of its list |
| SessionInjected.TabListInSession | filters/tab/tablist.go:99-136 | when the accepted commands carried what a tab list delivered, the client of the session shows the 80 cells in every tame run, after any number of switches |
| SessionMirror.DroppedPlayerListExactly | handler.go:292-305 | after a drop the mirror holds if and only if no item that is the last of its UUID says anything the proxy's list does not have |
| SessionMirror.EditedPlayerListExactly | handler.go:292-307 | after an edit the mirror holds if and only if for every unreserved UUID that either packet names, the last items naming it come to the same entry |
| SessionMirror.EnumerationExists | commands.go:115-118 | a switch never lacks an order: every list can be enumerated |
| Filters.OwnBitSet | utils/bitarray.go:22-31 | the branch-free update gives the addressed bit the wanted value |
| Filters.OtherBitKept | utils/bitarray.go:22-31 | and leaves the 63 other bits of the word |
| Filters.Bitarray.Set | utils/bitarray.go:22-31 | over the whole array exactly the addressed bit changes |
| Filters.SlotsExact | handler.go:236 | two packets share a filter slot only if they are the same, or are server-bound 256 and client-bound 0 |
| Filters.SlotsInTables | handler.go:236 | of the packets the frame reader lets pass, only client-bound ID 256 has a slot outside the tables |
| Filters.GuardMissesExactly | utils/bitarray.go:15-18 | the guard lets exactly the 64 bits behind the array pass, and the slot of client-bound ID 256 is one of them |
| Filters.Registry.Register | filters.go:23-37 | appends to one bucket, leaves all others, and keeps "a packet is parsed exactly if someone filters it" |
| Filters.Registry.ShouldParse | handler.go:236-237 | after any registrations the bit is set exactly when the bucket is not empty |
| Handler.InitFilters | filters.go:17-21 | client settings, plugin messages and player lists are filtered and nothing else; savePlayerList comes first in its bucket and stands nowhere else |
| Handler.RegisterLater | filters.go:23-37 | and stays so whatever is registered later |
| Handler.MsgWriter.WritePacket | packets/writer.go:40-43 | whole packets with a sticky error |
| MsgWire.WireWriter.WritePacket | packets/writer.go:40-125 | the writer of frames keeps the contract of the writer of whole packets: it has accepted those reported as written and at most one more, on which it failed |
| MsgWire.WireWriter.Flush | packets/writer.go:127-135 | so does its flush |
| MsgWire.ClientReadsOut | packets/writer.go:40-135 | what was reported as written is what the other side reads, and after a failure at most one packet more |
| MsgWire.ClientTableFromBytes | packets/writer.go:40-125 | parsing the bytes in the sink and applying the player lists gives the very player list the session's history says the client has, switches and tab updates included |
| MsgWire.TableReceived | packets/play_clientbound.go:340-456 | the same for any packets that read back as their meanings |
| MsgWire.SwitchIsCarried | commands.go:115-123 | the removal of a switch is such a packet, whatever the stored items hold |
| MsgWire.TabMessageIsCarried | filters/tab/tablist.go:99-125 | so are the queued updates of a tab list, full ones and changes |
| MsgWire.TabItemsInRun | filters/tab/tablist.go:55-90 | in every run of a tab list all cells and copies of cells keep a UUID of 16 bytes, no name and a display name of at most 64 bytes |
| MsgWire.NewCellItems | filters/tab/tablist.go:28-45 | the cells of a new tab list are such |
| Handler.DecideAppend | handler.go:501-510 | a filter is shown what the filters before it left of the packet, and none is asked after one objected |
| Handler.DecideIsDispatch | handler.go:501-510 | the filters are shown the packet one after another, each as the one before left it, until the first that does not pass it; its verdict stands, or the last edit if all pass |
| Handler.Handler.UpdatePlayerListItem | filters.go:53-64 | the loop does to the proxy's list what the update does to a client's |
| Handler.Handler.SavePlayerListFilter | filters.go:66-97 | for every action the proxy's list changes as a client's would |
| Handler.Handler.DispatchPacket | handler.go:501-510 | there is a list of what the filters were shown, each what the one before left, up to the first that objected; its verdict and edit are the result, or the last edit if none objected; the list changes exactly for player-list packets from upstream, by what was read |
| Handler.Handler.HandlePacket | handler.go:288-320 | a packet is written exactly if no filter objected, as the last edit left it; the first Drop writes nothing and goes on, the first failure ends the session; a raw one asks no filter |
| Handler.Handler.HandleAsRead | handler.go:236-271 | the fast path has the effect of parsing and dispatching every packet |
| Handler.Handler.TakeUpstream | handler.go:456-469 | is one step of the session machine: same output, edits included, same list, and it stops the session exactly when it fails |
| Handler.Handler.TakeClient | handler.go:437-455 | is one step of the session machine: the upstream's writer gains what the step enters into the upward history, edits included |
| Handler.Handler.Values | commands.go:115-118 | the values of the list, each once, in whatever order the range loop takes |
| Handler.Handler.SendDimensionSwitch | commands.go:109-186 | writes a prefix of the switch block and empties the list as soon as its first packet is written; on success what it wrote leads the client into the world of the JoinGame |
| Handler.Handler.TakeJoin | commands.go:53-82 | is one step of the session machine: a raw, foreign or filtered first packet ends the session with nothing written, any other starts the switch as the filters left it |
| Handler.Handler.ExecuteReconnect | commands.go:26-51 | is one step of the session machine: it goes on exactly if the old connection closed and the new one came up; a failed connection writes a kick and nothing else is written |
| Handler.Handler.ExecuteInject | commands.go:196-232 | is one step of the session machine in either direction: a prefix of the payload is written to the one writer, the other is untouched, and the session goes on exactly if all was written and nothing is raised |
| TabList.CellUuidsDiffer | filters/tab/tablist.go:33-35 | the 80 cells have different UUIDs |
| TabList.TabList.constructor | filters/tab/tablist.go:28-45 | a new tab list is an initial state of the machine |
| TabList.TabList.CellIndex | filters/tab/tablist.go:47-53 | cell (x, y) is number 20x + y, so every coordinate has its own cell among the 80 |
| TabList.TabList.SetProperties | filters/tab/tablist.go:55-64 | is the setter step of the machine; nil means the default textures |
| TabList.TabList.SetPing | filters/tab/tablist.go:66-73 | is the setter step, with the ping truncated to 32 bits |
| TabList.TabList.SetCell | filters/tab/tablist.go:75-90 | is the setter step, with an over-long name replaced |
| TabList.TabList.SetTitle | filters/tab/tablist.go:92-97 | is the setter step |
| TabList.TabList.Flush | filters/tab/tablist.go:99-136 | hands over the pending packets, the title last, in one command or is refused by a full queue, and forgets them either way; with every cell on its way to being right, it stays so if and only if there is no news or the queue has room |
| TabList.SetPingKeeps | filters/tab/tablist.go:66-73 | a ping change keeps every cell on its way to being right, also while a full update is half serialized |
| TabList.SetNameKeeps | filters/tab/tablist.go:75-90 | so does a name change |
| TabList.FlushKeeps | filters/tab/tablist.go:99-136 | so does a flush, and an accepted full one repairs a refused one |
| TabList.FlushKeepsPromiseExactly | filters/tab/tablist.go:99-136 | a flush, full or not, keeps every cell on its way to being right if and only if it is accepted or no cell differs from what is in flight for it |
| TabList.SerializeKeeps | filters/tab/tablist.go:101-105 | so does reading one more live cell |
| TabList.DeliverKeeps | commands.go:209-220 | so does delivering the packet at the head of the queue |
| TabList.OtherKeeps | handler.go:456-469 | so does a packet of someone else that names no cell; one that does must be repaired by a full update |
| TabList.RunKeepsInvariant | filters/tab/tablist.go:55-136 | so does every run |
| TabList.ClientConverges | filters/tab/tablist.go:99-136 | in every run, whatever packets that name no cell others send in between, once everything set was flushed and the queue is drained, with no refused flush left unrepaired, the client shows the 80 cells |
| TabList.CellsHoldWhatWasSet | filters/tab/tablist.go:55-90 | in every run each cell holds the last name set for it, or the replacement for one over 64 bytes, and the last ping and properties, else its first values |
| TabList.ClientShowsWhatWasSet | filters/tab/tablist.go:55-136 | so under the same conditions the client shows, cell by cell, what the callers set |
| TabList.RefusedFlushExactly | filters/tab/tablist.go:99-136 | when everything was on its way and nothing more is set, the drained client shows the cells if and only if the flush was accepted or there was no news, for full updates and changes alike |
| TabList.RefusedChangesExactly | filters/tab/tablist.go:111-125 | cell by cell: refused changes do no harm if and only if the last ones say nothing new about the cell |
| TabList.RefusedFlushIsLost | filters/tab/tablist.go:101-135 | a run in which the first full update is refused, a later change is delivered, and the client has no cell |
| TabTitle.TitleShownExactly | filters/tab/tablist.go:92-135 | in every run, with the title flushed and the queue drained, the client shows the last title set if and only if the last title of someone else after the tab list's last is the same or there is none, and the last one set was not refused or is the one accepted before |
| TabTitle.SwitchHidesTitle | commands.go:131-138 | after a switch the client shows the empty title, and nothing pending or queued in the tab list will change that |
| TabTitle.TitleLostInSwitch | commands.go:131-138 | a run in which the title is set, flushed, accepted and shown, and gone after a switch |
| Cfb8.DecryptUndoesEncrypt | packets/encryption.go:34-54 | decryption undoes encryption and leaves both ends with the same register, for every block cipher |
| Cfb8.TransformSplits | packets/encryption.go:34-54 | a stream cut in two and continued gives the same bytes and register |
| Cfb8.TransformIsCfb8 | packets/encryption.go:34-54 | every byte is combined with the cipher of the last 16 bytes of initial vector and ciphertext before it: the ciphertext produced when encrypting, consumed when decrypting |
| Cfb8.Cfb8Unique | packets/encryption.go:34-54 | which leaves one ciphertext for a plaintext and one plaintext for a ciphertext |
| Cfb8.Cipherer.constructor | packets/encryption.go:18-32 | the window starts as the initial vector |
| Cfb8.Cipherer.Slide | packets/encryption.go:40-51 | one move of the window is one shift of the register, also when it wraps at the end of the array |
| Cfb8.Cipherer.XORKeyStream | packets/encryption.go:34-54 | for any length, in place or not: byte i is the source byte combined with the cipher of the last 16 bytes of window and ciphertext before it; equals the shift register and touches nothing outside the range |
| Cfb8.EncryptedWriter.Write | packets/encryption.go:103-107 | however the stream is cut into writes, the connection carries the CFB-8 encryption of the whole |
| Cfb8.EncryptedReader.Read | packets/encryption.go:75-82 | however it is cut into successful reads, what was handed out is the CFB-8 decryption of what was taken |
| Cfb8.ReaderGetsWhatWasWritten | packets/encryption.go:75-107 | what was read is a prefix of what was written, and all of it once everything arrived |
| Buffers.HandOverKeepsOwned | handler.go:273-278 | a buffer changes hands at the channel and the reader keeps no use of it |
| Buffers.PutKeepsOwned | handler.go:267-268 | a buffer returned after parsing is held by nobody |
| Buffers.StepKeepsOwned | packets/reader.go:48-111 | every step keeps each live buffer with at most one owner |
| Buffers.BuffersNeverMisused | handler.go:244-319 | for any number of readers and any interleaving no buffer is returned twice and none is touched after its return |
| Buffers.CopyField | packets/ioutils.go:330-341 | a byte field of a parsed packet is a copy in memory of its own |
| Buffers.ParsedOutlivesPut | handler.go:250-268 | whatever the next owner of the payload reads into it, the field stays what was parsed |
| Players.StepKeepsConsistent | playermgr.go:13-27 | each atomic operation keeps map, owners and counter consistent |
| Players.RunIsConsistent | playermgr.go:13-27 | in every interleaving the map size is the count plus those stored but not counted minus those deleted but not uncounted, and the count is never negative |
| Players.OwnersAreUnique | playermgr.go:13-27 | a lower-cased nickname has at most one owner and is refused exactly while it has one, and a delete removes the entry of the deleting connection and no other |
| Players.PlayerManager.Register | playermgr.go:13-21 | undisturbed, the two operations in a row: it succeeds exactly if the lower-cased nickname is free, and adds that entry and one to the count |
| Players.PlayerManager.Unregister | playermgr.go:23-27 | undisturbed, the two operations in a row: it removes the entry of the lower-cased nickname and one from the count |
| Chat.Parts | utils/chat.go:32-131 | the parts are those of the text cut at its codes and around its addresses; they show exactly its characters, each in the style of the codes before it; no part is empty; a click leads to the address it shows |
| Chat.CharacterStyle | utils/chat.go:37-131 | every character is shown in the style the codes before it amount to |
| Chat.StyleOfCodes | utils/chat.go:79-91 | bold, strikethrough, underlined and italic are on exactly if l, m, n or o was given and only style codes since; nothing is obfuscated |
| Chat.ColorOfCodes | utils/chat.go:92-129 | the color is that of the last of the sixteen color codes; r after any color makes it white; without a color code there is none |
| Chat.PartsHoldStrippedText | utils/chat.go:32-131 | the texts of the parts together are the input without its codes and without a lone section sign at the end |
| Chat.CodeProgress | utils/chat.go:74-78 | there is always a rune after a section sign, so the branch for the end of the input is dead |
| Chat.CloseBuffer | utils/chat.go:47-72 | a run of text becomes the part before its address, the address with its click, and the part behind it, without empty ones |
| JavaUtf.WriteJavaUTF | filters/bungeecord/javautf.go:56-85 | accepts exactly the strings up to U+FFFF whose encoding fits 65535 bytes and writes two bytes of length and the encoding; writes nothing for the others |
| JavaUtf.ReadJavaUTF | filters/bungeecord/javautf.go:11-54 | the loop is the decoder, with every error of malformed input |
| JavaUtf.JavaUtfRoundTrip | filters/bungeecord/javautf.go:11-85 | every accepted string reads back and exactly the bytes written are taken |
| JavaUtf.NoZeroByte | filters/bungeecord/javautf.go:60-65 | the encoded body holds no zero byte |
| JavaUtf.EncodeLayout | filters/bungeecord/javautf.go:58-74 | one byte for 1 to 127, two up to 2047 and for the null character, three up to 65535, with the leading bits of each byte and the payload bits, most significant first |
| JavaUtf.FirstByteExactly | filters/bungeecord/javautf.go:25-50 | a first byte is refused exactly if it has none of the three bit patterns |
| AuthDigest.TwosComplement | auth.go:166-176 | in place, any n-byte array becomes (256^n - value) mod 256^n |
| AuthDigest.NegateStep | auth.go:168-174 | one byte of the carry loop, and when the carry goes on |
| AuthDigest.HexOfNumber | auth.go:157 | the hexadecimal digits stand for the number of the bytes |
| AuthDigest.TrimKeepsValue | auth.go:157 | trimming zeroes keeps the value |
| AuthDigest.Digest | auth.go:150-162 | the result is the canonical signed hexadecimal of the digest's two's-complement value if and only if the digest is not zero; for zero it is empty |
| Permissions.AnswerUnique | filters/permissions/permset.go:10-21 | the value at the longest ancestor-or-self present is one value |
| Permissions.PermSet.HasPermission | filters/permissions/permset.go:10-21 | returns that value, else no |
| Permissions.PermSet.SetPermission | filters/permissions/permset.go:23-25 | sets one key |
| Permissions.PermSet.Apply | filters/permissions/permset.go:27-38 | succeeds exactly if every key is inside the root and not in conflict, whatever the map order; a failure leaves a part copied and nothing refused |
| Permissions.LatestGroupWins | filters/permissions/permissions.go:46-61 | a key of a folded set has the value of the latest group that has it; folding fails exactly if a group is missing |
| Permissions.DefaultIsFirstGroup | filters/permissions/permissions.go:90-92 | the default group under a user's groups is one more group in front |
| Permissions.DecisionUnique | filters/permissions/permissions.go:46-61 | at most one key and one group decide, so the groups leave one answer |
| Permissions.AnswerIsDecided | filters/permissions/permissions.go:46-61 | every answer of a folded set is decided so: there always is such a key and group, or none has any and the answer is no |
| Permissions.OneKeyIsLocal | filters/permissions/permset.go:10-25 | setting a key affects exactly the names at or below it without a more specific entry |
| Permissions.FoldGroups | filters/permissions/permissions.go:49-59 | the inner loop folds the groups of one user in order |
| Permissions.LoadedValue | filters/permissions/permissions.go:47-61 | without clashing nicknames each user's set is the fold of his groups, whatever the order |
| Permissions.LoadOrderExactly | filters/permissions/permissions.go:46-61 | the result is independent of the map order if and only if nicknames that differ only in case have the same permissions, or a group is missing |
| Permissions.CalculateUsers | filters/permissions/permissions.go:46-61 | the loop over all users visits each once and fails exactly if a group is missing |
| Permissions.Store.LoadPermissions | filters/permissions/permissions.go:31-70 | installs both tables, or on any error changes nothing |
| Permissions.Store.GetPlayerPermissions | filters/permissions/permissions.go:86-94 | the user's set over the default group; missing ones read as empty |
| Permissions.Store.Query | filters/permissions/permissions.go:86-94 | after a load, what a player may do is decided by the most specific key of the groups that count for him, the latest first and the default group, if there is one, last |
| Permissions.LoadedFromLists | filters/permissions/permissions.go:46-61 | every user's set is the fold of the groups listed for one spelling of his name, and every listed name has one |

## Left out

- Sockets, bufio, timeouts, logging, packet traces, RSA, SHA-1, AES, JSON and the regular expressions: parameters or abstract functions with only the laws stated beside them.
- zlib: a streaming compressor with an inverse; its internals are not modelled. Whether its reader returns the last byte together with the end of the stream is a parameter.
- Frames.StreamRoundTrip: supposes that a typed packet serializes to less than 2 GiB, so that its data length is an int32.
- PacketIO.PacketReader.ReadPacket: a negative frame length is the error NegativeLength, where the source panics in the buffer pool; io.EOF is told from the others, whose identity is reduced to a kind. A VarInt cut after its first byte is not io.EOF in current Go releases; in older ones it is.
- Wire.UvarintRoundTrip: over-long VarInts follow the ten-byte limit of binary.ReadUvarint in current Go releases.
- StructCodec.StructRoundTrip: NBT fields, which an external library reads, and `[]Identifier` fields, whose reader appends count entries to count empty ones (packets/ioutils.go:96-102), are not field types of the model; floats are their bit patterns, so the quieting of signalling NaNs does not show.
- PlayPackets.PlayerListRoundTrip: speaks of complete input; a truncated ADD_PLAYER item is accepted by the source because its error is shadowed (packets/play_clientbound.go:359), and the model accepts it too.
- JavaUtf.ReadJavaUTF: the partial string the source returns beside an unexpected end is not modelled.
- Chat.Parts: text is a sequence of runes; that invalid UTF-8 is read as replacement characters is left to the reader of the string.
- Cfb8.EncryptedReader.Read: only reads without an error; the source returns bytes that come with an error undecrypted (packets/encryption.go:77-79). Destination and source are one range of one array or ranges of two arrays; overlapping ranges at different offsets are not modelled.
- SessionOrder.SessionsInOrder: the client's output counts packets whose write was reported as done; the bytes of a packet cut off by the error that ends the session are the subject of PacketIO.
- MsgWire.ClientTableFromBytes: supposes that what each list carries is within the bounds of the parser, at most 16384 items among them, which no writer checks.
- SessionMirror.RunKeepsMirror: supposes that injected packets touch only a set of reserved UUIDs that upstreams never use; which set is arbitrary.
- SessionMirror.TakeUpstreamKeepsMirror: the saved item and the packet share the Properties slice; a later filter that writes into that slice, instead of replacing it, is not modelled.
- Session.StepKeepsWellformed: the idle timer is a step that may happen at any time, PacketTrace is off, and login before the PLAY state is not part of the machine.
- TabList.ClientConverges: a packet of someone else that names a cell counts as damage until the next full update is accepted, also when a full one was already on its way. Cells are read and written one at a time; a data race inside one cell, which the source does not exclude, is not modelled.
- Filters.Registry.Register: registering packet ID 256, which no packet type of the source has, is excluded.
- DataLength on arbitrary input: the source never compares it with the decompressed size; only the writer's output is said to have it.
- EntityMetadata, SpawnPlayer and STATUS ping packets: their parsers and printers are not matched pairs.
- ItemData, the caches, message history rings, duration parsing, chat and ban commands, SQL, Redis, YAML and the HTTP authenticator: plumbing, or easy members.
