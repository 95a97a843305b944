# Proofs about U-Boot command code

This project models eleven parts of this U-Boot tree that keep state or run nontrivial loops, and proves what they promise.
Each part has a simple counterpart (a sequence, a list, a set of sectors, a permutation) which the code is shown to refine:
the code's loops are methods on classes with the code's own fields and buffers, each proved against a specification function,
and the properties are lemmas about those functions.

- **Kermit receiver** (`KermitCoding`, `KermitPackets`, `KermitReceiver`, `KermitDelivery`, `KermitTransfer`, `KermitDamage`,
  `KermitExamples`, `KermitReplies`, `KermitTranscript`): payload bytes go straight to memory; checkpoint and restore, keyed on
  the sequence number, undo damaged and repeated packets, and every packet is answered. The byte reader refines a step model of
  accepted and rejected packets with any numbers. The packet format and the control quoting are those of the Kermit Protocol
  Manual (da Cruz, sixth edition), chapter 6.
- **S-records** (`SRecordCoding`, `SRecordTransfer`, `SRecordMemory`, `SRecordFiles`, `SRecordSave`, `SRecordLoad`): the
  writer with its two fixed buffers, the line reader, the decoder of `s_record.c` and the loader, the round trip through all of
  them, and files of every record type.
- **MTD partition table** (`MtdSize`, `MtdNumbers`, `MtdParts`, `MtdText`, `MtdGrammar`, `MtdReparse`, `MtdPrinter`, `MtdTable`,
  `MtdEdits`, `MtdCommands`, `MtdState`): printer, parser and the meaning of what it accepts, sorted lists under edits, and the
  index of the current partition.
- **Environment** (`EnvBytes`, `EnvStore`, `EnvCommands`): a list of variables in one byte array, edited in place.
- **RAM march test** (`MarchOrder`, `MarchCore`, `MarchTest`, `MarchRun`): strided double loops over memory with stuck bits
  and aliased addresses.
- **Boot description records** (`BootRecord`, `BootRecordRun`): a numbered record log in flash.
- **Flash range planner** (`FlashPlan`, `FlashErase`), **log buffer** (`LogBuffer`, `LogRun`), **floppy read** (`FloppyRead`,
  `FloppyRun`), **branch operands** (`BranchOperand`), **EEPROM transfers** (`Eeprom`, `EepromRun`) and **ring buffer**
  (`CircBuf`).

`Common`, `Arithmetic` and `Rings` hold shared types and facts. A byte is 0..255 and a `word` is an unsigned 32-bit value;
where the code's arithmetic wraps, the model says so. Whatever the code cannot decide itself (input, an interrupt, whether a
device accepts a command, stack contents behind a buffer) is a parameter or an arbitrary choice.

Where comments and code differ, the model follows the code: the comments on the branch options mark bits as ignored that the
switch does not ignore (`TakenIsRule`), and the receiver assumes that a sequence number is received correctly. `DamageIff`
says exactly what it survives without that: a data packet counts once for its first accepted copy and once more for each
repeat in front of which a packet with another number was rejected first, and once less when the first packet rejected in
front of the next one has its number or a broken header; all damage is survived that lets every data packet count once.

## Model

| member | source | states |
|---|---|---|
| `KermitDamage.PayloadDelivered` | u-boot/common/cmd_load.c:801-977 | Exactly-once delivery: any payload, control-quoted, cut into data packets anywhere (also between a quote and its character), each accepted any number of times, with any rejected copies that carry their own packet number: the receiver returns the payload length, memory from the start address holds exactly the payload and nothing below it changes. |
| `KermitDamage.OnceEachDelivers` | u-boot/common/cmd_load.c:801-977 | The same whatever is rejected, with any number or none, as long as every data packet counts once. |
| `KermitDamage.DamageIff` | u-boot/common/cmd_load.c:833-900 | Exactly what damage the receiver survives: a transfer with rejected packets of any number or with broken headers delivers its data, whatever the data, if and only if every data packet counts once. |
| `KermitDamage.CountsOnceIff` | u-boot/common/cmd_load.c:881-900 | When a packet counts once, read off the packets rejected: the first one rejected in front of each repeat has this number or a broken header, and the first one rejected in front of the next packet has another number; or one repeat follows a strange number and the next packet a rejected one with this number or a broken header. |
| `KermitDamage.OwnNumbersOnce` | u-boot/common/cmd_load.c:881-900 | When whatever is rejected carries the number of its own packet, every packet counts once. |
| `KermitDamage.DeliveredLength` | u-boot/common/cmd_load.c:833-977 | For every transfer, the number of bytes delivered: the length of the data, plus the length of each packet for each time it counts too often, less that of each packet that counts not at all. |
| `KermitDamage.OneKindIff` | u-boot/common/cmd_load.c:833-977 | For the data as they are: as long as packets are only lost, or only counted too often, the bytes are right if and only if every packet that carries some counts once. |
| `KermitExamples.HeaderLosesData` | u-boot/common/cmd_load.c:875-900 | A concrete transfer in which an acknowledged byte is lost because the length byte of the next packet arrives as 0 once. |
| `KermitExamples.MisreadLosesData` | u-boot/common/cmd_load.c:881-900 | One in which it is lost because the next packet is heard once with the number of the packet before and rejected. |
| `KermitExamples.StrayDoublesData` | u-boot/common/cmd_load.c:881-900 | One in which it is delivered twice because its packet is heard with a strange number, rejected and then repeated. |
| `KermitExamples.OneForAnotherData` | u-boot/common/cmd_load.c:881-900 | One in which a packet is lost and an equal one doubled, so that the bytes are right although neither counts once. |
| `KermitTransfer.TransferDelivers` | u-boot/common/cmd_load.c:801-977 | Every transfer, with any rejected packets, returns at its break packet the number of bytes that Delivered says; exactly those are in memory and nothing below the start changes. |
| `KermitTransfer.DeliveredIsCounted` | u-boot/common/cmd_load.c:681-706 | What is delivered is the unquoting of the data fields in order, each as often as CountOf says. |
| `KermitTransfer.RoundsHeard` | u-boot/common/cmd_load.c:825-975 | The same from any state of the receiver, for any packets. |
| `KermitTransfer.TurnsHeard` | u-boot/common/cmd_load.c:881-975 | All accepted copies of one packet with what is rejected between them: the first counts, and each one behind a rejected packet of another number counts once more. |
| `KermitDelivery.SessionDelivers` | u-boot/common/cmd_load.c:801-977 | For every sequence of packets on the line, accepted or rejected, with any numbers, up to one that ends the session: the value returned and memory are those of the checkpoint machine without memory, and nothing below the start changes. |
| `KermitDelivery.StepTracks` | u-boot/common/cmd_load.c:881-975 | One packet of any kind keeps memory and the checkpoint machine in step; nothing in front of the checkpoint is rewritten. |
| `KermitDelivery.SessionStep` | u-boot/common/cmd_load.c:825-975 | The byte-level reader refines the step model: the bytes of one packet or one broken header, behind any noise, do to the receiver what one step does, or end the session on an accepted break packet. |
| `KermitDelivery.SessionSteps` | u-boot/common/cmd_load.c:825-975 | Any run of packets, none of which ends the session, moves the byte-level reader by the run of steps. |
| `KermitDelivery.IntactCopyGood` | u-boot/common/cmd_load.c:867-960 | A copy built with the sender arithmetic of the block check passes every check of the reader. |
| `KermitDelivery.ReplyReadsBack` | u-boot/common/cmd_load.c:590-623 | A reply is a packet by the rules of the reader: its type and its fields are read back from it. |
| `KermitCoding.EncodeRoundTrip` | u-boot/common/cmd_load.c:569-578 | Unquoting undoes control quoting, from any point of a stream, for a prefix that ktrans leaves alone. |
| `KermitCoding.QuoteUsableIff` | u-boot/common/cmd_load.c:569-578 | A prefix character carries every payload exactly when it is outside the two ranges ktrans changes. |
| `KermitCoding.UnstableQuoteFails` | u-boot/common/cmd_load.c:569-578 | For any other prefix, the payload that is not restored. |
| `KermitCoding.EncodePrintable` | u-boot/common/cmd_load.c:867-900 | Encoded data never contains a character that the reader rejects. |
| `KermitCoding.FeedConcat` | u-boot/common/cmd_load.c:691-706 | Unquoting is a stream machine: a quote may end one packet and act in the next. |
| `KermitPackets.ShortFrameAccepted` | u-boot/common/cmd_load.c:896-960 | A normal-length packet closed with its check is accepted with its type and data. |
| `KermitPackets.LongFrameAccepted` | u-boot/common/cmd_load.c:901-935 | The same of an extended-length packet, with its header check. |
| `KermitPackets.ReadTailLocal` | u-boot/common/cmd_load.c:896-960 | A verdict reached inside a packet does not depend on what follows it. |
| `KermitReceiver.SignedCheck` | u-boot/common/cmd_load.c:580-588 | Summing signed characters, as chk1 does, gives the same check character as the unsigned sum of the receiver. |
| `KermitReceiver.Receiver.KRecv` | u-boot/common/cmd_load.c:801-977 | The receive loop ends in the state and the outcome of the session specification, for every input. |
| `KermitReceiver.Receiver.ReceivePacket` | u-boot/common/cmd_load.c:848-960 | One packet from its length byte on: status, state, and how much input it took are those of the specification. |
| `KermitReceiver.Receiver.HandlePacket` | u-boot/common/cmd_load.c:848-975 | Reading a packet and replying to it, together: state, output and rest of the input are those of the Packet step, for which SessionReplies says what is answered and AcceptedIff what is accepted. |
| `KermitReceiver.Receiver.HandleSendPacket` | u-boot/common/cmd_load.c:714-798 | Parameter negotiation: what is taken over from the peer, and the answer of as many fields as it sent, in the 24-byte reply buffer. |
| `KermitReceiver.Receiver.SendReply` | u-boot/common/cmd_load.c:599-623 | ACK and NACK replies with their check and the line end the peer wants. |
| `KermitReceiver.Receiver.Chk1` | u-boot/common/cmd_load.c:580-588 | The sum over the reply buffer up to its NUL, in signed characters, gives the check character that the receiver side computes for those bytes. |
| `KermitReceiver.Receiver.SendPacket` | u-boot/common/cmd_load.c:590-596 | Padding and the reply up to its NUL go out in order. |
| `KermitReceiver.Receiver.DataChar` | u-boot/common/cmd_load.c:691-706 | One character of a data field is stored as it is, starts an escape, or is translated and stored; address and escape flag follow. |
| `KermitReceiver.Receiver.DataSave` | u-boot/common/cmd_load.c:681-685 | The checkpoint becomes the position, address and escape flag; nothing else changes. |
| `KermitReceiver.Receiver.DataRestore` | u-boot/common/cmd_load.c:686-690 | Address and escape flag become those of the checkpoint; nothing else changes. |
| `KermitReplies.SessionReplies` | u-boot/common/cmd_load.c:801-977 | Over every session, from its first byte to the break packet, whatever was rejected: one reply to each packet and nothing else. Behind the padding asked for, each is a packet that the reader itself accepts, with type Y for an accepted packet and N for a rejected one or a broken header, the last number received, and the line end asked for. |
| `KermitReplies.StepReplies` | u-boot/common/cmd_load.c:825-975 | One packet, whatever came before it: the reply added to the output, and what the next one will be sent with. |
| `KermitPackets.AcceptedIff` | u-boot/common/cmd_load.c:867-960 | Which bytes behind the length and the number of a packet are accepted, exactly, for both lengths of packet: characters from 32 on, as many as announced, closed by the block check over all of them and a carriage return, and in a long packet a header check. |
| `KermitDelivery.SessionStops` | u-boot/common/cmd_load.c:850-866 | A Control-C between packets cancels the session, whatever came before; without more input it goes on waiting. |
| `KermitTranscript.Transcript` | u-boot/common/cmd_load.c:801-977 | One session byte for byte in both directions: parameters with padding, a data packet damaged once and repeated, and the break packet; two bytes in memory, their number, and the four replies. |
| `SRecordMemory.SaveThenLoad` | u-boot/common/cmd_load.c:331-384 | For every address, count and offset, loading what a save sends restores each byte of the range at the offset, around the end of the address space, and changes no other byte, whatever the target held; the load returns address 0. |
| `SRecordMemory.SizeReported` | u-boot/common/cmd_load.c:157-202 | The size the load reports for a save, exactly: it is the count if and only if SizeRight holds, that is, for a nonempty range below the end of the address space, for one that fits one record, and for one count for which wrapped tracking happens to agree. |
| `SRecordMemory.SizeTracked` | u-boot/common/cmd_load.c:157-202 | The minimum and maximum tracking over the runs, in closed form compared with the count. |
| `SRecordMemory.StoreChunksAt` | u-boot/common/cmd_load.c:172-189 | The runs stored one after the other are the range in its place and nothing else. |
| `SRecordTransfer.LoadSaved` | u-boot/common/cmd_load.c:142-215 | The lines of a save, on the wire, are read, decoded and stored run by run, with a start record before and the end record after. |
| `SRecordTransfer.RecordsCover` | u-boot/common/cmd_load.c:343-380 | The i-th data record starts 16 * i bytes into the range and holds the next 16 bytes or what is left of them (in numbers, RunsAre). |
| `SRecordTransfer.RecordsCount` | u-boot/common/cmd_load.c:343-380 | There are as many data records as the count needs, none for an empty range. |
| `SRecordTransfer.ReadSent` | u-boot/common/cmd_load.c:217-251 | Lines short enough, of characters above carriage return, arrive whole and in order. |
| `SRecordCoding.DecodeWritten` | u-boot/common/s_record.c:30-170 | Each record written decodes to its address and its data. |
| `SRecordCoding.RecordSums` | u-boot/common/cmd_load.c:357-368 | The bytes of a record, checksum included, sum to 0xFF modulo 256. |
| `SRecordCoding.RecordIsBytes` | u-boot/common/cmd_load.c:326-372 | A record is S3 and its bytes in hex; with newline and NUL it fits the 48-byte buffer. |
| `SRecordCoding.DecodeBytes` | u-boot/common/s_record.c:30-170 | Any line of any record type whose bytes sum to 0xFF decodes to its fields. |
| `SRecordFiles.LineDecodes` | u-boot/common/s_record.c:30-170 | Every record type with the length of its address written out (S0, S1, S5, S9 two bytes, S2, S8 three, S3, S7 four): the line decodes to its type, its address and its data when its last byte is the right one, and is refused for its checksum when it is any other. |
| `SRecordFiles.RecordExample` | u-boot/common/cmd_load.c:326-372 | The line written for two bytes, character for character. |
| `SRecordFiles.LineRefused` | u-boot/common/s_record.c:30-170 | A line of any other type is refused, and one whose number is not in hex. |
| `SRecordFiles.FileLoads` | u-boot/common/cmd_load.c:142-215 | A file of records of any types in any order, closed by an S7, S8 or S9 record: the data of its S1, S2 and S3 records is stored in order at their addresses plus the offset, and the last address is given back; it is aborted exactly when flash refuses one of them. |
| `SRecordFiles.BadLineAborts` | u-boot/common/cmd_load.c:142-215 | A line that cannot be decoded in front of the end aborts the load, and so does a file without an end. |
| `SRecordFiles.LongLineCut` | u-boot/common/cmd_load.c:217-251 | A line longer than 516 characters is cut and goes on as the next line. |
| `SRecordFiles.BreaksOff` | u-boot/common/cmd_load.c:217-251 | A NUL or a Control-C breaks the reading off. |
| `SRecordCoding.DecodeStart` | u-boot/common/cmd_load.c:326-328 | The header line is a start record without data. |
| `SRecordCoding.DecodeEnd` | u-boot/common/cmd_load.c:326-328 | The last line is an end record with address 0. |
| `SRecordSave.Saver.SaveSerial` | u-boot/common/cmd_load.c:331-384 | The byte-by-byte loop sends exactly the lines of the range, or, when the console is interrupted behind a line, those up to it; both fixed buffers hold what is put into them. |
| `SRecordSave.Saver.Dump` | u-boot/common/cmd_load.c:355-374 | Formats the buffered digits and the running sum into the record line of the bytes they stand for and sends it; it fails exactly when this line is interrupted. |
| `SRecordSave.Saver.WriteRecord` | u-boot/common/cmd_load.c:386-400 | A string goes out up to its NUL, and the result says whether the console interrupted behind it. |
| `SRecordLoad.Loader.Load` | u-boot/common/cmd_load.c:142-215 | The load loop gives the address, the memory and the size of the specification, or aborts when that does, for every input. |
| `SRecordLoad.Loader.SrecDecode` | u-boot/common/s_record.c:30-170 | The decoder, with its falling-through address cases and its byte-wide sum, for every string: result code, count, address and data. |
| `SRecordLoad.Loader.NextRecord` | u-boot/common/cmd_load.c:217-251 | Reading a line into the fixed buffer, ended by a newline, by the buffer, or by an abort. |
| `MtdText.PrintThenParse` | u-boot/common/cmd_jffs2.c:1107-1224 | Printing a table and parsing the text gives the same devices, order, sizes, offsets (also those left out where partitions abut), user names and ro flags exactly when every partition has at least 4096 bytes; otherwise the text is rejected. |
| `MtdText.ParsePrintedParts` | u-boot/common/cmd_jffs2.c:602-710 | The same of one list of partitions, with the running offset. |
| `MtdText.ParsePrintedDevice` | u-boot/common/cmd_jffs2.c:867-992 | The same of one device, in front of any rest. |
| `MtdText.ParsePrintedPart` | u-boot/common/cmd_jffs2.c:602-710 | One printed partition parses back; an omitted offset comes out as not specified. |
| `MtdSize.FormatThenParse` | u-boot/common/cmd_jffs2.c:198-245 | memsize_parse inverts memsize_format for every 32-bit size, in front of any text that does not continue a number. |
| `MtdText.DeviceParseSorted` | u-boot/common/cmd_jffs2.c:867-992 | Whatever text is accepted gives a nonempty, sorted list of partitions that fit the device. |
| `MtdParts.SortAddAllSorts` | u-boot/common/cmd_jffs2.c:517-571 | Partitions inserted in any order end up sorted, and are exactly those. |
| `MtdParts.SortAddAllInOrder` | u-boot/common/cmd_jffs2.c:517-571 | An ascending list is taken over in order. |
| `MtdTable.RunKeepsTable` | u-boot/common/cmd_jffs2.c:446-571 | Over any run of edits with distinct offsets the lists stay sorted, counts are lengths, the current pair is valid and mtddevnum is up to date. |
| `MtdTable.RunKeepsCurrent` | u-boot/common/cmd_jffs2.c:446-571 | Over any run that does not delete it, the current pair keeps naming the same partition. |
| `MtdTable.RunFollowsCurrent` | u-boot/common/cmd_jffs2.c:446-571 | Over any run, each edit leaves current what NextCurrent says of the table before it, also when it deletes the current partition. |
| `MtdTable.StepKeeps` | u-boot/common/cmd_jffs2.c:446-571 | One edit keeps the invariant and leaves current what NextCurrent says: the same partition; when that is deleted the first left on its device, else of the first device left, else none; the first partition of the first device added. |
| `MtdTable.PartDelKeeps` | u-boot/common/cmd_jffs2.c:446-486 | Deleting a partition, also the last one of a device: the invariant stays, and what is current then is the same partition, or when that one is deleted the first left on its device, else of the first device left, else none. PartDelHolds says what the lists hold. |
| `MtdTable.PartAddKeeps` | u-boot/common/cmd_jffs2.c:580-591 | Adding a partition keeps the invariant and the partition that is current, wherever the new one goes in. |
| `MtdTable.DelCurrentDevice` | u-boot/common/cmd_jffs2.c:788-810 | Deleting the current device makes the first partition of the first one left current, or none. |
| `MtdTable.DelKeepsIndexIff` | u-boot/common/cmd_jffs2.c:446-486 | For sorted lists with possibly equal offsets: the index stays on its partition exactly when the deleted one is not behind it at the same offset. |
| `MtdTable.EqualOffsetsLoseCurrent` | u-boot/common/cmd_jffs2.c:446-486 | Two partitions at one offset: deleting the second moves the index of the first from 0 to 255. |
| `MtdTable.AddKeepsIndex` | u-boot/common/cmd_jffs2.c:517-571 | Comparing offsets tells on which side of the current partition the new one went. |
| `MtdTable.DevnumIsPosition` | u-boot/common/cmd_jffs2.c:252-285 | mtddevnum is the position of the current partition among all partitions of the table. |
| `MtdEdits.RunConserves` | u-boot/common/cmd_jffs2.c:446-591 | Over any run of edits no partition is lost or invented: those that were there and those brought in are those that are there and those taken out, each with its device, counted with repetition. |
| `MtdEdits.RunEdits` | u-boot/common/cmd_jffs2.c:446-591 | Over any run, each edit leaves exactly the lists that Edited says of the lists before it: one partition put in behind all at lower offsets, the k-th taken out, a device taken out with its only partition, or nothing changed; the other devices and all orders stay. |
| `MtdEdits.PartAddHolds` | u-boot/common/cmd_jffs2.c:407-591 | Adding succeeds exactly for a partition that lies inside the device on allowed bounds and is no second one at offset 0. Then its list is the old one with that partition put in, a fill-up size resolved to the rest of the device, and nothing else has changed; a failure changes nothing. |
| `MtdEdits.PartDelHolds` | u-boot/common/cmd_jffs2.c:446-486 | Deleting one of several partitions leaves its list without exactly the k-th, in order, and all other devices as they were; deleting the only one takes its device out and the others keep their order. |
| `MtdGrammar.ValidateIff` | u-boot/common/cmd_jffs2.c:322-440 | A partition is accepted exactly when it is nonempty, inside the device and begins and ends on erase units or sector boundaries; it is taken over as it is, except that a fill-up size becomes the rest of the device, so that offset and size add up to its size. |
| `MtdGrammar.PlaceIff` | u-boot/common/cmd_jffs2.c:917-933 | The same behind an omitted offset, which is filled in with the end of the partition before. |
| `MtdGrammar.PartsArePlaced` | u-boot/common/cmd_jffs2.c:909-944 | For every list that is accepted: its partitions are those written, each with the name and flag written, at the offset written or behind the one before, and with the size written or all that is left; only the last may ask for that. |
| `MtdGrammar.PlacedAreParsed` | u-boot/common/cmd_jffs2.c:909-944 | The other way round: a list whose partitions can be placed so is accepted with exactly these. |
| `MtdGrammar.DevicePlaced` | u-boot/common/cmd_jffs2.c:867-992 | A whole device: what is accepted has exactly the partitions written behind its name, each at its place, sorted by their offsets. |
| `MtdGrammar.PartReads` | u-boot/common/cmd_jffs2.c:602-711 | A definition of any size, offset, name and flag, in any notation of its numbers, is read as what it says; behind a fill-up size no other may follow. |
| `MtdGrammar.OffsetLeftOutIff` | u-boot/common/cmd_jffs2.c:1158-1172 | The printer leaves an offset out exactly where the parser puts the partition at its place without it. |
| `MtdGrammar.PrintedTable` | u-boot/common/cmd_jffs2.c:1107-1224 | One table character for character: units, a gap with its offset, a generated name, a read-only partition, and the separators. |
| `MtdGrammar.BadNameRejected` | u-boot/common/cmd_jffs2.c:640-665 | A name that does not close, or is empty, is rejected. |
| `MtdGrammar.JunkRejected` | u-boot/common/cmd_jffs2.c:602-711 | Behind a name and its flag only a separator or the end is accepted. |
| `MtdGrammar.DeviceRejected` | u-boot/common/cmd_jffs2.c:867-992 | A device without a colon, with an unknown name or without partitions is rejected. |
| `MtdNumbers.MemsizeRead` | u-boot/common/cmd_jffs2.c:198-229 | A size in decimal, octal or hexadecimal notation with a unit k, m or g in either case is read as its value in 32 bits, in front of any text that does not go on with it. |
| `MtdCommands.ParseMtdparts` | u-boot/common/cmd_jffs2.c:1390-1437 | The loop over devices gives the table of the specification, or fails when a device is malformed or defined twice, for every text. |
| `MtdCommands.ParseDevice` | u-boot/common/cmd_jffs2.c:867-992 | One device: its list in order of offsets and the text behind its separator, or a failure, as the specification has it for every text. |
| `MtdCommands.ParseParts` | u-boot/common/cmd_jffs2.c:909-944 | The loop with its running offset gives the partitions and the rest of the text that the recursive specification gives, or fails with it; PartsArePlaced and PlacedAreParsed say which those are. |
| `MtdPrinter.Printer.Generate` | u-boot/common/cmd_jffs2.c:1107-1224 | The printer, piece by piece with its length test in front of each, leaves memory and result as Generated says, for every table, buffer address and length. |
| `MtdPrinter.GenerateResult` | u-boot/common/cmd_jffs2.c:1107-1224 | It succeeds exactly when the text without its prefix is shorter than the buffer; then the whole text and a NUL are in memory, otherwise the empty string. |
| `MtdPrinter.GenerateWrites` | u-boot/common/cmd_jffs2.c:1120-1224 | Exactly the addresses from the buffer on up to Reach are written: prefix, what fits of the text, and a NUL. |
| `MtdPrinter.SparedIff` | u-boot/common/cmd_jffs2.c:1107-1224 | Memory at and behind the end of the buffer is spared, whatever it holds, if and only if Reach is within the buffer. |
| `MtdPrinter.ReachOfSuccess` | u-boot/common/cmd_jffs2.c:1107-1224 | For a success that is when the text with its prefix is shorter than the buffer. |
| `MtdPrinter.ReachBound` | u-boot/common/cmd_jffs2.c:1107-1224 | At most nine bytes behind the buffer are written, at most eight when a piece is too long. |
| `MtdPrinter.AcceptedBehind` | u-boot/common/cmd_jffs2.c:1107-1224 | With the 512 bytes of both callers, a valid table whose text has 503 to 511 characters is accepted and its end lies behind the buffer. |
| `MtdPrinter.RefusedBehind` | u-boot/common/cmd_jffs2.c:1107-1224 | A table refused for a later piece has been written behind the buffer as well. |
| `MtdPrinter.PutItemsFits` | u-boot/common/cmd_jffs2.c:1134-1208 | Of the pieces of a text, those up to the first that is longer than the room left are written; all of them exactly when the whole text is not longer than the room. |
| `MtdReparse.ParsePrintParse` | u-boot/common/cmd_jffs2.c:867-992 | For every text the parser accepts, with any order of partitions, fill-up sizes and omitted offsets: the text printed for its table parses to the same table, when its partitions have distinct offsets and sizes from 4096 to 2^32 - 2. |
| `MtdReparse.DevicesAccepted` | u-boot/common/cmd_jffs2.c:1390-1437 | Whatever text is accepted, its devices are distinct and named in the mtdids, with sorted, fitting partitions whose names the text can carry. |
| `MtdState.Partitions.SortAddPart` | u-boot/common/cmd_jffs2.c:517-571 | The scan over the list puts the partition where the specification does, and moves the current number when it goes in front of the current one; a second partition at offset 0 is refused. |
| `MtdState.Partitions.AddPartition` | u-boot/common/cmd_jffs2.c:580-591 | part_add: validates the partition, resolving a fill-up size, and inserts it as the specification that PartAddHolds is about does; on a failure nothing changes. |
| `MtdState.Partitions.DeletePartition` | u-boot/common/cmd_jffs2.c:446-486 | Removes the partition, or its whole device when it is the only one, and moves the current number in 8 bits, as the specification that PartDelHolds and the invariant are proved for does. |
| `MtdState.Partitions.DeleteDevice` | u-boot/common/cmd_jffs2.c:788-810 | Removes the device, and makes the first partition of the first one left current when it was the current device. |
| `MtdState.Partitions.IndexPartitions` | u-boot/common/cmd_jffs2.c:252-285 | The loop, summing in 16 bits up to the current device, sets mtddevnum to the index of the current partition, or leaves it when that device is not in the list. |
| `EnvStore.SetEnvTarget` | u-boot/common/cmd_nvedit.c:155-330 | What a command does to the variable it names: refused ones change nothing, a deleted or overflowing one is gone, a set one has its value and moves to the end; overflow means it does not fit. |
| `EnvStore.SetEnvOthers` | u-boot/common/cmd_nvedit.c:155-330 | Every other variable keeps its value. |
| `EnvStore.LastValueWins` | u-boot/common/cmd_nvedit.c:486-506 | After any run, getenv of a name returns the arguments of the last successful command on it joined by blanks, whatever was done to other names since. |
| `EnvStore.RunKeepsList` | u-boot/common/cmd_nvedit.c:155-330 | Over any run the list keeps distinct names and fits the byte array. |
| `EnvStore.RunKeepsOthers` | u-boot/common/cmd_nvedit.c:155-330 | Over any run of commands on other names a value stays. |
| `EnvStore.WriteOnce` | u-boot/README:2571-2579 | Once serial# or ethaddr has a value, no run of commands on names free of = changes or removes it. |
| `EnvStore.WriteOnceIff` | u-boot/common/cmd_nvedit.c:184-200 | The names against which the protection of serial# and ethaddr holds: all but those that continue the name with =. |
| `EnvStore.RefusedIff` | u-boot/common/cmd_nvedit.c:182-262 | Which commands on an existing variable are refused, in full: serial# and ethaddr unless overwriting is configured; deleting stdin, stdout or stderr, or a console that says no; a baud rate that is not supported. Any other command deletes it or stores its arguments joined by blanks. |
| `EnvStore.FailsForSpace` | u-boot/common/cmd_nvedit.c:182-330 | A command on any other name fails exactly when the list with its definition takes more bytes than there are. |
| `EnvStore.BytesOf` | u-boot/common/cmd_nvedit.c:296-330 | The bytes of a list: each definition closed by a NUL, and one more at the end; two for an empty list. |
| `EnvStore.TargetIff` | u-boot/common/cmd_nvedit.c:559-569 | An argument names a variable exactly when it equals its name or continues it with =. |
| `EnvStore.SetEnvParts` | u-boot/common/cmd_nvedit.c:258-327 | One command keeps the names distinct and the encoding within the size of the array. |
| `EnvCommands.Environment.SetEnv` | u-boot/common/cmd_nvedit.c:155-330 | The in-place editor does to the bytes what the list specification says, and returns its result. |
| `EnvCommands.Environment.GetEnv` | u-boot/common/cmd_nvedit.c:486-506 | The lookup finds the value exactly when the variable is there. |
| `EnvCommands.Environment.EnvMatch` | u-boot/common/cmd_nvedit.c:559-569 | The comparison loop gives the index of the value exactly when the entry is that of the name, otherwise -1. |
| `EnvCommands.Environment.Find` | u-boot/common/cmd_nvedit.c:170-179 | The search loop finds the entry of a name, where it starts, where it ends and where its value is. |
| `EnvBytes.Buffer.Delete` | u-boot/common/cmd_nvedit.c:258-273 | Deleting a first, middle, last or only entry by forward compaction leaves exactly the other entries with the double NUL behind them. |
| `EnvBytes.Buffer.Append` | u-boot/common/cmd_nvedit.c:293-324 | Appending succeeds exactly when the new list fits, never writes past the array, and otherwise leaves the list. |
| `EnvBytes.AppendLength` | u-boot/common/cmd_nvedit.c:300-309 | The length test of the append is exact. |
| `EnvBytes.EntryAt` | u-boot/common/cmd_nvedit.c:258-273 | Where each entry of an encoded list stands, and where the list ends. |
| `MarchTest.TestPassesIff` | u-boot/common/cmd_mem.c:1470-1572 | With more than one word, the test passes exactly on memory without a stuck bit in a tested word and without two tested addresses in one cell, for the constant and the address-as-data pattern, every base address and every content. |
| `MarchTest.TestRestores` | u-boot/common/cmd_mem.c:1481-1572 | Fault-free memory is never reported and ends up with the pattern in every word, or with its address xor the pattern. |
| `MarchTest.RoundFindsStuckBits` | u-boot/common/cmd_mem.c:1485-1572 | One stride round without failure excludes a stuck bit in every visited word. |
| `MarchTest.RoundFindsAliases` | u-boot/common/cmd_mem.c:1485-1572 | One stride round without failure excludes two visited words in one cell. |
| `MarchOrder.OrderVisitsOnce` | u-boot/common/cmd_mem.c:1486-1487 | Each double loop visits every word of the range exactly once, whatever the stride. |
| `MarchOrder.OrderIsStrided` | u-boot/common/cmd_mem.c:1486-1528 | In which order: by the remainder modulo the stride, and among equal remainders upwards. |
| `MarchCore.RoundsAreAll` | u-boot/common/cmd_mem.c:1485-1572 | The rounds are those of stride 4, 8, 16 and so on below the size, each once, and no others. |
| `MarchOrder.StrideLoopEndsIff` | u-boot/common/cmd_mem.c:1485 | The stride loop ends exactly for sizes up to 2^31; beyond, the stride wraps to 0. |
| `MarchCore.SweepFlips` | u-boot/common/cmd_mem.c:1486-1528 | A double loop over healthy memory turns it into its complement. |
| `MarchCore.BothRestore` | u-boot/common/cmd_mem.c:1486-1571 | Two double loops over healthy memory leave it as it was, without a failure. |
| `MarchCore.RoundsRestore` | u-boot/common/cmd_mem.c:1485-1572 | All stride rounds over healthy memory leave it as it was, without a failure. |
| `MarchCore.BothRead` | u-boot/common/cmd_mem.c:1486-1569 | A round without failure has read the pattern and its complement from the cell of every word. |
| `MarchRun.Tester.TestAlgorithm` | u-boot/common/cmd_mem.c:1452-1582 | The test with its nested loops reports failure exactly when the specification does. |
| `MarchRun.Tester.RunStrides` | u-boot/common/cmd_mem.c:1485-1572 | The loop over strides reports failure exactly when the rounds of the specification do, and ends for ranges up to 2^31 bytes. |
| `MarchRun.Tester.SweepMemory` | u-boot/common/cmd_mem.c:1486-1528 | The nested loops over one stride and one pattern leave memory and failure flag as one sweep in the order of the specification, or stop at its first failure. |
| `MarchRun.SwapIsComplement` | u-boot/common/cmd_mem.c:1530 | Testing with the complemented pattern is expecting the complements, for both pattern kinds. |
| `BootRecord.LogKeepsLatest` | u-boot/common/cmd_bdr.c:337-403 | Over any run of writes to an erased flash, at the first or last kilobyte of blocks, the scan ends with the number of writes and with the address and arguments of the last one, whatever the arguments and the unwritten part of the records hold. |
| `BootRecord.LatestBoots` | u-boot/common/cmd_bdr.c:283-316 | findbdr then yields that write exactly when its boot address is not one of the two reserved words: an offset into the flash with 0xBF000000 added, any other address as it is. |
| `BootRecord.FoundIff` | u-boot/common/cmd_bdr.c:149-262 | What is taken for a record at either end of a 64 KB block, exactly, for any contents: both magic words, a size of more than 8 words that stays inside the block and is repeated at the other end, and a number that is neither 0 nor 0xFFFFFFFF. |
| `BootRecord.FrameIff` | u-boot/common/cmd_bdr.c:149-262 | A record written whole is found with its number, and with either magic word damaged it is not. |
| `BootRecord.RecordLayout` | u-boot/common/cmd_bdr.c:349-373 | The words the writer lays out: the frame and four tags with their numbers, names and sizes. |
| `BootRecord.TagTurn` | u-boot/common/cmd_bdr.c:89-147 | What one tag does to what is parsed, for any words: when the parse ends, and what a boot address, arguments up to 128 words, and any other tag change. |
| `BootRecord.WriteThenScan` | u-boot/common/cmd_bdr.c:337-403 | One write onto flash with any contents, into a block that is tidy or with a record that mimics no magic: the next scan ends with it. |
| `BootRecord.ScanSeesAll` | u-boot/common/cmd_bdr.c:171-277 | The scan ends with a number no smaller than that of any record. |
| `BootRecord.ScanPicks` | u-boot/common/cmd_bdr.c:283-302 | A record numbered above all others is the one whose contents the scan keeps. |
| `BootRecord.OtherEndKept` | u-boot/common/cmd_bdr.c:171-277 | A record written at one end of a block leaves what is found at the other end, or hides it. |
| `BootRecord.RecordParses` | u-boot/common/cmd_bdr.c:102-158 | A record parses to the address and arguments it was written with. |
| `BootRecord.LastNumberLost` | u-boot/common/cmd_bdr.c:350-403 | The record that takes number 0xFFFFFFFF is not found again. |
| `BootRecordRun.BootLog.WriteBdr` | u-boot/common/cmd_bdr.c:337-403 | The writer refuses offsets off a kilobyte, otherwise puts a record with the next number there by rewriting its sector, and touches no other sector. |
| `BootRecordRun.BootLog.FindBdr` | u-boot/common/cmd_bdr.c:283-316 | The scanning loop leaves sequence number, address and arguments of the record numbered highest in its globals, and gives the boot command that LatestBoots is about, or none. |
| `BootRecordRun.BootLog.FindStart` | u-boot/common/cmd_bdr.c:171-221 | A record at the beginning of a block is taken over exactly when its magics and sizes agree and its number is above the one so far. |
| `BootRecordRun.BootLog.FindEnd` | u-boot/common/cmd_bdr.c:223-277 | The same of a record at the end of a block, found backwards from its last word. |
| `BootRecordRun.BootLog.ParseTag` | u-boot/common/cmd_bdr.c:102-158 | The tag loop leaves the address and the argument block that the specification parses from a record, up to the tag it gives up at. |
| `FlashPlan.FillExact` | u-boot/common/cmd_flash.c:198-279 | On ascending contiguous known banks, a range that starts with a sector is planned exactly when it ends with one or behind the flash; then the sectors picked are exactly those that meet it, and together they are the range as far as the flash goes. |
| `FlashPlan.PlannedIff` | u-boot/common/cmd_flash.c:198-279 | A nonzero count without error comes exactly for ranges that start with a sector and end with one or behind the flash. |
| `FlashPlan.CountIsNumber` | u-boot/common/cmd_flash.c:263-265 | The count is the number of sectors picked. |
| `FlashPlan.LengthExact` | u-boot/common/cmd_flash.c:127-196 | The start and length form from a sector start is refused exactly when it reaches behind the flash; otherwise the sectors planned are exactly those that meet the length asked for. |
| `FlashPlan.BankStepIs` | u-boot/common/cmd_flash.c:216-273 | What one bank contributes, in terms of its sector boundaries alone. |
| `FlashPlan.SectorsTile` | u-boot/common/cmd_flash.c:217-235 | A sector ends where the next one starts, and the last one with its bank. |
| `FlashPlan.FillMisses` | u-boot/common/cmd_flash.c:260-273 | A range that starts with no sector is refused or picks nothing. |
| `FlashPlan.SectorEndIs` | u-boot/common/cmd_flash.c:157-186 | Every address of the flash has its sector, which ends where no other one has started. |
| `FlashErase.Planner.FillSectRanges` | u-boot/common/cmd_flash.c:198-279 | The nested loops fill s_first and s_last with the plan of the specification, and give its count or its error. |
| `FlashErase.Planner.SectErase` | u-boot/common/cmd_flash.c:410-453 | The erase succeeds exactly when something is planned without error in banks that do not refuse, and then erases exactly that. |
| `FlashErase.Planner.AddrSpecLength` | u-boot/common/cmd_flash.c:145-192 | The scan over all banks gives the end of the sector around the last address of the length asked for, or refuses as the specification does. |
| `LogBuffer.StreamIsText` | u-boot/common/cmd_log.c:215-263 | A run of calls logs what its joined text does, tagged at line starts, exactly when no call boundary splits a level; it never logs less. |
| `LogBuffer.RingHoldsText` | u-boot/common/cmd_log.c:215-263 | From an empty log, such calls leave the last 16384 characters of the tagged text in the ring. |
| `LogBuffer.RingHoldsStream` | u-boot/common/cmd_log.c:243-250 | Over any run of calls the ring holds the last characters of everything logged. |
| `LogBuffer.LinesCarry` | u-boot/common/cmd_log.c:226-239 | Every line of what is logged carries a level. |
| `LogBuffer.LineLogged` | u-boot/common/cmd_log.c:215-263 | What is logged for each line: "<4>" in front of it unless it starts with a level from "<0>" to "<7>", the line, and its newline. |
| `LogBuffer.LoggedConcat` | u-boot/common/cmd_log.c:215-263 | Two calls log what one with the joined text does exactly when no level is split between them. |
| `LogBuffer.PutTextKeeps` | u-boot/common/cmd_log.c:242-250 | Storing a text character by character leaves the last 16384 characters of what was there and of it, also with counters that wrap at 32 bits. |
| `LogRun.Log.Printk` | u-boot/common/cmd_log.c:215-263 | The call with its shared message buffer, into which levels are written over text already logged: the ring then holds the end of what was there and of the tagged text, the count has its length added in 32 bits, and the line state is that of its last character. |
| `LogRun.Log.PutLine` | u-boot/common/cmd_log.c:242-256 | The inner loop stores the characters up to and with the first newline, or all of them, and says which. |
| `LogRun.Log.TagLine` | u-boot/common/cmd_log.c:227-240 | The default level is put in front of a line exactly when it has none of its own, into the room kept free or over text already logged. |
| `LogRun.Log.Show` | u-boot/common/cmd_log.c:179-184 | Showing the log gives its contents, but nothing of a full ring. |
| `LogRun.Log.Reset` | u-boot/common/cmd_log.c:185-189 | Resetting empties the ring and its count, and leaves the level of an unfinished line. |
| `FloppyRun.Drive.ReadData` | u-boot/common/cmd_fdc.c:482-598 | The read with its retries succeeds exactly when no seek, recalibration or command fails and fewer than 25 transfers do; then the completed commands are the plan and the buffer starts with the blocks asked for, each stored once; the 25th error ends it. |
| `FloppyRead.PlanTiles` | u-boot/common/cmd_fdc.c:509-580 | The planned commands tile the blocks in order and never cross a head-track. |
| `FloppyRead.PlanFills` | u-boot/common/cmd_fdc.c:509-580 | Each command but the last goes on to the end of its head-track. |
| `FloppyRead.RegistersInvert` | u-boot/common/cmd_fdc.c:305-325 | Track, head and sector give the block back exactly while the track fits a byte. |
| `FloppyRun.Drive.Retry` | u-boot/common/cmd_fdc.c:542-592 | Which errors are retried, which recalibrate, and which end the call. |
| `FloppyRun.Drive.ReadInto` | u-boot/common/cmd_fdc.c:519-571 | A command fills the slice behind what is stored, and a failed one leaves that slice to be filled again. |
| `BranchOperand.FieldRoundTrip` | u-boot/common/bedbug.c:263-276 | For fields up to 30 bits, relative or absolute: a target assembled at an address disassembles there to itself exactly when its displacement is a whole number of words in the signed range of the field. |
| `BranchOperand.StepsToTargetB` | u-boot/common/bedbug.c:1095-1230 | A conditional branch assembled at the program counter: find_next_address gives its target when the branch is taken, and not stepped over as a call, exactly when the operand can hold it; otherwise the next instruction. |
| `BranchOperand.StepsToTargetI` | u-boot/common/bedbug.c:1095-1230 | The same of an unconditional branch with its 24-bit field. |
| `BranchOperand.StepsToRegister` | u-boot/common/bedbug.c:1134-1230 | A taken bclr steps to the link register, a taken bcctr to the counter; not taken, or stepped over as a call, to the instruction behind. |
| `BranchOperand.ConditionIsBit` | u-boot/common/bedbug.c:1162-1216 | The condition tested is the bit that BI counts from the highest bit of the condition register. |
| `BranchOperand.ReachesIff` | u-boot/common/bedbug.c:263-276 | An operand holds exactly the distances of whole words in its signed range. |
| `BranchOperand.WordOfB` | u-boot/common/bedbug.c:755-843 | The word of a conditional branch over any distance it can hold, bit by bit. |
| `BranchOperand.WordOfI` | u-boot/common/bedbug.c:755-843 | The word of an unconditional branch. |
| `BranchOperand.TakenIsRule` | u-boot/common/bedbug.c:1162-1216 | The switch over the branch options follows the meaning of their bits except for encodings whose ignored bits are set, for which it never branches. |
| `BranchOperand.AssembledB` | u-boot/common/bedbug.c:755-843 | A conditional branch assembles to the instruction with its options, its condition bit and the encoded displacement in their fields. |
| `BranchOperand.BFieldsRead` | u-boot/common/bedbug.c:375-403 | The fields read back from an instruction are those it was made of. |
| `BranchOperand.IFieldsRead` | u-boot/common/bedbug.c:375-403 | Opcode, displacement and the two lowest bits read back from an unconditional branch are those it was made of. |
| `BranchOperand.Asmppc` | u-boot/common/bedbug.c:792-842 | The operand loop gives the instruction with each number in the field of its operand, skipping silent operands, or an error for too few numbers. |
| `EepromRun.Device.Write` | u-boot/common/cmd_eeprom.c:206-380 | On a device whose counter wraps in its page, a successful write is a plain copy to the range; nothing outside it changes either way; the chunks cover it, none empty, above 128 bytes or across a page; an end that wraps writes nothing. |
| `EepromRun.Device.Read` | u-boot/common/cmd_eeprom.c:132-195 | A successful read gives the bytes of the range, in chunks that stay inside 256-byte blocks. |
| `EepromRun.Device.WriteChunk` | u-boot/common/cmd_eeprom.c:254-278 | One chunk is nonempty, at most 128 bytes, inside its page and the range; when it succeeds those bytes of the buffer are in their cells, and nothing else changes either way. |
| `Eeprom.BurstInside` | u-boot/common/cmd_eeprom.c:223-226 | Inside its page a transfer is a plain copy. |
| `Eeprom.BurstCrossing` | u-boot/common/cmd_eeprom.c:223-226 | A transfer that crosses the end of its page never reaches the byte behind it. |
| `EepromRun.Device.WriteThenRead` | u-boot/common/cmd_eeprom.c:132-380 | A write and then a read of the same range into another buffer: when both succeed, the second buffer starts with what was written. |
| `Eeprom.PageOffset` | u-boot/common/cmd_eeprom.c:264-272 | The page offset may be taken of the block offset. |
| `CircBuf.RunConserves` | u-boot/common/circbuf.c:54-110 | Over any run every character is popped, left or overwritten; what was pushed comes out in order exactly when none is overwritten. |
| `CircBuf.Buffer.Push` | u-boot/common/circbuf.c:81-110 | Push keeps the last totalsize characters of old contents and input, also for inputs longer than the buffer. |
| `CircBuf.Buffer.Pop` | u-boot/common/circbuf.c:54-79 | Pop returns and removes the oldest characters, at most as many as there are. |
| `CircBuf.Buffer.constructor` | u-boot/common/circbuf.c:27-41 | A buffer of the given capacity is empty, with its tail at its top. |
| `Rings.RingPut` | u-boot/common/circbuf.c:89-103 | One character at the tail: with room the contents grow by it, in a full ring they also lose their oldest character, so that they are the last of old contents and it. |

## Left out

- KermitDamage.OneKindIff: for packets that do not end between a quote and its character, with losses and doublings not both; `DamageIff`
  covers all packets, whatever the data, and `OneForAnotherData` shows that lost and doubled packets can hide each other.
- SRecordLoad.Loader.Load: a record with a length too short for its type makes the loader copy a negative number of bytes; the model
  copies none. Saves never send one.
- EnvCommands.Environment.SetEnv: the console and baud-rate hooks are modelled as tests that may refuse before the deletion; the CRC update and the
  variables that are copied elsewhere after a change are not modelled.
- MarchRun.Tester.TestAlgorithm: writes of error details to the info block and the interrupt test inside the loops are not modelled; after a
  failure the code waits for an interrupt, which the model takes as a return.
- BootRecordRun.BootLog.WriteBdr: storing `bootcmd` and `bootargs` in the environment is not modelled, nor is a failing allocation of the sector copy.
- BootRecordRun.BootLog.ParseTag: its return codes, which both callers ignore, are dropped; a tag of 129 argument words writes one word behind
  `bdr_bootarg`, which the model drops as well.
- BootRecordRun.BootLog.FindBdr: only the form that scans from offset 0 is modelled. The flash size, its base and the sector size come from
  `configs/ap93-hgw.h`, which is not part of this model; the size is a parameter of at most 16 MB.
- MtdPrinter.Printer.Generate: `generate_mtdparts_save` and the environment it writes to are left out.
- EepromRun.Device.Write: the device is addressed linearly; that the block number does not meet the bits of the device address is assumed. The
  FRAM, SPI and X40430 variants and the write-enable hook are left out.
- FloppyRun.Drive.ReadData: a controller that never answers keeps the code in its polling loop; the model's drive always answers. The sector
  size is the 512 bytes of the one supported format.
- BranchOperand.StepsToTargetB: that `find_opcode` finds the branch entries of the opcode table is assumed, not proved.
- LogRun.Log.Printk: printing to the console below the log level; texts longer than 1020 characters, which `strcpy` copies past the end of
  the message buffer.
- Kermit transfers that run over the end of the 32-bit address space, and `os_data_count`, which nothing reads.
- Text of automatically generated partition names, and reparsing tables with equal offsets, which the parser may reorder.
- `mtdparts` and `mtdids` environment caching, list pointers, allocation and freeing: lists are sequences.
- FlashPlan.FillExact: for banks that end below 2^32; behind a bank that reaches the end of the address space the next address wraps to 0.
- Flash banks with gaps or in descending order, where `flash_fill_sect_ranges` may stop with an error; the `B:SF-SL` form.
- `getenv_r`, `printenv`, `saveenv`, and the configuration that lets `ethaddr` be overwritten once.
- Register drivers, board code and thin command wrappers.
