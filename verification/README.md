# Verified models of U-Boot common code

Nine pieces of the boot loader's common code, modelled in Dafny and proved: the Kermit
receiver of `loadb`, the NVRAM store, the CRC, wide-arithmetic and packet-queue utilities,
flash range planning with erase and protect, floppy and EEPROM transfers, the log ring, the
S-record commands `saves` and `loads`, and the operand coding of the BedBug assembler and
disassembler.

Code that updates state is modelled by classes, arrays and loops, each proved against a
function of its inputs; the lemmas then say what that function guarantees. Devices are cut
away: the serial line is a sequence of characters, a disk or an EEPROM a sequence of bytes,
the flash driver a sequence of return codes. Integers are unbounded, and 32-bit wrap-around
is written out wherever the code can reach it.

| files | component |
|---|---|
| KermitWire, KermitSession, KermitReplies, KermitReceiver, KermitRuns | packet format, session as a state machine, replies character by character, the receiver object, whole transfers |
| NvramTable, NvramHeap, NvramImage, NvramRoundTrip, NvramStore, NvramHeader | hash table as a map, linked tuples, image format, commit and reload, the image buffer, header words and default texts in numbers |
| CrcTables, BitStream, Crc | the three checksums, in one register |
| PacketQueue, PacketRuns | multi-precedence packet queue, runs of its operations |
| WideArithmetic, Arith | 64-bit arithmetic on 32-bit words; facts about quotients |
| Flash, FlashRound, FlashPlans, FlashErase | range planning, rounding and `start +len`, when there is a plan, erase and protect |
| Floppy, Eeprom | chunked and retried transfers |
| LogBuffer | the log ring |
| SRecord, SRecordTransfer, SRecordKinds | record format, `saves` and `loads`, every record type byte by byte |
| BitField, SignedField, BedBug, BedBugCoding, WordOrder, OpcodeSearch | fields of a word, branch distances, operands, what is accepted and what the word holds, the search for an opcode |

Where the code does not meet what one would expect of it, a lemma shows the input and another
the exact condition: a broken header rolls an acknowledged packet back
(`KermitRuns.NoiseLosesPacket`, `ExactlyOnce`); names with a '=' or a full image lose tuples
(`NvramRoundTrip.RoundTripIff`); the 64-bit quotient is short by the high word when the divisor
is a power of two (`WideArithmetic.DivideCorrectIff`); a flash range that ends at the top of the
address space can wrap to a bank at the bottom (`Flash.TopBankWraps`, `PlanInsideIff`); one that
starts at the last byte of a bank is not refused (`FlashPlans.LastByteSlips`, `BankStepIs`); a filtered
flush can leave a stale tail (`PacketQueue.PktQ.PflushFiltered`); a reset in mid-line loses a
level (`LogBuffer.ResetMidLine`); the track number is cut to eight bits (`Floppy.SplitFinds`);
and `loads` reports a size of 2 after an empty save (`SRecordTransfer.LoadUndoesSave`).

`dafny verify dfyconfig.toml` checks the whole project.

## Model

| member | source | states |
|---|---|---|
| KermitWire.EncodeParses | U-boot.MX64/common/cmd_load.c:849-940 | every packet the format can carry, short or long, is read back with its number, type and data, taking exactly its own characters |
| KermitWire.AcceptedIsWellFormed | U-boot.MX64/common/cmd_load.c:849-940 | nothing else is accepted: an accepted line has printable contents of the length its length characters announce, the right block check, the right header check if it is long, and a carriage return at the end |
| KermitWire.ParseLocal | U-boot.MX64/common/cmd_load.c:849-940 | a completed packet depends only on the characters it took, not on what came before or follows on the line, and one that runs dry not on what came before |
| KermitWire.ParseAdvances | U-boot.MX64/common/cmd_load.c:849-940 | every packet attempt takes at least one character and stays on the line; its number is the sequence character that was received |
| KermitWire.CheckSeesBit | U-boot.MX64/common/cmd_load.c:568-576 | the folded six-bit sum changes whenever one bit of one summed character changes |
| KermitWire.DataBitFlipNotAccepted | U-boot.MX64/common/cmd_load.c:932-940 | a packet in which one bit of one data character was flipped is never accepted, short or long |
| KermitReplies.AcceptedIff | U-boot.MX64/common/cmd_load.c:849-940 | exactly the lines written out by their parts are accepted, and as what they say: length, number and type characters, 95 * high + low for a long packet, data, the two checks by the sum of the characters, and CR |
| KermitReplies.HeaderErrorIff | U-boot.MX64/common/cmd_load.c:849-861 | a header is broken exactly if its length or its number is a control character |
| KermitReplies.VerdictIsPrompt | U-boot.MX64/common/cmd_load.c:849-940 | the verdict on a packet falls at the first character that allows it: cut off before, the packet is unfinished, and cut off after, nothing changes |
| KermitReplies.StepSays | U-boot.MX64/common/cmd_load.c:940-956 | every packet attempt is answered by exactly one reply: the padding asked for, 01, a length, the number of the packet (the last one seen if its header broke), and 59 if and only if it was accepted, 4E otherwise, down to check and end of line |
| KermitReplies.SendInitAgrees | U-boot.MX64/common/cmd_load.c:698-782 | after an accepted Send-Init the third field gives the number of padding characters, the fourth the padding character, the fifth the end of line and the sixth the prefix, and a field not sent its default |
| KermitReplies.ParmsKept | U-boot.MX64/common/cmd_load.c:940-956 | nothing else changes the parameters |
| KermitReplies.AckIsNotNak | U-boot.MX64/common/cmd_load.c:587-612 | replies that end in an ACK do not end in a NAK |
| KermitRuns.QuoteRoundTrip | U-boot.MX64/common/cmd_load.c:675-690 | every byte string sent with control prefixing, under every legal prefix character, is stored as it was, leaves no prefix pending, and travels as characters the receive loop never rejects |
| KermitRuns.QuoteByteRoundTrip | U-boot.MX64/common/cmd_load.c:557-566 | ktrans undoes the prefixing of every byte that needs it and leaves a quoted prefix character alone |
| KermitRuns.DecodeConcat | U-boot.MX64/common/cmd_load.c:675-690 | the data layer works on a concatenation as on its parts, including a prefix pending between them |
| KermitRuns.ReplyParsesIff | U-boot.MX64/common/cmd_load.c:587-612 | an ACK or NAK, after its padding, is itself a packet that this receiver would accept, with the number, type and parameters intended, if and only if the end-of-line character asked for is a carriage return |
| KermitRuns.TurnDelivers | U-boot.MX64/common/cmd_load.c:864-957 | whatever happens between the first transmission of a packet and the next packet, the checkpoint is what was there before it, and the packet is in, once, exactly when the replies on the line end in an ACK for its number, written out character by character; otherwise they end in a NAK for it |
| KermitRuns.RunDelivers | U-boot.MX64/common/cmd_load.c:819-957 | over every run the stored image is the payloads of exactly the confirmed packets, once each and in order, and the checkpoint lacks only the last |
| KermitRuns.DeliveredChunks | U-boot.MX64/common/cmd_load.c:675-690 | those payloads are the chunks that were prefixed by the sender |
| KermitRuns.ExactlyOnce | U-boot.MX64/common/cmd_load.c:785-958 | after every run of a stop-and-wait sender the image is the file if and only if, each time the sender moved on from a data-bearing packet, the replies so far ended in an ACK for its number |
| KermitRuns.AckedIff | U-boot.MX64/common/cmd_load.c:864-957 | in every run the replies at the end of a turn end in an ACK for its packet if and only if its last attempt was accepted |
| KermitRuns.BetweenPackets | U-boot.MX64/common/cmd_load.c:836-848 | between packets everything but START and ^C is skipped, and ^C ends the session as it stands |
| KermitRuns.HeaderErrorLosesPacket | U-boot.MX64/common/cmd_load.c:856-881 | the assumption in the source is needed: a broken header after an acknowledged packet rolls that packet back, and its bytes are lost when the sender goes on |
| KermitRuns.NoiseLosesPacket | U-boot.MX64/common/cmd_load.c:836-957 | the same loss on the characters of a line: two undamaged, acknowledged packets with a START and a control character between them leave only the second |
| KermitRuns.CleanShot | U-boot.MX64/common/cmd_load.c:836-940 | an undamaged transmission after line noise is one event, and it is an acceptance of that packet |
| KermitRuns.RunShots | U-boot.MX64/common/cmd_load.c:819-957 | a line made of transmissions is processed as its events, one after the other |
| KermitRuns.RunToBreak | U-boot.MX64/common/cmd_load.c:819-957 | a line that ends in an accepted Break finishes there, after exactly its events |
| KermitRuns.TransferSteps | U-boot.MX64/common/cmd_load.c:785-958 | the events of a whole transfer, from Send-Init to Break, add up to the file |
| KermitRuns.TransferStoresFile | U-boot.MX64/common/cmd_load.c:785-958 | end to end, on the characters of the line: whatever was damaged, NAKed or repeated, the session ends at Break with exactly the file |
| KermitReceiver.Receiver.KDataSave | U-boot.MX64/common/cmd_load.c:663-667 | the checkpoint becomes the present state: stored bytes and pending prefix |
| KermitReceiver.Receiver.KDataRestore | U-boot.MX64/common/cmd_load.c:669-673 | the present state becomes the checkpoint, and the checkpoint stays |
| KermitReceiver.Receiver.BinDataChar | U-boot.MX64/common/cmd_load.c:638-645 | one byte is appended to the image; the checkpoint is not disturbed |
| KermitReceiver.Receiver.KDataChar | U-boot.MX64/common/cmd_load.c:675-690 | one received character acts on the image as the prefix decoding says |
| KermitReceiver.Receiver.Chk1 | U-boot.MX64/common/cmd_load.c:568-576 | the loop over the buffer computes the six-bit check of what it holds |
| KermitReceiver.Receiver.S1SendPacket | U-boot.MX64/common/cmd_load.c:578-584 | the padding and the text of the buffer go out, and no more |
| KermitReceiver.Receiver.SendAck | U-boot.MX64/common/cmd_load.c:587-598 | puts the ACK packet for this number on the line |
| KermitReceiver.Receiver.SendNack | U-boot.MX64/common/cmd_load.c:600-612 | puts the NAK packet for this number on the line |
| KermitReceiver.Receiver.HandleSendPacket | U-boot.MX64/common/cmd_load.c:698-782 | takes over the sender's parameters, each only if it was sent, and answers with an ACK of matching length |
| KermitReceiver.Receiver.ReceiveData | U-boot.MX64/common/cmd_load.c:914-940 | the data loop stores what the packet carries and ends with the verdict of the format |
| KermitReceiver.Receiver.ExtendedLength | U-boot.MX64/common/cmd_load.c:890-913 | the long-packet header is read, checked and turned into a length |
| KermitReceiver.Receiver.ReceivePacket | U-boot.MX64/common/cmd_load.c:849-940 | one packet: the verdict of the format, the checkpoint taken at a new number and kept at a repeated one, and the decoded data on top of it |
| KermitReceiver.Receiver.Respond | U-boot.MX64/common/cmd_load.c:940-956 | after each packet the object represents the session after one step, whatever the verdict; what that step replies is KermitReplies.StepSays |
| KermitReceiver.Receiver.KRecv | U-boot.MX64/common/cmd_load.c:785-958 | on every line, of whatever characters, the object ends up representing what the run of the session says: image, replies, parameters and return value; inside an unfinished packet the checkpoint is still a state of the session, and memory below the load address is untouched; the replies are those of KermitReplies.StepSays |
| KermitReceiver.Receiver.LoadSerialBin | U-boot.MX64/common/cmd_load.c:520-547 | for every valid transfer memory from the load address on holds the file, the size returned is its length, and memory below is untouched |
| NvramTable.SetIsUpdate | U-boot.MX64/common/bcmnvram.c:463-495 | setting is map update in the hash table, and each name stays once in the bucket it hashes to |
| NvramTable.UnsetIsRemoval | U-boot.MX64/common/bcmnvram.c:498-521 | unsetting is map removal |
| NvramTable.Index | U-boot.MX64/common/bcmnvram.c:451-455 | the search finds the first tuple of that name, or the end |
| NvramTable.SetComesFirst | U-boot.MX64/common/bcmnvram.c:463-521 | a value that is set comes first in its bucket; the others keep their order there, and every other bucket is as before |
| NvramTable.HashIsPoly | U-boot.MX64/common/bcmnvram.c:367-375 | the hash of a name is its characters weighed by powers of 31, modulo 2^32 |
| NvramTable.HashOf | U-boot.MX64/common/bcmnvram.c:367-375 | the loop computes that hash, and the bucket it selects |
| NvramHeap.Nvram.Find | U-boot.MX64/common/bcmnvram.c:471-473 | the walk through the links ends at the tuple of that name and knows the link before it |
| NvramHeap.Nvram.Get | U-boot.MX64/common/bcmnvram.c:442-460 | what is returned is the value of the map at that name, held by a tuple that has not been freed; nothing for a NULL name |
| NvramHeap.Nvram.UnhookAfter | U-boot.MX64/common/bcmnvram.c:513-518 | taking a tuple out of the middle of a chain removes that pair and keeps every list sound |
| NvramHeap.Nvram.Entomb | U-boot.MX64/common/bcmnvram.c:483-488 | an unlinked tuple becomes the first of the dead list, which stays disjoint from all buckets |
| NvramHeap.Nvram.Replace | U-boot.MX64/common/bcmnvram.c:471-494 | the old tuple of the name is retired, the new one is pushed, and the table is updated |
| NvramHeap.Nvram.SetValue | U-boot.MX64/common/bcmnvram.c:463-495 | chains stay acyclic and disjoint, the table is the updated one, no text of an existing tuple changes and none is lost from the lists; if allocation fails the table is as before and the code is -ENOMEM |
| NvramHeap.Nvram.UnsetValue | U-boot.MX64/common/bcmnvram.c:498-521 | chains stay acyclic and disjoint, the name is gone, every other name and every text is as before, its tuple is kept on the dead list, and a NULL or missing name changes nothing |
| NvramHeap.Nvram.Free | U-boot.MX64/common/bcmnvram.c:342-364 | every tuple of every bucket and of the dead list is freed, none twice, and the table is empty; as set and unset lose no tuple, nothing stays allocated |
| NvramImage.FittingFits | U-boot.MX64/common/bcmnvram.c:581-585 | of a bucket exactly the longest prefix that leaves room is written, all of it if and only if it fits |
| NvramImage.FittingStops | U-boot.MX64/common/bcmnvram.c:581-585 | printing a bucket stops only at a tuple that does not fit |
| NvramImage.WrittenFits | U-boot.MX64/common/bcmnvram.c:576-586 | what is written never passes the reserved double NUL, and is everything if and only if everything fits |
| NvramImage.ParseTuple | U-boot.MX64/common/bcmnvram.c:389-396 | one name=value string is split at its first '=' and the parse goes on behind its NUL |
| NvramImage.ParseSerialized | U-boot.MX64/common/bcmnvram.c:385-396 | parsing a serialised list gives the list back, up to where a '=' inside a name moves the split |
| NvramImage.ExampleWritten | U-boot.MX64/common/bcmnvram.c:581-585 | an image written out: a=b and c= with their NULs |
| NvramImage.ExampleParsed | U-boot.MX64/common/bcmnvram.c:385-396 | the same image read |
| NvramRoundTrip.WrittenLookup | U-boot.MX64/common/bcmnvram.c:579-586 | which names survive in the image: those among the tuples of their bucket that found room |
| NvramRoundTrip.ReloadedIsSubset | U-boot.MX64/common/bcmnvram.c:378-396 | committing and parsing gives a subset of the old map, name by name, when no name has a '=' |
| NvramRoundTrip.AllKeptIffFits | U-boot.MX64/common/bcmnvram.c:579-586 | every tuple is kept if and only if the whole table fits |
| NvramRoundTrip.UncleanIsLost | U-boot.MX64/common/bcmnvram.c:389-396 | a name with a '=' is never found again |
| NvramRoundTrip.RoundTripIff | U-boot.MX64/common/bcmnvram.c:547-599 | commit followed by parse gives the same map if and only if all tuples fit and no name has a '=' |
| NvramRoundTrip.DefaultsLookup | U-boot.MX64/common/bcmnvram.c:398-414 | the SDRAM parameters are added where they are missing and nowhere else |
| NvramRoundTrip.AfterReload | U-boot.MX64/common/bcmnvram.c:378-416 | after a reload each name has its old value or, if it was missing, its default; if all tuples fit no old value is lost |
| NvramStore.CalcCrc | U-boot.MX64/common/bcmnvram.c:627-645 | the checksum is the CRC-8 of the masked header words and the data up to the length |
| NvramStore.SingleByteCaught | U-boot.MX64/common/bcmnvram.c:670-677 | changing one covered byte of an image that passes makes it fail, at any length |
| NvramStore.PutTuple | U-boot.MX64/common/bcmnvram.c:584 | one tuple is printed at the pointer and nothing else in the buffer changes |
| NvramStore.WriteBucket | U-boot.MX64/common/bcmnvram.c:581-585 | one chain is printed as far as it fits |
| NvramStore.WriteTuples | U-boot.MX64/common/bcmnvram.c:575-586 | all chains are printed in bucket order, within two bytes of the end |
| NvramStore.ParseOne | U-boot.MX64/common/bcmnvram.c:389-396 | the string is cut at its '=', stored, and the '=' is put back: the buffer is as before |
| NvramStore.Rehash | U-boot.MX64/common/bcmnvram.c:378-416 | the store is the one that the image describes plus missing defaults, no tuple is lost from the lists, and the image comes out as it went in, but for the double NUL forced at its end |
| NvramStore.RegenerateHeader | U-boot.MX64/common/bcmnvram.c:554-570 | the header words are those of the stored SDRAM parameters if all are there, and the board's otherwise; NvramStore.WordsRight says what these words hold bit by bit |
| NvramStore.WordsRight | U-boot.MX64/common/bcmnvram.c:554-570 | on the words as numbers: upper half, bits 8 to 15, lower half and the third word are init, version, config, refresh and ncdl, stored or the board's |
| NvramHeader.HexReads | U-boot.MX64/common/bcmnvram.c:398-414 | what is printed for a parameter, read digit by digit, is the number again |
| NvramHeader.DefaultTexts | U-boot.MX64/common/bcmnvram.c:398-414 | which half of which header word each of the four default texts prints |
| NvramHeader.BoardParameters | U-boot.MX64/common/bcmnvram.c:398-414 | a store without the four parameters, and without '=' in a name, has each of them after a commit, as a text that reads back to the board's number |
| NvramHeader.NamesAre | U-boot.MX64/common/bcmnvram.c:557-560 | the four names, letter by letter |
| NvramHeader.CoveredIs | U-boot.MX64/common/bcmnvram.c:627-645 | the checksum covers the upper three bytes of the first word, the other two words, lowest byte first, and the data up to the length |
| NvramHeader.PassesIff | U-boot.MX64/common/bcmnvram.c:627-677 | an image passes if and only if its length fits and its checksum byte is the CRC-8 of all that, started from 0xFF |
| NvramStore.ChecksumFits | U-boot.MX64/common/bcmnvram.c:594-595 | storing the checksum in the first word does not change what it covers |
| NvramStore.Seal | U-boot.MX64/common/bcmnvram.c:591-595 | after the checksum is stored the image passes the test |
| NvramStore.WriteImage | U-boot.MX64/common/bcmnvram.c:547-595 | the image passes, carries what fitted of the table, is closed by a double NUL and is the least number of whole words long; in its header the lower and upper half of the second word are the low sixteen bits of config and refresh, the upper half of the first those of init, above the version, and the third is ncdl |
| NvramStore.Commit | U-boot.MX64/common/bcmnvram.c:547-599 | after the in-place parse the image still passes and carries the same tuples, its header still holds the four numbers where they belong, whether they come from the store or from the board, and the store is what reading the image back gives |
| NvramStore.CrcGood | U-boot.MX64/common/bcmnvram.c:670-677 | the test accepts exactly the images whose checksum byte is that of their contents |
| NvramStore.ParseCarried | U-boot.MX64/common/bcmnvram.c:385-396 | parsing an image gives its tuples, whatever lies behind the closing NULs |
| NvramStore.Read | U-boot.MX64/common/bcmnvram.c:419-439 | header and data up to the length are copied by words; the rest of the buffer is left alone |
| NvramStore.Init | U-boot.MX64/common/bcmnvram.c:602-618 | starting from a committed image, through a buffer of arbitrary contents, gives the committed tuples plus missing defaults; without memory, image or magic number the store stays as it is |
| Crc.TableEntry | U-boot.MX64/common/bcmutils.c:2497-2685 | each of the 256 literal entries of each of the three tables is eight steps of bit-at-a-time division by its polynomial (Appendices C.2 and C.3 of RFC 1662 for 16 and 32 bits) |
| Crc.StepDivides | U-boot.MX64/common/bcmutils.c:2532-2533 | one turn of the loop body divides the eight bits of its byte |
| Crc.CrcIsDivision | U-boot.MX64/common/bcmutils.c:2535-2731 | for every message and start value the three table loops are reflected polynomial division bit by bit |
| Crc.CrcConcat | U-boot.MX64/common/bcmutils.c:2482-2487 | the CRC of a concatenation is the CRC of the second part started from that of the first |
| Crc.CrcFits | U-boot.MX64/common/bcmutils.c:2535-2618 | the narrow CRCs stay in eight and sixteen bits |
| Crc.Residue | U-boot.MX64/common/bcmutils.c:2482-2487 | a message followed by its complemented CRC, low byte first, leaves the fixed residue of its kind |
| Crc.ByteChangeSeen | U-boot.MX64/common/bcmutils.c:2535-2731 | changing any single byte changes the CRC, at any length |
| Crc.StepEight | U-boot.MX64/common/bcmutils.c:2541-2549 | in eight bits the loop body is the table alone, as the source writes it |
| Crc.Hndcrc8 | U-boot.MX64/common/bcmutils.c:2535-2549 | the pointer loop computes the CRC-8 |
| Crc.Hndcrc16 | U-boot.MX64/common/bcmutils.c:2608-2618 | the loop computes the CRC-16 |
| Crc.Wordwise | U-boot.MX64/common/bcmutils.c:2707-2718 | four table steps per word are the byte loop on its four bytes |
| Crc.Hndcrc32 | U-boot.MX64/common/bcmutils.c:2687-2731 | the word-at-a-time path gives the CRC-32 of the byte loop for every alignment and length |
| PacketQueue.PktQ.Penq | U-boot.MX64/common/bcmutils.c:789-815 | the packet is last in its list; tail, total length and the precedence bound stay right, other lists, all limits and all other packets are untouched |
| PacketQueue.PktQ.PenqHead | U-boot.MX64/common/bcmutils.c:818-843 | the same, with the packet first |
| PacketQueue.PktQ.Pdeq | U-boot.MX64/common/bcmutils.c:846-868 | the oldest packet of the precedence comes out unlinked, or nothing does |
| PacketQueue.PktQ.PdeqTail | U-boot.MX64/common/bcmutils.c:900-926 | the youngest packet comes out, found by walking to the one before it |
| PacketQueue.PktQ.Pdel | U-boot.MX64/common/bcmutils.c:961-991 | the packet is taken out wherever in the list it is, true exactly if it was there |
| PacketQueue.PktQ.Pflush | U-boot.MX64/common/bcmutils.c:929-958 | without a filter, every packet of the precedence is freed, oldest first, and the list is empty |
| PacketQueue.PktQ.PflushFiltered | U-boot.MX64/common/bcmutils.c:929-958 | with a filter, the packets it accepts go and the others stay in order; the queue is sound afterwards if and only if the last packet stayed or none did |
| PacketQueue.PktQ.Deq | U-boot.MX64/common/bcmutils.c:1021-1051 | the oldest packet of the highest non-empty precedence, unlinked, and nothing exactly if all are empty |
| PacketQueue.PktQ.DeqTail | U-boot.MX64/common/bcmutils.c:1054-1091 | the youngest packet of the lowest non-empty precedence, unlinked |
| PacketQueue.PktQ.Mdeq | U-boot.MX64/common/bcmutils.c:1192-1226 | the oldest packet of the highest non-empty precedence among those allowed, unlinked, and nothing exactly if those are all empty |
| PacketQueue.PktQ.Mlen | U-boot.MX64/common/bcmutils.c:1148-1160 | the sum over all selected precedences, although the loop stops at the bound |
| PacketQueue.PktQ.Flush | U-boot.MX64/common/bcmutils.c:1129-1145 | every list is emptied and the total is zero; what was freed is what was there |
| PacketQueue.TotalUpdate | U-boot.MX64/common/bcmutils.c:784-1226 | changing one list changes the total length by the difference |
| PacketQueue.SelectedEmpty | U-boot.MX64/common/bcmutils.c:1148-1160 | empty lists above a bound add nothing to a selected sum |
| PacketQueue.AllowedIs | U-boot.MX64/common/bcmutils.c:1148-1160 | precedence p is bit p of the bitmap, bit by bit |
| PacketRuns.Run | U-boot.MX64/common/bcmutils.c:784-1226 | every legal sequence of operations takes the linked queue through the lists of the sequence, and hands out what the sequence takes, list by list |
| PacketRuns.RunConserves | U-boot.MX64/common/bcmutils.c:784-1226 | over every sequence of operations nothing is lost, invented or doubled, at any precedence |
| PacketRuns.RunInOrder | U-boot.MX64/common/bcmutils.c:784-1226 | over every sequence that adds behind and takes in front, each precedence hands its packets out in the order they came in |
| PacketRuns.Session | U-boot.MX64/common/bcmutils.c:994-1226 | from pktq_init on, each precedence hands out a prefix of what was put into it |
| WideArithmetic.Formalize | U-boot.MX64/common/bcmutils.c:3415-3425 | bit 31 moves into the carry counter and the value is kept |
| WideArithmetic.MultipleAdd | U-boot.MX64/common/bcmutils.c:3413-3449 | the pair of words is exactly a * b + c, and no intermediate reaches 2^32 |
| WideArithmetic.Divide | U-boot.MX64/common/bcmutils.c:3453-3467 | the loop ends because the 64-bit value falls; the result is the quotient modulo 2^32, short by the high word when b divides 2^32, and nothing is written for b < 2 |
| WideArithmetic.Falls | U-boot.MX64/common/bcmutils.c:3460-3463 | the whole 64-bit value strictly falls in every round |
| WideArithmetic.HighWordMayStay | U-boot.MX64/common/bcmutils.c:3460-3463 | the high word alone need not fall: a round in which it stays the same |
| WideArithmetic.Round | U-boot.MX64/common/bcmutils.c:3460-3463 | in one round the quotient splits into what was added and the quotient of the rest, less the shortfall |
| WideArithmetic.DividesIffPower | U-boot.MX64/common/bcmutils.c:3453-3467 | b divides 2^32 exactly when it is a power of two |
| WideArithmetic.DivideCorrectIff | U-boot.MX64/common/bcmutils.c:3453-3467 | the result is the quotient modulo 2^32 if and only if b is not a power of two or the dividend has no high word |
| Flash.PlanTiles | U-boot.MX64/common/cmd_flash.c:209-289 | the chosen sectors form one gap-free run from addr_first, lie inside the range, and are the whole range when addr_last ends a known sector, in any bank order, with unpopulated banks anywhere, and up to the top of the address space unless a bank there is listed before one at the bottom |
| Flash.PlanInsideIff | U-boot.MX64/common/cmd_flash.c:209-289 | a plan stays inside its range if and only if it does not end at the top of the address space, or starts at its bottom, or no known bank that ends at the top is listed before one that starts at 0 |
| Flash.PlanRuns | U-boot.MX64/common/cmd_flash.c:209-289 | whatever the table, the picked sectors leave no gap from addr_first on, and reach addr_last if it ends a known sector |
| Flash.PlanFromZero | U-boot.MX64/common/cmd_flash.c:273-274 | after the wrap nothing more is picked unless a bank starts at 0, and then its first sector is |
| Flash.TopBankWraps | U-boot.MX64/common/cmd_flash.c:273-274 | the exception occurs: a bank that ends at the top makes the next address 0, and a sector outside the range is picked |
| Flash.PlanNames | U-boot.MX64/common/cmd_flash.c:209-289 | a plan names existing sectors of known banks only |
| Flash.FillSectRanges | U-boot.MX64/common/cmd_flash.c:209-289 | the loops fail exactly when there is no plan, that is under the condition of FlashPlans.PlanExistsIff; otherwise the arrays hold it and the count is its number of sectors |
| Flash.DoBank | U-boot.MX64/common/cmd_flash.c:227-285 | one bank: skipped if unknown, the four ways to fail, the sectors picked and the address to go on from, in the terms of FlashPlans.BankStepIs |
| Flash.ScanBank | U-boot.MX64/common/cmd_flash.c:239-255 | the sector loop finds the sector that starts at, and the one that ends at, an address |
| FlashPlans.BankStepIs | U-boot.MX64/common/cmd_flash.c:227-285 | in quantified terms: a known bank fails the plan if and only if the range starts with one of its sectors and ends inside the bank but not with one, or starts inside a sector, or ends with one of its sectors without having started; otherwise it contributes the sectors from the start of the range up to its end or the bank's |
| FlashPlans.PlanExistsIff | U-boot.MX64/common/cmd_flash.c:209-289 | in any bank order there is a plan if and only if every bank asked allows the range left to it; the plan then picks in each bank exactly what the range takes of it |
| FlashPlans.LastByteSlips | U-boot.MX64/common/cmd_flash.c:276-278 | the last byte of a bank is not looked at: a range that starts there in the middle of a sector is not refused, one byte earlier it is |
| FlashPlans.CountIsNumber | U-boot.MX64/common/cmd_flash.c:275 | the sector count is the number of pairs of bank and sector picked |
| FlashPlans.RoundsIff | U-boot.MX64/common/cmd_flash.c:112-148 | in any bank order rounding succeeds exactly for addresses that lie in some sector, and gives the last address of one that contains the address |
| FlashRound.SectRoundB | U-boot.MX64/common/cmd_flash.c:112-148 | the end of the first sector that contains the address, or an error with the address unchanged |
| FlashRound.RoundUpIff | U-boot.MX64/common/cmd_flash.c:112-148 | over banks back to back, rounding succeeds exactly for the addresses between the first sector and the end of the last |
| FlashRound.PlanSucceeds | U-boot.MX64/common/cmd_flash.c:209-289 | over banks back to back in ascending order, every range from a sector start to a sector end has a plan, also one that ends at the top of the address space |
| FlashRound.StartPlusLen | U-boot.MX64/common/cmd_flash.c:112-289 | for `start +len` rounding succeeds if and only if the stretch ends inside the flash; planning then succeeds too and picks the least set of sectors that covers it |
| FlashErase.SectErase | U-boot.MX64/common/cmd_flash.c:418-453 | nothing is erased without a plan; the driver is called for the picked sectors in bank order, up to its first failure, whose code is returned |
| FlashErase.CallsErase | U-boot.MX64/common/cmd_flash.c:430-444 | the calls reach the planned sectors and no others |
| FlashErase.ErasedRange | U-boot.MX64/common/cmd_flash.c:418-453 | a successful erase has erased one gap-free stretch inside the range, all of it when addr_last ends a sector |
| FlashErase.SectProtect | U-boot.MX64/common/cmd_flash.c:635-682 | the protection of exactly the planned sectors changes |
| Floppy.SplitFinds | U-boot.MX64/common/cmd_fdc.c:277-293 | head and sector are those of the block, within the geometry; with the track cut to eight bits the drive finds the block if and only if it is on one of the first 256 tracks |
| Floppy.Transfer | U-boot.MX64/common/cmd_fdc.c:475-516 | a READ copies its bytes, or breaks off at the faulty one; nothing else in the buffer changes |
| Floppy.ReadData | U-boot.MX64/common/cmd_fdc.c:428-549 | for every pattern of errors, a READ in the log failed if and only if the drive reported a fault before its last byte; each READ asks for the next block and as many as side and request have left, and crosses no side; buffer sector k holds block blnr + k for all blocks read; the call gives up exactly at the 25th error, and never without one |
| Floppy.NextTrack | U-boot.MX64/common/cmd_fdc.c:520-530 | after a READ to the end of a side the next one starts a side |
| Eeprom.WriteInPage | U-boot.MX64/common/cmd_eeprom.c:217-220 | a device write that stays inside a page is a flat copy |
| Eeprom.ChunkLength | U-boot.MX64/common/cmd_eeprom.c:249-271 | a chunk is never empty, passes neither the range, the page nor the I2C limit, and is as long as these allow |
| Eeprom.PageRoom | U-boot.MX64/common/cmd_eeprom.c:231-263 | the low eight bits of the offset give its place in the page, for pages of at most 256 bytes |
| Eeprom.FlatReadsBack | U-boot.MX64/common/cmd_eeprom.c:126-189 | what was written flat is read back flat |
| Eeprom.Device.Write | U-boot.MX64/common/cmd_eeprom.c:200-374 | the commands cover the range without a gap, each as long as page and I2C limit allow, whatever is acknowledged; the device then holds the new bytes of the acknowledged commands and the old ones everywhere else, the flat copy if all were, and the code says so; an end address that overflows 32 bits writes nothing |
| Eeprom.Device.Read | U-boot.MX64/common/cmd_eeprom.c:126-189 | block by block, all of the range is asked for; the buffer holds the bytes of the acknowledged commands and its own elsewhere, one flat read if all were, and the code says so |
| LogBuffer.HoldsNext | U-boot.MX64/common/cmd_log.c:297-312 | the next character overwrites exactly the one that falls out of the ring |
| LogBuffer.Counters | U-boot.MX64/common/cmd_log.c:297-312 | what one more character does to the counters of either layout, although they wrap at 2^32 |
| LogBuffer.Log.PutChar | U-boot.MX64/common/cmd_log.c:297-312 | in either layout the ring holds the last characters of the stream, one longer |
| LogBuffer.Log.Show | U-boot.MX64/common/cmd_log.c:215-229 | exactly the last min(total, length) characters of the stream, in both layouts |
| LogBuffer.Log.Reset | U-boot.MX64/common/cmd_log.c:119-140 | the stream is empty; whether a line has begun is not forgotten |
| LogBuffer.Log.StartLine | U-boot.MX64/common/cmd_log.c:281-296 | a line that begins without a level gets the default one in front, over text already logged |
| LogBuffer.Log.PutLine | U-boot.MX64/common/cmd_log.c:297-318 | logs up to the next newline or the end of the text |
| LogBuffer.Log.Printk | U-boot.MX64/common/cmd_log.c:269-326 | the stream grows by the message with a level in front of every line that begins in it, and the level in force is the one after its last line |
| LogBuffer.Log.Append | U-boot.MX64/common/cmd_log.c:203-210 | `log append` logs its arguments separated by spaces and ends the line |
| LogBuffer.SpacedAt | U-boot.MX64/common/cmd_log.c:203-210 | argument by argument: as it is, and a space behind it, or a newline behind the last |
| LogBuffer.LoggedIsInserted | U-boot.MX64/common/cmd_log.c:269-326 | character by character: a message is logged whole and in order with <4> put in exactly where a line begins without a mark, and the level left behind is the digit of the line under way |
| LogBuffer.LoggedIsMarked | U-boot.MX64/common/cmd_log.c:269-326 | a message keeps every line of the stream marked with <0> to <7>, also a line that spans calls, and the level is unset exactly between lines |
| LogBuffer.EveryLineHasLevel | U-boot.MX64/common/cmd_log.c:269-326 | over every sequence of messages every line of the stream begins with <0> to <7> |
| LogBuffer.ResetMidLine | U-boot.MX64/common/cmd_log.c:119-140 | after a reset in the middle of a line the next text is marked if and only if it brings its own level |
| SRecord.PairsOfHex | U-boot.MX64/common/s_record.c:183-195 | reading back hexadecimal pairs gives the bytes |
| SRecord.ComplementIff | U-boot.MX64/common/cmd_load.c:368-369 | a checksum byte closes its record exactly when the whole sums to 255 modulo 256 |
| SRecord.EncodeReads | U-boot.MX64/common/s_record.c:30-170 | every record that is written decodes to its type, address and data; SRecordKinds.RecordReads says where the address ends |
| SRecord.AcceptedSums | U-boot.MX64/common/s_record.c:30-170 | whatever the line, an accepted record sums to 255 modulo 256 and its address and data are its pairs in order |
| SRecord.OneByteDamageSeen | U-boot.MX64/common/s_record.c:160-167 | one wrong byte anywhere after the length is a checksum error |
| SRecordKinds.DigitsAre | U-boot.MX64/common/s_record.c:172-181 | the hexadecimal digits, in either case, and nothing else |
| SRecordKinds.RecordReads | U-boot.MX64/common/s_record.c:55-167 | for every type: the text of an address of two bytes (S0, S1, S5, S9), three (S2, S8) or four (S3, S7), highest first, and of any data decodes to that type, address and data |
| SRecordKinds.NoSuchType | U-boot.MX64/common/s_record.c:65-100 | S4, S6 and everything that is no type are refused |
| SRecordKinds.ExampleRecord | U-boot.MX64/common/s_record.c:30-170 | an S1 record character by character, written and read |
| SRecordKinds.LineIs | U-boot.MX64/common/cmd_load.c:219-253 | a line ends at CR or LF or where the room does, NUL and ^C give up, and silence waits |
| SRecordKinds.FileLoads | U-boot.MX64/common/cmd_load.c:144-216 | a file of data records of any types, S1, S2 and S3 mixed, is stored where its addresses say, in order, and ends at an S7, S8 or S9 record with its address; the extent is the lowest and highest address stored |
| SRecordKinds.LowestIs | U-boot.MX64/common/cmd_load.c:184-185 | the lowest address reported is that of some record and of none higher |
| SRecordKinds.HighestIs | U-boot.MX64/common/cmd_load.c:186-187 | the highest address reported is the end of some record, and no record ends above it |
| SRecordKinds.OthersSkipped | U-boot.MX64/common/cmd_load.c:204-208 | start and count records change nothing |
| SRecordKinds.DamageAborts | U-boot.MX64/common/cmd_load.c:161-163 | a line with one wrong byte aborts the load with nothing of it stored |
| SRecordKinds.DataLinesAre | U-boot.MX64/common/cmd_load.c:332-385 | saving writes sixteen bytes per record in order, the last record what is left |
| SRecordKinds.DataLineIs | U-boot.MX64/common/cmd_load.c:356-374 | a data line field by field: S3, the length, four address bytes, the data, a checksum that closes the sum at 255, and a line feed |
| SRecordTransfer.SrecDecode | U-boot.MX64/common/s_record.c:30-170 | the step-by-step reading agrees with the meaning of the line, error codes included; the address widths are those of SRecordKinds.RecordReads |
| SRecordTransfer.ReadRecord | U-boot.MX64/common/cmd_load.c:219-253 | a line is read up to CR, LF or the limit, and given up at NUL or ^C |
| SRecordTransfer.LoadSerial | U-boot.MX64/common/cmd_load.c:144-216 | on every input, memory, outcome and reported size are those of the records read one after the other, as SRecordKinds.FileLoads spells out for files of records of every type |
| SRecordTransfer.BuildRecord | U-boot.MX64/common/cmd_load.c:356-374 | one data record with its checksum; with its NUL it fits the 48-byte buffer |
| SRecordTransfer.SaveSerial | U-boot.MX64/common/cmd_load.c:332-385 | the lines are those of the stretch of memory, all of them unless the console hangs up, and then up to that one |
| SRecordTransfer.LoadData | U-boot.MX64/common/cmd_load.c:144-216 | the data records store the whole stretch once and in ascending order |
| SRecordTransfer.LoadUndoesSave | U-boot.MX64/common/cmd_load.c:144-385 | loading what was saved, at any offset inside memory, stores exactly the saved bytes, changes nothing else and starts at 0; the reported size is the byte count, except that saving nothing is reported as 2 |
| BitField.OwnField | U-boot.MX64/common/bedbug.c:391-395 | a value or-ed into clear bits of a word is read back from its field |
| BitField.FieldIsItsBits | U-boot.MX64/common/bedbug.c:391-395 | a field depends on its own bits only |
| BitField.MaskPlaced | U-boot.MX64/include/bedbug/tables.h:14-52 | a field whose width and shift add up to at most 32 loses no bit |
| SignedField.OffsetComesBackIff | U-boot.MX64/common/bedbug.c:865-880 | a branch distance comes back through the sign extension if and only if it is word-aligned and in reach |
| BedBug.OperandsAreSound | U-boot.MX64/include/bedbug/tables.h:14-52 | every operand of the instruction set lies inside the word and within what its printing can show |
| BedBugCoding.SwapIs | U-boot.MX64/common/bedbug.c:536-540 | of a register number x the low ten bits are coded as 32 * (x mod 32) + x / 32 mod 32 |
| BedBugCoding.DataIff | U-boot.MX64/common/bedbug.c:865-917 | a register is taken up to 31, or if it is negative; a special register if its ten bits are not 0; a time base register if it is 268 or 269; any other operand always; and the error is 3, 4 or 5 otherwise |
| BedBugCoding.AssemblesIff | U-boot.MX64/common/bedbug.c:797-835 | assembly succeeds if and only if every operand that is not silent has an argument, and one that it takes |
| BedBugCoding.FirstRefusal | U-boot.MX64/common/bedbug.c:797-835 | otherwise the first operand that does not pass decides the error: 2 if its argument is missing, else the error of its kind |
| BedBugCoding.NumberInField | U-boot.MX64/common/bedbug.c:854-918 | a register or plain number is in its field of the assembled word as it is |
| BedBugCoding.HalvesInField | U-boot.MX64/common/bedbug.c:526-640 | of a special or time base register x the assembled word has x mod 32 in the five bits at shift + 5 and x / 32 mod 32 in the five bits at shift |
| BedBugCoding.HalvesShown | U-boot.MX64/common/bedbug.c:490-501 | such a field is shown as its lower five bits times 32 plus its upper five |
| BedBugCoding.DistanceInField | U-boot.MX64/common/bedbug.c:863-880 | four times a branch field in reach is the distance, modulo what the field can hold |
| BedBugCoding.MoveToLinkRegister | U-boot.MX64/include/bedbug/tables.h:323-324 | mtspr 8,r0 is 0x7C0803A6, both ways |
| BedBugCoding.AddImmediate | U-boot.MX64/include/bedbug/tables.h:81-82 | addi r3,r4,5 is 0x38640005, both ways |
| BedBugCoding.BranchBack | U-boot.MX64/include/bedbug/tables.h:95-96 | a branch sixteen bytes back is 0x4BFFFFF0 from every address, both ways |
| BedBug.ShownBackIff | U-boot.MX64/common/bedbug.c:261-275 | one operand, coded and shown again, gives the number back if and only if it is in range |
| BedBug.OtherBitsKept | U-boot.MX64/common/bedbug.c:797-828 | assembling an operand list changes no bit outside its fields |
| BedBug.EachFieldBack | U-boot.MX64/common/bedbug.c:797-828 | each field of the assembled word gives back its own argument |
| BedBug.DisassembledBackIff | U-boot.MX64/common/bedbug.c:797-828 | the assembled word is disassembled to the same operands if and only if each is in range |
| BedBug.StillMatches | U-boot.MX64/common/bedbug.c:417-440 | the masked word is still the opcode, so the disassembler's test recognises it |
| OpcodeSearch.FindOpcode | U-boot.MX64/common/bedbug.c:417-440 | the binary search ends with an entry that the word matches under its mask, or with none |
| OpcodeSearch.FindsIff | U-boot.MX64/common/bedbug.c:417-440 | over entries with masks of their own, the search finds an entry if and only if the word matches it and every entry on the way to it points there |
| OpcodeSearch.MatchIsFound | U-boot.MX64/common/bedbug.c:417-440 | in a table ordered by primary opcode, and by opcode where the masks are the same, the search finds exactly the entry that a word matches |
| OpcodeSearch.RecognisedBack | U-boot.MX64/common/bedbug.c:753-840 | in such a table an assembled word is recognised as the opcode it was assembled from, and shows its operands again if and only if each was in range |
| BedBug.GetOperandValue | U-boot.MX64/common/bedbug.c:373-400 | the value of the field if the opcode has it, and failure exactly if not |
| BedBug.ParseOperand | U-boot.MX64/common/bedbug.c:854-918 | a value in its place, or the error for its kind of operand; which numbers are refused is BedBugCoding.DataIff |
| BedBug.Asmppc | U-boot.MX64/common/bedbug.c:785-840 | the loop over the operands builds the word, or stops at the first bad or missing operand, as BedBugCoding.AssemblesIff and FirstRefusal say exactly |
| BedBug.PrintOperands | U-boot.MX64/common/bedbug.c:231-346 | the loop shows each operand that is not silent, in order; a special register as BedBugCoding.HalvesShown says |

## Left out

- KermitReceiver.Receiver.KRecv: the line is given as a sequence of characters; inside an unfinished packet only the replies, the checkpoint and the memory below the image are described.
- KermitRuns.ExactlyOnce: damage that the check does not notice is assumed away (an accepted packet is the one that was sent), as is a header that breaks before its sequence number as the first thing seen of a packet.
- KermitReceiver.Receiver.BinDataChar: `char` is unsigned, `os_data_state` is always binary, and addresses do not wrap around the address space.
- NvramHeap.Nvram.SetValue: the text of a tuple is one value, not bytes behind the struct; `_nvram_realloc` always allocates, so the branch for a reused tuple is not there.
- NvramStore.Rehash: allocation inside the parse succeeds.
- NvramStore.Commit: words are in host order, and `bcm_strtoul` is a parameter; the image length is a multiple of 4, as the word copy needs.
- NvramStore.CalcCrc: the length in the header is one that the buffer can hold; the source reads past its buffer otherwise.
- NvramStore.CrcGood: the same, for the test on an image from flash.
- NvramStore.Init: what a damaged image with the right magic number is parsed to is not stated; the search of the flash in `find_nvram` is not modelled, only its checksum test.
- `nvram_getall`, `add_nvram_params` and the flash writing of `nvram_commit`: no further state.
- PacketQueue.PktQ.Pflush: this one is without a filter and PflushFiltered with one; a filter is a function of the packet alone.
- PacketQueue.PktQ.Flush: without a filter only.
- PacketQueue.PktQ.Penq: full queues are excluded, as the assertions in the source do.
- `pktq_peek*`, `pktq_mpeek` and `pktq_pdeq_prev`: would only add easier members.
- Crc.Hndcrc32: words are 32 bits wide, as in the MIPS path.
- Flash.FillSectRanges: bank tables are taken as sensible (sectors ascending, last one not empty, no sectors only in an unknown bank); `abbrev_spec` and the number parsing of `addr_spec` are not modelled.
- FlashRound.StartPlusLen: `start + len - 1` does not pass the top of the address space, which the callers of `addr_spec` check.
- FlashErase.SectErase: the driver is a sequence of return codes; messages are not modelled.
- Floppy.ReadData: seeks, recalibration and polls succeed, only READ errors vary; the blocks lie on the first 256 tracks.
- Eeprom.Device.Write: pages are powers of two of at most 256 bytes; FRAM, chip-select bits of the address and the X40430 registers are not modelled.
- LogBuffer.Log.Printk: messages fit the 1024-byte scratch buffer; the copy to the console is not modelled.
- SRecordTransfer.LoadSerial: everything is memory, no flash; a copy outside memory is an outcome of its own, and an input that ends is a line that stays silent.
- SRecordTransfer.SaveSerial: the range does not pass the end of memory.
- BedBug.Asmppc: words are taken as already read into numbers, and the opcode as found; the host is big-endian.
- BedBug.PrintOperands: the numbers shown, not the text around them.
- BedBug.StillMatches: the mask test of one entry; the search over all entries is OpcodeSearch.RecognisedBack.
- BedBug.OperandsAreSound: the literal operand cr2, which has no bits, is not in the table; branch fields are at most 29 bits wide and other fields at most 16.
- OpcodeSearch.RecognisedBack: the order is stronger than that of the shipped table, which mixes masks under primary opcode 31; for any table FindsIff gives the exact condition.
- `handle_bc`, register names and the layout of the disassembled text.
- Console, serial, I2C, SPI, IDE and FDC registers, delays, caches and watchdogs: hardware.
- The `do_*` commands, help texts, file systems, `bootm`, ymodem and baud-rate switching.
