# Verified models of Arthius and its vendored libraries

This project models five components of the Arthius repository in Dafny and proves what
they are for. `dafny verify dfyconfig.toml` checks all of it.

**FlatBuffers** (`FlatBytes`, `FlatBuffersBuilder`, `FlatBuffersReader`, `FlatTables`,
`ProgressWriter`, `ProgressReader`). The builder is a class over a growing buffer that
fills from the back; its contents are addressed by distance from the end, and every
method only puts bytes in front of them. Tables, vtables, strings and vectors are
predicates on the contents that survive whatever is written later, alignment included, and
a record of every scalar's place and stride is kept exactly. The generated codec for the
progress list is proved a round trip for every list, every sharing between its entries and
every setting of the options. Conversions that trap in Swift are modelled as the error
`Trap`; the writer traps only beyond a size bound that its contract gives. A load from a
misaligned place traps as well, and the reader's catching of bounds errors can be turned
off in the model: the round trip holds either way, so every load that reading an encoding
makes is in bounds and aligned. Finishing a builder whose largest alignment is below four
can put the root offset elsewhere than it counts from: `RootIsInPlace` says when it does
not, and `FinishMissesRoot` is a builder for which it does; a buffer that holds any offset
is safe, and so is the codec. The buffer itself is taken to start at an aligned address.

**DTLS handshake messages** (`DtlsWire`, `DtlsBitmap`, `DtlsReassembly`, `DtlsReceiver`,
`DtlsFlight`, `DtlsLoss`, `DtlsSender`, `DtlsSystem`, `DtlsDelivery`, `DtlsSession`). The
receiver's ring of partial messages and bitmaps is a class proved against an abstract queue. The sender is a
class whose position in the flight is tied to the records passed over and to those of them
that were written; sealing and the transport answer from any script. `DtlsSystem` puts the
two around a network that drops, duplicates and reorders, and proves safety over all runs;
`DtlsDelivery` says what the receiver has after any number of calls to read, and
`DtlsSession` drives the classes themselves. A record whose reading fails is left, and the
next call reads it again: nothing behind it is read, unless a message is handed up and the
record can be read then. So a message arrives exactly when its bytes do in records before
the first that fails (`MessageArrives`). `GenuineFails` says which of the sender's own
records fail, and `LastFirstIsStuck` is a network that only reorders and after which the
receiver waits for ever for a message whose record has come.
The two window tests of the receiver differ by one, and the model keeps that: a fragment
exactly one window ahead makes the read fail instead of being skipped. When sealing fails
in the middle of a packet the sender's position is not restored, and the records already in
the packet are lost although later calls report success: a flight that has come to its end
is on the wire exactly once if and only if no handshake record was lost that way
(`OnceIfNoneLost`), and `LosingRun` is a run that loses one. Fewer than 65536 messages are
sent, as the sixteen-bit numbers demand.

**nanopb** (`NanopbWire`, `NanopbFields`, `NanopbEncoding`, `NanopbDecoding`,
`NanopbRoundTrip`, `NanopbScanning`, `NanopbMerging`, `NanopbOccurrences`, `NanopbForeign`,
`NanopbBounds`, `NanopbPresence`, `NanopbEncoder`, `NanopbRequired`, `NanopbDecoder`,
`NanopbTransfer`). The encoder and the decoder run on stream objects and
walk the descriptor with the circular iterator; both are proved against functions on byte
sequences, about which the round trip, the skipping of unknown fields, merging, repeated
occurrences of a field and the bounds of whatever is decoded are proved. Descriptor fields are 32 bits wide, as the project's build settings have them.
The remaining-bits comparison of required fields shifts by the word width when their
number is a positive multiple of 32, which C leaves undefined; the decoder's methods ask
for descriptors with another number, below 64. That decoding one message after another
merges them is false when the first one ends in a zero tag or within a tag, both of which
the decoder accepts as an end; `MergesExactly` gives the condition, which every encoding
meets.

**UInt128** (`Arithmetic`, `UInt128Core`, `UInt128Shift`, `UInt128Multiply`,
`UInt128Divide`, `UInt128Print`). Addition, subtraction, multiplication, shifts, division
and printing on two limbs, proved against the integers. Division of a double-width number
loses a bit of the remainder for divisors above 2 to the 127; `ExactIfNoBitIsLost` says for
which dividends and divisors it is exact, and `FullWidthIsExactUpTo` for which divisors it
always is.

**Reference counts** (`RefCount`). The compare-and-swap loops as steps of threads, over
all interleavings and with spurious failures of the swap, against the locked form.

`Wrappers` holds bytes, options and results, `ByteOrder` little-endian numbers, and
`PowersOfTwo` powers of two and bit lengths.

## Model

| member | source | states |
|---|---|---|
| `FlatBytes.PadIsTwosComplementMask` | Arthius/Arthius/New Group/FlatBuffersBuilder.swift:140 | on words of any width, complementing, adding one and masking with one less than the size gives the padding that the builder uses |
| `FlatBytes.AlignedDifference` | Arthius/Arthius/New Group/FlatBuffersBuilder.swift:443-469 | a distance from the end that is aligned is aligned from the start too when the total size is a multiple of the largest alignment |
| `FlatBytes.BytesAtExtends` | Arthius/Arthius/New Group/FlatBuffersBuilder.swift:112-126 | bytes at a distance from the end stay where they are when anything is put in front of them |
| `FlatBytes.ConversionsFit` | Arthius/Arthius/New Group/FlatBuffersBuilder.swift:318-327 | conversions to sixteen and thirty-two bits trap exactly for numbers that these do not hold |
| `FlatBuffersBuilder.FlatBuffersBuilder.constructor` | Arthius/Arthius/New Group/FlatBuffersBuilder.swift:87-91 | a new builder is empty, closed and has minimal alignment |
| `FlatBuffersBuilder.FlatBuffersBuilder.MakeData` | Arthius/Arthius/New Group/FlatBuffersBuilder.swift:98-100 | the output is exactly the contents |
| `FlatBuffersBuilder.FlatBuffersBuilder.ReserveAdditionalCapacity` | Arthius/Arthius/New Group/FlatBuffersBuilder.swift:112-126 | growth ends, leaves strictly more room than asked for by the fewest doublings, and keeps the byte at every distance from the end |
| `FlatBuffersBuilder.FlatBuffersBuilder.Align` | Arthius/Arthius/New Group/FlatBuffersBuilder.swift:136-143 | the padding makes what is inserted next aligned, keeps all contents, and raises the largest alignment |
| `FlatBuffersBuilder.FlatBuffersBuilder.Insert` | Arthius/Arthius/New Group/FlatBuffersBuilder.swift:151-163 | the scalar is at the new cursor, aligned to its stride (to 8 when larger) and recorded there, and everything written before is unchanged, through growth as well |
| `FlatBuffersBuilder.FlatBuffersBuilder.InsertOffset` | Arthius/Arthius/New Group/FlatBuffersBuilder.swift:172-189 | the stored offset leads from its own place to the target, absent and zero targets store zero; it succeeds exactly when every number on the way fits, throws exactly when the target is beyond the contents, and traps otherwise |
| `FlatBuffersBuilder.FlatBuffersBuilder.StartObject` | Arthius/Arthius/New Group/FlatBuffersBuilder.swift:227-237 | it succeeds exactly on a closed builder, with one empty slot for each property |
| `FlatBuffersBuilder.FlatBuffersBuilder.InsertOffsetField` | Arthius/Arthius/New Group/FlatBuffersBuilder.swift:249-259 | an offset field is aligned, recorded and noted at the distance where it was written, with its checks for an open object and a valid index and each of its errors |
| `FlatBuffersBuilder.FlatBuffersBuilder.InsertScalarField` | Arthius/Arthius/New Group/FlatBuffersBuilder.swift:270-284 | a scalar equal to its default is left out unless defaults are forced, and then nothing changes; any other is written aligned, recorded with its stride, raises the largest alignment to it, and is noted as the field's place |
| `FlatBuffersBuilder.FlatBuffersBuilder.SameVTable` | Arthius/Arthius/New Group/FlatBuffersBuilder.swift:335-349 | the byte comparison decides equality of the two vtables |
| `FlatBuffersBuilder.FlatBuffersBuilder.FindVTable` | Arthius/Arthius/New Group/FlatBuffersBuilder.swift:334-350 | the search finds the first stored vtable with the same bytes, or none has them |
| `FlatBuffersBuilder.FlatBuffersBuilder.LinkVTable` | Arthius/Arthius/New Group/FlatBuffersBuilder.swift:329-361 | with unique vtables one that is remembered already is shared from the first such place and dropped here, and otherwise it is kept and remembered; the table's first four bytes lead to it, and the record has its words and nothing of one that was dropped |
| `FlatBuffersBuilder.FlatBuffersBuilder.EndObject` | Arthius/Arthius/New Group/FlatBuffersBuilder.swift:305-366 | the closed table is at the returned distance, aligned; its signed offset, recorded, leads to an aligned vtable, recorded word by word, with exactly its field offsets and object size; if vtables are unique and one with these bytes was remembered, nothing follows the table, nothing new is remembered and the offset is that to the first such one, and otherwise the vtable is written in front and, if unique, remembered; nothing written before has changed; it traps only when a number does not fit, and the error for no open object changes nothing |
| `FlatBuffersBuilder.FlatBuffersBuilder.VTablesDiffer` | Arthius/Arthius/New Group/FlatBuffersBuilder.swift:334-358 | in every state of a builder no two remembered vtables have the same bytes |
| `FlatBuffersBuilder.FlatBuffersBuilder.StartVector` | Arthius/Arthius/New Group/FlatBuffersBuilder.swift:375-381 | the alignment before a vector, and the check that nothing is open |
| `FlatBuffersBuilder.FlatBuffersBuilder.EndVector` | Arthius/Arthius/New Group/FlatBuffersBuilder.swift:386-390 | the element count is stored, aligned and recorded, in front of the elements |
| `FlatBuffersBuilder.FlatBuffersBuilder.WriteString` | Arthius/Arthius/New Group/FlatBuffersBuilder.swift:416-434 | the length, aligned, and behind it the bytes, with a NUL at their end if so configured; the record has the length and each byte |
| `FlatBuffersBuilder.FlatBuffersBuilder.InsertString` | Arthius/Arthius/New Group/FlatBuffersBuilder.swift:402-441 | the returned distance, aligned and recorded, holds the string's length and bytes, and is the cached one exactly if strings are unique and this one is cached; otherwise the string is written and, if unique, cached; nil is distance zero, and the error for an open object changes nothing |
| `FlatBuffersBuilder.FlatBuffersBuilder.AlignPrefix` | Arthius/Arthius/New Group/FlatBuffersBuilder.swift:450-464 | the root offset will end at a multiple of the largest alignment, with a file identifier of four bytes or the error for another length |
| `FlatBuffersBuilder.FlatBuffersBuilder.Finish` | Arthius/Arthius/New Group/FlatBuffersBuilder.swift:443-469 | the output starts with the root offset as counted from the end of the prefix, which is where it is put when four was the largest alignment before, or more; its size is a multiple of the largest alignment, every scalar recorded in the run is aligned from its start, the identifier is in its place, everything before is kept, also after a thrown error, and each error comes exactly when its check fails |
| `FlatBuffersBuilder.RootIsInPlace` | Arthius/Arthius/New Group/FlatBuffersBuilder.swift:443-469 | the place that the root offset counts from is its own if and only if four was the largest alignment before, or more, or the prefix ends at a multiple of four |
| `FlatBuffersBuilder.RootIsFound` | Arthius/Arthius/New Group/FlatBuffersBuilder.swift:466-468 | what is read at the start of the output leads to the root, or too far by the padding before the root offset: to the root if and only if that condition holds |
| `FlatBuffersBuilder.FinishMissesRoot` | Arthius/Arthius/New Group/FlatBuffersBuilder.swift:466-468 | a buffer of one byte, finished with that byte as its root, leads to distance four instead |
| `FlatBuffersReader.PropertyFound` | Arthius/Arthius/New Group/FlatBuffersReader.swift:62-85 | for a closed table the lookup through signed offset and vtable gives the place of a field that was written, with every load in bounds and aligned |
| `FlatBuffersReader.PropertyAbsent` | Arthius/Arthius/New Group/FlatBuffersReader.swift:62-85 | and zero for a field that was not written or lies beyond the vtable, likewise |
| `FlatBuffersReader.StringFound` | Arthius/Arthius/New Group/FlatBuffersReader.swift:252-271 | the reader gives back the bytes of a written string, with or without the NUL behind them |
| `FlatBuffersReader.Int32Found` | Arthius/Arthius/New Group/FlatBuffersReader.swift:341-347 | a little-endian number at an aligned distance from the end is read back at the corresponding offset from the start, within bounds and aligned |
| `FlatBuffersReader.LoadsExactly` | Arthius/Arthius/New Group/FlatBuffersReader.swift:341-347 | of any data: a load throws outside of it, traps inside unless aligned, and gives the bytes otherwise |
| `FlatTables.GetScalarFound` | Arthius/Arthius/New Group/FlatBuffersReader.swift:209-220 | reading a scalar field of a written table gives its value, or the default when it was left out |
| `FlatTables.FieldOffsetFound` | Arthius/Arthius/New Group/FlatBuffersReader.swift:96-116 | reading an offset field leads to the target that was written, or to none |
| `ProgressWriter.WriteLevelTable` | Arthius/Arthius/ProgressFB.swift:201-209 | the six fields of an entry are in its table as the reader will look for them; in anything that ends with it the flags read as the bytes one and zero, and the numbers as their four bytes |
| `ProgressWriter.LevelReadsAs` | Arthius/Arthius/ProgressFB.swift:203-207 | the scalars of a written table as any reader finds them: one or zero for a flag, four bytes in two's complement for the stars, zero bytes for what was left out |
| `ProgressWriter.AddLevel` | Arthius/Arthius/ProgressFB.swift:195-214 | the returned distance holds the entry; it is the cached one, and nothing is written, exactly if tables are unique and the object is cached, and otherwise a new one, cached if unique |
| `ProgressWriter.WriteVector` | Arthius/Arthius/ProgressFB.swift:105-111 | the vector lists the offsets of the entries in order |
| `ProgressWriter.AddProgress` | Arthius/Arthius/ProgressFB.swift:91-122 | the returned distance holds the whole list, for nil, empty, shared and repeated entries; a cached list is not written again exactly if tables are unique, and then every entry has its one place in the cache |
| `ProgressWriter.Encode` | Arthius/Arthius/ProgressFB.swift:53-56 | the finished buffer encodes the list; the only error is a trap, and only beyond a size bound that is given |
| `ProgressWriter.MakeData` | Arthius/Arthius/ProgressFB.swift:57-61 | the data of a fresh builder encodes the list, for every setting of the options |
| `ProgressReader.LevelFound` | Arthius/Arthius/ProgressFB.swift:142-161 | reading an entry that was written gives its values |
| `ProgressReader.FlagsRead` | Arthius/Arthius/ProgressFB.swift:155-156 | in any data: a flag that is absent or a zero byte is false, and one that is the byte one is true |
| `ProgressReader.StarsRead` | Arthius/Arthius/ProgressFB.swift:157 | in any data: an absent number is zero, and four bytes are read lowest first in two's complement |
| `ProgressReader.FieldRead` | Arthius/Arthius/New Group/FlatBuffersReader.swift:96-116 | in any data: a field leads as far from its own place as its four bytes say, and nowhere if it is absent or they are zero |
| `ProgressReader.ElementRead` | Arthius/Arthius/New Group/FlatBuffersReader.swift:154-178 | so does an element of a vector, below its count |
| `ProgressReader.OutsideIsAbsent` | Arthius/Arthius/New Group/FlatBuffersReader.swift:82-84 | with catching, whatever would be loaded from outside of the data is absent |
| `ProgressReader.StringOutsideIsAbsent` | Arthius/Arthius/New Group/FlatBuffersReader.swift:252-271 | and so is a string that would end outside |
| `ProgressReader.NeverThrows` | Arthius/Arthius/New Group/FlatBuffersReader.swift:70-84 | whatever the data, reading with catching never throws: it gives a result or stops at a trap |
| `ProgressReader.ElementsFound` | Arthius/Arthius/ProgressFB.swift:26-37 | reading the vector gives the entries in order |
| `ProgressReader.RoundTrip` | Arthius/Arthius/ProgressFB.swift:14-61 | decoding any data that encodes a list gives that list, with or without an object pool, also when no bounds error is caught: every load that reading an encoding makes is in bounds, and aligned from the start |
| `ProgressReader.NothingCaught` | Arthius/Arthius/New Group/FlatBuffersReader.swift:82-84 | a reading that succeeds without catching bounds errors is the one with catching |
| `ProgressReader.StoredEquals` | Arthius/Arthius/ProgressFB.swift:203-207 | what is read back equals what was written under the language's own equality of its fields |
| `ProgressReader.CreateLevel` | Arthius/Arthius/ProgressFB.swift:142-161 | an offset in the object pool gives the object there, whatever it is, or null; any other gives a new entry as decoded, which joins the pool |
| `ProgressReader.CreateProgress` | Arthius/Arthius/ProgressFB.swift:14-39 | an offset in the object pool gives the object there or null; any other gives a new list, each entry from the pool if it is there and else as decoded |
| `ProgressReader.MakeProgress` | Arthius/Arthius/ProgressFB.swift:42-49 | the reader on a buffer gives what the pool has for its root, or what decoding the root gives |
| `ProgressReader.ReadTwice` | Arthius/Arthius/ProgressFB.swift:42-49 | reading an encoding twice through one pool gives the same object twice, and its levels; without a pool, equal ones |
| `ProgressReader.WriteAndRead` | Arthius/Arthius/ProgressFB.swift:42-61 | writing a list and reading it back gives the same list, for every list and every setting of the options |
| `DtlsWire.FragmentRoundTrip` | Arthius/Pods/BoringSSL/ssl/d1_both.cc:479-493 | a serialized fragment, whatever follows it, parses to its header and body and leaves the rest |
| `DtlsWire.HeaderLayout` | Arthius/Pods/BoringSSL/ssl/d1_both.cc:479-493 | the twelve bytes of a header: type, length, number, place and length of the fragment, each with its width, the highest byte first |
| `DtlsWire.ParseFragment` | Arthius/Pods/BoringSSL/ssl/d1_both.cc:479-493 | what is parsed serializes back to the bytes it was parsed from; a short header or body fails |
| `DtlsWire.FinishedMessageIsWhole` | Arthius/Pods/BoringSSL/ssl/d1_both.cc:523-549 | starting and finishing a message gives its one-fragment form, with the length filled in |
| `DtlsBitmap.BitOfRange` | Arthius/Pods/BoringSSL/ssl/d1_both.cc:212-214 | the mask of a bit range has exactly those bits |
| `DtlsBitmap.SetRange` | Arthius/Pods/BoringSSL/ssl/d1_both.cc:231-245 | marking a range unites exactly that range with the marked set, over byte boundaries |
| `DtlsBitmap.IsComplete` | Arthius/Pods/BoringSSL/ssl/d1_both.cc:247-257 | the scan of whole bytes and the last mask decides whether every byte of the message is marked |
| `DtlsReassembly.MergeUnites` | Arthius/Pods/BoringSSL/ssl/d1_both.cc:407-416 | a merge unites the received set with exactly the fragment's range, and writes exactly those bytes of an incomplete message |
| `DtlsReassembly.CompleteIsFinal` | Arthius/Pods/BoringSSL/ssl/d1_both.cc:407-410 | a complete message never changes again, whatever arrives |
| `DtlsReassembly.ReceiveFragmentKeepsRing` | Arthius/Pods/BoringSSL/ssl/d1_both.cc:366-417 | every fragment keeps the ring: an occupied slot i holds a message of the window whose number is i modulo the ring size |
| `DtlsReassembly.ReceiveRecordKeepsRing` | Arthius/Pods/BoringSSL/ssl/d1_both.cc:363-422 | so does every record, and the next number stays |
| `DtlsReassembly.NextMessageKeepsRing` | Arthius/Pods/BoringSSL/ssl/d1_both.cc:442-455 | moving on keeps the ring, through the wrap of the sixteen-bit counter |
| `DtlsReassembly.LookupFindsNumber` | Arthius/Pods/BoringSSL/ssl/d1_both.cc:281-284 | the message found in a slot has the fragment's number: the assertion never fails |
| `DtlsReassembly.OutsideTheWindow` | Arthius/Pods/BoringSSL/ssl/d1_both.cc:276-279 | fragments outside the window change nothing; all are skipped but the one exactly a window ahead, which fails the read |
| `DtlsReassembly.FragmentFails` | Arthius/Pods/BoringSSL/ssl/d1_both.cc:376-405 | whoever sent it, a fragment fails exactly when it runs over the end, its message is too long, not the one of the encrypted epoch or exactly seven ahead, or type or length disagree with what has come before; it then changes nothing |
| `DtlsReassembly.CcsIsRead` | Arthius/Pods/BoringSSL/ssl/d1_both.cc:328-351 | a ChangeCipherSpec is read exactly if it is the one byte one and records are not encrypted |
| `DtlsReassembly.GetMessageIsNext` | Arthius/Pods/BoringSSL/ssl/d1_both.cc:424-440 | the message handed up has the next number |
| `DtlsReceiver.HmFragment.constructor` | Arthius/Pods/BoringSSL/ssl/d1_both.cc:156-209 | a new message buffer has its header, nothing received, and no bitmap when it is empty |
| `DtlsReceiver.HmFragment.Mark` | Arthius/Pods/BoringSSL/ssl/d1_both.cc:220-260 | the bitmap after marking is the union, and it goes away exactly when that is the whole message |
| `DtlsReceiver.HmFragment.Store` | Arthius/Pods/BoringSSL/ssl/d1_both.cc:407-416 | storing a piece does to buffer and bitmap what the merge does to the abstract message |
| `DtlsReceiver.HmFragment.WholeMessage` | Arthius/Pods/BoringSSL/ssl/d1_both.cc:424-433 | without a bitmap the buffer is the whole serialized message, header included; with one something is missing |
| `DtlsReceiver.Dtls1Receiver.GetIncomingMessage` | Arthius/Pods/BoringSSL/ssl/d1_both.cc:274-303 | lookup and start of a message in the ring, with both error returns |
| `DtlsReceiver.Dtls1Receiver.ReadFragment` | Arthius/Pods/BoringSSL/ssl/d1_both.cc:376-417 | one fragment changes the heap as the abstract step says, its checks and early returns included |
| `DtlsReassembly.ReadMessageKeepsRing` | Arthius/Pods/BoringSSL/ssl/d1_both.cc:305-422 | a call to read keeps the ring and the next number, whichever record it reads |
| `DtlsReceiver.Dtls1Receiver.ReadFragments` | Arthius/Pods/BoringSSL/ssl/d1_both.cc:363-417 | the fragments of one record change the heap as the abstract steps say, up to the first that fails |
| `DtlsReceiver.Dtls1Receiver.ReadMessage` | Arthius/Pods/BoringSSL/ssl/d1_both.cc:305-422 | a call reads the record that a failed call has left, and only otherwise takes the next one; the record is left again unless all of it is read; a ChangeCipherSpec is flagged, or fails among encrypted records or with another body |
| `DtlsReceiver.Dtls1Receiver.GetCurrentMessage` | Arthius/Pods/BoringSSL/ssl/d1_both.cc:424-440 | the body and the raw bytes of the current message, exactly when it is complete |
| `DtlsReceiver.Dtls1Receiver.NextMessageUp` | Arthius/Pods/BoringSSL/ssl/d1_both.cc:442-455 | the slot is emptied and the number moves on |
| `DtlsFlight.WalkAppend` | Arthius/Pods/BoringSSL/ssl/d1_both.cc:744-769 | sending a flight in two goes is sending it in one |
| `DtlsFlight.WalkMovesOn` | Arthius/Pods/BoringSSL/ssl/d1_both.cc:792-810 | every record moves the position on, lexicographically in messages and bytes |
| `DtlsFlight.PiecesTile` | Arthius/Pods/BoringSSL/ssl/d1_both.cc:693-733 | the pieces of a message in any stretch of a flight follow one another without a gap or an overlap, up to the position reached |
| `DtlsFlight.FlightPartitions` | Arthius/Pods/BoringSSL/ssl/d1_both.cc:736-810 | when a flight has been written to its end, each byte of each message lies in exactly one fragment, and an empty message has one fragment |
| `DtlsFlight.WalkIsGenuine` | Arthius/Pods/BoringSSL/ssl/d1_both.cc:702-733 | every record of a flight carries a piece of one of the sender's messages |
| `DtlsLoss.CarriedAreCut` | Arthius/Pods/BoringSSL/ssl/d1_both.cc:702-733 | what the headers of a flight's records say is just what the flight was cut into |
| `DtlsLoss.PiecesConserved` | Arthius/Pods/BoringSSL/ssl/d1_both.cc:792-810 | the pieces on the wire and the pieces lost make up the pieces passed over, and cover each byte as often |
| `DtlsLoss.OnceIfNoneLost` | Arthius/Pods/BoringSSL/ssl/d1_both.cc:782-822 | when a flight has come to its end, each byte of each message is on the wire exactly once, and an empty message once, if and only if no handshake record was passed over unwritten |
| `DtlsSender.DtlsSender.AddOutgoing` | Arthius/Pods/BoringSSL/ssl/d1_both.cc:555-594 | a message joins the flight, a complete flight is dropped first, a full one refuses |
| `DtlsSender.DtlsSender.AddMessage` | Arthius/Pods/BoringSSL/ssl/d1_both.cc:523-598 | a message gets the next number; it is refused exactly when its body is too long or the flight is full |
| `DtlsSender.DtlsSender.SealPiece` | Arthius/Pods/BoringSSL/ssl/d1_both.cc:693-733 | the next piece is all that is left or all there is room for, at least one byte of a body that has any; it fails exactly when sealing does, and makes no progress exactly without room |
| `DtlsSender.DtlsSender.SealNextMessage` | Arthius/Pods/BoringSSL/ssl/d1_both.cc:644-734 | a sealed record is exactly the next piece of the next message, a partial one fills its room; the error comes exactly for an unknown epoch or a failed sealing, no progress exactly when twelve bytes of header and one of the body with the overhead of the message's epoch, or a ChangeCipherSpec with it, do not fit, or the prefix does not |
| `DtlsSender.DtlsSender.SealNextPacket` | Arthius/Pods/BoringSSL/ssl/d1_both.cc:739-780 | a packet fits its limit and holds the next records of the flight, as many as there is room for; it fails only for an unknown epoch or a failed sealing, and has then passed over records exactly if some were sealed before; the MTU is too small only when nothing fits |
| `DtlsSender.DtlsSender.UpdateMtu` | Arthius/Pods/BoringSSL/ssl/d1_both.cc:615-632 | the assertion that ends the function holds exactly unless the query was forbidden while the MTU was too small |
| `DtlsSender.DtlsSender.SetMtu` | Arthius/Pods/BoringSSL/ssl/ssl_lib.cc:1558-1564 | an MTU below the minimum is refused |
| `DtlsSender.DtlsSender.SendPacket` | Arthius/Pods/BoringSSL/ssl/d1_both.cc:792-810 | a packet that could not be written leaves position and records as they were; one that was moves on and was full; an error leaves the position where it was exactly when nothing had been sealed into the packet |
| `DtlsSender.DtlsSender.PacketHasNoRoom` | Arthius/Pods/BoringSSL/ssl/d1_both.cc:736-780 | what a written packet leaves of its MTU is too small for a fragment with one byte of the next message, or for its ChangeCipherSpec, with their overhead or prefix, and at most the overhead where the packet ends inside of a message |
| `DtlsSender.DtlsSender.SendFlight` | Arthius/Pods/BoringSSL/ssl/d1_both.cc:782-822 | the loop ends; what was written extends what was written before in full packets for the MTU in use, success means the end of the flight, and every other outcome names what failed; records are lost only when sealing fails, and none are lost exactly if the position is where the written records lead |
| `DtlsSender.DtlsSender.FlushFlight` | Arthius/Pods/BoringSSL/ssl/d1_both.cc:824-829 | a flight sent over any number of calls has each byte of each message on the wire exactly once if and only if no handshake record of it was lost |
| `DtlsSender.DtlsSender.RetransmitOutgoingMessages` | Arthius/Pods/BoringSSL/ssl/d1_both.cc:831-840 | a retransmission that succeeds has written the whole flight exactly once more |
| `DtlsSender.LosingRun` | Arthius/Pods/BoringSSL/ssl/d1_both.cc:792-810 | a run in which sealing fails on the second record of a packet, the next flush succeeds, and the first message is not on the wire |
| `DtlsSystem.PieceNeverMismatches` | Arthius/Pods/BoringSSL/ssl/d1_both.cc:287-291 | fragments of the sender's messages never mismatch: the error is unreachable between the two |
| `DtlsSystem.RecordAdds` | Arthius/Pods/BoringSSL/ssl/d1_both.cc:366-417 | a record adds exactly the bytes it carries, if its message is accepted, and nothing otherwise |
| `DtlsSystem.GenuineFails` | Arthius/Pods/BoringSSL/ssl/d1_both.cc:328-405 | reading a record of the sender fails exactly when it carries a message that is too long, that is one window ahead, or that is not the current one in the encrypted epoch, or when it is a ChangeCipherSpec among encrypted records; it then changes nothing |
| `DtlsSystem.HandedUpIsTheSenders` | Arthius/Pods/BoringSSL/ssl/d1_both.cc:424-440 | the current message is handed up exactly when all of it is there, and it is the sender's |
| `DtlsDelivery.RecordsAdd` | Arthius/Pods/BoringSSL/ssl/d1_both.cc:305-422 | after any number of calls, with the sender's records in any order and multiplicity, the receiver has exactly what it had or what a record before the first failing one carried |
| `DtlsDelivery.ReadingIsStuck` | Arthius/Pods/BoringSSL/ssl/d1_both.cc:306-312 | once reading a record has failed, every later call reads it again and nothing behind it is read, until a message is handed up |
| `DtlsDelivery.LastFirstIsStuck` | Arthius/Pods/BoringSSL/ssl/d1_both.cc:276-279 | of eight empty messages, the records of the last and then of the first: the first is never handed up, although its record is there, whatever comes behind |
| `DtlsDelivery.MessageArrives` | Arthius/Pods/BoringSSL/ssl/d1_both.cc:305-440 | after any number of calls the current message can be handed up exactly when each of its bytes was there or carried by a record before the first failing one |
| `DtlsDelivery.FlightArrives` | Arthius/Pods/BoringSSL/ssl/d1_both.cc:305-455 | when the handshake records of a whole flight are read among others, in any order, and none of those fails, the receiver hands up every message of the flight from its current one on, in order |
| `DtlsSession.FlushedFlightIsHeard` | Arthius/Pods/BoringSSL/ssl/d1_both.cc:305-829 | a sender at the end of its flight that lost nothing of it, and a receiver that reads what was sent, among other records of the sender of which none fails: the rest of the flight is handed up, in order |
| `DtlsSystem.StepIsSafe` | Arthius/Pods/BoringSSL/ssl/d1_both.cc:366-455 | every step of either end, a failing read among them, keeps the system safe |
| `DtlsSystem.RunIsSafe` | Arthius/Pods/BoringSSL/ssl/d1_both.cc:366-455 | in every state of every run over a network that drops, duplicates and reorders, what was handed up is a prefix of what the sender made, each message once and in order |
| `DtlsSession.Session` | Arthius/Pods/BoringSSL/ssl/d1_both.cc:305-840 | the sender and the receiver themselves, driven by any plan of calls, MTUs, write and sealing failures and deliveries: what is said is exactly what the plan says but for bodies too long, full flights and used-up numbers, and the messages handed up are the first of those, in order, each with its body and raw bytes, and are all that the records read, call by call, have made complete |
| `NanopbWire.VarintLength` | Arthius/Pods/nanopb/pb_encode.c:494-514 | a varint takes one byte for each seven bits, and one for zero |
| `NanopbWire.VarintRoundTrip` | Arthius/Pods/nanopb/pb_decode.c:209-229 | a 64-bit value takes at most ten bytes, and decoding gives it back and takes exactly those |
| `NanopbWire.Varint32RoundTrip` | Arthius/Pods/nanopb/pb_decode.c:173-207 | below 2 to the 32 both decoders give the value back from at most five bytes |
| `NanopbWire.ZigZagRoundTrip` | Arthius/Pods/nanopb/pb_encode.c:516-525 | zigzag lists the integers by magnitude and every int64 comes back |
| `NanopbWire.UnZigZagRoundTrip` | Arthius/Pods/nanopb/pb_decode.c:1118-1130 | and every 64-bit value is the zigzag of what it decodes to |
| `ByteOrder.LittleEndianRoundTrip` | Arthius/Pods/nanopb/pb_decode.c:1132-1163 | fixed-width values come back from their little-endian bytes |
| `NanopbFields.FieldIter.constructor` | Arthius/Pods/nanopb/pb_common.c:8-18 | the iterator starts at the first member |
| `NanopbFields.FieldIter.Next` | Arthius/Pods/nanopb/pb_common.c:20-76 | after any moves and wraps the data address is the struct's plus the member's offset, inside unions too, and the required index counts the required fields before |
| `NanopbFields.FieldIter.Find` | Arthius/Pods/nanopb/pb_common.c:78-95 | the search ends, and its answer does not depend on where it starts |
| `NanopbEncoder.FillVarint` | Arthius/Pods/nanopb/pb_encode.c:496-511 | the buffer of ten bytes holds the varint and never overflows |
| `NanopbEncoder.EncodeVarint` | Arthius/Pods/nanopb/pb_encode.c:494-514 | the varint is written, or counted, or does not fit |
| `NanopbEncoder.OStream.Write` | Arthius/Pods/nanopb/pb_encode.c:62-109 | bytes are appended exactly when they fit, within the buffer, and a sizing stream only counts |
| `NanopbEncoder.WriteScalar` | Arthius/Pods/nanopb/pb_encode.c:527-551 | each scalar type writes its encoding, with the errors for impossible sizes and oversized bytes |
| `NanopbEncoder.WriteArray` | Arthius/Pods/nanopb/pb_encode.c:116-201 | an array is written packed or item by item, and refused beyond its maximum |
| `NanopbEncoder.PackedSize` | Arthius/Pods/nanopb/pb_encode.c:135-155 | the size computed before a packed array is the size of its items |
| `NanopbEncoder.WriteField` | Arthius/Pods/nanopb/pb_encode.c:271-349 | required, optional, repeated and union members write what their presence says |
| `NanopbEncoder.WriteSubmessage` | Arthius/Pods/nanopb/pb_encode.c:600-648 | a submessage is its sized encoding |
| `NanopbEncoder.WriteSized` | Arthius/Pods/nanopb/pb_encode.c:617-647 | the second pass writes just as many bytes as the first counted: the size never changes between them |
| `NanopbEncoder.WriteMessage` | Arthius/Pods/nanopb/pb_encode.c:451-473 | all fields in order, over the iterator |
| `NanopbEncoder.EncodeToBuffer` | Arthius/Pods/nanopb/pb_encode.c:74-109 | encoding into a buffer succeeds exactly when the message can be encoded and fits, and then gives exactly the encoding |
| `NanopbForeign.TaggedLayout` | Arthius/Pods/nanopb/pb_encode.c:559-590 | every field is its number and one of the wire types 0, 1, 2 and 5, by its type, and a payload that this wire type alone makes a reader skip |
| `NanopbForeign.PackedLayout` | Arthius/Pods/nanopb/pb_encode.c:124-170 | the items of a packable array are one field with wire type two, behind the number of their bytes |
| `NanopbForeign.WidthsSkipped` | Arthius/Pods/nanopb/pb_decode.c:277-287 | skipping takes a varint, eight bytes, a length with as many bytes, or four bytes |
| `NanopbForeign.ForeignIsSkipped` | Arthius/Pods/nanopb/pb_decode.c:902-905 | any encoding is skipped whole under a type that has none of its tags, and changes nothing |
| `NanopbForeign.EmptyTypeSkips` | Arthius/Pods/nanopb/pb_decode.c:902-905 | in particular under a type without fields |
| `NanopbPresence.LeftOutIfAbsent` | Arthius/Pods/nanopb/pb_encode.c:271-349 | what is not written is exactly an optional field not marked, or zero if it cannot be marked, an array without items, and the fields of a union that it does not hold |
| `NanopbEncoder.GetEncodedSize` | Arthius/Pods/nanopb/pb_encode.c:480-489 | the size found without writing is the size of the encoding, for any nesting |
| `NanopbDecoder.IStream.Read` | Arthius/Pods/nanopb/pb_decode.c:91-123 | reading takes exactly the bytes asked for, or none |
| `NanopbDecoder.ReadUint32` | Arthius/Pods/nanopb/pb_decode.c:173-207 | the shifting loop gives the value of the varint, what does not fit cut off, and fails on a sixth byte |
| `NanopbDecoder.ReadUint64` | Arthius/Pods/nanopb/pb_decode.c:209-229 | the same for 64 bits and an eleventh byte |
| `NanopbDecoder.ReadTag` | Arthius/Pods/nanopb/pb_decode.c:251-275 | tag and wire type, or the end of the message: a zero tag, or a tag that fails when nothing is left |
| `NanopbDecoder.SkipFieldBytes` | Arthius/Pods/nanopb/pb_decode.c:231-287 | a field of any known wire type is skipped whole |
| `NanopbDecoder.MakeSubstream` | Arthius/Pods/nanopb/pb_decode.c:322-350 | a substream is limited to its length, and the parent goes on behind it |
| `NanopbDecoder.ReadScalar` | Arthius/Pods/nanopb/pb_decode.c:1165-1379 | each scalar type, with its range, size and buffer checks |
| `NanopbDecoder.ReadPacked` | Arthius/Pods/nanopb/pb_decode.c:378-401 | packed items are taken while there is room, and must be all |
| `NanopbDecoder.ReadMember` | Arthius/Pods/nanopb/pb_decode.c:356-429 | one field into its member: presence, count or union tag, and value |
| `NanopbDecoder.SetFieldToDefault` | Arthius/Pods/nanopb/pb_decode.c:763-833 | the default of each kind of field: empty, unset, or its data at its default and not present |
| `NanopbDecoder.SetToDefaults` | Arthius/Pods/nanopb/pb_decode.c:835-846 | every member at its default, over the iterator, and the members of submessages too |
| `NanopbPresence.DefaultsAreAbsent` | Arthius/Pods/nanopb/pb_decode.c:763-833 | in a struct at its defaults nothing is present, and each field has the default of its descriptor or zeros |
| `NanopbPresence.NothingIsDefaults` | Arthius/Pods/nanopb/pb_decode.c:852-953 | nothing at all is read as a struct at its defaults, unless something is required |
| `NanopbDecoder.CountRequired` | Arthius/Pods/nanopb/pb_decode.c:918-935 | running on to the end counts the required fields, wherever the iterator is |
| `NanopbRequired.MarkOne` | Arthius/Pods/nanopb/pb_decode.c:908-913 | setting the bit of a required field marks it and no other |
| `NanopbRequired.CheckRequired` | Arthius/Pods/nanopb/pb_decode.c:937-949 | the comparison of whole words and remaining bits holds exactly when every required field is marked |
| `NanopbDecoder.AllRecorded` | Arthius/Pods/nanopb/pb_decode.c:908-949 | all bits are marked exactly when all required fields have been seen |
| `NanopbDecoder.ReadFields` | Arthius/Pods/nanopb/pb_decode.c:863-917 | the loop takes every field, known or not, as the decoding says, and keeps the record of those seen |
| `NanopbDecoder.ReadMessage` | Arthius/Pods/nanopb/pb_decode.c:852-953 | a message is accepted exactly when its fields are and all required ones were seen |
| `NanopbDecoder.DecodeFrom` | Arthius/Pods/nanopb/pb_decode.c:955-967 | a whole message from a buffer into a struct at its defaults |
| `NanopbRoundTrip.ScalarDecodes` | Arthius/Pods/nanopb/pb_decode.c:1165-1379 | every scalar within its bounds comes back, whatever follows it |
| `NanopbRoundTrip.PackedDecodes` | Arthius/Pods/nanopb/pb_decode.c:374-402 | the items of a packed array come back in order |
| `NanopbRoundTrip.ValueDecodes` | Arthius/Pods/nanopb/pb_decode.c:1334-1356 | every value comes back, nested messages included |
| `NanopbRoundTrip.MemberDecodes` | Arthius/Pods/nanopb/pb_encode.c:271-349 | what is written for one field brings its member, and no other, to its value |
| `NanopbRoundTrip.RoundTrip` | Arthius/Pods/nanopb/pb_decode.c:852-967 | for every descriptor tree and every value within its bounds, encoding succeeds and decoding gives the value back, unset optional members at their defaults, and takes all bytes |
| `NanopbRoundTrip.SettledEncodesAlike` | Arthius/Pods/nanopb/pb_encode.c:451-473 | what comes back is encoded to the same bytes again |
| `NanopbBounds.IntDecodedExactly` | Arthius/Pods/nanopb/pb_decode.c:1165-1252 | an integer is decoded exactly when its member can hold it, from its low 32 bits, all 64, or its zigzag place |
| `NanopbBounds.FitsIsInBytes` | Arthius/Pods/nanopb/pb_decode.c:1186-1200 | a member of one, two, four or eight bytes holds just the numbers of so many bits |
| `NanopbBounds.ScalarEncodable` | Arthius/Pods/nanopb/pb_encode.c:652-777 | a scalar can be encoded exactly when its member can hold it |
| `NanopbBounds.ArrayEncodable` | Arthius/Pods/nanopb/pb_encode.c:116-201 | an array exactly when it has no more items than it has room for and each of them can be encoded |
| `NanopbBounds.MessageBounded` | Arthius/Pods/nanopb/pb_decode.c:852-953 | whatever the stream, decoding into a struct within its bounds leaves it within them: no number, string, array or union runs over its member |
| `NanopbBounds.DecodedIsBounded` | Arthius/Pods/nanopb/pb_decode.c:956-967 | so the result of any decoding into defaults is within its bounds |
| `NanopbOccurrences.SubmessageIsDecodedInto` | Arthius/Pods/nanopb/pb_decode.c:1334-1356 | a submessage of a required or optional field is decoded into the one that is there |
| `NanopbOccurrences.SubmessagesMerge` | Arthius/Pods/nanopb/pb_decode.c:1334-1356 | two occurrences of a submessage decode as one with both payloads, if the first payload ends where a field ends |
| `NanopbOccurrences.UnionIsReplaced` | Arthius/Pods/nanopb/pb_decode.c:415-425 | a submessage of a union is decoded into defaults, whatever the union held |
| `NanopbOccurrences.LastOfUnionCounts` | Arthius/Pods/nanopb/pb_decode.c:415-425 | of two submessages of one union only the last counts |
| `NanopbOccurrences.SubmessageIsAppended` | Arthius/Pods/nanopb/pb_decode.c:402-413 | a submessage of a repeated field is decoded into defaults and joins the array, which it must not overflow |
| `NanopbOccurrences.LastScalarCounts` | Arthius/Pods/nanopb/pb_decode.c:366-374 | of two scalars in a field that is not repeated only the last counts |
| `NanopbOccurrences.PackedPartsMerge` | Arthius/Pods/nanopb/pb_decode.c:377-400 | two parts of a packed array decode as one |
| `NanopbOccurrences.ItemIsPart` | Arthius/Pods/nanopb/pb_decode.c:377-413 | an item in a field of its own is a part of one item |
| `NanopbScanning.MemberLocal` | Arthius/Pods/nanopb/pb_decode.c:356-429 | what a field is decoded to does not depend on what follows it, and where it ends depends on its descriptor alone |
| `NanopbScanning.DecodeFirst` | Arthius/Pods/nanopb/pb_decode.c:862-916 | decoding goes from field to field as the scan of the descriptor does |
| `NanopbMerging.DecodeAppended` | Arthius/Pods/nanopb/pb_decode.c:852-917 | decoding whole fields and what follows is decoding the one and going on with the other |
| `NanopbMerging.StrippedDecodesAlike` | Arthius/Pods/nanopb/pb_decode.c:902-905 | of any stream: leaving out all fields with tags that the type does not have changes nothing |
| `NanopbMerging.UnknownFieldsAreSkipped` | Arthius/Pods/nanopb/pb_decode.c:902-905 | a field with a tag that the type does not have, between its fields, changes nothing |
| `NanopbMerging.EncodingIsFields` | Arthius/Pods/nanopb/pb_encode.c:451-473 | an encoding is a sequence of whole fields, none of them unknown to its type |
| `NanopbMerging.WithUnknownFields` | Arthius/Pods/nanopb/pb_decode.c:852-953 | an encoding with unknown fields between its fields, any number of them anywhere, decodes to the message |
| `NanopbMerging.EncodingsMerge` | Arthius/Pods/nanopb/pb_decode.c:852-953 | for a type without required fields, two encodings one behind the other decode to the second decoded into what the first gave |
| `NanopbMerging.MergesExactly` | Arthius/Pods/nanopb/pb_decode.c:852-953 | for a type without required fields, decoding x with anything behind it equals decoding x and then the rest into the same struct exactly when x ends where a field ends, which a scan by the descriptor alone decides |
| `NanopbMerging.ZeroEndedDoesNotMerge` | Arthius/Pods/nanopb/pb_decode.c:266-270 | a message that ends in a zero byte does not merge with what follows |
| `NanopbTransfer.Transfer` | Arthius/Pods/nanopb/pb_encode.c:451-489 | sizing, encoding into a buffer of just that size and decoding it gives the message back |
| `UInt128Core.AdditionIsExact` | Arthius/Arthius/UInt128.swift:153-165 | the sum but for the overflow, and the flag exactly when there is one |
| `UInt128Core.SubtractionIsExact` | Arthius/Arthius/UInt128.swift:167-179 | the difference but for the borrow, and the flag exactly when there is one |
| `UInt128Core.SubtractionUndoesAddition` | Arthius/Arthius/UInt128.swift:153-179 | subtracting undoes adding, and overflows alike |
| `UInt128Shift.RightShiftDivides` | Arthius/Arthius/UInt128.swift:481-497 | the masked right shift divides by a power of two, through both limbs |
| `UInt128Shift.LeftShiftMultiplies` | Arthius/Arthius/UInt128.swift:505-521 | the masked left shift multiplies by a power of two modulo 2 to the 128 |
| `UInt128Shift.SmartShifts` | Arthius/Arthius/UInt128.swift:376-387 | the unmasked shifts divide and multiply by a power of two at any width, past the last bit as well |
| `UInt128Shift.BitIsBit` | Arthius/Arthius/UInt128.swift:376-387 | the bit taken is the bit of the 256-bit number |
| `UInt128Multiply.VariadicAddition` | Arthius/Arthius/UInt128.swift:295-308 | truncated sum and overflow count make up the sum |
| `UInt128Multiply.ProductOfSegments` | Arthius/Arthius/UInt128.swift:193-217 | the product is the weighted sum of the products of segments |
| `UInt128Multiply.ColumnsAddUp` | Arthius/Arthius/UInt128.swift:219-261 | the columns, with the high halves carried over, make up that sum |
| `UInt128Multiply.AddColumns` | Arthius/Arthius/UInt128.swift:220-261 | no column overflows: every overflow count passed on is zero |
| `UInt128Multiply.LimbsAddUp` | Arthius/Arthius/UInt128.swift:263-280 | the limbs with their carries make up the columns, and the last limb has none |
| `UInt128Multiply.MultipliedFullWidth` | Arthius/Arthius/UInt128.swift:189-285 | high and low half are exactly the product, for all operands |
| `UInt128Multiply.MultipliedReportingOverflow` | Arthius/Arthius/UInt128.swift:181-187 | the product modulo 2 to the 128, and the flag exactly when it does not fit |
| `UInt128Divide.BitOrAdds` | Arthius/Arthius/UInt128.swift:460-465 | or-ing numbers without common bits limb by limb adds them |
| `UInt128Divide.OrBits` | Arthius/Arthius/UInt128.swift:460-465 | or-ing sets a bit where it is set in either limb |
| `UInt128Divide.SignificantBits` | Arthius/Arthius/UInt128.swift:47-49 | the significant bits of the two limbs are those of the value |
| `UInt128Divide.TakeBit` | Arthius/Arthius/UInt128.swift:358-359 | shift and or take the next bit of the dividend into the remainder |
| `UInt128Divide.WalkBits` | Arthius/Arthius/UInt128.swift:354-367 | the loop on limbs does what the walk over the bits does |
| `UInt128Divide.DivisionIsExact` | Arthius/Arthius/UInt128.swift:337-368 | quotient times divisor plus remainder is the dividend and the remainder is below the divisor, for every divisor when the dividend fits 128 bits, and for divisors up to 2 to the 127 when the quotient fits |
| `UInt128Divide.LargeDivisorGoesWrong` | Arthius/Arthius/UInt128.swift:358 | above 2 to the 127 there is a dividend for every divisor that is divided wrongly |
| `UInt128Divide.ExactIfNoBitIsLost` | Arthius/Arthius/UInt128.swift:337-368 | full-width division with a quotient that fits is exact if and only if no remainder that the loop shifts has reached 2 to the 127 |
| `UInt128Divide.FullWidthIsExactUpTo` | Arthius/Arthius/UInt128.swift:337-368 | full-width division by a number is exact for all dividends whose quotient fits if and only if the number is at most 2 to the 127 |
| `UInt128Divide.DividingFullWidth` | Arthius/Arthius/UInt128.swift:337-368 | the method does the walk; it traps on divisor zero unless the dividend is zero |
| `UInt128Divide.QuotientAndRemainder` | Arthius/Arthius/UInt128.swift:332-335 | ordinary division is quotient and remainder for every divisor but zero |
| `UInt128Print.ValueToString` | Arthius/Arthius/UInt128.swift:605-626 | the digit loop ends and gives the printed form |
| `UInt128Print.NoLeadingZero` | Arthius/Arthius/UInt128.swift:605-626 | there is no leading zero but in zero itself |
| `UInt128Print.DigitsOfCase` | Arthius/Arthius/UInt128.swift:605-626 | all digits are those of the case asked for |
| `UInt128Print.PrintedIsReadBack` | Arthius/Arthius/UInt128.swift:605-670 | in every radix and either case the printed form reads back to the value without running over 128 bits |
| `UInt128Print.PrintedIsUnique` | Arthius/Arthius/UInt128.swift:605-626 | different values are printed differently |
| `UInt128Print.ReadExactly` | Arthius/Arthius/UInt128.swift:665-670 | a string reads as a number exactly when it prints again but for the case of letters and leading zeros; all others fail |
| `UInt128Print.DecimalIsReadBack` | Arthius/Arthius/UInt128.swift:665-679 | the decimal form is always classified as radix 10, and read back |
| `UInt128Print.PrefixedIsReadBack` | Arthius/Arthius/UInt128.swift:665-679 | forms behind a radix prefix are classified by it and read back |
| `RefCount.LockedCount.Inc` | Arthius/Pods/BoringSSL/crypto/refcount_lock.c:29-35 | the locked increment, saturating |
| `RefCount.LockedCount.DecAndTestZero` | Arthius/Pods/BoringSSL/crypto/refcount_lock.c:37-51 | the locked release, with its abort and its result |
| `RefCount.StepIsSafe` | Arthius/Pods/BoringSSL/crypto/refcount_c11.c:37-65 | every step of every thread keeps the count truthful, and none can abort |
| `RefCount.StepIsLocked` | Arthius/Pods/BoringSSL/crypto/refcount_c11.c:37-65 | a step that returns from a call does at that moment what the locked form does; all other steps leave the count alone; the maximum is never left |
| `RefCount.NoneIsLive` | Arthius/Pods/BoringSSL/crypto/refcount_c11.c:49-65 | the count of owned references is zero exactly when no thread owns one |
| `RefCount.AloneItReturns` | Arthius/Pods/BoringSSL/crypto/refcount_c11.c:37-65 | no thread is ever stuck: one that runs alone returns after at most one failing swap |
| `RefCount.EveryRun` | Arthius/Pods/BoringSSL/crypto/refcount_c11.c:37-65 | over all interleavings and spurious failures: no abort, the count is the number of references below the maximum, the returned calls replay on the locked form with the same results, and only the last release returned one |
| `RefCount.SaturationIsPermanent` | Arthius/Pods/BoringSSL/crypto/refcount_c11.c:41-57 | once at the maximum, always at the maximum |

## Left out

- FlatBuffers in-place offset updates (`update(offset:atCursor:)`) and deferred bindings, which the progress codec does not use.
- FlatBuffersFileReader, the direct accessors, pointer lifetimes and UTF-8 decoding: strings are byte sequences, and equal strings are those with equal bytes, where Swift also takes canonically equivalent ones for equal.
- Floats are four opaque bytes: negative zero equals the default and is read back as zero unless defaults are forced, which `StoredEquals` states; a float that is not a number is treated by its bytes.
- FlatBuffersReader.ScalarAt: a misaligned load is modelled as a trap, since loading requires alignment; what a build without that check does is not modelled.
- Buffers whose size overflows a 64-bit integer, and failures to allocate.
- DTLS record sealing, epochs and their change, alerts, timers, callbacks and transport details: sealing is a step that may fail and adds at most the overhead, the transport answers any numbers, one epoch is current throughout, and in epoch zero the null cipher is taken to be in use.
- DtlsReceiver.Dtls1Receiver.ReadMessage: records are handshake or ChangeCipherSpec records; application data, which is discarded once records are encrypted, and unknown types, which fail, are not modelled.
- DtlsReceiver.HmFragment.Store: bytes of a message that have not arrived are shown as zero in the abstract message; in the buffer they are whatever the allocation left there.
- DtlsSender.DtlsSender.SealRecord: only the length of the output is modelled, not its bytes, so packets are sizes and the network carries records before sealing.
- nanopb callbacks, extensions, pointer fields and dynamic allocation, streams other than buffers, and submessages without presence, whose zero test looks at memory outside the values modelled here.
- NanopbDecoder.ReadMember: members are values that are returned, not memory that is written; what a failed decode leaves in the struct, the unused slots of arrays and the bytes of a union under another tag are not modelled.
- NanopbDecoder.ReadUint32: or-ing shifted bits is modelled as addition, which it is because the bits do not overlap.
- NanopbRoundTrip.RoundTrip: asks for encodings below 2 to the 32, since lengths of nested messages are read as 32-bit numbers.
- UInt128 conversions from and to floating point, hashing, byte order and the signs that the language's own string reader accepts; that reader is modelled as digit-by-digit evaluation with an overflow check.
- RefCount: the loops may retry for ever when the swap keeps failing, and no bound on retries is claimed.
- The other generated codec (LevelFB2), views, physics, networking, compression and the remaining BoringSSL files: they would add members of the same kind, or depend on code outside the repository.
