# Verified model of the ODPS tunnel client

A Dafny model of the client-side core of the ODPS C++ SDK: its wire formats, the state machines that
decide where data goes, and the containers underneath. Everything is stated for all inputs and, where
there is state, for all runs. `dafny verify dfyconfig.toml` checks the project.

Code that changes things step by step is modelled by classes and loops with the fields and branches of
the original. Each of their methods is proved against a specification function, and what the formats
and protocols are for is proved about these functions.

## Parts

- **Record streams** (`Normalize`, `Wire`, `NestedCodec`, `RecordStream`): rows as tagged varint
  fields, with arrays, maps and structs nested to any depth, record checksums and a footer.
  `NestedRoundTrip` and `RecordRoundTrip` prove that what is written is read back;
  `StreamIntegrity` proves what a successful read guarantees about any bytes, against a grammar that
  knows nothing of the reader. `ProtoSerializer` and `ProtoDeserializer` are the classes that do it.
  The format itself is told a second time, without the codecs and with its numbers: digits and places
  (`Positional`, `Encodings`), characters (`Characters`, `Narrowing`), the stream as a table of items
  (`Layout`, `Trailers`), what the checksum can tell apart (`ChecksumInput`),
  and what a reader returns whatever it is sent (`Received`).
- **Slot table** (`SlotTable`, `StreamUpload`, `Servers`): a round robin over the slots of a streaming upload, with
  servers taken out of use for a minute, under a clock that moves at every look.
- **Chunk framings** (`ArrowFraming`, `ArrowStreams`, `VolumeFraming`, `VolumeStreams`, `Cuts`, and as lists
  of frames `Frames`, `ArrowFrames`, `VolumeFrames`): two
  chunked formats, one with a checksum for each chunk and one for all, the other with one running
  checksum. What each reader delivers, and how that ends, is a function of its input, whoever wrote it;
  which inputs read to the end, and what becomes of a stream cut anywhere, is proved about that function.
  `HttpStreams` and `ZeroCopyStreams` are the lent buffers underneath.
- **Upserts** (`PackContents`, `BrokenRecords`, `RecordPacks`, `Retries`, `UpsertLedger`, `Flushing`,
  `UpsertSession`, `UpsertStream`): packs of records by bucket, byte for byte, partial and full flushes, every attempt to
  send and every retry, the accounting, and the table of buckets.
- **Type strings** (`TypeTokens`, `TypeStrings`, `TypeGrammar`, `TypeWords`, `OpenTypes`, `TypeParser`) and
  **predicates** (`Predicates`, `PredicateMeaning`, `PredicateText`, `LeafMeaning`): texts that are printed and have to
  mean the same when read, and what the parser makes of any other text.
- **Containers and transport** (`OdpsArrays`, `OdpsMaps`, `ChannelStreams`, `BatchReaders`,
  `ConnectionPools`).

A checksum register is modelled by the bytes it has absorbed since it was reset, and the checksum itself
is a parameter, so every claim holds for any checksum function. Exceptions are results. Where the code
depends on time, on the network, on a random number or on the other end, any behaviour of these is
allowed. Both directions of a connection log what was asked of them and what they did, so that a call
that may fail is also told to succeed whenever the other end does its part.

## What the proofs found

- A struct with a JSON member is written if the member is null, but no struct with a JSON member can be
  read (`NestedRoundTrip.NullJsonMemberIsUnreadable`).
- Nested dates lose the part of a day (`NestedRoundTrip.NestedDateIsKept`).
- The record checksum is taken of texts without their lengths. Without nested columns it can tell all rows
  apart if and only if no column but the last one holds texts (`ChecksumInput.ChecksumTellsRowsApart`).
- Time stamps and nested values carry the wire type that announces a length, and have none
  (`Layout.ColumnsAreLaidOut`).
- Values after the last record that no record end follows vanish without an error, whoever sent them
  (`StreamIntegrity.DanglingValuesAreDropped`); exactly when nothing vanishes is
  `StreamIntegrity.NothingDroppedIfTotalFirst`.
- A record that cannot be serialized leaves its first columns in the pack (`RecordPacks.RecordPack.Append`).
  They belong to no record checksum, they are missing from the total that decides about flushing, and no
  flush sends them while the pack has no record (`UpsertLedger.LeftoversAreMissed`). The pack can then be
  read only up to there: always when nothing but the footer follows or a type is to blame
  (`BrokenRecords.ReadsBackIfIntact`), and otherwise unless the next bytes begin with a text that can be cut
  (`BrokenRecords.BrokenPackStops`), when `StreamIntegrity.StreamMeetsGrammar` decides.
- An Arrow reader gives up if its first read brings fewer than the four bytes it asks for, even though more
  are to come (`ArrowStreams.ArrowInputStream.ReadHeader`); with chunk sizes of 2^32 - 4 and above it never
  finds a checksum (`ArrowFraming.DeliveryMeetsFraming`). After a wrong checksum the stream counts as ended exactly if
  less than a full chunk was left (`ArrowStreams.ArrowInputStream.Read`, `ArrowFraming.DamagedLastChunkIsLast`);
  otherwise the damaged chunk is passed over and reading goes on behind it. A stream cut four or more bytes
  into a chunk is taken for one with a shorter last chunk (`ArrowFraming.CutStream`). Closing reports success
  even if the last checksum could not be written (`ArrowStreams.ArrowOutputStream.Close`).
- A volume file cut right after a chunk or right after the chunk size reads as a shorter file
  (`VolumeFraming.CutStream`). After a wrong checksum the damaged chunk stays in the buffer, and the next call
  hands it out; after an exception about the chunk size the next call writes through a null pointer if any
  input is left (`VolumeStreams.VolumeDeserializer.Read`). Closing a file twice spoils it unless its last chunk
  is full (`VolumeFraming.ClosedTwice`).
- A flush that could send only part of the buffer keeps all of it, so the next flush sends that part again
  (`HttpStreams.HttpOutputStream.Flush`).
- The bucket table is checked after every slot, so the order in which slots are listed decides whether a
  complete table is accepted (`UpsertSessions.OrderOfSlotsMatters`); and an answer updates the bucket that
  has the number of the slot, whichever bucket was sent (`UpsertSessions.UpsertSession.UpdateSlot`).
- An upsert whose flush fails has stored its record all the same, and the total then still counts what was
  sent before the failure, until a flush succeeds (`UpsertStreams.UpsertStream.Write`,
  `UpsertLedger.TotalAfterFailedFlush`, `UpsertLedger.FlushRightsTheTotal`).
- Structs, negative numbers and DECIMAL with precision and scale zero do not survive printing and parsing
  (`TypeStrings.PrintParse`); blanks after a closing bracket are refused (`TypeStrings.TrailingBlanks`). A
  struct that stops after a bracket, a comma or the type of a member makes the parser dereference the end of
  its tokens, and nothing else does (`OpenTypes.StraysIfOpen`); a text with as many `>` as `<` is safe.
- Negating a condition that renders as nothing turns "no row" into "every row"
  (`PredicateMeaning.NegatingNothing`). A column name that looks quoted is not escaped
  (`PredicateText.AttributeNames`).
- Setting a map value of the wrong type throws but leaves a new key behind; a map recovered from the values
  of another shares them, so that changing a key in one changes the other, and a new key breaks it
  (`OdpsMaps.SharedValuesBreak`).
- A batch is lost exactly if closing its download throws after it arrived (`BatchReaders.ExactlyOnce`), and
  the row reader never asks again for rows that a download did not bring (`BatchReaders.ExactlyOnceRows`).

## Model

| member | source | states |
|---|---|---|
| Normalize.NewTimeStamp | common/odps_types.cpp:13-32 | whatever the seconds and nanoseconds, the constructor yields the one pair with the same instant, less than a second of nanoseconds and no opposite signs |
| Normalize.NormalTimeIsUnique | common/odps_types.cpp:13-32 | the normal form keeps the instant, and it is the only representation whose two parts never have opposite signs |
| Normalize.FindNextCharUtf8 | util/string_util.cpp:233-260 | the next position is where the next character starts; it throws past the end and at a byte 0xFE or 0xFF |
| Normalize.TrimOrPadding | tunnel/serialize.cpp:69-96 | the loop computes the fitted text: cut after the declared number of characters, or padded for CHAR, or an exception |
| Normalize.FittedIsIdempotent | tunnel/serialize.cpp:69-96 | fitting a text a second time changes nothing, so both ends may do it |
| Normalize.SkipLocal | tunnel/serialize.cpp:79-84 | counting characters depends only on the bytes passed over |
| Characters.FittedCharacters | tunnel/serialize.cpp:69-96 | a text of characters, each a lead byte with the continuation bytes it announces, keeps its first n characters whole, and CHAR(n) gets exactly the missing spaces; an exception exactly if n is out of range |
| Characters.FittedRuns | tunnel/serialize.cpp:69-96 | any bytes at all: a run of continuation bytes belongs to the byte before it, and it throws if and only if the length is out of range or a byte that no character begins with is reached before the text is long enough |
| Characters.EveryTextIsRuns | util/string_util.cpp:233-260 | every text is runs, up to the first byte that stops the scan |
| Characters.CharEndMeans | util/string_util.cpp:241-257 | whatever the bytes: the scan stops at a position if and only if only continuation bytes lie before it and it is the end or a lead byte |
| Characters.NextCharacter | util/string_util.cpp:233-260 | from the beginning of a character the next one is found behind it |
| Narrowing.NestedIntegers | tunnel/serialize.cpp:529-556 | a small integer keeps its lowest 8, 16 or 32 bits as a signed number: the one number in the range that differs by a multiple of 2^8, 2^16 or 2^32 |
| Narrowing.NestedDates | tunnel/serialize.cpp:53-61 | a nested date is sent as the whole days in its seconds, truncated toward zero, and read as their seconds |
| Positional.LittleEndianValue | tunnel/serialize.cpp:63-67 | for every integer and width the bytes fed to a checksum are the digits to base 256, lowest first, of the integer modulo 256^width |
| Positional.DigitsAreUnique | tunnel/serialize.cpp:63-67 | digits of the same number in as many places are the same digits, in any base |
| Positional.SameLittleEndian | tunnel/serialize.cpp:63-67 | two integers feed the same bytes if and only if they differ by a multiple of 256^width |
| Positional.FixedWidthKeepsApart | tunnel/serialize.cpp:63-67 | 32-bit and 64-bit integers, signed or unsigned, are kept apart by what they feed |
| Positional.Be32Means | tunnel/arrow_http_stream.h:409-431 | a chunk size or checksum is four bytes that denote it with the highest byte first, and nothing else is |
| Encodings.VarintMeans | tunnel/serialize.cpp:369-373 | a number has exactly one varint: seven bits a byte, lowest first, a mark on every byte but the last, and no last group of zero |
| Encodings.ScanVarintMeans | tunnel/serialize.cpp:885-893 | on any bytes: a number is read if and only if they begin with groups that denote it |
| Encodings.ReadVarintMeans | tunnel/serialize.cpp:885-893 | at most ten groups are read, and 64 or 32 bits of the number are kept |
| Encodings.ZigZagMeans | tunnel/serialize.cpp:1086-1104 | ZigZag is twice the number, or one less than twice its absolute value, and inverts that |
| Encodings.ReadSIntMeans | tunnel/serialize.cpp:1086-1104 | on any bytes: a signed integer is read if and only if the varint there is its ZigZag code |
| Encodings.TagMeans | tunnel/serialize.cpp:376-521 | the low three bits of a tag are the wire type and the others the field number |
| Encodings.ReadTagMeans | tunnel/serialize.cpp:885-893 | on any bytes: a field number is read if and only if the varint there lies in its group of eight |
| Encodings.ReadDelimitedMeans | tunnel/serialize.cpp:1105-1130 | on any bytes: a text is read if and only if its length is there and that many bytes follow |
| Layout.StreamIsLaidOut | tunnel/serialize.cpp:323-788 | what the writer has sent for any rows is, byte for byte, the table of items: tags with their numbers and wire types, integers, texts, null flags, lengths, record checksums, total and checksum of checksums |
| Layout.ColumnsAreLaidOut | tunnel/serialize.cpp:376-521 | what the columns of a row send, and what they feed to the record checksum, is what the table says |
| Layout.ValueIsLaidOut | tunnel/serialize.cpp:523-751 | so is what a nested value of any type sends and feeds |
| ChecksumInput.OneColumnKeptApart | tunnel/serialize.cpp:384-432 | two columns that feed the same bytes have the same number and the same value, if the type is neither text nor nested |
| ChecksumInput.RowsKeptApart | tunnel/serialize.cpp:344-366 | if no column holds a nested value and none but the last one a text, two rows feed the same bytes if and only if they are the same row, nulls included |
| ChecksumInput.ChecksumTellsRowsApart | tunnel/serialize.cpp:344-366 | without nested columns, what enters the record checksum tells all rows of a schema apart if and only if no column but the last one holds texts |
| ChecksumInput.TextHidesColumn | tunnel/serialize.cpp:376-400 | otherwise a text can hold what the next column feeds: two different rows that feed the same, built from the schema |
| Received.ReadIsProper | tunnel/serialize.cpp:1247-1530 | whatever the bytes: a nested value that is read is one its type allows: small integers in range, dates whole days, CHAR and VARCHAR of the declared length, time stamps in normal form, no null key, no JSON inside, at any depth |
| Received.RowsAreProper | tunnel/serialize.cpp:856-1239 | whatever the bytes: every row that a run of the reader returns has in each column null or a value its type allows |
| Received.RecordIsProper | tunnel/serialize.cpp:856-1239 | so for one call, whatever the record object held before |
| Received.NestedTexts | tunnel/serialize.cpp:1317-1336 | a nested text is read if and only if one is there and can be fitted; it is the fitted text, and the checksum is fed what was there |
| Received.FittedHasLength | tunnel/serialize.cpp:69-96 | what fitting makes of any text has exactly, or for VARCHAR at most, the declared number of characters |
| Trailers.RecordEndStep | tunnel/serialize.cpp:988-1034 | the reader takes a record end if and only if its number is the checksum of what the columns fed, and then begins anew |
| Trailers.MetricsAreRead | tunnel/serialize.cpp:899-986 | a total, metrics with their checksum and the final checksum, by their numbers, are read as a completed end, whatever follows |
| Wire.VarintRoundTrip | tunnel/serialize.cpp:369-373 | a varint of up to the given number of groups is read back and leaves exactly the rest |
| Wire.ReadVarintRoundTrip | tunnel/serialize.cpp:885-893 | every 64-bit varint is read back by the 64-bit reader, every 32-bit one also by the 32-bit reader |
| Wire.ReadSInt64RoundTrip | tunnel/serialize.cpp:1086-1104 | every signed 64-bit integer survives ZigZag encoding, whatever follows it |
| Wire.ReadSInt32RoundTrip | tunnel/serialize.cpp:1195-1210 | every signed 32-bit integer survives ZigZag encoding, whatever follows it |
| Wire.ReadTagRoundTrip | tunnel/serialize.cpp:885-893 | the field number of every tag is read back, whatever the wire type |
| Wire.ReadDelimitedRoundTrip | tunnel/serialize.cpp:1105-1130 | length-delimited bytes of up to 2^31 - 1 bytes are read back and leave exactly the rest |
| NestedRoundTrip.ScalarRoundTrip | tunnel/serialize.cpp:376-521 | every scalar is read back as written, and both ends feed the checksum the same bytes |
| NestedRoundTrip.PreparedThenRestored | tunnel/serialize.cpp:523-658 | what the writer does to a nested scalar and the reader undoes amounts to the normalisation of the value |
| NestedRoundTrip.ValueRoundTrip | tunnel/serialize.cpp:660-751 | for every type, value and trailing bytes: reading what was written gives the normalised value, leaves exactly the rest and feeds the checksum the same bytes; it throws exactly if some struct has a JSON member |
| NestedRoundTrip.CellRoundTrip | tunnel/serialize.cpp:523-658 | the same for a nullable element with its null flag |
| NestedRoundTrip.ArrayRoundTrip | tunnel/serialize.cpp:665-698 | the same for an array with its length |
| NestedRoundTrip.MapRoundTrip | tunnel/serialize.cpp:699-707 | the same for a map, which is sent as its keys and its values |
| NestedRoundTrip.MembersRoundTrip | tunnel/serialize.cpp:708-747 | the same for the members of a struct |
| NestedRoundTrip.WriteSucceedsIfAccepted | tunnel/serialize.cpp:660-751 | a value is written without exception if and only if its texts can be cut and their lengths are valid, and nothing of type JSON is present in it |
| NestedRoundTrip.NullJsonMemberIsUnreadable | tunnel/serialize.cpp:711-718 | a struct whose JSON member is null is written and cannot be read |
| NestedRoundTrip.NestedDateIsKept | tunnel/serialize.cpp:53-61 | a nested date comes back exactly if it is a whole number of days |
| RecordRoundTrip.ColumnRoundTrip | tunnel/serialize.cpp:1060-1230 | a column value is read back with the same checksum bytes; scalars unchanged, complex values normalised |
| RecordRoundTrip.DeserializeReturnsRow | tunnel/serialize.cpp:856-1239 | one call on the bytes of a written record returns exactly this row, whatever the record object held before, or throws exactly if a struct in it has a JSON member |
| RecordRoundTrip.StreamRoundTrip | tunnel/serialize.cpp:323-374 | for every schema and list of rows, the bytes of all records and the footer are read back as these rows in order and then as a completed end, leaving what follows |
| RecordRoundTrip.DeserializeFindsEnd | tunnel/serialize.cpp:957-1058 | at the footer of the records read so far the call reports the end, completed |
| RecordRoundTrip.ReadAllBegins | tunnel/serialize.cpp:856-1058 | whatever follows the bytes of some records, these records are read first and reading then goes on with what follows |
| StreamIntegrity.DeserializeMeetsGrammar | tunnel/serialize.cpp:856-1035 | on any bytes: a call returns a record if and only if the input begins with one according to an independent grammar, with an intact checksum, and each column is null exactly if no value for it was sent |
| StreamIntegrity.EndMeetsGrammar | tunnel/serialize.cpp:899-986 | on any bytes: a call reports the end if and only if the input has one there by the grammar: any values that belong to no record, the right total, then nothing or metrics with any number of right checksums, then the right final checksum |
| StreamIntegrity.NothingDroppedIfTotalFirst | tunnel/serialize.cpp:1036-1058 | no value is dropped at the end if and only if the total comes first |
| StreamIntegrity.StreamIntegrity | tunnel/serialize.h:191-203 | on any bytes: if the reader returns rows and then the end, the whole input up to what is left over is the records of these rows, one directly after the other, and an end by the grammar; the declared total is their number, every record checksum and the checksum of checksums match, and the stream counts as completed |
| StreamIntegrity.StreamMeetsGrammar | tunnel/serialize.cpp:856-1058 | any bytes read as these rows, the end and this rest if and only if they are these rows' records, an end and this rest by the grammar |
| StreamIntegrity.DanglingValuesAreDropped | tunnel/serialize.cpp:1036-1058 | any values between the last record and the footer, whoever sent them, are dropped, and the stream still counts as completed |
| StreamIntegrity.UnfinishedRecordIsDropped | tunnel/serialize.cpp:1036-1058 | so are the columns of a row whose record end was never sent |
| StreamIntegrity.NoRecordAfterTotal | tunnel/serialize.cpp:899-986 | once the total was read no further record is returned |
| ProtoSerializers.ProtoSerializer.Serialize | tunnel/serialize.cpp:323-374 | sends exactly the bytes of the record and absorbs its checksum; when it throws the bytes so far stay sent and nothing is counted |
| ProtoSerializers.ProtoSerializer.WriteCell | tunnel/serialize.cpp:376-521 | sends and absorbs what the specification of a column says; a null column leaves no trace |
| ProtoSerializers.ProtoSerializer.WriteNestedValue | tunnel/serialize.cpp:523-658 | sends and absorbs what the specification of a nested value says, and throws when it says so |
| ProtoSerializers.ProtoSerializer.WriteComplexValue | tunnel/serialize.cpp:660-751 | sends and absorbs what the specification of an array, map or struct says, and throws when it says so |
| ProtoSerializers.ProtoSerializer.Complete | tunnel/serialize.cpp:753-788 | if exactly these rows were serialized, the output is now the stream of these rows |
| ProtoSerializers.RecordsBytesAppend | tunnel/serialize.cpp:362-373 | serializing one more row appends its bytes and its checksum to those of the rows before |
| ProtoDeserializers.ProtoDeserializer.Deserialize | tunnel/serialize.cpp:856-1239 | moves the reader and fills the record object exactly as the specification says: a row, the end, or an exception |
| ProtoDeserializers.ProtoDeserializer.ReadNestedValue | tunnel/serialize.cpp:1247-1438 | consumes and absorbs what the specification of a nested value says |
| ProtoDeserializers.ProtoDeserializer.ReadComplexValue | tunnel/serialize.cpp:1440-1530 | consumes and absorbs what the specification of an array, map or struct says |
| ProtoDeserializers.ProtoDeserializer.ReadColumn | tunnel/serialize.cpp:1075-1230 | stores one column value and marks it as present, or throws |
| ProtoDeserializers.ProtoDeserializer.FillNulls | tunnel/serialize.cpp:1016-1023 | columns without a value in this record become null, the others keep their value |
| HttpStreams.HttpOutputStream.Next | tunnel/serialize.cpp:220-234 | lends the whole buffer after everything before it has been sent; it fails if and only if the connection did not take all that it was sent |
| HttpStreams.HttpOutputStream.Flush | tunnel/serialize.cpp:195-218 | sends what is in the buffer, each byte once, and fails if and only if the connection did not take all of it; then the buffer keeps all of it, so that the next flush sends that part again |
| HttpStreams.HttpOutputStream.BackUp | tunnel/serialize.cpp:236-244 | takes so many bytes off the end of what was written |
| HttpStreams.HttpInputStream.Next | tunnel/serialize.cpp:122-153 | lends the next bytes of the body; it fails exactly if nothing remains |
| HttpStreams.HttpInputStream.BackUp | tunnel/serialize.cpp:155-162 | the bytes given back come before all that remains |
| ZeroCopyStreams.ZeroCopyStreamReader.Read | tunnel/arrow_http_stream.cpp:9-35 | reads the next bytes of the body, as many as asked for or as remain, and -1 exactly if none remained |
| ZeroCopyStreams.ZeroCopyStreamWriter.Write | tunnel/arrow_http_stream.cpp:40-65 | appends exactly the given bytes; it fails if and only if the connection did not take all that it was sent, and never on a connection that takes everything |
| StreamUploads.StreamUpload.CheckSlots | tunnel/stream_upload.cpp:510-525 | agrees only if another slot would remain and at most two servers would be out of use, and refuses only if one of these failed when it began |
| StreamUploads.StreamUpload.DisableSlot | tunnel/stream_upload.cpp:491-508 | all slots of the server get one disable time, if that is allowed, and the table stays healthy |
| StreamUploads.StreamUpload.UpdateSlot | tunnel/stream_upload.cpp:478-489 | only the slot named changes, only if its address does, and then it is enabled again |
| StreamUploads.StreamUpload.UpdateFromResponse | tunnel/stream_upload.cpp:190-211 | with a matching number of slots the table is exactly the updated one; with any other it is the reloaded one, or unchanged when the request fails |
| StreamUploads.StreamUpload.Reload | tunnel/stream_upload.cpp:284-343 | the answer is loaded, as LoadSlots says, unless the request fails or, without force, the last load was less than 30 seconds ago; then nothing changes |
| StreamUploads.StreamUpload.LoadSlots | tunnel/stream_upload.cpp:409-459 | succeeds exactly if slots 0 to n - 1 all have an address; the new table keeps servers disabled only with their recorded time and within the minute, and every server that was disabled is kept so unless its time is up or that was not allowed |
| StreamUploads.StreamUpload.NextSlot | tunnel/stream_upload.cpp:461-476 | the search ends within one round and never returns a disabled slot; if nothing changed meanwhile it returns the first enabled slot after the current one |
| SlotTable.HealthyLater | tunnel/stream_upload.cpp:469-473 | time alone cannot take away the last usable slot or add to the servers out of use |
| SlotTable.DisablingStaysHealthy | tunnel/stream_upload.cpp:496-506 | disabling a server that the check allowed leaves a usable slot and at most two servers out of use |
| SlotTable.EnablingStaysHealthy | tunnel/stream_upload.cpp:483-486 | replacing one slot by an enabled one keeps the table healthy |
| SlotTable.RoundRobin | tunnel/stream_upload.cpp:469-475 | going through the enabled slots in cyclic order visits each of them exactly once in as many steps as there are |
| StreamUploads.StreamUpload.NextSlots | tunnel/stream_upload.cpp:461-476 | any number of calls go through the enabled slots in cyclic order if the same slots are enabled at the end as at the beginning; as many calls as there are such slots return each of them exactly once |
| Servers.HealthyMeans | tunnel/stream_upload.cpp:510-525 | healthy means, in seconds: some slot was never disabled or a minute ago, and no three servers have been disabled in the last minute |
| Servers.StillOut | tunnel/stream_upload.cpp:436-447 | after a reload a server disabled less than a minute ago is still disabled since the same time, if another server has a slot whose minute is over and no three servers are in their minute |
| ArrowFraming.FramedExtends | tunnel/arrow_http_stream.h:309-337 | data that does not complete a chunk is appended as it is |
| ArrowFraming.FramedCloses | tunnel/arrow_http_stream.h:309-337 | data that completes a chunk is followed by the checksum of this chunk |
| ArrowFraming.TakenFromStream | tunnel/arrow_http_stream.h:171-211 | from the frames of any data the reader takes the next full chunk, or the short last one, with the right checksum, and leaves the frames of the rest |
| ArrowFraming.DeliveryMeetsFraming | tunnel/arrow_http_stream.h:146-211 | any input delivers this data and then the end if and only if it is the framing of this data with every checksum right and the chunk size can be used |
| ArrowFraming.ReceivedIfAnnounced | tunnel/arrow_http_stream.h:146-211 | so for whole streams with their chunk size: read to the end exactly if well formed, whoever wrote them |
| ArrowFraming.CutStream | tunnel/arrow_http_stream.h:166-207 | a stream cut at any position delivers the whole chunks before the cut; fewer than four bytes after them are an error, four or more are taken for a last chunk, unnoticed exactly if the last four happen to be the checksum of all data before them |
| ArrowFraming.CutAnywhere | tunnel/arrow_http_stream.h:146-211 | the same for every proper prefix of a whole stream; within the chunk size the cut is an error |
| Cuts.CutIsThere | tunnel/arrow_http_stream.h:166-196 | which whole chunks lie before a position, and how many bytes after them |
| ArrowFraming.DamagedLastChunkIsLast | tunnel/arrow_http_stream.h:192-207 | a last chunk with any payload counts as the last one, whether or not its checksum is right |
| ArrowFraming.StreamIsReceived | tunnel/arrow_http_stream.h:340-392 | what a finished writer has sent delivers what was written |
| ArrowFraming.UnwrittenIsReceived | tunnel/arrow_http_stream.h:378-392 | a stream without any write is only the checksum of nothing, and reads as empty exactly if that is zero |
| ArrowStreams.ArrowOutputStream.WriteChunk | tunnel/arrow_http_stream.h:309-337 | writes up to the end of the open chunk and its checksum when that is reached; it stops at, and fails exactly because of, a write that was not taken in full |
| ArrowStreams.ArrowOutputStream.Write | tunnel/arrow_http_stream.h:340-374 | after writes of any sizes the output is the framing of their concatenation; an open stream tries to write and fails if and only if its last write was not taken in full, never on a connection that takes everything |
| ArrowStreams.ArrowOutputStream.Flush | tunnel/arrow_http_stream.h:378-392 | adds the checksum of everything, once; unless it is there already, a write is made for it and the call fails if and only if the last one was not taken in full |
| ArrowStreams.ArrowOutputStream.Close | tunnel/arrow_http_stream.h:395-400 | finishes the stream once, the last checksum being there if and only if the last write for it was taken in full, and reports success even if it was not |
| ArrowStreams.ArrowInputStream.ReadHeader | tunnel/arrow_http_stream.h:152-170 | reads the chunk size and leaves what is due unchanged, finds the announcement of no data, or fails if and only if the one read for it brought fewer than four bytes |
| ArrowStreams.ArrowInputStream.ReadChunk | tunnel/arrow_http_stream.h:146-211 | on any input and in any state: what is due does not change, or the call fails with the failure that is due; about the chunk size it fails if and only if the first read brought fewer than the four bytes asked for |
| ArrowStreams.ArrowInputStream.Read | tunnel/arrow_http_stream.h:233-262 | on any input: hands out the next bytes that are due, the end when all are handed out, or the failure that is due; after a wrong checksum the stream counts as ended if and only if less than a full chunk was left |
| ArrowStreams.ArrowInputStream.ReadExactly | tunnel/arrow_http_stream.h:265-289 | exactly as many of the bytes due as asked for, or the failure or end that is due after fewer |
| ArrowStreams.ArrowInputStream.ReadAll | tunnel/arrow_http_stream.h:233-262 | reading in pieces of any size delivers all that is due and says how it ends |
| ArrowStreams.WriteAll | tunnel/arrow_http_stream.h:340-400 | any split of writes, closed: what is sent is the framing of their concatenation, unless the last write made was not taken in full |
| ArrowStreams.RoundTrip | tunnel/arrow_http_stream.h:146-400 | whatever the writes, the chunk size and the reads: if the connection takes what it is sent, what was written comes back whole, followed by the end, when reads bring less than asked for only at the end; otherwise only the chunk size arriving in pieces can go wrong |
| ArrowFrames.StreamIsFrames | tunnel/arrow_http_stream.h:309-392 | the stream of any data: the chunk size, each whole chunk with the checksum of its data, the rest and the checksum of all data, every number in network byte order |
| ArrowFrames.ReceivedFromFrames | tunnel/arrow_http_stream.h:146-211 | what any input delivers, told frame by frame: the payloads before the first wrong checksum, and how it ends |
| ArrowFrames.FromFramesMeans | tunnel/arrow_http_stream.h:171-211 | which payloads these are: all before the first frame whose number is not the checksum of its payload |
| Frames.AnyBytesAreFrames | tunnel/arrow_http_stream.h:171-211 | any bytes are whole frames and fewer bytes than one more would take |
| VolumeFraming.FramedExtends | tunnel/volume_serialize.cpp:72-79 | data that still fits the open chunk is appended as it is |
| VolumeFraming.FramedCloses | tunnel/volume_serialize.cpp:66-71 | data after a full chunk is preceded by the running checksum |
| VolumeFraming.DeliveryMeetsFraming | tunnel/volume_serialize.cpp:304-333 | any input delivers this data and then the end if and only if it is the framing of this data with every checksum right; only after a full chunk the last checksum may come twice |
| VolumeFraming.ReceivedIfAnnounced | tunnel/volume_serialize.cpp:213-256 | so for whole files with their chunk size: read to the end exactly if well formed, whoever wrote them |
| VolumeFraming.CutStream | tunnel/volume_serialize.cpp:304-333 | a file cut at any position delivers the whole chunks before the cut; right after a chunk that is never noticed, one to three bytes later always, any other cut unless the last four bytes before it happen to be the checksum of all before them |
| VolumeFraming.CutAnywhere | tunnel/volume_serialize.cpp:213-256 | the same for every proper prefix of a whole file: nothing at all is an empty file, part of a chunk size is an error |
| VolumeFraming.StreamIsReceived | tunnel/volume_serialize.cpp:213-245 | what a closed writer has sent delivers what was written |
| VolumeStreams.VolumeSerializer.Write | tunnel/volume_serialize.cpp:54-81 | after writes of any sizes, empty ones included, the output is the framing of their concatenation; it throws if and only if the connection did not take all that it was sent |
| VolumeStreams.VolumeSerializer.WriteInternal | tunnel/volume_serialize.cpp:83-106 | sends exactly the given bytes through the lent buffers; it throws if and only if the connection did not take all that it was sent |
| VolumeStreams.VolumeSerializer.Close | tunnel/volume_serialize.cpp:156-172 | the open chunk gets its checksum, a second time if closed again, unless the connection does not take all that it is sent; without any write the file is empty |
| VolumeFraming.ClosedTwice | tunnel/volume_serialize.cpp:156-163 | a file that is closed a second time is still read as its data if and only if its last chunk is full |
| VolumeStreams.WriteAll | tunnel/volume_serialize.cpp:54-172 | any split of writes, closed and flushed: what is sent is the framing of their concatenation, unless a write was not taken in full |
| VolumeStreams.VolumeDeserializer.ReadInternal | tunnel/volume_serialize.cpp:284-302 | reads the next bytes of the input, as many as fit or as remain |
| VolumeStreams.VolumeDeserializer.TakeChunk | tunnel/volume_serialize.cpp:304-333 | takes the next chunk off any input; a damaged one is reported and stays in the buffer |
| VolumeStreams.VolumeDeserializer.FillBuffer | tunnel/volume_serialize.cpp:304-333 | on any input: what is due does not change, or the call fails with the failure that is due |
| VolumeStreams.VolumeDeserializer.Read | tunnel/volume_serialize.cpp:213-256 | on any input and in any state: hands out the next bytes that are due and nothing at the end, or fails with the failure that is due; after a wrong checksum the damaged chunk is what the next call hands out, and after an exception about the chunk size a null pointer is written through if and only if any input is left |
| VolumeStreams.VolumeDeserializer.ReadAll | tunnel/volume_serialize.cpp:213-256 | reading in pieces of any size delivers all that is due and says how it ends |
| VolumeStreams.RoundTrip | tunnel/volume_serialize.cpp:54-256 | whatever the writes, the sizes of chunks and buffers and the pieces in which bytes arrive: if the connection takes what it is sent, what was written comes back whole, followed by the end |
| VolumeFrames.StreamIsFrames | tunnel/volume_serialize.cpp:54-172 | the file of any data: the chunk size, then each chunk with the checksum of all data up to there, at most one of them not full, at the end |
| VolumeFrames.ReceivedFromFrames | tunnel/volume_serialize.cpp:213-333 | what any input with a chunk size delivers, told frame by frame, and how it ends; the size has to lie between 1 and 2^28 |
| VolumeFrames.FromFramesMeans | tunnel/volume_serialize.cpp:304-333 | which payloads these are: all before the first frame whose number is not the checksum of everything up to it |
| RecordPacks.RecordPack.Append | tunnel/record_pack.cpp:33-46 | a completed pack takes nothing; otherwise exactly the bytes of the record are added, or, when it cannot be serialized, exactly those of the columns before the fault and of what went out of that one, and it is not counted |
| RecordPacks.RecordPack.Flush | tunnel/record_pack.cpp:53-65 | exactly one attempt is made to send, byte for byte, what the attempts to append left, with a footer that counts the whole records, and the outcome is that of the attempt; a sent pack is empty afterwards, an unsent one keeps its records, completed |
| RecordPacks.RecordPack.Complete | tunnel/record_pack.cpp:83-90 | completing a second time changes nothing |
| RecordPacks.RecordPack.Reset | tunnel/record_pack.cpp:67-81 | an empty pack that takes records again |
| PackContents.IntactBytes | tunnel/record_pack.cpp:33-65 | a pack into which no record failed to go holds the bytes of its records, and counts them |
| PackContents.IntactReadsBack | tunnel/record_pack.cpp:33-65 | and reads back as these records, in order, as a complete stream |
| BrokenRecords.BrokenValue | tunnel/serialize.cpp:660-751 | where the writer gave up inside a value, the reader gives up too: always if a type is to blame, otherwise if what follows does not begin with a text that can be cut |
| BrokenRecords.BrokenColumns | tunnel/record_pack.cpp:33-46 | so a call throws on the columns that a row which could not be serialized has left |
| BrokenRecords.FooterStops | tunnel/serialize.cpp:753-788 | the footer never begins with such a text |
| BrokenRecords.BrokenPackStops | tunnel/record_pack.cpp:33-65 | a pack whose first broken record stops the reader yields exactly the records before it and then an exception |
| BrokenRecords.ReadsBackIfIntact | tunnel/record_pack.cpp:33-65 | where nothing but the footer follows a broken record, or a type is to blame, a pack can be read to its end if and only if no record in it is broken; then it reads as its records |
| UpsertSessions.UpsertSession.LoadSlots | tunnel/upsert.cpp:230-261 | succeeds exactly if after every slot the buckets so far are complete; the table is then that of the slots, the first slot naming a bucket having it |
| UpsertSessions.InRangeIsComplete | tunnel/upsert.cpp:249-254 | distinct buckets that are all below their number leave out no number below it |
| UpsertSessions.EveryHashHasABucket | tunnel/upsert_stream.cpp:142-144 | with a complete table every 32-bit hash, negative ones included, falls into a bucket with a slot |
| UpsertSessions.BucketMeans | tunnel/upsert_stream.cpp:142-144 | the bucket of a hash is the only number below the number of buckets that differs from the hash, read as an unsigned 64-bit number, by a multiple of it |
| UpsertSessions.CompleteMeansCounted | tunnel/upsert.cpp:249-254 | a complete table of ordinary size has exactly the buckets 0 to n - 1 |
| UpsertSessions.InsertedBuckets | tunnel/upsert.cpp:244-248 | a slot gets the buckets on its list that no slot before it got |
| UpsertSessions.OrderOfSlotsMatters | tunnel/upsert.cpp:239-255 | the same two slots are accepted in one order and refused in the other |
| UpsertSessions.UpsertSession.GetSlot | tunnel/upsert.cpp:420-424 | the slot of a bucket, or an exception if there is none |
| UpsertSessions.UpsertSession.UpdateSlot | tunnel/upsert.cpp:426-434 | replaces the entry of the bucket with the number of the slot; no bucket appears or disappears |
| UpsertStreams.UpsertStream.constructor | tunnel/upsert_stream.cpp:13-30 | one empty pack for each bucket, limits of 2^20 bytes for a pack and 2^26 for all, and the books in order |
| UpsertStreams.UpsertStream.SendPack | tunnel/upsert_stream.cpp:185-217 | the same contents are sent again and again until an attempt succeeds, or one fails without a listener or with a listener that wants no retry; the listener is asked once after each failure, with the number of retries so far |
| UpsertLedger.SendingGoesOn | tunnel/upsert_stream.cpp:176-219 | one more pack in a flush: its contents are added to what the server has taken if it was due, and the flush fails exactly when the last attempt failed |
| UpsertStreams.UpsertStream.Flush | tunnel/upsert_stream.cpp:173-232 | sends the packs that are due, in order and once each; it fails if and only if the last attempt to send failed, so never when the server takes everything, and then those after that pack are not tried and the total is not corrected |
| UpsertStreams.UpsertStream.Write | tunnel/upsert_stream.cpp:139-171 | the books after every outcome: unchanged, with the traces of a record that could not be serialized and the old total, or with the record appended and flushes by the limits; the record goes to the bucket that its hash leaves as an unsigned remainder; when each outcome occurs, a failed flush exactly when the last attempt to send failed; orderly books stay orderly when the write returns normally |
| UpsertStreams.UpsertStream.Close | tunnel/upsert_stream.cpp:70-77 | on a usable stream it throws if and only if the last attempt to send failed; when it returns normally exactly the packs without records are left, the server has bucket by bucket and in order all records appended, and where none failed to be serialized the bytes it has accepted read back as these records, each delivery complete |
| UpsertStreams.UpsertStream.Reset | tunnel/upsert_stream.cpp:79-91 | empties every pack and makes the stream usable; what was not delivered is gone |
| Retries.SentMeans | tunnel/upsert_stream.cpp:185-217 | every attempt but the last failed; without a listener there is one attempt, and a listener is asked once after each failure, with the number of retries so far, and wants exactly the retries that are made |
| Flushing.WrittenMeans | tunnel/upsert_stream.cpp:156-171 | what every pack holds after a write that went well: nothing is sent up to both limits, beyond the slot limit all packs that are too large, beyond the total limit all packs with records |
| Flushing.SentInOrder | tunnel/upsert_stream.cpp:176-219 | a flush sends exactly the packs that hold a record and are larger than the limit, or all that hold one, once each and in the order of the buckets |
| Flushing.LeftAfterFlush | tunnel/upsert_stream.cpp:176-219 | and leaves these empty and all others as they are |
| UpsertLedger.BalancedAfterSend | tunnel/upsert_stream.cpp:190-195 | moving the contents of a pack to the server keeps delivered and pending contents equal to what was tried |
| UpsertLedger.BalancedAfterAppend | tunnel/upsert_stream.cpp:157-160 | so does appending a record, and so does a failed attempt |
| UpsertLedger.NothingPending | tunnel/upsert_stream.cpp:70-77 | when no pack holds a record the delivered records are exactly those appended, and where none failed the deliveries are all that was tried |
| UpsertLedger.WriteStaysOrderly | tunnel/upsert_stream.cpp:161-170 | whatever a pack has grown to, after a write that succeeds no pack exceeds the slot limit, all of them together do not exceed the maximum, and the total is their sum |
| UpsertLedger.FlushRightsTheTotal | tunnel/upsert_stream.cpp:219-231 | after a flush that succeeds the total is the space of all packs if and only if no pack was left with bytes and without records |
| UpsertLedger.TotalAfterFailedFlush | tunnel/upsert_stream.cpp:173-232 | after a flush that fails the total is too large by the space of the packs it had sent, less what the pack that could not be sent has grown by; a total that was right stays right if and only if the two are equal |
| UpsertLedger.CountedIsSpaceIfClean | tunnel/upsert_stream.cpp:176-231 | what a flush adds up is all the space if and only if that is so |
| UpsertLedger.LeftoversAreMissed | tunnel/upsert_stream.cpp:156-180 | the bytes of a record that could not be serialized are not in the total, and no flush sends them as long as their pack gets no record |
| UpsertLedger.OnlyFailedSerializationBreaks | tunnel/upsert_stream.cpp:139-171 | of all outcomes of a write only a failed serialization ends the state in which every pack and delivery consists of whole records |
| UpsertLedger.SpaceChanges | tunnel/upsert_stream.cpp:156-162 | changing one pack changes the sum of the sizes by as much |
| UpsertLedger.DeliveryReadsBack | tunnel/record_pack.cpp:53-62 | a delivery of whole records reads back as these records, in order, as a complete stream with the declared count |
| UpsertLedger.ServerReadsBack | tunnel/record_pack.cpp:53-62 | the bytes accepted for a bucket read back, delivery by delivery, as the records delivered to it, each delivery complete |
| TypeTokens.Tokenize | common/complex_type_schema.cpp:16-38 | the loop yields the cleaned pieces of the text |
| TypeTokens.PiecesMakeUpTheText | common/complex_type_schema.cpp:19-35 | the pieces put together are the text; every other character is a piece of its own and no name is cut in two |
| TypeTokens.PiecesAreUnique | common/complex_type_schema.cpp:19-35 | there is only one way to cut a text like this |
| TypeTokens.TokensAreCleanPieces | common/complex_type_schema.cpp:25-31 | every piece becomes one token, trimmed and in upper case |
| TypeTokens.TokensIgnoreCase | common/complex_type_schema.cpp:28-30 | the tokens do not depend on letter case |
| TypeStrings.ParsingIgnoresCase | common/complex_type_schema.cpp:267-277 | two texts that differ in letter case only parse alike |
| TypeStrings.NamesAreKnown | common/complex_type_schema.cpp:40-72 | the parser knows the printed name of every type |
| TypeStrings.PrintedText | common/complex_type_schema.cpp:130-182 | the printed text of any type is cut into the tokens it was put together from |
| TypeStrings.PrintedTokensParse | common/complex_type_schema.cpp:184-265 | the tokens of a type, whatever follows, parse as this type and leave exactly the rest, or else as another type or not at all if it is one that does not survive |
| TypeStrings.PrintParse | common/complex_type_schema.cpp:130-277 | a type survives being printed and parsed if and only if it contains no struct, no negative length, precision or scale and no decimal with both zero; printed text is never read past its end |
| TypeStrings.StructDoesNotParse | common/complex_type_schema.cpp:160-177 | what is printed of a struct never parses |
| TypeStrings.TrailingBlanks | common/complex_type_schema.cpp:25-32 | of the types that survive printing, exactly those whose text does not end in a bracket may be followed by blanks; the others are then refused |
| TypeGrammar.ParserMeetsGrammar | common/complex_type_schema.cpp:184-265 | the parser accepts exactly what the grammar of types spells, and takes it for the type so spelled |
| TypeGrammar.SpelledParses | common/complex_type_schema.cpp:184-265 | whatever is spelled by the grammar is parsed, with anything after it left over |
| TypeGrammar.TypeIsSpelled | common/complex_type_schema.cpp:184-265 | whatever is parsed was spelled by the grammar |
| OpenTypes.StraysIfOpen | common/complex_type_schema.cpp:242-254 | the parser reads past its last token if and only if the tokens stop inside a struct where a member may begin or after the type of a member, at any depth |
| OpenTypes.OpenIsDeep | common/complex_type_schema.cpp:242-254 | then there are more opening than closing brackets |
| OpenTypes.ClosedTextDoesNotStray | common/complex_type_schema.cpp:267-277 | a text with at least as many > as < is never read past its end |
| TypeParsers.TypeParser.ParseType | common/complex_type_schema.cpp:184-193 | the parser moves over the tokens exactly as the specification says, with its result or exception |
| TypeParsers.TypeParser.ParseMembers | common/complex_type_schema.cpp:242-255 | the loop over the members agrees with the specification, reading past the end included |
| TypeParsers.TypeParser.ExpectInteger | common/complex_type_schema.cpp:99-116 | a token of digits below 2^31 is read as its number; anything else throws |
| TypeParsers.ParseTypeInfoString | common/complex_type_schema.cpp:267-277 | a type is returned only if no token is left over |
| TypeWords.CharacterClasses | common/complex_type_schema.cpp:12-15 | which characters are blanks, digits and parts of names, by their numbers |
| TypeWords.UpperMeans | common/complex_type_schema.cpp:30 | the token in upper case is the one text without small letters that differs from it only in the case of letters |
| TypeWords.TokensHaveNoSmallLetter | common/complex_type_schema.cpp:19-35 | no token has a letter from a to z in it, and each is a piece of the text but for case and blanks |
| TypeWords.ParsingIgnoresLetterCase | common/complex_type_schema.cpp:267-277 | texts that differ, position by position, only in the case of letters are parsed alike |
| TypeWords.AnyCaseParses | common/complex_type_schema.cpp:267-277 | whatever differs only in case from the printed text of a type that survives is parsed as that type |
| TypeWords.TrimMeans | common/complex_type_schema.cpp:28 | trimming takes blanks off both ends and nothing else |
| TypeWords.NumberNames | common/complex_type_schema.cpp:40-72 | which names stand for the numeric types, word for word |
| TypeWords.TimeNames | common/complex_type_schema.cpp:40-72 | which names stand for dates, times and intervals |
| TypeWords.TextNames | common/complex_type_schema.cpp:40-72 | which names stand for texts |
| TypeWords.NamesWithSizes | common/complex_type_schema.cpp:40-72 | which names take sizes |
| TypeWords.NestedNames | common/complex_type_schema.cpp:40-72 | which names begin a nested type |
| TypeWords.NumberMeans | common/complex_type_schema.cpp:99-116 | a token of digits is the decimal number with the highest place first |
| TypeWords.PrintedIs | common/complex_type_schema.cpp:130-182 | what is printed of every type, word for word |
| TypeWords.DigitsMean | common/complex_type_schema.cpp:130-182 | numbers are printed in decimal, without leading zeros |
| PredicateMeaning.KeptMean | max_storage_api/predicate.cpp:235-246 | leaving out the empty texts of a conjunction does not change what it says |
| PredicateMeaning.SplitJoined | max_storage_api/predicate.cpp:233-257 | operands rendered in brackets are found again in the text, all of them and in order |
| PredicateMeaning.OperandsComeBack | max_storage_api/predicate.cpp:233-257 | the operands of a conjunction that say something come back from its text |
| PredicateMeaning.TreeIsBalanced | max_storage_api/predicate.cpp:202-258 | balanced leaves make balanced text |
| PredicateMeaning.CombinedMeans | max_storage_api/predicate.cpp:220-257 | combining texts means what the operator says of their meanings, exactly unless the operator is NOT and the text empty |
| PredicateMeaning.RenderingKeepsMeaning | max_storage_api/predicate.cpp:202-258 | for every tree with balanced leaves in which nothing empty is negated, the rendered expression says of every row what the tree says |
| PredicateMeaning.NegatingNothing | max_storage_api/predicate.cpp:221-231 | a negation keeps its meaning if and only if what it negates renders as some text |
| PredicateMeaning.VacuousRendersEmpty | max_storage_api/predicate.cpp:202-258 | which trees render as nothing, told by their form |
| PredicateText.WriteCompound | max_storage_api/predicate.cpp:220-257 | the loop over the operands writes their combination |
| PredicateText.WriteAttribute | max_storage_api/predicate.cpp:38-57 | the replacing loop doubles every backtick of the name once and adds the quotes |
| PredicateText.UnescapedEscaped | max_storage_api/predicate.cpp:48-55 | halving the doubled backticks gives the name back |
| PredicateText.AttributeNames | max_storage_api/predicate.cpp:42-56 | the text written for a column names this column if and only if the name did not look quoted |
| PredicateText.ImproperQuotesStay | max_storage_api/predicate.cpp:42-46 | a name that looks quoted is passed on as it is, and can be read if and only if the backticks inside are those of an escaped name |
| PredicateText.EscapedMeans | max_storage_api/predicate.cpp:48-56 | a name without backticks is only quoted, and each backtick in it is written twice |
| PredicateMeaning.NothingNegatedMeans | max_storage_api/predicate.cpp:221-231 | whether nothing empty is negated is a matter of the negations anywhere in the tree, and of nothing else |
| LeafMeaning.LeafComesBack | max_storage_api/predicate.cpp:115-300 | a comparison, null test or membership with a plain operand is read back from its text by a reader with words of its own |
| LeafMeaning.RenderingKeepsLeaves | max_storage_api/predicate.cpp:115-300 | so the rendered expression says of every row what the tree says, told from operators, comparisons, values and negations |
| OdpsArrays.ODPSArray.Append | include/odps_array.h:296-302 | adds a value at the end, or throws for another type and changes nothing |
| OdpsArrays.ODPSArray.Rewrite | include/odps_array.h:273-286 | replaces one value and makes it not null, or throws and changes nothing |
| OdpsArrays.ODPSArray.SetNull | include/odps_array.h:232-236 | makes one value null |
| OdpsArrays.ODPSArray.Access | include/odps_array.h:257-263 | the value, or an exception for another type or a null value |
| OdpsMaps.ODPSMap.FindIndexOrAppend | include/odps_map.h:77-90 | the place of the key; a new key gets the next place and the null value |
| OdpsMaps.ODPSMap.Set | include/odps_map.h:319-323 | the abstract map gets the value; with the wrong type it throws, and a new key stays behind with the null value |
| OdpsMaps.ODPSMap.SetNullValue | include/odps_map.h:463-467 | the abstract map gets the null value |
| OdpsMaps.ODPSMap.Get | include/odps_map.h:65-75 | the value of the abstract map, or the exception for a missing key, another type or a null value |
| OdpsMaps.ODPSMap.Contains | include/odps_map.h:120-124 | whether the key is in the abstract map |
| OdpsMaps.ODPSMap.ContainsAndNotNull | include/odps_map.h:126-136 | whether the key is in the abstract map with a value |
| OdpsMaps.ODPSMap.Size | common/odps_map.cpp:199-202 | the number of keys of the abstract map |
| OdpsMaps.IndexSize | include/odps_map.h:77-90 | the index is a bijection onto the places in use, so there are as many keys as places |
| OdpsMaps.ODPSMap.GetKeys | common/odps_map.cpp:204-254 | the keys in the order in which they were first set |
| OdpsMaps.PlacesAreCounted | common/odps_map.cpp:207-212 | sorted places below their number are 0, 1, 2 and so on |
| OdpsMaps.ODPSMap.Recover | common/odps_map.cpp:256-284 | on a fresh map the result is a sound map if and only if the keys are distinct and as many as the values |
| OdpsMaps.RecoveredIndex | common/odps_map.cpp:256-265 | indexing the keys one after the other gives their places back exactly if no key is repeated |
| OdpsMaps.Rebuilt | common/odps_map.cpp:204-284 | a fresh map recovered from the keys and values of another is the same map |
| OdpsMaps.SharedValuesBreak | common/odps_map.cpp:267-270 | the two then share their values: setting a key to null in one does the same in the other if the key was there, and breaks the other exactly if it was not |
| ChannelStreams.ChannelStream.ReuseBuffer | common/http_connection.cpp:338-348 | moves the pending bytes to the front and keeps them |
| ChannelStreams.ChannelStream.ReallocBuffer | common/http_connection.cpp:350-366 | moves the pending bytes to a larger buffer and keeps them |
| ChannelStreams.ChannelStream.PutBuffer | common/http_connection.cpp:375-379 | appends to the pending bytes |
| ChannelStreams.ChannelStream.GetBuffer | common/http_connection.cpp:381-387 | takes the first pending bytes, as many as asked for or as there are |
| ChannelStreams.ChannelStream.WriteCallback | common/http_connection.cpp:164-196 | data of any size is appended; after a reallocation it fits exactly |
| ChannelStreams.ChannelStream.ReadCallback | common/http_connection.cpp:199-234 | takes the first pending bytes for sending, as many as fit or as there are |
| ChannelStreams.Upstream.Write | common/http_connection.cpp:662-686 | all of the data is sent in order; it fails if and only if the library threw or left something unsent, and then what was sent and what is pending are the beginning of the data |
| ChannelStreams.Downstream.Read | common/http_connection.cpp:648-660 | gives the next bytes of what arrived, as many as fit or as there are; nothing more is awaited while something is pending |
| BatchReaders.BufferArrowRecordReader.Read | tunnel/arrow_record_reader.cpp:83-120 | one download from the cursor on, unless all rows have been read; how it went decides the result and by how much the cursor moves |
| BatchReaders.BufferArrowRecordReader.ReadWithRetry | tunnel/util.h:18-41 | at most one attempt more than the retries; all but the last threw, and the last one decides the result |
| BatchReaders.ExactlyOnce | tunnel/arrow_record_reader.cpp:83-120 | after any run the caller has got the rows that the cursor has passed, each once and in order, if and only if no download failed to close after its batch had arrived |
| BatchReaders.BufferRecordReader.ReadData | tunnel/record_reader.cpp:97-112 | one download; the cursor moves by what was asked for, and what came is in the buffer even if the call throws |
| BatchReaders.BufferRecordReader.Read | tunnel/record_reader.cpp:78-91 | the next row in the buffer, or else one download, which decides the result |
| BatchReaders.ExactlyOnceRows | tunnel/record_reader.cpp:78-112 | after any run the rows that arrived are those that the cursor has passed, each once and in order, if and only if no download brought fewer rows than it was asked for |
| BatchReaders.BufferRecordReader.AllOnce | tunnel/record_reader.cpp:78-112 | at the end the caller has the whole range, each row once and in order, if and only if that is so |
| ConnectionPools.CurlConnectionPool.Acquire | common/curl_connection_pool.cpp:169-208 | the first good idle connection is handed out, those before it are dropped and those after it kept; if none is good a new one, unless the limit of 65535 is reached or none can be made; other pools stay as they are |
| ConnectionPools.CurlConnectionGuard.AcquireFrom | common/curl_connection_pool.cpp:169-208 | the guard gets a connection unless no idle one is good and the limit is reached or none can be made |
| ConnectionPools.CurlConnectionPool.TakeIdle | common/curl_connection_pool.cpp:178-192 | the first usable idle connection; those before it are dropped, those after it stay |
| ConnectionPools.CurlConnectionPool.Release | common/curl_connection_pool.cpp:224-267 | the connection is no longer handed out and the count goes down by one; a good one is kept behind the other idle ones if there is room and resetting it works; all others stay, unless a clean-up is due |
| ConnectionPools.CurlConnectionPool.CleanupConnections | common/curl_connection_pool.cpp:280-293 | in every pool exactly the usable idle connections are left, and nothing else changes |
| ConnectionPools.HandedOut | common/curl_connection_pool.cpp:188-207 | handing out keeps the count equal to the connections handed out, none of them idle, and both limits |
| ConnectionPools.GivenBack | common/curl_connection_pool.cpp:241-260 | so does taking back |
| ConnectionPools.CurlConnectionGuard.Release | common/curl_connection_pool.cpp:159-167 | gives the connection back once |
| ConnectionPools.CurlConnectionGuard.MoveFrom | common/curl_connection_pool.cpp:146-157 | the connection held before is given back and the other one changes hands; the other guard is left with none |

## Left out

- HTTP, curl, sockets, polling, signing, request building and JSON or XML mapping: the network is a byte
  sequence or a choice between success and failure; which metrics strings parse is a parameter.
- gzip, zstd and LZ4 streams: only uncompressed data.
- The checksum of the raw stream (`mDoStreamChecksum`): every caller in the SDK passes false.
- Recreating the coded streams at the total bytes limit, byte counters, latencies and metrics.
- The checksum function itself; `ArrowFraming.UnwrittenIsReceived` is the one claim that says what it needs.
- Floating-point numbers are the bytes that represent them; NaN and negative zero as map keys are not
  distinguished from their bytes.
- Column types are a sum type: fields that a type does not use do not exist. A map value is its keys and
  values in the order of insertion.
- Nested dates so far away that their seconds exceed 64 bits; the multiplication then overflows.
- Texts so long that padding a CHAR would exceed 2^31 - 1 bytes, and time stamps at the very ends of the
  64-bit range, where the constructor would overflow.
- Locks: each method is one atomic step. The order in which reloading goes through the old addresses is
  arbitrary in the model and sorted in the code.
- VolumeStreams.VolumeDeserializer.Read: the block size given to the reader is positive, as in every use, and
  nothing is said of a program that has written through a null pointer.
- VolumeStreams.VolumeSerializer.Write: chunk sizes are within the limits that the reader accepts.
- ArrowStreams.ArrowOutputStream.Write: what a write after a flush produces is not described, because no
  reader can tell it from the end.
- RecordPacks.RecordPack.Reset: the writer of a pack is renewed in place, because nothing else refers to it.
- UpsertStreams.UpsertStream.Write: the operation and value columns are part of the row it is given; the far
  end is what this one stream has delivered; the buckets stay those the stream was created with, and there
  is at least one.
- RecordPacks.RecordPack.Flush: an attempt to send that fails is taken to have left nothing at the server; a
  request that was stored although its answer was lost is sent again by a retry, which doubles its records.
- UpsertStreams.UpsertStream.SendPack: the listener gives up after some number of retries of its choosing,
  and does not throw.
- UpsertSessions.UpsertSession.LoadSlots: committing, aborting and reloading a session.
- TypeParsers.TypeParser.ExpectInteger: signs are tokens of their own, so signed numbers cannot occur.
- Predicate trees are values: adding an operand to a compound in place is not modelled. Brackets are counted
  everywhere, so a leaf with an unmatched bracket inside quotes counts as unbalanced.
- LeafMeaning.RenderingKeepsLeaves: a leaf whose operand has a blank in it or a bracket in front, or whose values
  have commas in them, is not told apart from other text; it counts as the text it renders to.
- OdpsMaps.ODPSMap.GetKeys: the library's sort is an insertion; the run-time check that the C++ key type is
  that of the map is left out.
- ChannelStreams.Upstream.Write: error responses that arrive while sending are failures like any other.
- NestedCodec.GetValue: a map read from bytes is its keys and values as two arrays; what the map object makes of
  repeated keys or unequal lengths is proved for `OdpsMaps.ODPSMap.Recover`, not on the reading path.
- BrokenRecords.ReadsBackIfIntact: when other records follow one that broke off at a text, what the reader makes
  of them depends on their bytes and is told only by the grammar of streams.
- HttpStreams.HttpOutputStream.Flush: a connection that throws is taken to have sent nothing of that call.
- BatchReaders.BufferRecordReader.ReadData: the rows of a download are given at once, and the loop puts them
  into the buffer.
- ConnectionPools.CurlConnectionPool.Release: a pool is only used through guards, as in the code's own use;
  whether resetting a connection fails is left open.
- Builders, getters, Arrow schema mapping, session polling, block lists, paging iterators, exactly-once
  streams: easy or decided by the service.
