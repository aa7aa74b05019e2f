# Verified models of the station processor

The station processor collects seismic data from a Q330 digitizer and status data from a Falcon, packs both into
SEED records and hands the records on. This project models the parts of it that carry the most state, and proves that
nothing is lost, changed or reordered on the way.

The models keep the form of the C code: structures that are updated in place are classes, record buffers are arrays,
loops are loops. Each method is proved against functions of values, and most theorems are about these functions and
about runs of them: any sequence of samples, records, messages or steps.

**Steim-2 compression (lib330).** `Steim` has the tables and the packing of differences into words, `Packing` states one
packing step and whole runs of steps on values, `Frames` the 64-byte frames and their decoding (SEED Reference Manual,
Appendix B). `SampleRing`, `FrameBuilder` and `Compressor` are the in-place code, `Channel` a channel's life from samples
to finished records and what these decode to. `Blockette` and `Precompressed` decompress a blockette of words compressed
elsewhere, `Repack` moves its words into frames without recompressing them.

**Archive records (lib330).** `Archive` is the flushing of a record and the calls a client gets, `Account` what a client has
and what is in the buffer. `ByteFrames`, `Merge` and `RecordBody` are the merging of data records in a byte buffer,
`DataRecords` says on values what the archive of a data channel does with a record, `DataOutcome` the same by times, sizes
and what the client is told, `DataDelivery` when the client gets all samples, and `DataArchive` is the class.
`OpaqueArchive` (with `BlocketteChain`) and `TextArchive` are the archives of opaque and message channels, and
`OpaqueOutcome` says which groups of blockettes come into one record. `Pipeline` goes from the samples of a channel to its client, and `MergeExample` has two
records that do not merge.

**Falcon.** `Varint`, `RowMap` and `ByteBuffer` are the pieces of the FMash format, `FMashSpec` and `FMashMessage` its
meaning on values, `FMash` the in-place compressor and reader, `Csv` the admission of rows and their cutting into messages.
`OpaqueRecord` and `OpaqueMessage` say what the SEED records of opaque blockettes are and how a reader gets the messages
back, `OpaqueImage` what their bytes are at each offset, `OpaqueQueue` makes, fills and sends them, and `FalconArchive` puts
rows, messages and records together.

**Lists, patterns, daemons.** `SimcList`, `Order` and `SimcSort` are the doubly linked list and its sorting, `WildMatch` the
matcher without backtracking, `Wildcards` what a match is, `LissRing` the ring between the two threads of `ida2liss`, `LogBuffer` and `Telemetry` the
archiving of LOG records and the sending to clients in `archd`.

## What the code does not do

Some promises hold only under a condition. The condition is stated as exactly as it is known.

- A stream is decoded to its samples if and only if every difference of successive samples, wrapped to 32 bits, fits a
  30-bit field (`Packing.StreamRoundTrip`; `Packing.StreamFails` has an input). A larger difference is packed truncated,
  with a message to the log. Since the test uses `abs` on 32 bits, -2^31 passes every limit. A record has its first sample
  elsewhere, so it decodes to its samples if and only if all its differences but the first fit
  (`Compressor.RecordDecodes`), whatever other records hold.
- Words with code 0 are four 8-bit differences to the decompressor and nothing to a reader of frames
  (`Repack.RepackLosslessIff`, `Repack.RepackLoses`), and a break in the samples is only logged. A channel that takes a
  blockette over still decodes to all samples if and only if no word has code 0 and the blockette begins a record or goes
  on from its last sample (`Repack.BlocketteTaken`, `Repack.ContinuityIff`).
- Merging two records decodes to both if and only if the second one's first difference starts from the first one's last
  sample (`Merge.MergeDecodesIff`, `MergeExample.MergeFails`).
- A record with a start before 2006 or after 2038 is dropped by a flush without a word. The clients of data and opaque
  channels get everything if and only if no record is dropped (`DataDelivery.ClientGetsAllIff`,
  `OpaqueArchive.ClientGetsAllIff`); the archive of a message channel counts the records dropped.
- The length of a description is put into a byte before it is limited to 8, so descriptions of 256 to 263 characters, and
  so on, are cut short (`FMashMessage.DescriptionKeptIff`, `FMashMessage.DescriptionLost`). Row times come back exactly if
  and only if the first one fits 32 bits (`FMashMessage.TimesExactIff`).
- For a record size without a code, or an id string that does not end in a tilde, `MakeOpaqueSeed` fails after the buffer
  has been allocated. What a reader gets then is in `OpaqueQueue.QueuedReads`: nothing for a bad size or a message of
  several records; for a bad id string and a message of one record, zeros in place of the data. Messages before and
  after it are not affected.
- An empty message that is not appended to a record takes no record at all. The buffer is allocated but empty, and the
  next message for the same channel is looked for behind it, so `Queue` excludes just that call.
- A `send` that fails returns a negative count, which is compared with an unsigned one and taken for a complete send. The
  bytes a telemetry client gets are those due if and only if no send has failed (`Telemetry.TelemetryClient.Framed`).
- A failed keepalive of `ida2liss` goes on to send the oldest slot even if there is no record in it. Nothing is sent
  only because `send_record` gives up without a connection, and the model includes this.

## Model

| member | source | states |
|---|---|---|
| Steim.BestEntryPacksMost | lib330/libcompress.c:193-249 | no table entry that fits the differences packs more samples than the best entry |
| Steim.BestEntryUnique | lib330/libcompress.c:182-254 | the best entry is the only one that fits (or is the last) with no fitting entry below it |
| Steim.FitsUpward | lib330/libcompress.c:79-85 | an entry that fits stays a fit when going to fewer and wider fields |
| Steim.UnpackPack | lib330/libcompress.c:267-268 | unpacking a packed word gives every difference truncated to its field, sign extension included |
| Steim.EntryRange | lib330/libcompress.c:78-85 | control bits and fields fill exactly one 32-bit word, the control bits in the top two |
| Steim.PackedRow | lib330/libcompress.c:324-340 | the map code and the top bits of a packed word select the decoder row of its table entry |
| Steim.PackedDiffs | lib330/libcompress.c:343-351 | the decoder reads back each difference truncated to the entry's field |
| Steim.StreamDiffsSmall | lib330/libcompress.c:88-95 | whatever words arrive, every decoded difference fits 30 bits |
| Steim.IntegrateDiffs | lib330/libcompress.c:352-363 | summing the wrapped differences of a stream gives the stream back, 32-bit wrap-around included |
| Steim.DiffsOfIntegrate | lib330/libcompress.c:188-192 | only a stream's own 32-bit differences sum to it |
| Packing.SearchMoves | lib330/libcompress.c:182-254 | every move of the roaming search keeps what is known about the entries passed, and each way out leaves the best entry |
| Packing.NextWordPacksMost | lib330/libcompress.c:168-254 | wherever the last search ended, no fitting entry packs more of the pending samples than the one chosen; which entries fit is in `Packing.NextWordTakesIff` |
| Packing.NextWordTakesIff | lib330/libcompress.c:168-254 | a word takes n or more samples if and only if n is 1 or n wait and their first n wrapped differences are at most 7, 15, 31, 127, 511 or 16383 in magnitude, for n from 7 down to 2 (or are -2^31, which `abs` leaves negative) |
| Packing.NextWordMarked | lib330/libcompress.c:78-86 | the map code and the top two bits of a word, as literals, are those for the number of samples it takes |
| Packing.NextWordDecodes | lib330/libcompress.c:259-272 | one word decodes to the differences of the samples it took exactly when these fit 30 bits |
| Packing.StepConserves | lib330/libcompress.c:263-272 | a step loses and reorders no sample |
| Packing.RunTracks | lib330/libcompress.c:119-288 | over every run the words unpack to the packed samples' differences exactly when these are encodable, and packed and pending samples are all samples taken |
| Packing.SumsOnlyToOwn | lib330/libcompress.c:352-363 | among 30-bit differences only a stream's own ones sum to it |
| Packing.StreamRoundTrip | lib330/libcompress.c:119-377 | over every run the words decode to the packed samples if and only if every wrapped difference fits 30 bits |
| Packing.RightIff | lib330/libcompress.c:259-272 | a record's words carry all its differences but the first exactly when these fit 30 bits |
| Packing.StreamFails | lib330/libcompress.c:182-272 | a sample of 2^29 after 0 is not decoded |
| SampleRing.SampleRing.Put | lib330/libsample.c:869-874 | a sample goes behind those waiting in the ring |
| SampleRing.SampleRing.Drop | lib330/libcompress.c:263-264 | the first n samples leave the ring, the others stay in order |
| FrameBuilder.FrameBuilder.StoreWord | lib330/libcompress.c:269-282 | a word with its code is added to the words of the record; the frame is stored exactly when its sixteenth word is written |
| FrameBuilder.FrameBuilder.CompletePartial | lib330/libsample.c:498-509 | closing a partly filled frame adds no word |
| FrameBuilder.FrameBuilder.Finish | lib330/libsample.c:410-424 | the frames handed over carry exactly the record's words, its first sample and the last one |
| FrameBuilder.PadLayout | lib330/libsample.c:501 | shifting in codes for unused words leaves all words as they were |
| Compressor.Compressor.SearchTable | lib330/libcompress.c:168-254 | the search ends on the best entry from wherever it starts, fetches no more samples than wait, and stops; how many samples that entry takes is in `Packing.NextWordTakesIff` |
| Compressor.Compressor.PackDifferences | lib330/libcompress.c:259-268 | the loop of shifts computes the packed word of the entry |
| Compressor.Compressor.PackNext | lib330/libcompress.c:168-271 | the word is the next word of the pending samples, which leave the ring, and the last sample is the last one packed |
| Compressor.Compressor.CompressBlock | lib330/libcompress.c:119-288 | one call is one packing step of the record's history, and nothing happens without a ring |
| Compressor.RecordDecodesIff | lib330/libcompress.c:119-288 | whatever words it holds, a finished record decodes to its samples if and only if all its differences but the first are right |
| Compressor.RecordDecodes | lib330/libcompress.c:119-288 | a record of the compressor decodes to its samples if and only if all its differences but the first fit 30 bits |
| Compressor.LoadedPrefix | lib330/libcompress.c:186-192 | differences fetched beyond those of the chosen entry do not matter |
| Channel.FinishConserves | lib330/libsample.c:410-466 | finishing a record loses no sample and no word |
| Channel.WordAccounts | lib330/libsample.c:886-893 | packing a word, and finishing the record if it is full, keeps all samples in order and the histories right |
| Channel.SampleAccounts | lib330/libsample.c:863-893 | a sample taken is behind all others, and less than seven wait afterwards |
| Channel.RecordsDecodeIff | lib330/libsample.c:410-466 | finished records decode to all samples packed into them if and only if each has the right differences |
| Channel.ChannelDecodes | lib330/libsample.c:468-893 | over every life of a channel the finished records hold all samples in order, and each record decodes to its own exactly when its differences but the first fit 30 bits |
| Channel.Channel.FinishIfFull | lib330/libsample.c:889-893 | a record is finished exactly when its last frame is stored |
| Channel.Channel.TakeSample | lib330/libsample.c:863-893 | the whole past after a sample has arrived: with fewer than six waiting nothing is packed, else one word is, and a record is handed on, with all its frames, if and only if that word fills the last of them |
| Channel.Channel.PackWord | lib330/libsample.c:886-893 | after a record's n-th word it is handed on if and only if n is 15 for each frame behind its blockettes, and then with all these frames; otherwise no record is |
| Channel.SeventhPacks | lib330/libsample.c:863-893 | a sample only waits if less than six do; otherwise exactly one word is packed, and less than seven samples wait then |
| Channel.Channel.Flush | lib330/libsample.c:468-510 | all that waits is packed in at most twenty rounds, and the record is closed if it holds anything; only the last record handed on may have fewer frames than there is room for |
| Blockette.ShiftedCodeIsMapCode | lib330/libcompress.c:326-333 | the shifted and masked map word is the word's 2-bit code |
| Blockette.LayoutReads | lib330/libcompress.c:317-333 | words laid out as a blockette with a map are read back with their codes |
| Blockette.CompleteIff | lib330/libcompress.c:322-372 | a blockette is decompressed completely if and only if every subcode is valid and all samples fit |
| Blockette.DecodeAppend | lib330/libcompress.c:291-377 | words decode one after the other from the last sample before them |
| Precompressed.ProgressNext | lib330/libcompress.c:343-363 | one more word extends what is decoded, as far as the buffer goes |
| Precompressed.ChannelQueue.DecompressBlockette | lib330/libcompress.c:291-377 | the buffer holds the decoded words up to a bad subcode or its end, the index where each word's samples start and where the last ones end |
| Precompressed.ChannelQueue.Decompress | lib330/libcompress.c:291-377 | after a complete decompression the words can be handed on, each with a piece of the samples |
| Precompressed.ChannelQueue.TakeWord | lib330/libcompress.c:408-418 | the next word with its code, across map words |
| Precompressed.CutsHold | lib330/libcompress.c:341-374 | the index cuts the samples into one non-empty piece for each word |
| Repack.KeptCounts | lib330/libcompress.c:406-421 | every word with code 0 takes exactly four samples away from the frames |
| Repack.RepackLosslessIff | lib330/libcompress.c:322-377 | the frames carry all samples of the blockette if and only if no word has code 0 |
| Repack.ContinuityIff | lib330/libcompress.c:306-316 | words decode the same after two samples only if these are the same |
| Repack.RepackLoses | lib330/libcompress.c:406-421 | one word with code 0 whose samples are lost |
| Repack.BuiltRightIff | lib330/libcompress.c:380-438 | with words taken over a record is right if and only if it was, no code is 0, and they continue its samples or begin it |
| Repack.PieceDecodes | lib330/libcompress.c:405-437 | the samples of any run of words are what these decode to from the sample before |
| Repack.BlocketteRoundTrip | lib330/libcompress.c:119-377 | over every run, words laid out as a blockette are decompressed completely, to the packed samples if and only if these are encodable |
| Repack.RunWellformed | lib330/libcompress.c:78-86 | the compressor makes no word with code 0 or a bad subcode |
| Repack.BuildBlocks | lib330/libcompress.c:380-438 | one call moves words in order into at most one frame and returns the number of their samples, whatever sample comes before them |
| Repack.RepackBlockette | lib330/libsample.c:896-917 | the loop takes all words over, piece by piece, the counts add up, and the records handed on have all their frames |
| Repack.BlocketteTaken | lib330/libsample.c:896-917 | all samples and words of a blockette are in the channel in order; its records stay right if and only if no code is 0 and the blockette begins a record or continues it |
| Repack.PiecesStory | lib330/libsample.c:896-917 | a channel that goes on from its last sample keeps its history |
| ByteFrames.FramesStored | lib330/libcompress.c:276-279 | frames stored as bytes are loaded again as they were |
| ByteFrames.FramesWord2 | lib330/libarchive.c:262-264 | writing at offset 8 of the data changes word 2 of the first frame and no other |
| Merge.MergeDecodesIff | lib330/libarchive.c:236-264 | merged data decodes to the old samples and then the new ones if and only if the new ones continue the old; word 2 is the new last sample |
| Merge.MergeKeepsFirst | lib330/libarchive.c:236-264 | whatever is merged in, the samples of the first record stay |
| MergeExample.MergeFails | lib330/libarchive.c:236-264 | two records whose merged data does not decode to both |
| Merge.StoredRecord | lib330/libcompress.c:276-279 | a finished record as bytes holds its samples and names the last one |
| RecordBody.RelinkedLinks | lib330/libarchive.c:222-233 | relinking sets the links of all blockettes but the last, and nothing else |
| RecordBody.MergedChain | lib330/libarchive.c:205-235 | inserted blockettes form one chain with the old ones and differ in links only |
| RecordBody.WalkVisitsAll | lib330/libarchive.c:222-233 | a reader that follows the links visits all blockettes in order |
| RecordBody.RecordBody.Insert | lib330/libarchive.c:205-235 | the data moves up unchanged, the blockettes go before it and are linked |
| RecordBody.RecordBody.MergeRecord | lib330/libarchive.c:201-264 | blockettes, data and last sample of the buffer after a record has been merged in |
| Archive.LegalTraces | lib330/libarchive.c:126-165 | every legal log of calls is a sequence of traces of single records: one ARC, or FIRST, INC and at most one FINAL; a preloaded record starts with INC or FINAL |
| Archive.Archive.Flush | lib330/libarchive.c:90-166 | which call a flush makes, what it leaves in the buffer, and that the log stays legal |
| Archive.Archive.Preload | lib330/libarchive.c:465-488 | the last record of the client is taken up or thrown away |
| Archive.Archive.Clear | lib330/libarchive.c:80-88 | nothing is left of the record |
| Account.DeliverFlush | lib330/libarchive.c:101-165 | a flush tells the client, or need not, or loses what it does not have; if anything is lost the client never has everything again |
| DataRecords.MarksMerged | lib330/libarchive.c:244-251 | a merged time is questionable only if both were, and all other marks of either record stay |
| DataRecords.RetimedWithinGap | lib330/libarchive.c:252-258 | a better time tag moves the start of a record by no more than the gap that is tolerated |
| DataRecords.MergedCounts | lib330/libarchive.c:212-261 | counts and offsets of the merged header fit what is in the buffer |
| DataRecords.CombineHeaders | lib330/libarchive.c:244-261 | the updates of the header in their order |
| DataOutcome.FlushEnds | lib330/libarchive.c:90-166 | a flush tells the client the final or the only version of the record in the buffer, unless its time is impossible or the client is up to date, and leaves nothing |
| DataOutcome.StoreApart | lib330/libarchive.c:180-296 | a record that starts more than the tolerated gap from the end of the samples in the buffer (start plus samples divided by the rate, or times the seconds per sample), or does not fit, ends the buffered record and begins one with just its own blockettes, data, times and counts |
| DataOutcome.StoreTogether | lib330/libarchive.c:180-296 | a record within the gap that fits makes one record with the blockettes, data, samples and counts of both, which is told if it is full or every version is wanted |
| DataOutcome.StoreNothing | lib330/libarchive.c:181-188 | a record is ignored if and only if the rate is 0 |
| DataDelivery.ExtendedSamples | lib330/libarchive.c:201-264 | the merged record has the old samples and then the new ones exactly if these continue them |
| DataDelivery.StoreBalanced | lib330/libarchive.c:180-296 | taking in a record keeps all samples accounted for if and only if nothing is dropped and a record that is merged continues the samples |
| DataDelivery.ClientGetsAllIff | lib330/libarchive.c:90-296 | over every run the client has exactly all samples after the last flush if and only if every record was taken in well |
| DataDelivery.RunWellformed | lib330/libarchive.c:201-288 | every record the client is told about is one chain of blockettes with a header that fits, and with as many samples as it says |
| DataDelivery.RunModes | lib330/libarchive.c:126-145 | with incremental updates no record is sent complete at once, without them none in versions |
| DataArchive.ClientReads | lib330/libarchive.c:113-160 | the client finds just the blockettes and the data of the version it is told about |
| DataArchive.DataArchive.FlushRecord | lib330/libarchive.c:90-166 | the archive, its buffer and the client's calls after a flush |
| DataArchive.DataArchive.MergeIn | lib330/libarchive.c:201-264 | the whole buffer and header after a record has been merged in |
| DataArchive.DataArchive.NewRecord | lib330/libarchive.c:276-288 | the buffer and header of a new archive record |
| DataArchive.DataArchive.EndIfApart | lib330/libarchive.c:186-199 | the record in the buffer ends exactly if the new one does not fit or is apart in time; when that is, in seconds, is in `DataOutcome.StoreApart` |
| DataArchive.DataArchive.StoreRecord | lib330/libarchive.c:180-296 | the archive after a record has been taken in, which is what `DataOutcome.StoreApart`, `DataOutcome.StoreTogether` and `DataOutcome.StoreNothing` say it is |
| DataArchive.DataArchive.Preloaded | lib330/libarchive.c:465-488 | the client's last record is taken up if there is room and time is continuous, and otherwise left |
| Pipeline.FinishedRecord | lib330/libsample.c:410-424 | a finished record as bytes holds its samples, and continues those before it, exactly if its differences fit 30 bits |
| Pipeline.StoredArrives | lib330/libsample.c:410-424 | a finished record with its blockettes is a record that the archive takes |
| Pipeline.EndToEnd | lib330/libarchive.c:180-296 | if all differences fit 30 bits, the client has exactly the samples of the channel's records if and only if no archive record is dropped for its time |
| BlocketteChain.WalkVisits | lib330/libarchive.c:392-400 | following the links visits exactly the blockettes of the chain, in order |
| BlocketteChain.JoinPlaces | lib330/libarchive.c:401-415 | a group moved behind the others overlaps none of them |
| BlocketteChain.LinkNext | lib330/libarchive.c:406-415 | setting the next link extends the chain and changes no body |
| BlocketteChain.JoiningStart | lib330/libarchive.c:401-402 | copying a group keeps all blockettes of both as they are |
| OpaqueArchive.SameChain | lib330/libarchive.c:384-386 | blockettes copied to the same place are the same chain |
| OpaqueArchive.OpaqueArchive.LastLink | lib330/libarchive.c:392-400 | the walk ends at the link of the last blockette |
| OpaqueArchive.OpaqueArchive.Relocate | lib330/libarchive.c:404-415 | all links of the copied group lead to the copies |
| OpaqueArchive.OpaqueArchive.Extend | lib330/libarchive.c:391-419 | one chain of the old blockettes and then the new ones, contents unchanged, counted by the header |
| OpaqueArchive.FindsAll | lib330/libarchive.c:113-160 | the client finds just the blockettes that the record was made of |
| OpaqueArchive.OpaqueArchive.StoreOpaque | lib330/libarchive.c:359-420 | the whole archive after a group has been taken in |
| OpaqueArchive.ClientGetsAllIff | lib330/libarchive.c:359-420 | over every run the client gets exactly the blockettes taken in, in order and with their contents, if and only if no record is dropped for its time |
| OpaqueOutcome.RunCuts | lib330/libarchive.c:359-420 | over every run there is just one way in which the groups of blockettes are cut into records: a group joins the last record if and only if it starts in the same hour, fits, and needs no record for its time; all records before the last have been told, but for impossible times |
| OpaqueOutcome.CutHours | lib330/libarchive.c:367-374 | all groups of one record start in the same hour, none but the first has to preserve its time, and all fit |
| OpaqueOutcome.SameHourIff | lib330/libarchive.c:370-374 | two times are in the same hour exactly if rounding and truncating division by 3600 say so: an hour is from half a second before it on, before 2000 up to half a second after it, and around 2000 there is one of two hours |
| TextArchive.TextArchive.StoreText | lib330/libarchive.c:297-321 | the texts at the client and then the one in the buffer are all texts taken in; a text joins if and only if it fits in the record's size and comes at most 60 seconds after its start, otherwise the record is flushed and the text begins one |
| TextArchive.TextArchive.FlushText | lib330/libarchive.c:90-166 | the text goes to the client, or is dropped and counted |
| Varint.RoundTrip | falcon/falcon_structures.c:284-380 | every 32-bit value of every type is decoded from its bytes wherever they stand, and just these bytes are used |
| Varint.EncodedDecodes | falcon/falcon_structures.c:284-380 | decoding inverts encoding for each of the five lengths, negative values included |
| Varint.Shortest | falcon/falcon_structures.c:284-325 | no other bytes that decode to a value are fewer, but for -33554432 |
| RowMap.GetSet | falcon/falcon_structures.c:428-480 | setting one 3-bit value of a map sets it and changes no other |
| RowMap.SetInPlace | falcon/falcon_structures.c:428-452 | the map in the buffer is the map with the value set, and nothing around it changes |
| ByteBuffer.ByteBuffer.Write | falcon/buffer.c:133-164 | the bytes are written over or behind what is there, with or without moving to more memory |
| ByteBuffer.ByteBuffer.Seek | falcon/buffer.c:83-92 | the position moves unless it is beyond the end |
| ByteBuffer.ByteBuffer.Terminate | falcon/buffer.c:175-180 | a zero byte is written at the position |
| ByteBuffer.ByteBuffer.Detach | falcon/buffer.c:182-191 | the bytes are handed over and the buffer is empty |
| FMashSpec.PackTakes | falcon/fmash.c:124-279 | whatever the list, exactly the rows taken that have data are packed |
| FMashSpec.PackTakesIff | falcon/fmash.c:124-279 | a row is taken in n minutes if and only if it and all rows before it are whole minutes after the first, each after the one before, and less than n minutes from the first; if any row is left the message has all its minutes |
| FMashSpec.UnchangedFree | falcon/fmash.c:186-271 | a row takes no bytes if and only if nothing has changed, at most 5 if only the average has, and at most 10 if the low value has not |
| FMashSpec.ReadRow | falcon/fmash.c:477-504 | the written changes of a row are read as its values, wrap-around included |
| FMashSpec.ReadPacked | falcon/fmash.c:443-507 | reading the packed minutes gives their rows in order with their times, gaps included |
| FMashMessage.CompressSize | falcon/fmash.c:97-322 | a message is between 46 and 963 bytes long |
| FMashMessage.DescriptionKeptIff | falcon/fmash.c:116-121 | which descriptions keep their first eight characters, and no others |
| FMashMessage.DescriptionLost | falcon/fmash.c:116-121 | a description of 256 characters is lost |
| FMashMessage.MessageRoundTrip | falcon/fmash.c:47-574 | a compressed message is read as exactly the rows taken, with times, channel and description, the last values agree, and reading stops at its end |
| FMashMessage.TimesExactIff | falcon/fmash.c:311-313 | times come back exactly if and only if the first one fits 32 bits |
| FMash.CsvToMsh | falcon/fmash.c:47-336 | the bytes are the compressed message, the rows taken leave the list, the start time follows |
| FMash.MshToCsv | falcon/fmash.c:341-574 | reading in place is the decoding of the message, its refusals included |
| FMash.WriteMinute | falcon/fmash.c:186-271 | the bytes and the row map entry of one minute |
| FMash.NextMinutes | falcon/fmash.c:441-507 | the loop over the row map reads the minutes |
| Csv.AdmittedIncreases | falcon/csv.c:334-349 | the rows taken up are increasing and after the end time, whatever the file's order |
| Csv.OrderedFileComplete | falcon/csv.c:334-349 | of a file in order of time every newer row is taken up |
| Csv.OrderedFileTakes | falcon/csv.c:334-349 | a row of a file in order of time is taken up if and only if it is after the end time and after the initial time, if there is one |
| Csv.AgainNothing | falcon/csv.c:334-336 | reading a file again takes up none of its rows twice |
| Csv.ParseFile | falcon/csv.c:303-352 | the list grows by the rows admitted and the end time follows |
| Csv.ArchiveBuffer | falcon/csv.c:39-97 | the rows of the messages and then those left are the rows there were; a message is made if and only if the rows reach over an hour, so less than an hour is left |
| OpaqueRecord.WellFormedChain | falcon/seedmsg.c:255-275 | the blockettes of a well-formed record are one chain and the reader visits just these |
| OpaqueRecord.AppendedReads | falcon/seedmsg.c:285-302 | with one more blockette a record stays well formed, aligned and in bounds, and reads as before with the new message behind |
| OpaqueMessage.FreshReads | falcon/seedmsg.c:140-205 | a record with these fields holds one opaque blockette, read with its channel, flags and data |
| OpaqueMessage.CountCuts | falcon/seedmsg.c:65-67 | the number of records is just what the data takes |
| OpaqueMessage.SeriesJoins | falcon/seedmsg.c:158-205 | a reader joins the pieces of a series to the data |
| OpaqueMessage.MessageArrives | falcon/seedmsg.c:39-209 | whatever came before, reading all records of a message gives the message with its channel |
| OpaqueImage.ImageBytes | falcon/seedmsg.c:90-206 | the bytes of a record of a message, by their offsets: sequence number in decimal, names, time, header, blockette 1000, opaque blockette with its flags, the id string, the record's piece of the data from where the one before ended, and zeros |
| OpaqueImage.AppendedBytes | falcon/seedmsg.c:285-302 | an appended message is a blockette 2000 of its own, the blockette before links to it and the header counts it |
| OpaqueImage.FewestRecords | falcon/seedmsg.c:65-67 | a message takes as few records as have room for it |
| OpaqueImage.CodeIsExponent | falcon/seedmsg.c:117-150 | exactly the powers of two from 256 to 8192 are record sizes, and the code is the exponent |
| OpaqueQueue.FillRecord | falcon/seedmsg.c:90-206 | one record is filled in, or which failure leaves it how |
| OpaqueQueue.OpaqueQueue.Make | falcon/seedmsg.c:39-209 | the allocation holds the records of the message; it fails for a size without code or a bad id string only |
| OpaqueQueue.OpaqueQueue.FindEnd | falcon/seedmsg.c:252-275 | following the links finds the last blockette and the next aligned place |
| OpaqueQueue.OpaqueQueue.Append | falcon/seedmsg.c:214-306 | a message is appended if and only if there is room and there are less than 127 blockettes |
| OpaqueQueue.OpaqueQueue.Flush | falcon/falcon.c:74-100 | the records in the buffer are sent in order |
| OpaqueQueue.OpaqueQueue.Queue | falcon/falcon.c:105-164 | a message is appended if and only if it has the last message's channel and there is room, and otherwise the buffer is sent and new records are made; the records and the message's sequence number then |
| OpaqueQueue.QueuedReads | falcon/falcon.c:105-164 | what a reader of all records has after a message was queued, also one that could not be made, and that all records are well formed |
| OpaqueQueue.OpaqueQueue.QueueAll | falcon/falcon.c:105-164 | what a reader has after any sequence of messages, and for each of them whether it was appended and what was sent and held before and after it |
| OpaqueQueue.OpaqueQueue.Poll | falcon/falcon.c:74-199 | after any sequence of messages and a flush a reader of all records sent has exactly these, complete, in order and with their channels, every record is one aligned chain counted by its header, and a message shares a record exactly if it may |
| FalconArchive.ArchiveAndSend | falcon/csv.c:39-97 | reading back the records sent gives exactly the rows that left the list, message by message as these were queued, each made of a full hour or more, and less than an hour of rows is left |
| WildMatch.WildMatch | ida2arch/wildmatch.c:11-72 | true exactly when the recursive, case-insensitive meaning of * and ? accepts the target |
| Wildcards.MatchesIff | ida2arch/wildmatch.c:11-72 | the recursive meaning is this one: the target can be cut into pieces in order, one for each character of the pattern, any text for *, one character for ?, and else the same letter in either case |
| WildMatch.NextRound | ida2arch/wildmatch.c:25-64 | a round turns the positions for one target character into those for the next, in an ascending list, and ends |
| WildMatch.Expand | ida2arch/wildmatch.c:35-44 | at a * the next position joins the list once |
| WildMatch.PushNext | ida2arch/wildmatch.c:54-59 | a position joins the next round's list once, without touching what is still to be walked |
| WildMatch.VisitStar | ida2arch/wildmatch.c:35-44 | what a * leads to |
| WildMatch.LastDecides | ida2arch/wildmatch.c:67-71 | at the end of the target the largest position decides |
| WildMatch.SkipStars | ida2arch/wildmatch.c:67-71 | only stars may be left of the pattern |
| SimcList.List.FindPos | falcon/simclist.c:304-328 | the node of the position from each of the four starting points, null outside |
| SimcList.List.InsertAt | falcon/simclist.c:348-395 | insertion in the sequence, links and middle pointer kept |
| SimcList.List.ExtractAt | falcon/simclist.c:330-346 | the element is taken out of the sequence, links and middle pointer kept |
| SimcList.List.DropElem | falcon/simclist.c:1204-1228 | unlinking a node removes its element |
| SimcList.List.Append | falcon/simclist.c:257-259 | the element goes to the end |
| SimcList.List.Prepend | falcon/simclist.c:261-263 | the element goes to the front |
| SimcList.List.Fetch | falcon/simclist.c:265-267 | the first element is taken out |
| SimcList.Concat | falcon/simclist.c:563-614 | a new list of both lists' elements with its middle pointer in the middle; both lists stay |
| Order.SortedAround | falcon/simclist.c:665-786 | two sorted parts around a pivot are sorted |
| SimcSort.SelectionSort | falcon/simclist.c:644-663 | the stretch is sorted and permuted, all else stays |
| SimcSort.Partition | falcon/simclist.c:690-765 | whichever pivot, it ends between what comes before and what comes after it, after the rotations that move it |
| SimcSort.SplitRotateLeft | falcon/simclist.c:725-760 | a rotation moves an element behind the pivot and keeps the rest split |
| SimcSort.QuickSort | falcon/simclist.c:665-786 | the stretch is sorted and permuted for every choice of pivots |
| SimcSort.Sort | falcon/simclist.c:616-625 | the list is sorted in the direction asked for and has the same elements, or nothing happens during an iteration |
| LissRing.InvStep | ida2liss/ida2liss.c:185-237 | every step of either thread keeps the invariant |
| LissRing.LosslessFifo | ida2liss/ida2liss.c:185-522 | for every interleaving the records sent are a prefix of those admitted, each once and in order, and at most one less than the slots are held |
| LissRing.SenderProgress | ida2liss/ida2liss.c:185-237 | in every reachable state in which a client waits for records not sent, the sender can go on by looking, picking and sending, and that sends exactly the oldest of them |
| LissRing.ReaderProgress | ida2liss/ida2liss.c:495-522 | in every reachable state with a record read, the reader can put it into the ring if at most n - 2 are held, and goes on looking if n - 1 are |
| LissRing.AllCanBeSent | ida2liss/ida2liss.c:160-237 | from every reachable state all records admitted can be sent, each once and in order, without the reader |
| LissRing.FailedSendAgain | ida2liss/ida2liss.c:160-237 | a record whose sending fails is kept, and is again the oldest one once a client is accepted |
| LissRing.WaitsOn | ida2liss/ida2liss.c:185-217 | with nothing to send the sender goes on waiting, with or without a keepalive, and loses the client if that fails |
| LissRing.UnsentSlotsStay | ida2liss/ida2liss.c:495-522 | no step overwrites a slot whose record is still to be sent |
| LissRing.NothingSentWithoutClient | ida2liss/ida2liss.c:160-237 | from any reachable state without a client no run sends or gives up a record until a client is accepted |
| LissRing.FailedKeepAlive | ida2liss/ida2liss.c:185-217 | after a failed keepalive no run sends anything until a client is accepted |
| LogBuffer.TextsJoined | archd/seedmsg.c:150-155 | writing a text behind another and adding the counts gives a record with both |
| LogBuffer.CombineSeed | archd/seedmsg.c:125-159 | two records are combined if and only if two characters of each name agree and the texts fit; the bytes then |
| LogBuffer.SameSourceIff | archd/seedmsg.c:125-148 | names without zero bytes agree if and only if the first two characters of station, location and network and the first two of the channel do |
| LogBuffer.CombinedText | archd/seedmsg.c:149-155 | the combined record has both texts |
| LogBuffer.MakeSeedMsg | archd/seedmsg.c:31-120 | a record of one of the six sizes, with the names given, the fixed header and the blockette 1000 at their offsets, and the message as far as there is room, always inside the record and followed by a zero; no record for another size |
| LogBuffer.LogBuffer.ArchiveOne | archd/archd.c:895-961 | a record is archived, or its text joins the one held back, or it is held back in its place if received in the last minute; exactly when, and all text stays in order |
| LogBuffer.LogBuffer.CallbackArchive | archd/archd.c:895-961 | every record popped is archived, joins the one held back or takes its place, by its age, one after the other: all LOG text in order, and all other records in order |
| Telemetry.TelemetryClient.TakeUp | archd/archd.c:1809-1823 | the record in part comes first and takes none from the queue; else the first record of the queue is taken, sent from its start, and leaves it |
| Telemetry.TelemetryClient.SendRest | archd/archd.c:1825-1888 | a short send keeps the rest, a full one counts, a failed one counts too; the bytes sent are those after the bytes sent before |
| Telemetry.TelemetryClient.SendOne | archd/archd.c:1809-1888 | one round pops at most the first record of the queue, and goes on if and only if no record is left in part |
| Telemetry.TelemetryClient.CanSend | archd/archd.c:1809-1895 | records are popped from the front of the queue only, each once and in order; the bytes sent are the complete records and then the part of the one on its way, if and only if no send has failed; the socket stays watched only for a record in part |

## Left out

- Sockets, files, shared memory, signals, logging and debug output; `send` is a count and the sending of a record to archd is the record.
- Time: clocks are parameters; one function of the record number gives the times of all records of a Falcon message.
- HTTP, regular expressions, date parsing, configuration files and the display and dump programs.
- The timing blockettes of `archive_512_record`: a shorter form of the opaque case with blockettes of one size.
- The event and pre-event logic around finished records, detectors and filters: they do not change the words of a record.
- The order of a priority queue in `archd`: a queue is the sequence in which records are popped.
- The overwrite mode of the `ida2liss` ring, which its author allows to drop more than one record.
- `archd` control messages, and clients closed for not reading.
- The hash map, the alarm lines, list dumping and restoring, iteration and range deletion of lists; the middle pointer of an emptied list.
- Integers without a width in the models: list lengths, record and sequence counters do not wrap around.
- `simclist` stores addresses; elements are integers and copies of data are not made.
- The quarter test of `list_findpos` is taken as exact arithmetic.
- `LogBuffer.MakeSeedMsg`: sequence number, names and time are a parameter of 30 bytes.
- `LissRing.LosslessFifo`: the ring is a state machine of single reads and writes instead of two loops, because two threads interleave.
- `OpaqueQueue.OpaqueQueue.Queue`: a message for the channel of an empty message that took no record is excluded, because the code then reads outside the buffer; the id string has to leave room for data, because the code divides by that room; the last channel is compared by value and not through the caller's pointer.
- `FMash.MshToCsv`: a message that ends early and a description longer than 8 are refused; the code reads and writes on beyond its buffers.
- `OpaqueRecord.Feed`: pieces are joined by the flags the writer sets (0x10, 0x30, 0x20); `ofadump` looks at other bits.
- `LogBuffer.CombineSeed`: the second record's text has to lie inside it, because the code copies it without looking; that of the first one may be anywhere, but only if both lie behind their headers is it said what the texts are.
- `LogBuffer.LogBuffer.ArchiveOne`: a record taken from the queue is the archiver's own; sharing it with telemetry is not part of this model.
