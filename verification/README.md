# A verified model of the FastCGI library of CGIKit

This project models three parts of CGIKit's C and C++ library and proves what they are for.

1. **The FastCGI stream engine** (`CGIKit/fcgiapp.c`), which implements the FastCGI Specification 1.0. The *reader* is a
   re-entrant demultiplexer over one fixed buffer, the *writer* frames, pads and closes streams in place, and around
   them are the parameter parser, the environment vector, the life of a request and the format interpreter.
2. **The asynchronous reactor** (`CGIKit/os_unix.c`): a growable table of operations, descriptor sets, counters and a
   dispatch loop whose callbacks call back in.
3. **The C++ stream buffer** (`CGIKit/fcgio.cpp`): a second layer of buffering over the first.

## How it is built

The code that changes state step by step is modelled by classes with the same fields: `Reader.Reader` and
`Writer.Writer` hold a byte array and the indices `rdNext`, `stop`, `stopUnget`, `buffStop`, `wrNext`; `Reactor.Reactor`
holds the table, the four sets, the counters and `maxFd`. Every method is proved against a pure meaning: the reader
against `Demux` (a function of all bytes still to come, whatever buffer or chunk they are in), the writer against
`WriterSpec` (which records each call sends). The theorems about runs, round trips, records and environments are then
lemmas about these meanings, so they hold of the machines.

| file | content |
|---|---|
| `Bytes`, `Records`, `Pairs` | framing arithmetic; headers, records and wires; name-value pairs and their encodings |
| `Demux`, `DemuxLemmas` | the meaning of reading, and why chunking and bulk reads do not matter |
| `Streams`, `HandOver` | what any sequence of records delivers and answers; streams in turn |
| `Departures`, `Breaks` | where the code departs from section 3.3 of the FastCGI Specification; connections that end anywhere |
| `Replies` | what a reader sends on its own account, whatever bytes arrive |
| `Management` | the reply to a request for values |
| `Connection`, `Params` | the peer, with arbitrary partial transfers; the environment vector |
| `Reader`, `WriterSpec`, `Writer` | the two machines |
| `RoundTrip`, `Session`, `Calls` | writer to reader; two writers and a reader on one connection, as a meaning of runs and as the machines performing them |
| `Accepting`, `Lifecycle` | from bytes to an environment; the life of requests and connections |
| `Reactor`, `StreamBuf` | the reactor; the C++ layer |
| `Printf`, `Formats` | the format interpreter; what a format means, from what is written in it |

`dafny verify dfyconfig.toml` checks everything.

## What turned out not to hold

The model follows the code where the code departs from its specification or its documentation. Each departure has a
lemma with the exact condition:

- A record of another request is transparent only if it has content: the skip flag outlives an empty one and swallows
  the next content, be it data or the question of a request for values (`Departures.SkippedTransparentIff` for one
  record, `Streams.StreamHeard` and `Streams.TransparentIff` for any sequence).
- The content of an unknown management record is delivered to the application (`Departures.UnknownTransparentIff`).
- An unpadded request for values is answered only once a further byte arrives (`Departures.LastGetValuesIff`).
- Padding behind a begin record or an end of stream is taken for the next header. A request whose begin record is padded
  is still accepted, with an empty environment (`Departures.LeftoverPaddingIff`, `Accepting.PaddedBeginIff`; padding that
  happens to spell a record can be harmless, `Departures.LeftoverRecord`).
- Parameters that stop between two pairs because the connection broke are accepted as if complete
  (`Accepting.BrokenConnectionIff`, for a break at any byte).
- A begin record with the id of the request being served is refused like any other, and the refusal is an end of that
  very request: once the stream has been read, it is ended once, and after its streams, exactly when the peer has sent
  no such record (`Session.EndsByInput`; the smallest case is `Session.OwnBeginEndsTwice`).
- An ABORT_REQUEST for the request being served is not honoured but ends the stream being read in a protocol error, like
  any record of the request that is not of the type being read (`Streams.StreamSpoilt`).
- An empty record of another request in front of a begin record costs the connection (`Accepting.EmptyEarlySpoils`).
- The reply buffer of 64 bytes is enough for each known name once, not for repeated ones, and a name with a NUL in front
  of any `=` cannot be cut out (`Management.PayloadMeaning`, `Management.FitsByCounts`, `Management.FourTimesOverflows`).
- A lookup misreads a variable whose name contains `=`, and finds a part of a value that contains one when asked for the
  name up to it, unless another binding hides that (`Params.LookupFaithfulIff`, `Params.EqualsInValue`).
- Closing a posted descriptor leaves the reactor's counters too high, and from then on `OS_DoIo` reports nothing
  (`Reactor.Reactor.DoIo`, `Reactor.Reactor.Serve`).
- After `uflow` at the end of a stream the get area of a buffered C++ stream is no longer usable
  (`StreamBuf.InputBuffer.UFlow`).

## Reading the contracts

- "No write fails" appears as `conn.failures == old(conn.failures)`. Writes may be partial, and reads may return any
  non-empty chunk. When a write fails, the methods still promise validity, a closed stream, and what did not change;
  the error of a writer is then the errno of the first write that failed, unless it had one before (`Failing`, with the
  errno of every failed write recorded in `conn.errors`).
- `Reader.Abs` and `Writer.Abs` are the abstract states; `Demux.Take` and `Demux.Drain` are reading n bytes and reading to
  the end.
- Where a reply would overflow its buffer, or a name cannot be cut out, C leaves the behaviour undefined. The model goes
  on with the error `UNDEFINED` on the stream, so the theorems about arbitrary bytes (`Replies`, `Session.SharedConnection`,
  `Calls.PerformAll`) say something about the program only for streams that do not end in this error.
- A reader bounded by a record is one with `eorStop` set, as in the nested calls of `ProcessHeader`.

## Model

| member | source | states |
|---|---|---|
| `Reader.Reader.FillBuffProc` | CGIKit/fcgiapp.c:1625-1743 | one call leaves exactly the state that the pure demultiplexer `Demux.Fill` gives for the buffered bytes followed by all inbound bytes, for every way of cutting these into reads; a fill that leaves the stream open has a byte to deliver or has just begun a request; the nested call never reaches a header and the loop terminates |
| `Reader.Reader.Round` | CGIKit/fcgiapp.c:1632-1742 | every iteration either finishes the fill or leaves strictly fewer unread bytes, from which the fill comes to the same |
| `Reader.Reader.PassContent` | CGIKit/fcgiapp.c:1649-1664 | content in the buffer becomes deliverable, or is skipped, exactly as far as it is there; skipping it in pieces comes to skipping it at once |
| `Reader.Reader.PassPadding` | CGIKit/fcgiapp.c:1669-1676 | padding may be passed over in pieces |
| `Reader.Reader.PassRecord` | CGIKit/fcgiapp.c:1649-1676 | content and padding together, up to the end of the record |
| `Reader.Reader.GatherHeader` | CGIKit/fcgiapp.c:1689-1696 | header bytes set aside and bytes still unread are together what was unread, so a header may straddle refills |
| `Reader.Reader.HeaderRound` | CGIKit/fcgiapp.c:1686-1741 | a header, however it arrives, is interpreted as the whole one would be |
| `Reader.Reader.Interpret` | CGIKit/fcgiapp.c:1702-1706 | interpreting with reads bounded by the record, then lifting the bound, is the unbounded meaning of the header |
| `Reader.Reader.Follow` | CGIKit/fcgiapp.c:1707-1741 | the consequence of each status: end of stream, skipping, return at a begin record, going on, error |
| `Reader.Reader.Refill` | CGIKit/fcgiapp.c:1636-1644 | a read changes neither the unread bytes nor anything else; the end of the peer becomes a protocol error, a failing read its errno |
| `Reader.Reader.ProcessHeader` | CGIKit/fcgiapp.c:1589-1614 | the status and the state of `Demux.Process`, for each of the seven outcomes |
| `Reader.Reader.ProcessBeginRecord` | CGIKit/fcgiapp.c:1528-1565 | a first begin record sets the request, a further one is refused on the wire and skipped, a malformed or cut one is an error |
| `Reader.Reader.ProcessManagementRecord` | CGIKit/fcgiapp.c:1454-1508 | values are answered, other types reported as unknown |
| `Reader.Reader.ProcessGetValues` | CGIKit/fcgiapp.c:1462-1491 | the body is read by the re-entered stream and answered with the payload of the names asked for |
| `Reader.Reader.AnswerValues` | CGIKit/fcgiapp.c:1469-1486 | the loop over the entries computes the reply payload, or finds where the program has no defined behaviour |
| `Reader.Reader.Reply` | CGIKit/fcgiapp.c:1502-1505 | a reply goes out whole, or the stream is closed with an error, with the errno of the failed write |
| `Reader.Reader.GetChar` | CGIKit/fcgiapp.c:108-126 | one byte of the demultiplexed stream or its end; the assertion after the second test never fails once a request has begun |
| `Reader.Reader.GetStr` | CGIKit/fcgiapp.c:143-181 | the same bytes and the same state as that many single reads, across fast path, refills and end of stream |
| `Reader.Reader.GetStrSlowly` | CGIKit/fcgiapp.c:161-180 | the copying loop of the general case |
| `Reader.Reader.CopyUpTo` | CGIKit/fcgiapp.c:163-171 | one turn of copying leaves the rest of the read to be done |
| `Reader.Reader.Fetch` | CGIKit/fcgiapp.c:116-120 | a fill on behalf of a read does not change what the read delivers, and starts a new fragment for pushback |
| `Reader.Reader.UnGetChar` | CGIKit/fcgiapp.c:237-246 | fails exactly at EOF, on a closed stream or at the start of the fragment; otherwise the byte is the next one unread |
| `Reader.Reader.SetReaderType` | CGIKit/fcgiapp.c:1846-1858 | the stream starts over with the new type and every byte already buffered is still unread |
| `Reader.Reader.StartFilterData` | CGIKit/fcgiapp.c:2278-2289 | succeeds exactly for a filter whose input has been read to its end, and then starts the data stream; otherwise the stream is closed with an error |
| `Reader.Reader.constructor` | CGIKit/fcgiapp.c:1755-1813 | an aligned buffer inside its allocation and nothing read, for every address; its length is the usable part of the requested one |
| `Reader.Reader.ReadParams` | CGIKit/fcgiapp.c:1138-1190 | appends `name=value` for each pair of the stream, in order; reports an error exactly when the stream ends inside a pair |
| `Reader.Reader.ReadPair` | CGIKit/fcgiapp.c:1144-1187 | one pair, whichever length forms it uses, or the end of the stream inside it |
| `Reader.Reader.ReadLen` | CGIKit/fcgiapp.c:1149-1156 | a length of one or four bytes |
| `Reader.Reader.ReadNameValue` | CGIKit/fcgiapp.c:1173-1186 | name and value joined by `=` |
| `DemuxLemmas.TakeAdd` | CGIKit/fcgiapp.c:143-181 | reading is compositional: n and then m bytes are n + m bytes, with the same final state |
| `DemuxLemmas.TakeBulk` | CGIKit/fcgiapp.c:152-156 | content at hand may be taken in one piece: bulk equals bytewise |
| `DemuxLemmas.TakeSplits` | CGIKit/fcgiapp.c:136-138 | a read gets all it asks for, or all there is and the end of the stream |
| `DemuxLemmas.TakeShort` | CGIKit/fcgiapp.c:136-138 | a result smaller than n means the end of input |
| `DemuxLemmas.DrainRecord` | CGIKit/fcgiapp.c:1677-1685 | a reader bounded by a record delivers exactly its content and closes at its end |
| `DemuxLemmas.InterpretAtBoundary` | CGIKit/fcgiapp.c:1698-1706 | bounding the reads of `ProcessHeader` by the record does not change the meaning of the header |
| `DemuxLemmas.SkipPart` | CGIKit/fcgiapp.c:1657-1660 | skipping part of the content and starting over is skipping all of it |
| `DemuxLemmas.PadPart` | CGIKit/fcgiapp.c:1669-1675 | the same for padding |
| `Streams.StreamDelivered` | CGIKit/fcgiapp.c:1625-1743 | for every sequence of data records, non-empty records of other requests, further begin records, answerable requests for values and empty unknown management records, padded or not: the reader delivers the concatenated content of its own records, sends one answer to each of the others that asks for one, and ends without an error |
| `Streams.StreamHeard` | CGIKit/fcgiapp.c:1625-1743 | the meaning of a whole stream, whatever empty or non-empty records of other requests, begin records, answerable requests for values and unknown management records, with or without content, are mixed into it |
| `Streams.RecordsHeard` | CGIKit/fcgiapp.c:1625-1743 | the same in front of arbitrary bytes |
| `Streams.StreamSpoilt` | CGIKit/fcgiapp.c:1528-1613 | the meaning of a stream in front of the first record that is an error: what comes before is delivered and answered, and the stream ends in a protocol error behind the header of that record |
| `Streams.WrongVersionSpoils` | CGIKit/fcgiapp.c:1592-1594 | a header with a version other than 1 ends an error-free stream with error -2 behind that header |
| `Streams.CutQuestionSpoils` | CGIKit/fcgiapp.c:1462-1467 | a request for values with its pairs cut short ends the stream in an error |
| `Streams.EveryRecord` | CGIKit/fcgiapp.c:1589-1614 | every record is understood, ends the stream, spoils it, or is a request for values that cannot be answered |
| `Streams.RecordStep` | CGIKit/fcgiapp.c:1707-1741 | the meaning of one record of any of these kinds, with or without skipping pending: what is delivered, what is answered and whether skipping stays pending |
| `Streams.GetValuesStep` | CGIKit/fcgiapp.c:1698-1706 | a request for values between records leaves the stream alone and is answered, once a further byte has arrived |
| `Streams.DrainEnd` | CGIKit/fcgiapp.c:1708-1722 | the empty record ends the stream without an error, its padding still unread |
| `HandOver.StreamsInTurn` | CGIKit/fcgiapp.c:1846-1858 | switching from stream to stream at their ends: each phase delivers exactly its own stream, nothing is lost or delivered twice, and what follows the last is still unread |
| `Departures.SkippedEmptySwallows` | CGIKit/fcgiapp.c:1724-1726 | a skipped record without content leaves the skip flag set, and the next data record is lost |
| `Departures.SkippedTransparentIff` | CGIKit/fcgiapp.c:1649-1664 | a record of another request in front of data is transparent if and only if it has content |
| `Streams.TransparentIff` | CGIKit/fcgiapp.c:1649-1664 | when unknown management records are empty, a stream is delivered as sent if and only if none of its data records arrives while skipping is pending |
| `Departures.UnknownTransparentIff` | CGIKit/fcgiapp.c:1493-1501 | the content of an unknown management record is delivered as stream content; the record is transparent if and only if it has none |
| `Departures.LastGetValuesIff` | CGIKit/fcgiapp.c:1636-1640 | a request for values that is the last thing to arrive is answered if and only if it is padded |
| `Departures.LeftoverPaddingIff` | CGIKit/fcgiapp.c:1846-1858 | padding left by a begin record or an end of stream, if it does not start like a header, spoils the next stream: it is read without an error if and only if nothing was left |
| `Departures.LeftoverRecord` | CGIKit/fcgiapp.c:1846-1858 | padding that spells an empty unknown management record is answered and otherwise harmless, so the first byte matters |
| `Breaks.DrainCut` | CGIKit/fcgiapp.c:1636-1644 | a connection that ends anywhere in front of the end of a stream, inside a header, content or padding or between records, with skipping pending or not: exactly what has arrived and is not skipped is delivered, and then the error of the connection |
| `Breaks.RecordCut` | CGIKit/fcgiapp.c:1636-1644 | one record broken off, or a last request for values with nothing behind it |
| `Breaks.ArrivedPrefix` | CGIKit/fcgiapp.c:1649-1656 | what has arrived is a prefix of what the records deliver, and all of it once every record is there |
| `Management.PayloadMeaning` | CGIKit/fcgiapp.c:1469-1491 | the reply is defined if and only if every name can be cut out and the known ones fit the 64-byte buffer; it is then the encoding of section 3.4 of the FastCGI Specification of the known names with their values |
| `Management.ReplyDecodes` | CGIKit/fcgiapp.c:1469-1491 | the reply decodes to the known names asked for, in order, each with its value |
| `Management.ReplyByName` | CGIKit/fcgiapp.c:1469-1491 | asked for any list of names without `=` and NUL, the reply decodes to those of the list that are FCGI_MAX_CONNS, FCGI_MAX_REQS and FCGI_MPXS_CONNS, spelled as bytes, in order, with the characters 1, 1 and 0 |
| `Management.AnswerByName` | CGIKit/fcgiapp.c:1472-1480 | the answer to one entry by the bytes of its name |
| `Management.ReplyRecord` | CGIKit/fcgiapp.c:1487-1491 | the reply has type 10 and id 0 and is padded with fewer than eight zeros to a multiple of eight |
| `Management.EachOnceFits` | CGIKit/fcgiapp.c:1459-1459 | with each known name at most once the padded reply fits the buffer |
| `Management.FitsByCounts` | CGIKit/fcgiapp.c:1459-1459 | the reply is defined if and only if every name can be cut out and 17, 16 and 18 bytes for each occurrence of the three known names come to less than 56 |
| `Management.FourTimesOverflows` | CGIKit/fcgiapp.c:1459-1459 | one known name asked for four times does not fit |
| `Management.SizeByCounts` | CGIKit/fcgiapp.c:1471-1485 | the length of a reply by how often each known name occurs |
| `Management.KeyOfEntry` | CGIKit/fcgiapp.c:1471-1471 | cutting an entry at its first `=` gives back a name that has none |
| `Management.KeyMeaning` | CGIKit/fcgiapp.c:1471-1471 | for any entry: what is cut out stands in front of its first `=` and has no NUL; nothing is cut out if and only if a NUL comes before every `=` |
| `Pairs.ParseEncodePairs` | CGIKit/fcgiapp.c:1144-1187 | whichever length forms the sender chose, the pairs parse back |
| `Pairs.ParseCutPairs` | CGIKit/fcgiapp.c:1150-1186 | cut anywhere, the parse is complete if and only if the cut is between two pairs, and finds a prefix of the pairs |
| `Pairs.ParseAtBoundary` | CGIKit/fcgiapp.c:1144-1187 | cut between two pairs, exactly the pairs in front are found |
| `Params.ParamVector.constructor` | CGIKit/fcgiapp.c:1023-1032 | an empty vector with its terminator |
| `Params.ParamVector.Put` | CGIKit/fcgiapp.c:1076-1088 | appends; the terminator stays inside the capacity through every doubling |
| `Params.ParamVector.GetParam` | CGIKit/fcgiapp.c:1103-1118 | the value of the first entry whose text starts with the name and `=` |
| `Params.LookupFindsBinding` | CGIKit/fcgiapp.c:1111-1116 | for names without `=`, lookup in the environment is first-binding lookup among the pairs |
| `Params.LookupRereads` | CGIKit/fcgiapp.c:1111-1116 | for arbitrary names, it is first-binding lookup among the pairs cut at the first `=` of their entries |
| `Params.LookupFaithfulIff` | CGIKit/fcgiapp.c:1111-1116 | lookup finds the first binding among the pairs sent, for every name a C string can hold, if and only if each entry, read as ending its name at any of its `=`, is preceded by an entry read under the same name or is read as the pairs bind that name |
| `Params.PlainLookupFaithfulIff` | CGIKit/fcgiapp.c:1111-1116 | for names without `=`: if and only if each pair whose name has an `=` is preceded by one read under the same name or is read as the pairs bind that name |
| `Params.EqualsInValue` | CGIKit/fcgiapp.c:1111-1116 | a value with an `=` is found by a lookup of the name up to it, though no such name was sent |
| `Accepting.EnvironmentLookup` | CGIKit/fcgiapp.c:2214-2233 | lookup in the environment of an accepted request: FCGI_ROLE with RESPONDER, AUTHORIZER or FILTER first, then the pairs |
| `Accepting.RoleIsEntry` | CGIKit/fcgiapp.c:2216-2228 | the roles 1, 2 and 3 have the entries `FCGI_ROLE=` followed by RESPONDER, AUTHORIZER and FILTER, as bytes; no other role has one |
| `Records.HeaderRoundTrip` | CGIKit/fcgiapp.c:1201-1219 | every field survives `MakeHeader` followed by the decoding of `ProcessHeader`; the id if and only if it fits 16 bits |
| `Records.WireLayout` | CGIKit/fcgiapp.c:1201-1219 | where each part of a record stands on the wire: version 1, type, id, length, padding length, a zero, content, padding |
| `Records.EndRequestDecodes` | CGIKit/fcgiapp.c:1230-1242 | the first four bytes of an end of a request, the highest first, are the status modulo 2^32, the fifth is the protocol status, the rest are zero |
| `Records.EndOfRequestBytes` | CGIKit/fcgiapp.c:1347-1356 | a refusal and a completion, byte for byte |
| `Records.UnknownTypeBytes` | CGIKit/fcgiapp.c:1494-1499 | the reply to an unknown management record, byte for byte: it names the type |
| `Records.StreamBytes` | CGIKit/fcgiapp.c:1386-1430 | a short record of a stream with its padding, and the end of a stream, byte for byte |
| `Records.ParseEncodeAll` | CGIKit/fcgi/fastcgi.h:23-32 | any list of records written to a wire is what the wire parses to |
| `Bytes.AlignInt8Least` | CGIKit/fcgiapp.c:1272-1274 | the least multiple of eight not below n |
| `Bytes.AlignPtr8Least` | CGIKit/fcgiapp.c:1286-1290 | the next aligned address |
| `Bytes.UsableOfRequested` | CGIKit/fcgiapp.c:1769-1775 | the size of the buffer from the one asked for: between 32 and 65536 the next multiple of eight, less eight when the allocation is not aligned; 32 or 24 below, 65536 or 65528 above |
| `Bytes.Numbers` | CGIKit/fcgi/fastcgi.h:34-112 | the record types, roles, status values and lengths of the specification, and the error codes of the library |
| `Bytes.FramingFits` | CGIKit/fcgiapp.c:1769-1775 | for every requested length, address and content that fits: header, content and padding stay inside the allocation, the length fits its field, the padding is at most 7 |
| `Writer.Writer.EmptyBuffProc` | CGIKit/fcgiapp.c:1386-1430 | framing in place, closing records, then one write: the wire grows by exactly the records of `WriterSpec`, or the stream is closed with the errno of the failed write, unless it had an error before |
| `Writer.Writer.Frame` | CGIKit/fcgiapp.c:1398-1412 | the buffer holds the padded record of the pending bytes, or nothing |
| `Writer.Writer.FrameAndClose` | CGIKit/fcgiapp.c:1398-1415 | content record, end of stream and end of request, ready behind each other |
| `Writer.Writer.SendAndReserve` | CGIKit/fcgiapp.c:1416-1429 | everything ready goes out, and room for a header is kept again only outside raw mode |
| `Writer.Writer.WriteCloseRecords` | CGIKit/fcgiapp.c:1326-1358 | an end record unless an error stream carried nothing, the end of the request from the last writer, also when the buffer overflows on the way |
| `Writer.Writer.PutStr` | CGIKit/fcgiapp.c:310-341 | the same buffer state and the same records as that many single puts |
| `Writer.Writer.PutStream` | CGIKit/fcgiapp.c:325-340 | the copying loop on a stream |
| `Writer.Writer.PutRaw` | CGIKit/fcgiapp.c:325-340 | the copying loop among closing records |
| `Writer.Writer.PutChar` | CGIKit/fcgiapp.c:282-292 | one byte, flushing first when the buffer is full |
| `Writer.Writer.FFlush` | CGIKit/fcgiapp.c:887-893 | sends the record of the pending bytes; reports a failed write; no effect once closed |
| `Writer.Writer.FClose` | CGIKit/fcgiapp.c:912-929 | sends exactly the closing records and decrements the count of writers, once |
| `Writer.Writer.constructor` | CGIKit/fcgiapp.c:1755-1813 | an empty writer with header room, for every address; its length is the usable part of the requested one |
| `Connection.Connection.WriteAll` | CGIKit/fcgiapp.c:1362-1374 | everything goes out through any partial writes, or a proper prefix and a failure |
| `Connection.Connection.Read` | CGIKit/os_unix.c:457-461 | a non-empty chunk of arbitrary size while bytes are left |
| `Connection.Connection.Write` | CGIKit/os_unix.c:479-483 | a non-empty part of arbitrary size, or a failure |
| `WriterSpec.PutBytesAppend` | CGIKit/fcgiapp.c:310-341 | putting a string is putting its parts in turn: record boundaries do not depend on how puts are cut |
| `WriterSpec.PutBytesFit` | CGIKit/fcgiapp.c:317-321 | what fits is only appended |
| `WriterSpec.PutBytesFull` | CGIKit/fcgiapp.c:282-292 | a put into a full buffer starts with a flush |
| `RoundTrip.WriterRefines` | CGIKit/fcgiapp.c:1386-1430 | every run of puts and flushes followed by a close: the wire parses as aligned non-empty records of the stream carrying exactly the bytes put, then one empty record unless an error stream carried nothing, then from the last writer the completion of the request |
| `RoundTrip.RoundTrip` | CGIKit/fcgiapp.c:1386-1430 | what a writer of any buffer size sends, a reader of the same type and id delivers, ending cleanly with all that follows unread |
| `RoundTrip.ReadToEnd` | CGIKit/fcgiapp.c:108-181 | any mix of single and bulk reads, over any chunking, collects exactly the demultiplexed stream |
| `RoundTrip.WriteAll` | CGIKit/fcgiapp.c:310-341 | any run of calls on a real writer sends the records of the run |
| `RoundTrip.SendAndReceive` | CGIKit/fcgiapp.c:1625-1743 | both machines with their buffers, partial writes and chunked reads: unless a write fails, what was put is what is got, without an error |
| `Session.SharedConnection` | CGIKit/fcgiapp.c:1326-1358 | every interleaving of writes, flushes and closes on both writers with reads from an arbitrary peer: between calls the wire is a whole number of records in protocol order and each stream carries its own bytes; the end-of-request records are the completion by the last close and one for each refusal of a begin record with the own id that the reads have sent, so the request is ended once and after both its streams if and only if they have sent none; the completion carries the status last set before the last of the two writers was closed |
| `Session.CompletionStatus` | CGIKit/fcgiapp.c:1352-1353 | over any run, the status in the completion of the request is the one last set before the last of its two writers was closed; before that there is no completion |
| `Session.StepCompletes` | CGIKit/fcgiapp.c:1347-1357 | a single call sends a completion only if it closes the last writer, and then with the status of that moment |
| `Session.RunStatus` | CGIKit/fcgiapp.c:1352-1353 | the status at any moment is the one last set |
| `Session.EndsByInput` | CGIKit/fcgiapp.c:1532-1551 | the condition on the input: once any mix of reads and writes has read a stream to its end, whatever records are mixed into it, the ends of the request are its completion and one for each begin record with its own id among those the peer has sent, and it is ended once and after both its streams if and only if the peer has sent none; before the end of the stream there are at most as many |
| `Session.RunReads` | CGIKit/fcgiapp.c:108-181 | what the reads of a run have sent and what reading on would send are together what reading the input to its end sends, whatever writes come between |
| `Session.RefusedOfAll` | CGIKit/fcgiapp.c:1532-1551 | the refusals of a run are among those the input asks for, and all of them once it has been read |
| `Session.RunKeeps` | CGIKit/fcgiapp.c:1326-1358 | the invariant behind it, over all runs |
| `Session.StepKeeps` | CGIKit/fcgiapp.c:887-929 | each call keeps it and carries exactly the bytes it accepted |
| `Session.CloseKeeps` | CGIKit/fcgiapp.c:1326-1358 | closing |
| `Session.FlushKeeps` | CGIKit/fcgiapp.c:1398-1412 | flushing |
| `Session.PutKeeps` | CGIKit/fcgiapp.c:310-341 | putting |
| `Session.ResponseEnds` | CGIKit/fcgiapp.c:1346-1357 | a complete response ends its request once and in place if and only if it contains no refusal with the own id |
| `Session.GrammarEnds` | CGIKit/fcgiapp.c:1532-1551 | in an accepted list of records the ends of the request are its completion and the refusals |
| `Session.EndsInPlace` | CGIKit/fcgiapp.c:1346-1357 | without refusals no end of the request stands in front of the end of a stream |
| `Session.RunRefuses` | CGIKit/fcgiapp.c:1532-1551 | over all runs the refusals on the wire are those the reads have made |
| `Session.OwnBeginsRefused` | CGIKit/fcgiapp.c:1532-1551 | among the answers to the records of a stream, one refusal with the own id for each begin record with the own id |
| `Session.OwnBeginEndsTwice` | CGIKit/fcgiapp.c:1532-1551 | a begin record with the own id in the input makes two ends of the request, the first in front of everything else |
| `Session.RepliesKeep` | CGIKit/fcgiapp.c:1502-1507 | replies may stand anywhere in a response and carry nothing of its streams |
| `Replies.ReadSends` | CGIKit/fcgiapp.c:1487-1507 | whatever bytes arrive, a read sends a whole number of replies, behind what was sent before and independent of it |
| `Replies.FillSends` | CGIKit/fcgiapp.c:1487-1551 | the same for one fill from any state |
| `Replies.DrainSends` | CGIKit/fcgiapp.c:1487-1551 | the same for reading a stream to its end |
| `Replies.ShiftFill` | CGIKit/fcgiapp.c:1625-1743 | what a fill does is independent of everything sent before |
| `Calls.PerformAll` | CGIKit/fcgiapp.c:2252-2255 | two real writers and the real reader on one connection, called in any order over any chunking, do and send exactly what the run says |
| `Calls.PerformAct` | CGIKit/fcgiapp.c:310-341 | one call on a real writer |
| `Calls.PerformRead` | CGIKit/fcgiapp.c:108-181 | one call on the real reader: what it leaves to be read, and the replies it sends |
| `Accepting.BeginStarts` | CGIKit/fcgiapp.c:1556-1564 | a begin record sets id, role and the keep flag, and leaves its padding unread |
| `Accepting.EarlyPassed` | CGIKit/fcgiapp.c:2208-2213 | management records and records of requests other than the previous one, arriving in front of the begin record, are answered and leave no trace in what is accepted |
| `Accepting.EmptyEarlySpoils` | CGIKit/fcgiapp.c:1724-1726 | an empty record of another request in front of the begin record makes the begin record itself be skipped, and the connection is given up |
| `Accepting.AcceptsEnvironment` | CGIKit/fcgiapp.c:2208-2239 | for all pairs, length forms, cuts into padded records and records mixed in, also in front of the begin record: the environment is the role and then `name=value` for each pair in order, and standard input starts right behind the parameters |
| `Accepting.AcceptedByBytes` | CGIKit/fcgiapp.c:2208-2252 | the same from the bytes of the begin record, for any role: accepted if and only if the role is 1, 2 or 3, and then with the entry `FCGI_ROLE=` and its name, followed by the pairs, and with id, keep flag and standard input as sent |
| `Accepting.OtherRoleGivesUp` | CGIKit/fcgiapp.c:2226-2227 | a begin record with any other role costs the connection, whatever follows |
| `Accepting.BytesOfRecords` | CGIKit/fcgi/fastcgi.h:69-79 | a begin record and the end of the parameters, byte for byte |
| `Accepting.AcceptsCutIff` | CGIKit/fcgiapp.c:2233-2245 | parameters cut at any byte: accepted if and only if the cut is between two pairs, with exactly the pairs in front |
| `Accepting.PaddedBeginIff` | CGIKit/fcgiapp.c:1727-1732 | a begin record with padding that does not start like a header: the request is accepted all the same, with the environment sent if and only if the begin record is not padded or no pair was sent |
| `Accepting.BrokenConnectionIff` | CGIKit/fcgiapp.c:2208-2245 | a connection that breaks at any byte in front of the end of the parameters, in the records before the begin record, in it or in the parameters: accepted if and only if the begin record is complete and the parameters that have arrived stop between two pairs, with exactly the pairs in front; only the stream error tells |
| `Lifecycle.Request.constructor` | CGIKit/fcgiapp.c:2051-2064 | an idle request without a connection |
| `Lifecycle.Request.Accept` | CGIKit/fcgiapp.c:2180-2258 | finishes the current request, then waits for one: unless a write fails, the request is that of the first connection in line that offers one, as `Accepting.Accept` has it, the current connection coming first if it is kept, behind what finishing has sent on it; there is none if and only if no connection offers one. Two fresh writers, count 2, buffers of 8192 bytes for the input and the output and of 512 for the error stream, less eight where the allocation is not aligned; every connection given up is closed; failure only when the listener fails |
| `Lifecycle.FirstRequestIs` | CGIKit/fcgiapp.c:2189-2247 | waiting on a line of connections comes to the first that is accepted, each tried with what the one before has left in the request; to nothing if and only if all are given up |
| `Lifecycle.Request.FinishFirst` | CGIKit/fcgiapp.c:2180-2187 | the connection that is kept, and what has been sent on it, when the next request is awaited |
| `Lifecycle.Request.TryConnection` | CGIKit/fcgiapp.c:2208-2239 | one turn of the loop: accepted if and only if `Accepting.Accept` accepts what the connection will deliver, with its environment and reader |
| `Lifecycle.Request.ReadEnvironment` | CGIKit/fcgiapp.c:2229-2233 | the role and then the parameters go into a new vector |
| `Lifecycle.Request.FindRequest` | CGIKit/fcgiapp.c:2189-2247 | the loop: connections are taken in order and closed when given up, which happens only to those that offer no request or on which a write fails |
| `Lifecycle.Request.MakeWriters` | CGIKit/fcgiapp.c:2253-2255 | two writers on the connection, with buffers of 8192 and of 512 bytes, less eight where the allocation is not aligned; the reader untouched |
| `Lifecycle.Request.Finish` | CGIKit/fcgiapp.c:2003-2022 | closes the streams the application has left open, the error stream first, with exactly their closing records; the connection is kept if and only if KEEP_CONN was set and reader and both writers are free of errors |
| `Lifecycle.Request.Free` | CGIKit/fcgiapp.c:2024-2039 | drops the streams; closes the connection if asked to and if there is one |
| `Lifecycle.Request.Serve` | CGIKit/fcgiapp.c:2003-2258 | over all runs of accepts, finishes, reads, puts, flushes and closes: the count of writers is that of the open ones, within 0 to 2, and of all connections ever handed out only the current one is open, so none is lost, used after its close or closed twice |
| `Reactor.Reactor.constructor` | CGIKit/os_unix.c:166-189 | an empty table and empty sets satisfy the invariant |
| `Reactor.Reactor.GrowAsyncTable` | CGIKit/os_unix.c:591-604 | the table doubles, old entries stay, new ones are free |
| `Reactor.Reactor.AsyncRead` | CGIKit/os_unix.c:630-656 | registers, growing the table as needed, and keeps the invariant and all other entries |
| `Reactor.Reactor.AsyncWrite` | CGIKit/os_unix.c:680-704 | the same for writes |
| `Reactor.Reactor.AsyncReadStdin` | CGIKit/os_unix.c:571-589 | the same for descriptor 0, without growth |
| `Reactor.Reactor.Close` | CGIKit/os_unix.c:722-746 | removes the descriptor from all sets and frees its entries; the counters stay equal to the posted sets if and only if it was not posted |
| `Reactor.Reactor.MoveReady` | CGIKit/os_unix.c:855-872 | ready descriptors move from pending to posted and are counted |
| `Reactor.Reactor.Poll` | CGIKit/os_unix.c:848-873 | the `select` part keeps the invariant, whatever is found ready |
| `Reactor.Reactor.Collect` | CGIKit/os_unix.c:835-876 | the first half of a pass: what has completed, and what the counters make of it |
| `Reactor.Reactor.Report` | CGIKit/os_unix.c:882-916 | a posted completion is taken off and reported with its registered data; callbacks may register and close |
| `Reactor.Reactor.DispatchAll` | CGIKit/os_unix.c:878-917 | a posted completion is reported if and only if no callback in front of it closed its descriptor, once and in order, with the data it was registered with; so nothing registered meanwhile is reported, and nothing stays posted |
| `Reactor.Reactor.DoIo` | CGIKit/os_unix.c:822-919 | a whole pass, and the exact account of the counters: they leak if and only if some completion was closed by a callback in front of it, and after a leak a pass does nothing |
| `Reactor.Reactor.Serve` | CGIKit/os_unix.c:848-876 | over all runs: once counters have leaked, nothing is reported ever again |
| `Reactor.Account` | CGIKit/os_unix.c:878-917 | one step of the account of a pass |
| `Reactor.OrderedOnce` | CGIKit/os_unix.c:878-917 | reports in loop order are pairwise different |
| `StreamBuf.OutputBuffer.Overflow` | CGIKit/fcgio.cpp:62-81 | the stream receives the put area and then the byte, as if all had been put directly |
| `StreamBuf.OutputBuffer.Sync` | CGIKit/fcgio.cpp:84-89 | afterwards the stream has received and sent exactly what was put |
| `StreamBuf.OutputBuffer.SPutC` | CGIKit/fcgio.cpp:62-81 | one byte, with or without a buffer, means a direct put |
| `StreamBuf.OutputBuffer.XSPutN` | CGIKit/fcgio.cpp:169-175 | a string, with or without a buffer, means a direct put |
| `StreamBuf.OutputBuffer.constructor` | CGIKit/fcgio.cpp:126-147 | an empty put area |
| `StreamBuf.PerformAll` | CGIKit/fcgio.cpp:62-89 | any run of puts and syncs ended by a sync leaves the wire that the same calls on the stream itself, ended by a flush, leave |
| `StreamBuf.InputBuffer.Underflow` | CGIKit/fcgio.cpp:106-124 | returns the next byte and consumes nothing, with or without a buffer |
| `StreamBuf.InputBuffer.Peek` | CGIKit/fcgio.cpp:120-123 | without a buffer this rests on the guarantee of one byte of pushback |
| `StreamBuf.InputBuffer.UFlow` | CGIKit/fcgio.cpp:92-104 | consumes the next byte; at the end of the stream a buffered one moves past its get area, so the buffer stays usable if and only if there was a byte or there is no buffer |
| `StreamBuf.InputBuffer.SBumpC` | CGIKit/fcgio.cpp:92-104 | consumes the next byte, from the get area or through `uflow` |
| `StreamBuf.InputBuffer.XSGetN` | CGIKit/fcgio.cpp:161-167 | the next n bytes, or all there are |
| `StreamBuf.InputBuffer.Refill` | CGIKit/fcgio.cpp:110-117 | filling the get area changes nothing of what is still to be read |
| `StreamBuf.PushedBack` | CGIKit/fcgiapp.c:237-246 | a byte pushed back is read next, and the rest of the stream is unchanged |
| `Printf.VFPrintF` | CGIKit/fcgiapp.c:411-852 | the stream receives exactly the bytes that the format means, up to the first error; a result other than -1 is their number |
| `Printf.PerformSpecifier` | CGIKit/fcgiapp.c:449-831 | the loop over fast and slow path runs at most twice and computes the meaning of the specifier |
| `Printf.ScanSlowly` | CGIKit/fcgiapp.c:487-577 | the slow scan: text, rebuilt specifier and its length, inside the 25-byte buffer |
| `Printf.ScanHeadSlowly` | CGIKit/fcgiapp.c:493-559 | flags, width and precision, rebuilt piece by piece |
| `Printf.TakeField` | CGIKit/fcgiapp.c:504-525 | one width or precision, a `*` replaced by its argument |
| `Printf.ScanFits` | CGIKit/fcgiapp.c:574-578 | the rebuilt specifier with its terminator always fits its buffer, and the cursor never passes the end of the format |
| `Printf.ScanHeadText` | CGIKit/fcgiapp.c:493-559 | the scanned pieces are exactly the text of the format |
| `Printf.SpecifierFits` | CGIKit/fcgiapp.c:844-844 | a specifier that is performed ends inside the format, so the outer loop advances and ends |
| `Printf.FastIsShortcut` | CGIKit/fcgiapp.c:452-486 | for the numeric, character and pointer conversions the fast path hands over what the slow path would |
| `Formats.FormatMeans` | CGIKit/fcgiapp.c:411-852 | any format written from texts, doubled percent signs and conversions, with any flags, width, precision, modifier and conversion character, prints its texts, a percent sign for each doubled one, and for each conversion what `sprintf` makes of it and of its own argument, counting one argument for each `*` in front and one for each conversion; the first conversion that is too large or not accepted ends the printing with an error |
| `Formats.SpecifierMeans` | CGIKit/fcgiapp.c:449-831 | one conversion: performed if and only if it is small enough and its conversion character and modifier are among those listed, wherever it stands in a format |
| `Formats.FastPerforms` | CGIKit/fcgiapp.c:669-830 | the switch on the fast path, against the list of accepted pairs of conversion character and modifier |
| `Formats.SlowPerforms` | CGIKit/fcgiapp.c:583-830 | the same on the slow path |
| `Formats.TextPrints` | CGIKit/fcgiapp.c:438-447 | text without a percent sign is printed as it is, from any position of a format |
| `Formats.DecimalReads` | CGIKit/fcgiapp.c:504-525 | the decimal digits filled in for a `*` read back as its argument, without leading zeros, behind a minus sign for a negative one |
| `Formats.CutConversionFails` | CGIKit/fcgiapp.c:825-826 | a format that ends inside a bare conversion fails there |
| `Printf.EscapePrints` | CGIKit/fcgiapp.c:438-447 | round trip: a text with its percent signs doubled is printed as it was, for all arguments, behind any prefix of a format |

## Left out

Deliberately weaker members:

- Reader.Reader.FillBuffProc: when a write to the peer fails, only validity, the closed stream and the error code are stated, not what had been read until then; the same holds for every method of the reader that may have to reply.
- Reader.Reader.GetChar: asks that a request has begun or the read is bounded by a record, because before that the assertion in its last branch can fail; applications get a reader only after its request has begun. The same holds for the other reading methods.
- Reader.Reader.UnGetChar: asks that a byte of the current stream has been read, because `stopUnget` is not refreshed when the stream type changes (`CGIKit/fcgiapp.c:1846-1858`) and would then point outside the fragment.
- Reader.Reader.ReadParams: the size of an entry is not bounded by what `Malloc` or `int` can hold.
- Reader.Reader.AnswerValues: computes the reply payload as a sequence; that it fits the 64 bytes is the condition of being defined, not an array bound.
- Writer.Writer.PutStr: after a failed write the number of bytes already taken is not stated.
- Writer.Writer.PutChar: calls on a stream of the other kind (writing a reader, reading a writer) do not arise, since the two kinds are two classes; the tests of `isReader` have no counterpart.
- RoundTrip.SendAndReceive: asks that an error stream carries something, because one that carried nothing has no end record to read.
- Session.EndsByInput: is about one stream read to its end record; a run that goes on to the data of a filter, or whose stream breaks off, is covered by `Session.SharedConnection` with the refusals counted as sent.
- Lifecycle.Request.Accept: CGI mode, detached requests and a library not yet initialized are not modelled; the environment equation is for connections on which no reply failed.
- Reactor.Reactor.Close: asks, once asynchronous operations have been used, that the descriptor has entries in the table; the code reads outside the table otherwise.
- Accepting.PaddedBeginIff: padding that starts like a header may spell anything; `Departures.LeftoverRecord` gives a harmless case, and no condition short of reading on decides.
- Departures.LeftoverPaddingIff: the same.
- Reactor.Reactor.AsyncRead: asks, as the assertion in the code does, that no operation of the same kind is outstanding on the descriptor.
- Reactor.Reactor.DoIo: asks that nothing is posted on entry, which every pass establishes; a nested pass from a callback is not modelled.
- StreamBuf.InputBuffer.UFlow: after it has moved past the get area, nothing further is stated about the buffer.
- Printf.VFPrintF: on a stream already closed or failing, only the range of the result is stated; `%n` consumes its argument but the count it stores is not modelled.
- Printf.TakeField: `abs` of the least `int` is taken as out of range, where C leaves it undefined.

Not modelled:

- Memory: allocation failure, freeing and copying of strings. Destinations of reads are returned sequences instead of the caller's arrays, and the parameter vector holds sequences for C strings.
- The padding bytes of a reply are zeros in the model, and indeterminate stack bytes in the code; the bytes of a C string after an embedded NUL are not distinguished.
- The two C structures of a request and of a stream's private data are spread over `RequestState`, `Request`, `Reader` and `Writer`; `rdNext` of a writer and the procedure pointers are left out.
- Request ids wider than 16 bits, which `FCGX_CreateWriter` would accept as an `int`: `Records.HeaderRoundTrip` says exactly when an id survives.
- `FCGX_FClose` on a reader, `FCGX_GetLine`, `FCGX_PutS`, `FCGX_HasSeenEOF`, `FCGX_ClearError`, `FCGX_SetExitStatus` beyond its field, `FCGX_Attach`, `FCGX_Detach`, `FCGX_Finish`, `FCGX_Accept`, `FCGX_Init`, `FCGX_IsCGI`: wrappers or single assignments.
- Pipelined requests: bytes buffered beyond the current request are dropped with the reader. `appStatus` is an input, never reset between requests.
- A write that transfers nothing without failing, on which `write_it_all` would loop, and reads and writes refused because of a pending shutdown.
- Sockets, accept retries and locks, address checks, signals, lingering on close, process creation: operating system calls. A listener is the list of connections it will hand out, a connection the bytes it will deliver and arbitrary partial transfers.
- `select`, and the `read` and `write` inside `OS_DoIo`: the ready sets are inputs, the transferred bytes are left out. `OS_CloseRead`, the limit `FD_SETSIZE` and the timeout are left out.
- The one class `fcgi_streambuf` is modelled as an output and an input buffer, since a FastCGI stream is one or the other; `attach`, the destructor and a second `setbuf` are left out.
- The output of `sprintf`, the argument list and the estimate of the output buffer (`CGIKit/fcgiapp.c:583-654`): `sprintf` and the arguments are parameters, null strings do not occur.
- `CGIKit/fcgi_stdio.c` (dispatch between stdio and streams), the Windows branches, several threads using one request, and the Objective-C layer: they would add easy members only, or their semantics is not visible.
