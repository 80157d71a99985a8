# IoTDB client: model and proofs

A Dafny model of the parts of the Rust client for Apache IoTDB where state, interleaving or byte arithmetic decide
whether it is right: the concurrent session pool, the binary codecs for result blocks, tablets and records, the paging
result set, the redirect cache, session retry and reconnect, record batching, and the endpoint printer and parser.

`dafny verify dfyconfig.toml` checks the whole project.

How the parts fit together:

- **Wire formats.** `Bytes`, `Values` and `Bitmap` hold integers, payloads and bit arrays. The result-block decoder
  (`BlockReader`, a cursor that moves over a buffer) is proved equal to a parser over byte sequences (`BlockFormat`).
  `BlockRoundTrip` supplies the encoder the client does not have, and `BlockLocality` shows that decoding depends on
  nothing but the bytes consumed. `WireLayout` says in numbers which byte and which bit carries what. For the two
  serializers (`Record`, and `Tablets` over `TabletFormat`) the missing reader is supplied instead. Floating-point values
  are carried as IEEE 754 bits; text is a byte sequence that is valid UTF-8 (section 4 of RFC 3629). Payload lengths go out as 32-bit integers, so a payload of 2^31 bytes or more is
  misread: the round trips hold exactly when no payload is that long. The row count of a tablet request goes out as a
  32-bit integer too, and a request is read back exactly when, besides, the tablet has fewer than 2^31 rows.
- **Sorting and batching.** `StableSort` defines the index order of a stable sort and proves that its promise determines
  it; `SortByKey` says what that means for the elements. `Batch` and `Inserts` clean, sort and serialize rows.
- **Sessions.** The network is a script: the n-th exchange has the n-th outcome. `SessionTrace` says which exchanges may
  follow which, `Sessions` is the session itself, `DataSets` the result set that borrows it, `RedirectHistory` and
  `RedirectCaches` the redirect hints.
- **Pool.** `PoolMachine` gives every thread a program counter and every lock-held region or atomic access a step of its
  own. `PoolInvariants`, `PoolSafety`, `PoolSweep` and `PoolCapacity` prove what holds over every run of any number of
  threads. `Pools` has the same code as methods of a class, for one thread with nobody else at work, and `PoolSteps`
  shows that a thread of the machine left alone does exactly what those methods do.

Where the code and its own comments disagree, the model follows the code:

- `src/client/pool.rs:121` says that `live` changes only under the lock. It is also decreased outside it, at lines 238,
  313, 339, 355 and 368. The cap still holds, because it is increased only under the lock. But a notification can then
  fall between another thread's look at the counter and its wait, and that thread goes to sleep beside free capacity
  with nobody awake to tell it. This can happen to a pool exactly when it can hold a session at all and lets a thread
  wait (`PoolCapacity.StrandingIff`), and only in a run with such a missed notification
  (`PoolCapacity.FreedCapacityIsClaimed`). Sessions *returned* to the queue are never missed, in any run.
- `src/client/pool.rs:202-205` says that dead idle sessions are discarded on acquire. Outside of a test
  hook, only live sessions ever enter the queue, so that branch is never taken (`PoolSafety.NoDeadSessionIsIdle`).
- Printing and parsing an endpoint loses a host that is wrapped in brackets, starts with white space or is empty, unless
  it has a colon in it (`Endpoints.EndpointRoundTripIff` gives the exact condition).

## Model

| member | source | states |
|---|---|---|
| Bytes.BinaryRoundTripIff | src/data/tablet.rs:286-289 | a length-prefixed payload is read back, whatever follows, exactly when its length fits the 32-bit prefix |
| Bytes.BigEndianDigit | src/data/tablet.rs:257-266 | an integer is written most significant byte first: byte k is its digit of weight 256^(w-1-k) |
| Bytes.FromBigEndianHead | src/data/tsblock.rs:292-302 | an integer is read likewise: the first byte has the greatest weight |
| Bytes.BigEndianOf | src/data/tsblock.rs:292-302 | every byte string is what its number is written as, so no two byte strings are read as one number |
| Values.FromCode | src/data/mod.rs:58-75 | decoding a type code finds the type with that code, and fails only when no type has it |
| Values.ValidUtf8Iff | src/data/tsblock.rs:255-258 | bytes are taken as text exactly when they are a sequence of characters, each a code point up to U+10FFFF that is no surrogate, in its shortest form (sections 3 and 4 of RFC 3629) |
| Values.PayloadRoundTripIff | src/data/tablet.rs:253-289 | a value is recovered from its payload and its type exactly when its length fits the prefix |
| Bitmap.PackBitsLsbFirst | src/data/bitmap.rs:29-37 | the loop that ORs bits into a byte array produces the least-significant-bit-first packing |
| Bitmap.PackedBit | src/data/bitmap.rs:29-37 | every bit of a packing is the input bit at that position, and padding bits are zero |
| Bitmap.PackUnpack | src/data/bitmap.rs:42-51 | unpacking undoes packing in either bit order, whatever bytes follow |
| Bitmap.BitsDetermineBytes | src/data/bitmap.rs:29-37 | a bit array has no other representation, so the packing is unique |
| Bitmap.BitAtByWeight | src/data/bitmap.rs:20-51 | bit i is in byte i / 8 the bit of weight 2^(i % 8) where nulls are written and of weight 2^(7 - i % 8) where blocks are read |
| BlockReader.Reader.ReadBytes | src/data/tsblock.rs:271-286 | yields the next bytes and advances by exactly that many, or fails and stays put; the cursor never leaves the buffer |
| BlockReader.ReadNullIndicators | src/data/tsblock.rs:240-246 | a zero flag means no nulls; any other flag is followed by a most-significant-bit-first bitmap |
| BlockReader.ReadDense | src/data/tsblock.rs:160-233 | null positions take no bytes: the loop reads exactly one cell for every non-null position |
| BlockReader.DecodeFlat | src/data/tsblock.rs:143-233 | every encoding but run-length decodes as the format says, with the same errors |
| BlockReader.DecodeColumn | src/data/tsblock.rs:122-236 | a column decodes as the format says; a run-length column holds one inner value and never another run |
| BlockReader.DecodeBlock | src/data/tsblock.rs:53-117 | decoding a buffer gives the block the format assigns to it, or the first error the format meets |
| BlockFormat.ParseBlock | src/data/tsblock.rs:53-117 | a decoded block has every column and the timestamps of the declared length, so row access is within bounds |
| WireLayout.BlockLayout | src/data/tsblock.rs:53-117 | type list, shape and body follow each other |
| WireLayout.TypeListLayout | src/data/tsblock.rs:56-71 | four bytes of column count, then byte 4 + c is the type code of column c |
| WireLayout.ShapeLayout | src/data/tsblock.rs:73-85 | four bytes of position count, then the encoding of the time column and those of the value columns |
| WireLayout.BodyLayout | src/data/tsblock.rs:87-116 | the time column, read as INT64, then the value columns in order |
| WireLayout.BooleanColumnLayout | src/data/tsblock.rs:142-156 | in a decoded boolean column, cell i is null exactly when the bit of weight 2^(7 - i % 8) of its null bitmap is set, and else true exactly when that bit of the value array is |
| WireLayout.DenseColumnLayout | src/data/tsblock.rs:157-246 | in every other plain column too, that bit of the null bitmap alone decides whether cell i is null |
| WireLayout.RunColumnLayout | src/data/tsblock.rs:129-141 | every cell of a run is the one cell of the inner column, whose encoding is not a run |
| WireLayout.FourByteCell | src/data/tsblock.rs:165-176 | a four-byte cell is its big-endian number, signed for INT32 and DATE, raw bits for FLOAT, an error for other types |
| WireLayout.EightByteCell | src/data/tsblock.rs:187-198 | an eight-byte cell likewise for INT64, TIMESTAMP and DOUBLE |
| WireLayout.BinaryCell | src/data/tsblock.rs:209-230 | a byte string has a four-byte length that is not negative; TEXT that is not UTF-8 is kept as a blob |
| BlockRoundTrip.BlockRoundTrip | src/data/tsblock.rs:53-236 | for every block and compatible choice of encodings, decoding its bytes returns it and leaves exactly what follows |
| BlockRoundTrip.RunLengthMeansCopies | src/data/tsblock.rs:129-141 | a run-length column decodes to the same values as the plain column that spells out every copy |
| BlockRoundTrip.DecodedIsEncodable | src/data/tsblock.rs:53-236 | every block the decoder returns, from any bytes at all, can be encoded again |
| BlockRoundTrip.DecodableIffRepresentable | src/data/tsblock.rs:53-236 | the blocks the decoder can return are exactly those some choice of encodings can carry |
| BlockLocality.BlockLocal | src/data/tsblock.rs:261-303 | a decoded block depends only on the bytes consumed: any continuation gives the same block, any cut gives a truncation error |
| WireLayout.TypeCodesOnTheWire | src/data/mod.rs:58-75 | the code of every type, by number; no other byte is a code |
| WireLayout.PayloadLayout | src/data/record.rs:44-55 | the bytes of every payload, in numbers |
| WireLayout.BinaryLayout | src/data/tablet.rs:286-289 | a four-byte length, cut to 32 bits, and the bytes |
| WireLayout.RecordCellLayout | src/data/record.rs:29-43 | the marker of a cell is the code of its type, and of a null 0xFE, which is no type's code |
| WireLayout.NullSlotLayout | src/data/tablet.rs:253-281 | the placeholder of every type, in numbers |
| WireLayout.BitmapLayout | src/data/tablet.rs:221-232 | a column with a null has a flag and `rows / 8 + 1` bytes, in which the bit of weight 2^(i % 8) of byte i / 8 is set exactly when row i is null; a column without one is a zero byte |
| Record.WriteRecordCell | src/data/record.rs:36-60 | one cell adds its type marker and payload; a null adds a bare marker |
| Record.SerializeRecordValues | src/data/record.rs:36-60 | the loop writes the cells of the row in order |
| Record.RecordDistributes | src/data/record.rs:36-60 | the bytes of two rows joined are their bytes joined |
| Record.CellRoundTripIff | src/data/record.rs:36-60 | a cell is read back in front of any bytes exactly when its payload length fits the prefix |
| Record.RecordRoundTripIff | src/data/record.rs:36-60 | a reader of cells recovers the whole row, nulls included, exactly when all payload lengths fit |
| Record.RecordsUniquelyDecodable | src/data/record.rs:36-60 | two rows whose payload lengths all fit the prefix and that have the same bytes are the same row |
| StableSort.StableOrderSorts | src/data/tablet.rs:189-191 | the order is a permutation, ascending by key, and keeps the input order of equal keys |
| StableSort.StableOrderUnique | src/data/tablet.rs:189-191 | only one order keeps that promise, so it does not matter how the sort works |
| StableSort.IdentityIffAscending | src/data/tablet.rs:192-194 | the already-sorted shortcut is taken exactly on ascending timestamps |
| Tablets.New | src/data/tablet.rs:54-77 | a tablet is empty, and refused exactly when names and types differ in number |
| Tablets.NewTable | src/data/tablet.rs:91-107 | a table-model tablet needs one category per column as well |
| Tablets.Tablet.AddRow | src/data/tablet.rs:160-186 | on success the last row has the given time and in cell c the given value, or a null where there was none or `Null`; it succeeds exactly when the arity fits and every value has its column's type, and else nothing changes |
| Tablets.Tablet.SetTimestamps | src/data/tablet.rs:135-137 | rewriting the timestamps leaves every row's cells in place |
| Tablets.Tablet.SortByTimestamp | src/data/tablet.rs:189-205 | the rows end up in the stable order by time, all columns moved alike |
| Tablets.Tablet.SerializeValues | src/data/tablet.rs:211-235 | sorts first, then writes the columns one after the other and their null bitmaps at the end |
| Tablets.Tablet.SerializeTimestamps | src/data/tablet.rs:241-248 | sorts first, then writes the timestamps |
| Tablets.WriteCell | src/data/tablet.rs:253-281 | a null cell is written as its type's placeholder |
| Tablets.WriteBitmap | src/data/tablet.rs:218-233 | a column without nulls is one zero byte; else a flag and a bitmap padded to `rows/8 + 1` bytes |
| TabletFormat.ValuesRoundTripIff | src/data/tablet.rs:211-235 | a reader of the value buffer recovers every column, nulls included, exactly when all payload lengths fit |
| TabletFormat.TimesAppend | src/data/tablet.rs:241-248 | a reader of the timestamp buffer recovers every timestamp |
| Tablets.BuffersRoundTripIff | src/data/tablet.rs:211-248 | both buffers together give back the rows, exactly when all payload lengths fit |
| Tablets.SortedTwice | src/data/tablet.rs:211-248 | the second serializer finds the rows sorted already and moves nothing |
| Tablets.TabletBuffers | src/client/session.rs:515-539 | whichever buffer is written first, the server reads the stable time sort of the caller's rows, and the caller's tablet is untouched |
| Endpoints.EndpointRoundTripIff | src/connection/mod.rs:151-179 | parsing a printed endpoint returns it, for every port, exactly for hosts with a colon or without leading space and wrapping brackets |
| Endpoints.ParseOfParts | src/connection/mod.rs:151-168 | what any host text before a printed port parses to, errors included |
| Endpoints.ParseIff | src/connection/mod.rs:151-168 | the texts that parse, and to what: white space around a host, the last colon, perhaps a plus sign, and digits worth at most 65535; every other text is refused |
| Endpoints.DigitsWeigh | src/connection/mod.rs:157-159 | ports are read in base ten |
| Endpoints.DecimalIsShortest | src/connection/mod.rs:171-179 | ports are printed in as few decimal digits as hold them |
| Endpoints.BracketedHostIsLost | src/connection/mod.rs:151-179 | an endpoint whose printed form parses as a different one |
| Status.CheckStatusIff | src/client/session.rs:984-1007 | a status succeeds exactly when every verdict below its 302 nodes is 200 or 400 |
| Status.CodesDecide | src/client/session.rs:984-1007 | 200 and 400 succeed; any other code but 302 fails with its own code and message |
| Status.ErrorIsFirstFailure | src/client/session.rs:988-1001 | a 302 that fails reports the code and message of the first sub-status with a bad verdict in or below it |
| Status.SomeoneFailsFirst | src/client/session.rs:988-1001 | whenever a 302 fails there is such a sub-status |
| Status.EndpointFromRedirect | src/client/redirect.rs:153-161 | a redirect node is usable exactly with a host and a port from 1 to 65535 |
| RedirectHistory.RunIsFaithful | src/client/redirect.rs:100-140 | after any history the hints held are the latest puts of distinct devices, ordered by time |
| RedirectHistory.HitIff | src/client/redirect.rs:100-135 | a lookup hits exactly when the device's latest put has not expired and fewer than the capacity of other devices were put since |
| RedirectHistory.ExpiryIff | src/client/redirect.rs:100-107 | a hint expires strictly after its time to live, counted from its insertion; with a zero time to live it never does |
| RedirectHistory.EvictionSparesFresh | src/client/redirect.rs:111-135 | what a put pushes out has expired whenever any hint held has: an unexpired hint never makes room while an expired one stays |
| RedirectCaches.InsertRepresents | src/client/redirect.rs:126-134 | storing under the next sequence number moves a device to the new end of the order |
| RedirectCaches.LeastIsHead | src/client/redirect.rs:117-121 | the entry with the least sequence number is the oldest put |
| RedirectCaches.RedirectCache.GetAt | src/client/redirect.rs:100-107 | a lookup returns what the history of operations says and removes an expired hint |
| RedirectCaches.RedirectCache.OldestDevice | src/client/redirect.rs:117-121 | the walk over the map finds the oldest put in whatever order it visits the entries |
| RedirectCaches.RedirectCache.Put | src/client/redirect.rs:111-135 | the map equals the list of hints by last put, cut to the newest entries |
| RedirectCaches.RedirectCache.Clear | src/client/redirect.rs:138-140 | nothing is hinted any more |
| RedirectCaches.RedirectCache.Size | src/client/redirect.rs:142-148 | the number of hints never exceeds the capacity |
| RedirectCaches.RecordRedirects | src/client/redirect.rs:171-192 | a response adds one put per recommended device, in request order; a matching sub-status list decides alone |
| RedirectCaches.RecommendedIff | src/client/redirect.rs:171-192 | device i gets the node of sub-status i when there is one sub-status per device, and the response's own node otherwise, with a host and a port from 1 to 65535 |
| RedirectCaches.HarvestReachesEachDevice | src/client/redirect.rs:171-192 | with distinct devices, each one's latest put is its own recommendation |
| Batch.FilterKeepsPairs | src/client/session.rs:958-967 | what is left of a row is its non-null cells, each still with its measurement, and the shortcut agrees |
| Batch.DropNullsPointwise | src/client/session.rs:958-967 | each cell stays or goes by its own value alone, and none changes place |
| SortByKey.SortedIsStablySorted | src/client/session.rs:926-951 | what is sorted by time is ascending and keeps the order within each time |
| SortByKey.StablySortedUnique | src/client/session.rs:926-951 | these two properties determine the sorted rows |
| Batch.CleaningCommutesWithSorting | src/client/session.rs:739-760 | dropping nulls before sorting sends what dropping them afterwards would |
| Batch.RowsRoundTripIff | src/client/session.rs:944-950 | parallel lists of times, measurements and value buffers are read back as the rows, exactly when all payload lengths fit |
| Inserts.KeepRows | src/client/session.rs:739-753 | the loop keeps the non-null cells of the rows that have any, and stops at the first arity error |
| Inserts.SortOneDeviceRows | src/client/session.rs:926-951 | the three lists are taken through one stable order; the shortcut for sorted input gives the same lists |
| Inserts.SortingListsSortsRows | src/client/session.rs:926-951 | taking the lists through that order sorts the rows they stand for |
| Inserts.OneDeviceRequest | src/client/session.rs:721-768 | the batch reads back as the stable time sort of the cleaned rows; the errors occur exactly for unequal lists, unequal arities and all-null batches |
| Inserts.RecordsRequest | src/client/session.rs:656-705 | a batch over many devices reads back as the cleaned rows in the order given, with the same errors |
| Inserts.RecordRequest | src/client/session.rs:619-640 | a record reads back as its non-null cells; refused exactly when arities differ or all is null |
| Inserts.TabletRequest | src/client/session.rs:515-539 | the request's own fields read back as the sorted rows, exactly when payload lengths and row count survive their casts; only a table-model tablet carries categories |
| Inserts.TabletsRequest | src/client/session.rs:875-920 | position i of every list reads back as tablet i under the same condition; refused exactly when empty or when some tablet is table-model |
| SessionTrace.RequestsFollowTheirHandshake | src/client/session.rs:225-366 | every request is on a connection whose own completed handshake granted the ids it carries, with no later login in between |
| SessionTrace.LoginConnection | src/client/session.rs:264-291 | a login names a connection that was opened |
| SessionTrace.GrantedIff | src/client/session.rs:278-288 | a session is granted exactly by an answer with good verdicts and a session id; each failure has its own error |
| SessionTrace.PassVisitsEachOnce | src/client/session.rs:317-319 | one pass of the rotation visits every endpoint index exactly once |
| SessionTrace.SameTurnEveryPass | src/client/session.rs:313-319 | every pass starts over at the same endpoint |
| SessionTrace.TurnAdvances | src/client/session.rs:317-318 | the rotation begins at its start index and goes on to the next index, from the last to the first |
| SessionTrace.StartIndex | src/client/session.rs:305-309 | the rotation starts at the first position of the last endpoint, or at 0 when it is unknown |
| SessionTrace.AtMostTwo | src/client/session.rs:349-366 | a retried operation is sent twice, a lost one without a login once |
| SessionTrace.LastRequestDecides | src/client/session.rs:349-366 | an operation ends with the answer to its last request, or with that request's own transport error |
| Sessions.Session.constructor | src/client/session.rs:210-221 | a new session is closed, with ids -1, the configured database and no hints in a cache of 1024 entries for 300 seconds each |
| Sessions.Session.Open | src/client/session.rs:225-258 | endpoints are tried in rotation from the counter until one connects; its handshake alone decides, and a failed open changes nothing |
| Sessions.Session.Authenticate | src/client/session.rs:264-291 | the session is opened in the current database, then the statement id is asked for under the id just granted |
| Sessions.Session.Reconnect | src/client/session.rs:299-340 | endpoints are dialled in rotation from the last one, at most `max(1, attempts)` passes, and the first login is taken; failure leaves no connection and gives the error of the last attempt |
| Sessions.AttemptsAreBounded | src/client/session.rs:310-313 | as many passes as configured, but at least one |
| Sessions.Session.WithRetry | src/client/session.rs:349-366 | at most two requests, the second only after a lost first one and a login, under the new ids; when the reconnect fails no connection is left and the error is that of the first request, not the reconnect's own |
| Sessions.Session.ExecuteNonQuery | src/client/session.rs:421-434 | the result is decided by the last answered request, and a database named by a successful answer is remembered |
| Sessions.CheckedIff | src/client/session.rs:429-429 | an exchange succeeds exactly when it is answered and every verdict of the answer is good |
| Sessions.Session.ExecuteQueryRaw | src/client/session.rs:448-473 | the handle comes from the answer on the connection now held; without a query id it is an error |
| Sessions.HandleByFields | src/client/session.rs:459-472 | every field of the handle is its own field of the answer, or the default where the answer has none; it fails exactly for a bad verdict or a missing query id |
| Sessions.Session.FetchResults | src/client/session.rs:477-496 | one request, never retried; lost, it gives the transport's error; a failing status gives its error; no result set an empty last page; else the answer's blocks and whether it announces more |
| Sessions.Session.CloseQuery | src/client/session.rs:500-508 | at most one request, whose loss changes nothing |
| Sessions.Session.CheckInsertStatus | src/client/session.rs:406-411 | hints are harvested before the status is judged, and only with redirection enabled |
| Sessions.Session.SendWrite | src/client/session.rs:547-588 | every attempt carries the same write, and only an answered one leaves hints |
| Sessions.Session.InsertTablets | src/client/session.rs:594-604 | every request sent carries the sorted rows of every tablet, and an answered one leaves the hints of its status |
| Sessions.Session.InsertRecordsOfOneDevice | src/client/session.rs:721-778 | every request sent carries the cleaned and sorted rows, and an answered one leaves the hints of its status; a refused batch sends nothing and leaves none |
| Sessions.Session.Close | src/client/session.rs:822-832 | one best-effort request when connected; afterwards no connection and ids -1 |
| DataSets.BlobsAreWireBytes | src/client/dataset.rs:189-197 | a TEXT or BLOB column the server calls BLOB yields exactly the bytes on the wire, UTF-8 or not |
| DataSets.RetaggingKeepsPayload | src/client/dataset.rs:189-197 | re-tagging a value never changes its payload |
| DataSets.RetaggingIff | src/client/dataset.rs:189-197 | the four pairs of physical and logical type that re-tag a value, and no others |
| DataSets.RowAssemblesIff | src/client/dataset.rs:149-183 | a row can be assembled exactly when the index map covers every output column and points at the time or an existing column |
| DataSets.MappedIff | src/client/dataset.rs:149-175 | an index map covers the output exactly when it is long enough and its entries are between -1 and the last column |
| DataSets.CellByMap | src/client/dataset.rs:163-179 | index -1 gives the row's time as a timestamp, any other the cell of that column under its logical type |
| DataSets.IdentityMapIsNoMap | src/client/dataset.rs:153-162 | an index map that counts the columns in order gives the same rows as none |
| DataSets.SessionDataSet.AssembleRow | src/client/dataset.rs:149-183 | the loop gives the mapped cells in order, or the first mapping error |
| DataSets.SessionDataSet.NextRow | src/client/dataset.rs:106-144 | returns the head of what is still to come and leaves its tail; the query is closed exactly when nothing is left; every call terminates |
| DataSets.SessionDataSet.Close | src/client/dataset.rs:202-211 | the first call sends one close on the query's connection, a later one nothing |
| DataSets.ExecuteQuery | src/client/session.rs:440-443 | the result set is pinned to the connection that answered its query |
| DataSets.ReadAll | src/client/dataset.rs:106-144 | iterating yields all rows in order and closes the query, or the rows before the first error and that error |
| DataSets.PagesAreTheirBlocks | src/client/dataset.rs:126-139 | page boundaries, empty pages and empty blocks make no difference |
| DataSets.BlocksStreamTheirRows | src/client/dataset.rs:110-124 | error-free blocks stream exactly their rows, block after block |
| DataSets.ResultIsAllBlocks | src/client/dataset.rs:106-144 | an error-free result is, in order, the rows of the cached blocks and of the blocks in the server's answers, up to the first answer that announces no more |
| DataSets.EncodedBlockStreams | src/client/dataset.rs:106-197 | from the bytes of any encoding of a block, row i holds for every output column the mapped cell i under its logical type |
| DataSets.BlockStreamsIff | src/client/dataset.rs:120-183 | a block streams without error exactly when it decodes and is empty or has every output column |
| PoolInvariants.EveryRunKeepsInv | src/client/pool.rs:130-380 | every interleaving keeps conservation, the cap, mutual exclusion, the queue's order, exclusive ownership and both wake-up properties |
| PoolInvariants.LocalCount | src/client/pool.rs:177-380 | every step changes the counter by exactly what it moves in or out of the thread's account, and never past the cap |
| PoolInvariants.LocalFrame | src/client/pool.rs:232-380 | a step without the lock cannot disturb what the lock holder has seen, except by lowering the counter |
| PoolSafety.LiveIsConserved | src/client/pool.rs:177-380 | the counter is at most the maximum and equals idle sessions plus those handed out, being opened, or removed and not yet subtracted |
| PoolSafety.SubtractionsNeverUnderflow | src/client/pool.rs:186-196 | what a thread is about to subtract is on the counter |
| PoolSafety.ExhaustedOnlyWhenFull | src/client/pool.rs:232-250 | the exhausted error follows only a look under the lock at exactly the maximum with nothing idle |
| PoolSafety.NoDeadSessionIsIdle | src/client/pool.rs:224-230 | idle sessions are alive, so the acquire loop never discards one |
| PoolSafety.SessionsAreExclusive | src/client/pool.rs:206-380 | a session in a thread's hands is in nobody else's and not idle |
| PoolSafety.ReturnedSessionsAreClaimed | src/client/pool.rs:365-379 | while a thread sleeps, idle sessions never outnumber the woken threads heading for them and the releases about to notify |
| PoolSafety.ClosedForGood | src/client/pool.rs:307-318 | once closed, in every later state of the run the pool is closed, nothing is idle and the counter is no higher |
| PoolSafety.SecondCloseChangesNothing | src/client/pool.rs:307-318 | closing again drains nothing and subtracts nothing |
| PoolSafety.ClosedPoolDrains | src/client/pool.rs:307-380 | when every thread has let go of a closed pool the counter is zero, opens in progress at close time included |
| PoolSafety.CloseWakesEveryWaiter | src/client/pool.rs:307-318 | a thread asleep in a closed pool still has the wake-up of a close coming |
| PoolCapacity.UnlockedChangesAreDiscards | src/client/pool.rs:121-123 | the counter changes outside the lock exactly when a discarded or drained session is subtracted, and rises only under it |
| PoolCapacity.FreedCapacityIsClaimed | src/client/pool.rs:232-256 | in every run without a missed notification, free capacity beside a sleeping thread has an awake thread coming for it |
| PoolCapacity.FreedCapacityCanBeMissed | src/client/pool.rs:238-256 | in every pool with room for a session and a wait, a run that misses a notification and leaves a thread asleep beside free capacity |
| PoolCapacity.StrandingIff | src/client/pool.rs:232-256 | a pool can leave a thread asleep beside free capacity with nobody coming exactly when its maximum and its timeout are not zero |
| PoolSweep.SweepAmongOthers | src/client/pool.rs:177-200 | whatever other threads do short of discarding, an ungated sweep removes exactly the k oldest sessions, keeps the others in order and leaves the counter standing until it subtracts them |
| PoolSteps.ReturnedSessionIsQueued | src/client/pool.rs:365-373 | in every reachable state with the lock free and the pool open, a release puts its live session behind all others and leaves the counter alone |
| PoolSteps.ReleaseAlone | src/client/pool.rs:365-379 | left alone from there, the thread ends with the queue, counter, sweep time and expired sessions of `SessionPool.Return` |
| PoolSteps.ReleaseAloneWhenClosed | src/client/pool.rs:366-371 | in a closed pool the session is only counted off |
| PoolSteps.AcquireAlone | src/client/pool.rs:209-253 | left alone, an acquire ends its lock-held stretch where `SessionPool.Pass` does, with the step that stretch calls for next |
| PoolSteps.CloseAlone | src/client/pool.rs:307-313 | left alone, a close ends where `SessionPool.Close` does, on its way to wake everybody |
| PoolSteps.LostSessionIsCountedOff | src/client/pool.rs:237-241 | a dead session, a failed open and a failed hand-out each take exactly one off the counter and then notify |
| PoolSteps.SessionsChangeHands | src/client/pool.rs:333-379 | a dropped guard releases its own session, a hand-out holds the session taken, an open makes a new one |
| PoolSteps.HintedSessionLeavesTheRest | src/client/pool.rs:284-291 | a device hint takes one entry out of the queue and leaves the others in order and the counter alone |
| PoolSteps.NotificationWakesOne | src/client/pool.rs:379-379 | one sleeper is woken when there is one, and nothing else changes |
| PoolSteps.CloseWakesAll | src/client/pool.rs:317-317 | every sleeper is woken, and nothing else changes |
| PoolSteps.DeadlineIsSetOnce | src/client/pool.rs:206-258 | the deadline is the time of the call and the timeout, and neither a sweep nor a wait moves it |
| PoolSteps.FullPoolMeansWaiting | src/client/pool.rs:245-258 | at a full pool a thread gives up exactly when its deadline has come and sleeps otherwise; either way it unlocks |
| Pools.OverAgeIsTheHead | src/client/pool.rs:189-191 | in the queue, the sessions idle too long are exactly those at its head |
| Pools.ExpirableIsMost | src/client/pool.rs:185-194 | what a sweep may remove is all over age, and it stops only at a young session or at the minimum size |
| Pools.FirstLiveIff | src/client/pool.rs:223-243 | acquire takes the oldest live session; without one it grows exactly while the counter, dead sessions taken off, is below the maximum |
| Pools.SessionPool.SweepIdle | src/client/pool.rs:177-200 | an ungated sweep removes exactly the k oldest, k the smaller of the over-age count and the room above the minimum; a gated one nothing |
| Pools.SweepAlone | src/client/pool.rs:177-200 | the sweep of the step machine, left alone, comes to its end and has removed exactly those sessions |
| Pools.SessionPool.Pass | src/client/pool.rs:212-253 | one lock-held stretch: closed, a sweep that removed something and starts over, the first live idle session, a slot to grow into, or full |
| Pools.SessionPool.Acquire | src/client/pool.rs:206-253 | stretches repeat while they sweep; in all only over-age sessions leave, oldest first and never below the minimum, and the rest of the queue decides |
| Pools.SessionPool.Return | src/client/pool.rs:353-379 | a returned session goes behind all others and the sweep follows; a closed pool keeps nothing |
| Pools.SessionPool.Close | src/client/pool.rs:307-318 | closing hands back every idle session and takes them off the counter |
| Pools.New | src/client/pool.rs:130-156 | a pool is built exactly when minimum is within maximum and every eager open succeeds, and is then an initial state of the step machine |

## Left out

- Thrift stubs, TCP, TLS, certificate loading: replaced by outcomes of connects and calls; `TSStatus` and `TEndPoint` are plain datatypes.
- Real clocks, sleeping between reconnect passes and log calls: time is a natural number given to each step.
- Text of client and decode errors: the kind and reason are kept, the formatted message is not.
- Scheduler and condition-variable fairness: only safety is claimed for wake-ups; a sleeping thread may also wake for no reason at any time.
- The pool's current database and its `USE` replay on hand-out: only whether the replay succeeds is a step of the machine.
- Which idle session the device hint selects: any live one may be taken; whether it is still on the hinted endpoint after a `USE` replay is not claimed.
- Allocation limits and counts too large for memory: lengths are mathematical, and sequence numbers and the endpoint counter do not wrap.
- Result sets after an error: what the stream yields after a failed block or page is not stated.
- `insert_tablet`, `insert_record` and `insert_records` as session methods: their requests are modelled (`Inserts`), and they are sent as `SendWrite` sends.
- `TableSession`, `TableSessionPool`, the builders, configuration defaults and tables of codes: thin wrappers and easy members.
- Unmodelled request fields (fetch size, query timeout, zone, user, password, dialect): constants of a session that no branch depends on.
- Tablet columns of type VECTOR or UNKNOWN with rows: the writer would reach unreachable code on a null there, so a tablet with rows must have insertable columns to be serialized.
- Sessions.Session.Authenticate: a protocol version other than the expected one only logs a warning in the program and is not modelled.
- Pools.SessionPool.Acquire: with nobody else at work; the waiting, and the RPCs between lock-held stretches, are steps of `PoolMachine`.
