# Verified model of asyncmy

asyncmy is an asyncio driver for MySQL and MariaDB. These Dafny files model the parts of it that hold
state or arithmetic and prove what they promise. The server's side of each exchange (frames, result
sets, row images, binary JSON, packed decimals, parameter decoding, string literals) is written down
separately, from the protocol's own rules, and the driver's code is proved to invert it.

- **Receive path**: `Framing`, `ResultSets`, `TextRows` and `BinaryRows` say what a byte stream means;
  `Receive` and `Results` have the classes with the compacting, growing and shrinking buffer, the
  reassembly loop, the bulk loops and the row loops; `Cursors` has the buffered and unbuffered cursors.
- **Pool**: `Pool` is a transition system with one step per stretch between two awaits, `PoolSteps` says what
  single steps do for those who ask, and `ConnectionPool` is the object: each method is proved to be a step.
- **GTIDs**: `Intervals`, `GtidText`, `GtidCodec` and `Gtids` relate sorted interval lists, their text and
  their bytes to plain sets of transaction numbers.
- **Binlog**: `BinLogPacket` is the cursor with bytes put back; `BinaryJson`, `BinaryJsonProofs`,
  `BinaryJsonMisread` and `BinaryJsonReader`, `NewDecimal`, `Bitmaps`, `ColumnValues`, `RowEvents` and
  `RowReader` decode row events.
- **Binary parameters**: `BinaryValues` and `BulkRows`.
- **Statements**: `ExecuteMany` (batching), `Placeholders` and `StatementCache`, `Escaping`, `Converters`
  and `ConverterTexts`.
- `Binary`, `Readers`, `DecimalText` and `Calendar` are shared vocabulary.

Methods that update fields or run loops are methods here too; each is proved equal to a specification
function, and the lemmas are about those functions. An exception is an `Error`, `Failed`, `None` or `ok`
result. Check everything with `dafny verify dfyconfig.toml`.

## Where the code falls short

Each is stated with the exact condition under which the code does what it is for.

- A 32-bit integer stored directly in a large JSON array or object has four bytes and is read from eight
  (`asyncmy/replication/packets.py:392-395`): `TableReadIff`, `FlatLargeReadIff`, `SpoiledNeverRead` for
  nested documents, and the failing input `ServedArrayMisread`.
- A date that is neither zero in some part nor real, which a server in ALLOW_INVALID_DATES mode stores,
  raises, in a binary row and in a DATE column of a row event, and takes the whole read with it:
  `ReadBinaryResultSet`, `CellRoundTrip`, `RowsRoundTrip`, and the two lemmas named `FebruaryThirtieth`.
- In row events the YEAR 0000 is read as 1900, the zero TIMESTAMP as the start of 1970 and an empty SET as
  None: `YearZero`, `ZeroTimestamp`, `ZeroTimestamp2`, `EmptySet`, with the condition in `CellRoundTrip`.
- With deprecated EOF packets a text row whose first cell has 2^24 bytes or more is taken for the end of
  the result set: `ReadTextResultSet`.
- `fetchmany(0)` returns nothing on an unbuffered cursor and `arraysize` rows on a buffered one:
  `CountsAgree`.
- `+` and `-` on a GTID without intervals raise, because they copy it through its text: `OperatorsSound`,
  `StrOfNothing`. `decode(encode(g))` is `g` only for lower-case source ids: `DecodeEncode`. An empty
  interval keeps the list in form only next to another one, and subtracting one inside another splits it:
  `AddedEmpty`, `RemovedEmpty`.
- The loop over the rows of an event with no column present in any image would never end: `EmptyBitmapStalls`.
- Bulk rows with integers above 2^63 - 1 arrive as other numbers: `BulkRoundTripIff`.
- Bytes, and strings inside sequences, are escaped with backslashes even where the server does not read
  them: `TableFormIff`.

## Model

| member | source | states |
|---|---|---|
| Framing.ReadEncoded | asyncmy/connection.pyx:1034-1088 | Reading the frames of any payload, with any starting sequence number and any bytes behind them, gives back the payload and stops right behind it with the next sequence number |
| Framing.ErrorsAreRaised | asyncmy/connection.pyx:1083-1088 | A reply that begins with the byte 255 is raised as that server error, whatever its length; any other is returned |
| Framing.CutOff | asyncmy/connection.pyx:1042-1080 | A stream that ends anywhere inside a packet, split or not, has lost the connection |
| Framing.OutOfSequence | asyncmy/connection.pyx:1053-1063 | A packet with any other sequence number than the expected one is not returned: number 0 is a lost connection, any other is reported |
| Framing.CommandRoundTrip | asyncmy/connection.pyx:1034-1088 | A command byte and any body, framed from sequence number 0, are reassembled by the reader, which ends at the number of frames mod 256 |
| Framing.WireAt | asyncmy/connection.pyx:1155-1181 | Frame i carries sequence number (first + i) mod 256; all frames but the last are full and the last is shorter, possibly empty |
| Framing.WiresCarryPayload | asyncmy/connection.pyx:1155-1181 | The frames carry the payload, nothing lost, repeated or reordered |
| Framing.WiresCount | asyncmy/connection.pyx:1155-1181 | There are length / (2^24 - 1) + 1 frames, so a payload of an exact multiple is followed by an empty frame |
| ResultSets.ReadRowsEncoded | asyncmy/connection.pyx:1870-1894 | For any row parser, reading a served stream returns its rows, end status, position and sequence number if and only if no row packet looks like a terminating one |
| ResultSets.ReadRowsAllOrNone | asyncmy/connection.pyx:1870-1894 | When no row looks like a terminating packet, reading returns all rows if every one is well formed and raises if one is not |
| ResultSets.ReadRowsFails | asyncmy/connection.pyx:1870-1894 | An error packet behind any number of rows is raised as exactly that error |
| ResultSets.DiscardFails | asyncmy/connection.pyx:1690-1711 | An error packet among the packets to discard is raised as exactly that error |
| ResultSets.MoreResultsBit | asyncmy/connection.pyx:1786-1807 | Another result set follows when the bit of value 8 is set in the status word |
| ResultSets.BulkRefinesReading | asyncmy/protocol.pyx:103-138 | From any buffer and any tail, the bulk loop followed by reading on equals packet-at-a-time reading from the start; a row that does not parse fails both |
| ResultSets.BulkSkipRefinesDiscard | asyncmy/protocol.pyx:364-391 | Skipping in bulk and then discarding the rest packet by packet equals discarding all of them packet by packet, including where it fails |
| ResultSets.DiscardEncoded | asyncmy/connection.pyx:1690-1711 | Discarding as many packets as were sent leaves the stream and the sequence number right behind them |
| TextRows.LengthEncodedRoundTrip | asyncmy/protocol.pyx:856-874 | The head of a cell is read as the length the server encoded, at any position |
| TextRows.ParseTextRow | asyncmy/protocol.pyx:33-100 | The left-to-right loop fills the row exactly as the cell-by-cell specification |
| TextRows.ParseEncodedTextRow | asyncmy/protocol.pyx:33-100 | Any row of NULLs and values below 2^64 bytes is parsed back, each value through its own converter |
| TextRows.TextRowLooks | asyncmy/connection.pyx:1786-1807 | A text row is never taken for an error packet, and for the end of the result set exactly when EOF is deprecated and its first cell has 2^24 bytes or more |
| TextRows.ReadTextResultSet | asyncmy/connection.pyx:1870-1894 | A text result set is read back exactly when EOF packets are in use or every first cell is below 2^24 bytes |
| TextRows.EofPacketParses | asyncmy/connection.pyx:1786-1807 | An EOF packet is recognised and its warning count and status are read |
| TextRows.OkEndPacketParses | asyncmy/connection.pyx:1786-1807 | A terminating OK packet with header 0xFE is recognised and its warning count and status are read behind two length-encoded integers |
| Receive.Protocol.GetBuffer | asyncmy/connection.pyx:192-212 | Keeps the unconsumed bytes, offers at least 4096 bytes, shrinks an empty buffer above 2^20 to 2^18 and otherwise only grows, and when hints never exceed the capacity keeps it within max(2^18, 2 * (peak unconsumed + 4096)); that bound is part of Valid, so it holds over every run |
| Receive.Protocol.BufferUpdated | asyncmy/connection.pyx:214-220 | Counting bytes written behind the data leaves the byte stream as it was |
| Receive.Protocol.Deliver | asyncmy/connection.pyx:214-220 | A delivery of any size, with any hint, changes nothing about the bytes a reader will get |
| Receive.Connection.FillBuffer | asyncmy/connection.pyx:997-1032 | Succeeds exactly when the stream still has the bytes needed, however they are cut into deliveries |
| Receive.Connection.ReadWirePacket | asyncmy/connection.pyx:1042-1067 | One wire packet, or the error of the packet-level specification: lost connection, wrong sequence number |
| Receive.Connection.ReadPacket | asyncmy/connection.pyx:1034-1088 | The reassembly loop returns what the specification reads from the whole stream, and leaves position and sequence number where it does |
| Receive.Connection.WritePacket | asyncmy/connection.pyx:978-995 | Sends one frame and advances the sequence number mod 256 |
| Receive.Connection.ExecuteCommand | asyncmy/connection.pyx:1137-1181 | Sends exactly the frames of command and body, numbered from 0, or nothing when not connected |
| Receive.ParseRowsFromBuffer | asyncmy/protocol.pyx:103-138 | The bulk row loop (text and binary share it) computes the bulk specification on the buffer slice |
| Receive.SkipPacketsFromBuffer | asyncmy/protocol.pyx:364-391 | The bulk skip loop computes the skipping specification on the buffer slice |
| Results.MySQLResult.CheckPacketIsEof | asyncmy/connection.pyx:1786-1807 | Recognises a terminating packet in both protocols and records warnings, status and whether more results follow |
| Results.MySQLResult.TakeBufferedRows | asyncmy/connection.pyx:1876-1884 | Rows taken in bulk from the buffer, put in front of what is still unread, are what was unread before |
| Results.MySQLResult.ReadOneRow | asyncmy/connection.pyx:1887-1891 | One packet more: a row, the end, or an error, with the rest of the stream still to be read |
| Results.MySQLResult.ReadRowdataPacket | asyncmy/connection.pyx:1870-1894 | All rows of the stream in order, the status of the terminating packet, and position and sequence number right behind it; or the error |
| Results.MySQLResult.SkipBufferedPackets | asyncmy/connection.pyx:1696-1706 | Skipping what is buffered leaves as many packets to discard as are missing |
| Results.MySQLResult.ConsumeDescriptions | asyncmy/connection.pyx:1690-1711 | Discards exactly the column definitions, and the EOF packet unless it is deprecated |
| Results.MySQLResult.ReadRowUnbuffered | asyncmy/connection.pyx:1814-1858 | Hands out the rows still to come one by one, from the pending list or the wire, and None at the end |
| Results.MySQLResult.FinishUnbufferedQuery | asyncmy/connection.pyx:1860-1868 | After any number of rows were fetched, leaves the stream where a full read would have |
| Results.ReadServedTable | asyncmy/connection.pyx:1870-1894 | End to end: any table served in any deliveries through the compacting, growing, shrinking buffer is returned row for row |
| Cursors.CountsAgree | asyncmy/cursors.pyx:443-472 | Buffered and unbuffered cursors hand out the same number of rows on every operation except fetchmany(0), where they differ |
| Cursors.AskedForOrLeft | asyncmy/cursors.pyx:443-472 | Every fetch hands out as many rows as it was asked for, or all that are left: one, the size given, the array size when none is given, everything |
| Cursors.Cursor.Many | asyncmy/cursors.pyx:452-460 | The next rows in order, as many as asked for or left |
| Cursors.SSCursor.Many | asyncmy/cursors.pyx:647-660 | The same on an unbuffered result, stopping early at its end |
| Cursors.FetchSame | asyncmy/cursors.pyx:620-660 | One fetch on a buffered and an unbuffered cursor over the same rows yields the same rows |
| Cursors.FetchFromBoth | asyncmy/cursors.pyx:620-660 | Any mix of fetches yields the same row lists on both, which concatenate to the rows served, and finishing still leaves the stream behind the result |
| Pool.NextKeeps | asyncmy/pool.pyx:62-208 | Every step between two awaits, by any task, keeps the invariant: bookkeeping disjoint and counted, nobody stranded, the sweep covered |
| Pool.RunKeeps | asyncmy/pool.pyx:62-208 | So does every interleaving of any length |
| Pool.PoolSafety | asyncmy/pool.pyx:54-60 | In every reachable state free, used and terminated are disjoint and free + used + connecting is at most the maxsize given |
| Pool.RunLimits | asyncmy/pool.pyx:48-60 | The limits are those the pool was made with, in every reachable state |
| Pool.ReleaseNeverEvicts | asyncmy/pool.pyx:184-208 | A released connection is appended to the bounded deque without evicting another |
| Pool.ReleaseIs | asyncmy/pool.pyx:184-208 | Any release in any reachable state, field by field: a connection in use leaves and wakes somebody, and is free again only if it is connected, outside a transaction and the pool open; a terminated one is only forgotten; an unknown one changes nothing |
| Pool.DirtyNeverReused | asyncmy/pool.pyx:195-205 | A connection that came back disconnected, inside a transaction or to a closing pool is never free or in use again, whatever happens afterwards |
| Pool.NoStrandedAcquirer | asyncmy/pool.pyx:121-182 | In an open pool with a parked acquirer, maxsize minus connections in use is at most wakeups pending plus acquirers awake; at rest, all maxsize connections are in use |
| Pool.InternalCloser | asyncmy/pool.pyx:121-182 | Every step the pool takes on its own makes a measure smaller: no livelock |
| Pool.NoDeadlock | asyncmy/pool.pyx:121-182 | Whenever the pool is not at rest some internal step can be taken |
| Pool.EveryAcquirerAnswered | asyncmy/pool.pyx:121-208 | From every reachable state of an open pool, under every schedule of internal steps, the pool comes to rest with nobody parked or with all connections in use |
| Pool.SweepNeverRaises | asyncmy/pool.pyx:134-154 | The sweep of an open pool never takes from an empty deque, whatever happens between its awaits |
| Pool.SweepIsSwept | asyncmy/pool.pyx:134-154 | An uninterrupted sweep ends in the one-pass specification, or stops at an await with the rest still to do |
| Pool.SweepKeepsHealthyInOrder | asyncmy/pool.pyx:134-154 | A full sweep keeps exactly the healthy connections in their order |
| Pool.WholeSweepKeepsHealthy | asyncmy/pool.pyx:134-156 | A whole sweep, over however many awaits with nothing else happening between them, leaves exactly the healthy connections in their order and goes on to fill the pool |
| PoolSteps.NobodyLost | asyncmy/pool.pyx:121-182 | In an open pool every step of an acquirer hands it one connection or leaves it waiting; only a failed connect takes it away |
| PoolSteps.NoneLost | asyncmy/pool.pyx:62-208 | Connections come in by connecting only, one at a time and new, and go only when they are broken, expired, dirty, cleared or terminated |
| PoolSteps.WhatAnAcquirerGets | asyncmy/pool.pyx:121-182 | An acquirer first tops the pool up to its minimum, then gets the connection that has been free longest, connects if there is none and the limit allows it, and waits otherwise |
| PoolSteps.ParksOnlyWhenFull | asyncmy/pool.pyx:121-182 | Somebody starts to wait only when all maxsize connections are in use |
| PoolSteps.Prefilled | asyncmy/pool.pyx:156-168 | A new pool has exactly minsize connections open and free after as many connects |
| PoolSteps.ClearsAll | asyncmy/pool.pyx:62-69 | clear() without interference closes every free connection, notifies one waiter and changes nothing else |
| ConnectionPool.ConnectionPool.Acquire | asyncmy/pool.pyx:121-133 | The method up to its first await is the transition system's step |
| ConnectionPool.ConnectionPool.FillFreePool | asyncmy/pool.pyx:134-178 | The same for filling the pool |
| ConnectionPool.ConnectionPool.ConnectDone | asyncmy/pool.pyx:156-178 | The same for a connect that succeeds or raises |
| ConnectionPool.ConnectionPool.Release | asyncmy/pool.pyx:184-208 | The same for release, on every path |
| ConnectionPool.ConnectionPool.Terminate | asyncmy/pool.pyx:80-92 | The same for terminate |
| Intervals.AddedSound | asyncmy/replication/gtid.py:46-71 | Adding a non-empty interval raises exactly when it overlaps; otherwise the list stays sorted, non-empty, disjoint and merged, and denotes the union |
| Intervals.AddedEmpty | asyncmy/replication/gtid.py:46-71 | Adding an empty interval is refused exactly inside an interval of the list; elsewhere it is accepted and keeps that form exactly when it touches one |
| Intervals.RemovedEmpty | asyncmy/replication/gtid.py:73-94 | Subtracting an empty interval takes nothing away, but keeps that form exactly when it is not inside an interval, which it splits in two |
| Intervals.BackwardsRefused | asyncmy/replication/gtid.py:46-94 | An interval that ends before it begins is refused |
| Intervals.RemovedSound | asyncmy/replication/gtid.py:73-94 | Subtracting a non-empty interval never raises, keeps the form and denotes the difference |
| Intervals.ApplyAllSound | asyncmy/replication/gtid.py:46-94 | After any sequence of additions and subtractions the list is in that form and denotes what the same operations make of a plain set of numbers |
| Intervals.CanonicalUnique | asyncmy/replication/gtid.py:208-211 | The form is unique: equal lists are equal sets, so == decides set equality |
| Intervals.AddThenRemove | asyncmy/replication/gtid.py:117-140 | Adding a disjoint list and subtracting it again gives the list back, and adding is commutative |
| Intervals.ContainsAllIsInclusion | asyncmy/replication/gtid.py:96-102 | Every interval is contained in one of the list if and only if every transaction is |
| GtidText.ParseStr | asyncmy/replication/gtid.py:18-44 | Printing and parsing gives a GTID with at least one interval back |
| GtidText.StrOfNothing | asyncmy/replication/gtid.py:142-151 | The text of a GTID without intervals does not parse |
| GtidText.ParseIff | asyncmy/replication/gtid.py:18-44 | A text parses exactly when it is a source id and, after colons, one or more intervals written as a number or as first-last; and as what it spells |
| GtidText.FinalNewline | asyncmy/replication/gtid.py:18-44 | One newline at the end of a text is ignored |
| GtidCodec.SidRoundTrip | asyncmy/replication/gtid.py:166-180 | A source id survives the sixteen bytes, in lower case |
| GtidCodec.DecodeEncode | asyncmy/replication/gtid.py:157-206 | Decoding what was encoded takes exactly encoded_length bytes and gives the GTID back if and only if its source id is in lower case |
| GtidCodec.DecodeEncodeSet | asyncmy/replication/gtid.py:281-295 | The same for sets of GTIDs with lower-case ids |
| GtidCodec.EncodedLayout | asyncmy/replication/gtid.py:166-180 | Every byte of the source id, the count and every bound stand where the dump command has them, in eight bytes low byte first |
| GtidCodec.EncodeRaises | asyncmy/replication/gtid.py:166-180 | Encoding raises exactly when a number does not fit into 64 bits |
| GtidCodec.EncodeGtid | asyncmy/replication/gtid.py:166-180 | The encoding loop writes the specified bytes or fails |
| GtidCodec.ReadIntervals | asyncmy/replication/gtid.py:182-206 | The decoding loop reads the specified intervals or fails |
| Gtids.Gtid.AddInterval | asyncmy/replication/gtid.py:46-71 | The loops that absorb touching intervals in place compute the specification |
| Gtids.Gtid.SubInterval | asyncmy/replication/gtid.py:73-94 | The loops that cut and re-insert compute the specification |
| Gtids.Gtid.Add | asyncmy/replication/gtid.py:117-128 | a + b copies a through its text and adds b's intervals, or raises |
| Gtids.Gtid.Subtract | asyncmy/replication/gtid.py:130-140 | a - b copies a through its text and subtracts b's intervals if the source is the same, or raises |
| Gtids.OperatorsSound | asyncmy/replication/gtid.py:117-140 | Over pairs of source and transaction: + raises exactly when the sources differ, a has no intervals or the two share a transaction, - exactly when a has none; otherwise they are union and difference, and subtracting another source takes nothing |
| Gtids.PlusThenMinus | asyncmy/replication/gtid.py:117-140 | (a + b) - b = a and a + b = b + a for disjoint operands with intervals |
| Gtids.IncludesIsInclusion | asyncmy/replication/gtid.py:96-102 | in is inclusion of the transactions of the same source |
| Gtids.GtidSet.MergeGtid | asyncmy/replication/gtid.py:243-252 | The merging loop computes the specification or raises |
| Gtids.MergedSound | asyncmy/replication/gtid.py:243-252 | A merge that does not raise denotes the union, source by source, and keeps every GTID in canonical form |
| Gtids.MergeableIff | asyncmy/replication/gtid.py:243-252 | Merging does not raise if and only if no transaction of the GTID is in the set already |
| Gtids.MergedOnePerSource | asyncmy/replication/gtid.py:243-252 | A set with one GTID per source keeps that |
| Gtids.GtidSet.AddSet | asyncmy/replication/gtid.py:261-273 | The loop of set + set merges the other set's GTIDs one by one into a copy, or raises |
| Gtids.MergeAllSound | asyncmy/replication/gtid.py:261-273 | set + set raises exactly when the two share a transaction; otherwise it denotes the union, in canonical form with one GTID per source |
| Gtids.SumIgnoresOrder | asyncmy/replication/gtid.py:261-273 | The order in which the other set is enumerated makes no difference |
| Gtids.SetIncludesIsInclusion | asyncmy/replication/gtid.py:254-259 | With one GTID per source, membership of a GTID in a set is inclusion of its transactions |
| BinLogPacket.Packet.Read | asyncmy/replication/packets.py:142-152 | Reads from the bytes put back first and then from the packet, counting what it takes |
| BinLogPacket.Packet.Unread | asyncmy/replication/packets.py:154-156 | Puts bytes behind those already waiting and keeps read bytes plus bytes to come unchanged |
| Readers.UIntRoundTrip | asyncmy/replication/packets.py:273-312 | Little-endian integers of every width are read back |
| Readers.IntRoundTrip | asyncmy/replication/packets.py:259-312 | So are two's complement ones |
| BinaryJsonProofs.DocumentRoundTrip | asyncmy/replication/packets.py:346-477 | The parser inverts the server's serialiser on every nested document in which no large container holds a 32-bit integer directly, at any depth, taking exactly its bytes though it ignores all offsets |
| BinaryJsonProofs.JsonColumnRoundTrip | asyncmy/replication/packets.py:338-344 | The same for a column value with its length, read, put back and read again |
| BinaryJsonProofs.TableReadIff | asyncmy/replication/packets.py:466-477 | A value table is read as the server wrote it if and only if it is small or holds no 32-bit integer: those have four bytes and are read from eight |
| BinaryJsonProofs.FlatLargeReadIff | asyncmy/replication/packets.py:379-397 | A large container of inlined values is read back if and only if it holds no 32-bit integer |
| BinaryJsonProofs.LargeArrayOf70000 | asyncmy/replication/packets.py:379-397 | A small byte string on which it fails: [70000] in the large form, which a server uses only for longer arrays, raises at the end of a packet |
| BinaryJsonMisread.SpoiledNeverRead | asyncmy/replication/packets.py:346-477 | For every document a server can store, nested as it may be: when the first misread integer in reading order has an entry behind it in its table that is no small object, the document is never read as its value, whatever follows |
| BinaryJsonMisread.SpoiledColumnNeverRead | asyncmy/replication/packets.py:338-344 | The same for a column value with its length |
| BinaryJsonMisread.TableWrong | asyncmy/replication/packets.py:466-477 | Then the integer in the table is read as another number |
| BinaryJsonMisread.WrongInteger | asyncmy/replication/packets.py:379-397 | Because a type byte from 1 to 254 behind the four bytes of the integer becomes part of it |
| BinaryJsonMisread.ServedArrayMisread | asyncmy/replication/packets.py:379-397 | An array a server does send: 9362 times 70000 does not fit the small form, and in the large one it is never read back |
| BinaryJsonMisread.LastIntegerReadRight | asyncmy/replication/packets.py:379-397 | With the integer last in its table no condition on the document decides: any number of empty strings and then 70000 comes out right when four zero bytes follow, and takes them |
| BinaryJsonProofs.KeyTableRoundTrip | asyncmy/replication/packets.py:410-431 | The lengths of the keys are read back, their offsets skipped |
| BinaryJsonProofs.FillDictDistinct | asyncmy/replication/packets.py:433-442 | With distinct keys the dict has every member in order |
| BinaryJsonProofs.VariableLengthRoundTrip | asyncmy/replication/packets.py:243-257 | A length in groups of seven bits is read back |
| BinaryJsonReader.ReadVariableLength | asyncmy/replication/packets.py:243-257 | The shifting loop computes that length and ends |
| BinaryJsonReader.ReadBinaryJsonType | asyncmy/replication/packets.py:346-377 | The recursive method reads what the specification reads, and ends because the bytes left get fewer |
| BinaryJsonReader.ReadBinaryJsonObject | asyncmy/replication/packets.py:399-442 | The same for objects: header, key table, value table, names, values |
| BinaryJsonReader.ReadBinaryJsonArray | asyncmy/replication/packets.py:444-464 | The same for arrays |
| BinaryJsonReader.ReadOffsetOrInline | asyncmy/replication/packets.py:466-477 | The same for one entry of a value table |
| BinaryJsonReader.ReadBinaryJson | asyncmy/replication/packets.py:338-344 | The same for a column value, with the bytes put back counted |
| NewDecimal.NewDecimalRoundTrip | asyncmy/replication/row_events.py:377-424 | For every precision, scale, sign and digit string, the value read has the stored sign, digits and scale and is what the number's text denotes, and exactly its bytes are taken |
| NewDecimal.PartRoundTrip | asyncmy/replication/row_events.py:404-422 | A group of up to nine digits is read back from its big-endian, possibly inverted bytes |
| NewDecimal.TableAgrees | asyncmy/replication/row_events.py:385 | The reader's table of group sizes is the storage rule: half as many bytes as digits, rounded up, and at most four |
| NewDecimal.TopOfMagnitude | asyncmy/replication/row_events.py:395-403 | The top bit is free for the sign, whichever group comes first |
| NewDecimal.ReadNewDecimal | asyncmy/replication/row_events.py:377-424 | The method with its put-back sign byte and its loops over groups computes the specification |
| ColumnValues.CellRoundTrip | asyncmy/replication/row_events.py:132-213 | Any value the server stores in a supported column type is read back with exactly its bytes taken if it is readable: no impossible DATE, no year 0000, no zero TIMESTAMP, no empty SET, no JSON with a misread integer. Any other one raises or is read as something else |
| ColumnValues.DayServed | asyncmy/replication/row_events.py:308-323 | A DATE with a zero part is None, a real one is itself, any other raises |
| ColumnValues.FebruaryThirtieth | asyncmy/replication/row_events.py:308-323 | The DATE 2023-02-30 raises |
| ColumnValues.YearZero | asyncmy/replication/row_events.py:189-190 | The YEAR 0000 is read as 1900 |
| ColumnValues.ZeroTimestamp | asyncmy/replication/row_events.py:171-172 | The zero TIMESTAMP is read as the start of 1970 |
| ColumnValues.ZeroTimestamp2 | asyncmy/replication/row_events.py:179-183 | So is the zero TIMESTAMP with fractions |
| ColumnValues.EmptySet | asyncmy/replication/row_events.py:193-200 | A SET value with no member is read as None |
| ColumnValues.MomentRoundTrip | asyncmy/replication/row_events.py:349-375 | DATETIME2 with any number of fraction digits; dates datetime does not have are None |
| ColumnValues.FspRoundTrip | asyncmy/replication/row_events.py:225-238 | Fractions of 0 to 6 digits are scaled back to microseconds |
| ColumnValues.BitsRoundTrip | asyncmy/replication/row_events.py:252-273 | A BIT value of any width is read as its binary digits |
| ColumnValues.BinaryTextDenotes | asyncmy/replication/row_events.py:252-273 | Those digits denote the value in base two |
| ColumnValues.SelectedIsChosen | asyncmy/replication/row_events.py:193-201 | A SET value is read as exactly the chosen members |
| ColumnValues.CellShrinks | asyncmy/replication/row_events.py:132-213 | Reading a cell never leaves more bytes than before, even where bytes are put back |
| Bitmaps.BitmapGet | asyncmy/replication/bitmap.py:271-275 | bit_get finds every flag of a bitmap |
| Bitmaps.BitmapCount | asyncmy/replication/bitmap.py:261-268 | bit_count counts the flags of a bitmap with zero padding |
| Bitmaps.CountBits | asyncmy/replication/bitmap.py:261-268 | The counting loop computes that |
| RowEvents.ImageRoundTrip | asyncmy/replication/row_events.py:109-213 | For any columns-present bitmap and any NULLs, a row image of readable cells is read back as the server's cells; with distinct column names, one with an unreadable cell never is |
| RowEvents.ClientValuesLook | asyncmy/replication/row_events.py:109-213 | With distinct names the dict has exactly the columns, each with its own cell, None for NULL and for columns not present |
| RowEvents.RowsRoundTrip | asyncmy/replication/row_events.py:439-446 | Any list of written, deleted or updated rows of readable cells, with at least one column present, is read back, and reading stops exactly at the event's size, whatever follows; with an unreadable cell in any row the rows served never come out |
| RowEvents.RowShrinks | asyncmy/replication/row_events.py:439-446 | Every row takes at least one byte, which ends the loop |
| RowEvents.EmptyBitmapStalls | asyncmy/replication/row_events.py:439-446 | The condition is exact: with no column present in any image a row takes nothing and the loop would never end |
| RowReader.ReadBit | asyncmy/replication/row_events.py:252-273 | The bit loops compute the digits |
| RowReader.ReadColumnData | asyncmy/replication/row_events.py:109-213 | The column loop over both bitmaps computes the specification |
| RowReader.FetchAllRows | asyncmy/replication/row_events.py:439-446 | The row loop computes the specification; read bytes plus bytes to come are conserved |
| RowReader.ReadServedEvent | asyncmy/replication/row_events.py:439-446 | End to end on a packet: the rows served, and read_bytes equal to event_size at the end, with any checksum behind, if all cells are readable; otherwise it raises or returns other rows |
| BinaryValues.ExecuteRoundTrip | asyncmy/protocol.pyx:593-723 | By the protocol's layout the server decodes a COM_STMT_EXECUTE payload to the same arguments, and null bit i is set exactly for None at i |
| BinaryValues.NoneTyped | asyncmy/protocol.pyx:616-620 | A None goes out with type 6 and no flag |
| BinaryValues.PackRaises | asyncmy/protocol.pyx:593-723 | Packing raises exactly when some integer needs more than 64 bits |
| BinaryValues.ValueRoundTrip | asyncmy/protocol.pyx:459-545 | Each value appended is decoded to its meaning, whatever follows: both integer ranges, texts of any length class, dates, times |
| BinaryValues.SplitTotal | asyncmy/protocol.pyx:508-531 | Borrowing for negative timedeltas keeps the duration and leaves components in range |
| BinaryValues.BitmapSet | asyncmy/protocol.pyx:613-617 | Or-ing a bit into the null bitmap sets that flag and no other |
| BinaryValues.AppendBinaryValue | asyncmy/protocol.pyx:459-545 | The branches append the specified bytes or raise |
| BinaryValues.PackBinaryParams | asyncmy/protocol.pyx:593-723 | The loop builds bitmap, types and values as specified |
| BinaryValues.LengthRoundTrip | asyncmy/protocol.pyx:394-415 | A length-encoded integer in any of its four forms is read back |
| BinaryRows.BinaryRowRoundTrip | asyncmy/protocol.pyx:141-333 | A row of integers of all widths and signs, floats, texts, dates and times in the shortest form the protocol has for them is parsed back, and everything the client itself can send; it raises if and only if a date in it is neither zero in some part nor real |
| BinaryRows.CellRecovered | asyncmy/protocol.pyx:166-333 | The same for one value of a column of the matching type |
| BinaryRows.MomentServed | asyncmy/protocol.pyx:217-245 | DATETIME and TIMESTAMP in 0, 4, 7 or 11 bytes: None for a zero part, the moment for a real date, and an exception otherwise |
| BinaryRows.DayServed | asyncmy/protocol.pyx:246-261 | DATE and NEWDATE in 0 or 4 bytes likewise |
| BinaryRows.TimeServed | asyncmy/protocol.pyx:262-286 | TIME in 0, 8 or 12 bytes, up to 838 hours and negative ones, comes back with the same duration |
| BinaryRows.AnyMoment | asyncmy/protocol.pyx:217-245 | For any 4, 7 or 11 bytes whatever: where each part stands, None for a date out of range, the moment if it exists, and an exception otherwise |
| BinaryRows.AnyDay | asyncmy/protocol.pyx:246-261 | For any 4 bytes of a DATE likewise |
| BinaryRows.AnyTime | asyncmy/protocol.pyx:262-286 | For any 8 or 12 bytes of a TIME: where each part stands, the sign, and an exception beyond 999999999 days |
| BinaryRows.FebruaryThirtieth | asyncmy/protocol.pyx:217-261 | The bytes of 2023-02-30, which a server in ALLOW_INVALID_DATES mode sends, raise in a date column of any type |
| BinaryRows.DeltaRecovered | asyncmy/protocol.pyx:262-287 | A timedelta that the client itself sent, negative ones included, comes back with the same duration |
| BinaryRows.ParseRow | asyncmy/protocol.pyx:141-333 | The left-to-right loop over positions computes the specification |
| BinaryRows.ReadBinaryResultSet | asyncmy/protocol.pyx:336-361 | A binary result set is read back if and only if every date in it is zero in some part or real, and raises otherwise; its rows never look like a terminating packet |
| BulkRows.PackBulkRows | asyncmy/protocol.pyx:548-590 | Falls back exactly when some row has the wrong length or some column has no type of its own; otherwise sends those types and the rows, or raises |
| BulkRows.TypesUnique | asyncmy/protocol.pyx:562-581 | The columns' types are determined by the rows |
| BulkRows.BulkRoundTripIff | asyncmy/protocol.pyx:548-590 | The server reads back the rows that were meant if and only if no integer is above 2^63 - 1, because the types carry no unsigned flag |
| ExecuteMany.BatchesSplit | asyncmy/cursors.pyx:332-379 | The batches hold every row once, in order, and a statement with more than one row is within max_stmt_length |
| ExecuteMany.StatementLists | asyncmy/cursors.pyx:352-377 | A statement is the prefix, the rows in order with one comma between any two, and the postfix |
| ExecuteMany.TotalAdds | asyncmy/cursors.pyx:354-379 | The row counts are summed, each once |
| ExecuteMany.BatchesAreFewest | asyncmy/cursors.pyx:356-371 | No order-preserving split into such statements has fewer of them |
| ExecuteMany.StaysAhead | asyncmy/cursors.pyx:356-371 | The greedy loop against any other split, from any point on: never more batches to come than the other |
| ExecuteMany.Cursor.DoExecuteMany | asyncmy/cursors.pyx:332-379 | The loop over parts and lengths executes exactly the statements of those batches and sums the row counts |
| Placeholders.MarkersCount | asyncmy/connection.pyx:113-141 | A converted query has one marker per %s besides the query's own question marks |
| Placeholders.PyformatToQmark | asyncmy/connection.pyx:113-141 | The find loop computes what Python would make of the query with ? for every argument, or rejects it |
| StatementCache.LruStep | asyncmy/connection.pyx:782-815 | One use of a key on the n most recently used: it moves to the end or comes in, and the least recently used goes when there are too many |
| StatementCache.RecentOrdered | asyncmy/connection.pyx:782-815 | The order of the list is the order of last use |
| StatementCache.Connection.Acquire | asyncmy/connection.pyx:776-816 | Keeps the cache the stmtCacheSize most recently used queries in order, every cached statement open with as many parameters as placeholders, cached and refused queries disjoint, every other statement closed; and says on every path what is returned, prepared, closed and remembered |
| StatementCache.Connection.Insert | asyncmy/connection.pyx:808-816 | Evicts and closes exactly the least recently used statement |
| StatementCache.Connection.Close | asyncmy/connection.pyx:1601-1609 | Closing is idempotent and marks the statement even if sending fails |
| StatementCache.Connection.Reconnect | asyncmy/connection.pyx:880-886 | A new session forgets every cached statement of the old one and keeps the refused queries |
| Escaping.LiteralRoundTrip | asyncmy/connection.pyx:713-716 | By the server's rules, the quoted text of every string ends at its final quote and denotes the string, with backslashes or with doubled quotes |
| Escaping.EscapeString | asyncmy/converters.pyx:131-140 | The fast path and the table path agree |
| Escaping.EscapeForConnection | asyncmy/connection.pyx:713-716 | The mode flag selects the table or the doubled quotes |
| Escaping.TableFormIff | asyncmy/converters.pyx:142-153 | Without backslash escapes, text escaped with the table is read back if and only if nothing in it needs escaping |
| Converters.DatetimeRoundTrip | asyncmy/converters.pyx:203-258 | The bytes fast path reads back every datetime the server writes, with any number of fraction digits |
| Converters.EscapedDatetimeReadsBack | asyncmy/converters.pyx:175-180 | So it does what the driver writes |
| Converters.TimeRoundTrip | asyncmy/converters.pyx:302-355 | The same for times of up to 999 hours, with their sign |
| Converters.EscapedTimedeltaIff | asyncmy/converters.pyx:158-166 | A timedelta's own text is read back by the fast path if and only if it has fewer than 1000 hours |
| Converters.ConvertDatetime | asyncmy/converters.pyx:203-258 | The checks and digit loops compute the fast path's specification |
| Converters.ConvertTimedelta | asyncmy/converters.pyx:302-355 | The same for timedeltas |
| Converters.PFrac | asyncmy/converters.pyx:35-48 | Up to six digits, padded to microseconds, or -1 |
| ConverterTexts.FastDatetimeIff | asyncmy/converters.pyx:203-258 | The fast path takes exactly the texts YYYY-MM-DD HH:MM:SS[.f...], or with a T, of dates and times that exist, as what they denote |
| ConverterTexts.FastTimedeltaIff | asyncmy/converters.pyx:302-355 | The fast path takes exactly the texts [-]H:MM:SS[.f...] with one to three digits for the hours, as what they denote |
| Calendar.MonthLengths | asyncmy/converters.pyx:50-58 | The days of the months add up to the years of the Gregorian calendar |

## Left out

- Sockets, TLS, connecting, the handshake, authentication, timeouts, cancellation of tasks and LOAD DATA: I/O and code outside the repository.
- Starting a command while an unbuffered result is active: a result is taken to be finished before the next command.
- Character decoding, converters of text cells and Python's float: text cells go through an uninterpreted function and floats stay bytes.
- A cursor used before execute() and the errors it raises.
- Growing the receive buffer extends a bytearray in place; the model allocates a larger array and copies.
- The pool's lock hands over in first-in first-out order; the model lets any waiting task run next, which is more than the code does.
- wait_closed() waiting on the condition, and acquirers parked while the pool closes: the liveness results are for open pools.
- BinaryJsonProofs.DocumentRoundTrip: the converse is proved in BinaryJsonMisread, except for documents whose first misread integer stands last in its table or before a small object: those come out right or wrong depending on the bytes behind them, as LastIntegerReadRight and LargeArrayOf70000 show for one and the same document.
- Opaque JSON values, TIME2, and the pre-5.6 TIME and DATETIME column formats.
- Column metadata with more decimals than digits, and columns renamed because they were dropped.
- BIT_COUNT_IN_BYTE is taken to be the number of one bits; the table is not copied.
- BinaryRows.ParseBinaryRow: rows cut off inside a value and date lengths the protocol does not have, which make some branches read past the end of the value, are failures here; day counts of 2^31 or more, which MySQL's TIME does not have, are failures too.
- Cells of 2^63 bytes or more, whose length would overflow the code's signed size.
- The slow paths of convert_datetime and convert_timedelta, dates and times of other shapes, and the text of negative timedeltas.
- GtidSet inside GtidSet (the code tests element membership there) and printing a GTID set, whose order is not determined.
- Rendering `values % args` before batching, and the regular expression that recognises INSERT ... VALUES.
- Evictions of the statement cache while another task is inside the same connection: a connection serves one task.
