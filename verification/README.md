# A verified model of libmongo-client

The project models the five connected cores of libmongo-client, a client library for MongoDB in C, and proves what
they are for: documents that read back as they were built, streams that behave like one flat file, bulk inserts that
keep their order, a failover that ends on the master, cursors that deliver every document once, pools that hand no
connection out twice.  Objects of the library are classes whose methods work step by step as the C functions do; what
they compute is a function of the bytes or of the state, and the main results are lemmas and methods about all
documents, all runs and all failures.

`dafny verify dfyconfig.toml` checks the whole project.

| file | models | main result |
|---|---|---|
| Bytes, Sequences, Arithmetic | byte strings, little-endian integers, C strings, runs of sequences | |
| BsonFormat, BsonUnique | the BSON grammar as value trees, and their encoding | block sizes lead from element to element; different trees never have the same bytes |
| Bson, BsonBuild | the builder: an open or finished byte buffer | every run of calls leaves the document that the run describes |
| BsonCursor, BsonWalk | the cursor, its cyclic search and its getters | building and walking any tree gives it back |
| Wire | packets and replies | packets split back uniquely into what they were built from |
| SyncCursor | the result cursor | every arriving document once, in order |
| BulkInsert | splitting and sending bulk inserts | the limit, progress, and what the server has seen after any failure |
| Failover | topologies and the search of reconnect | exactly when it ends, on any topology; where it ends; what it keeps |
| SyncConnection | reconnecting in place, and the recovery cache | sessions on changing topologies conserve seeds and credentials |
| Pool | distribution, pick and return | balance, and safety over all runs |
| Addresses | printing and parsing of addresses | exactly when parsing undoes printing |
| GridFs, GridFsWriter, GridFsReader, GridFsMeta | chunked upload, stream writer and reader, file document | upload, file document, find, reads and seeks together are a position on one flat byte sequence |
| GridFsDownload, GridFsCount | chunk documents through the result cursor, the number of chunks | a download is the upload; the count survives rounding |

Assumptions, as everywhere in the library: a little-endian host, 64-bit `long`, sizes of documents within `gint32` and
of files within `gint64`, and well-formed documents and packets on the reading side.  A double is its eight bytes.  The
network is a parameter: which addresses can be connected to, whether a node answers a ping and what it says to ismaster,
which packets can be sent and which inserts are stored, which batches a server hands out.

## Where the code is not what it promises

Each of these is proved, with the condition under which the promise holds where there is one.

- Texts are stored with their length but the getters return C strings: a tree reads back whole iff none of its texts,
  at any depth, contains a NUL (`BsonWalk.RoundTrip`, `BsonWalk.VisibleExact`).
- An explicit length of 0 is refused for strings, code and symbols but accepted for scoped code
  (`BsonObject.Bson.AppendText`, `BsonObject.Bson.AppendJavascriptWScope`).
- `bson_cursor_find` on a cursor that has not moved yet takes the size field for an element.  For every document of
  19 to 126 bytes it fails for every non-empty key (`BsonCursors.FreshCursorGivesUp`, `BsonCursors.BsonCursor.Find`), and also
  on `{a: null}` (`BsonCursors.FreshCursorFindFails`); from every element it is right.  src/bson.h says that
  `bson_cursor_find_next` looks past the current key; both searches start with the current element itself.
- The size that finish stores is the real one iff the document is smaller than 2^31 bytes
  (`BsonObject.StoredSizeExact`).
- src/mongo-sync.h promises that a bulk insert is split past the maximum size.  All batches stay below it iff a split
  that respects the limit leaves no single document over; otherwise that document joins the batch before it
  (`BulkInsert.BatchesWithinLimit`, `BulkInsert.OvershootExample`).  Twice the limit is never reached.
- src/mongo-sync.h says that seeds are preferred to discovered hosts.  Reconnect tries the primary, the hosts, then the
  seeds; connecting from a recovery cache tries the primary, the seeds, then the hosts.
- The recursion of a reconnect ends iff the walk from node to node that it makes comes to a master, or without force to
  a node that answers a ping, or nowhere, before it turns in a circle (`Failover.ReconnectEnds`).  Where no node is good
  enough it never ends once anybody can be connected to (`Failover.EndlessWithoutMaster`, `Failover.EndlessExample`).
- A batch whose first document has a null or a string under its error key is dropped as an error reply; a result set
  arrives whole iff no batch is like that, the server keeps the cursor and every reply answers its request
  (`SyncCursors.ArrivingComplete`).
- The same check drops the file document of a GridFS file whose metadata has a null or a string under its error key:
  such a file is stored and never found (`GridFsMeta.MetaReadBackExact`, `GridFsReader.StreamRoundTrip`,
  `GridFsReader.ChunkedRoundTrip`).
- Closing a GridFS stream writes the file document only together with a non-empty tail, and only if there is metadata,
  so otherwise the file cannot be found (`GridFsWriter.UploadStream`); closing succeeds even if the tail was lost
  (`GridFsWriter.StreamWriter.Close`).
- A seek in range fails iff it leads to the very end of a file of full chunks; the reader then has lost its chunk but
  not its position, and goes on with the first chunk and those behind the old number
  (`GridFsReader.StreamReader.Seek`, `GridFsReader.StreamReader.Read`, `GridFsReader.SeekToEndExample`).  A run of
  operations behaves like a position on the flat file iff it does not contain that seek
  (`GridFsReader.StreamReader.RunOps`).
- The start offset of legacy chunks is counted as part of the file offset, so a last byte
  in one of them cannot be read after a seek to it (`GridFsReader.LastByte`).
- A user's own `length` key behind the `_id` shadows the real length of a streamed file; apart from the error check it
  reads back for every file iff there is none (`GridFsMeta.MetaReadBackExact`).  The one-shot uploader puts its `_id`
  last, so there a `length` or an `_id` of the user anywhere does the same (`GridFsMeta.ChunkedReadBackExact`).
- A connection of another pool that is returned frees the connection with its id (`Pools.Pool.Return`).
- src/mongo-sync-pool.h says that connections are picked round-robin; the first free one is taken.  Without an eligible
  host the number of slaves becomes -1 (`Pools.Pool.Create`).
- Parsing undoes printing of an address iff the host is not empty and does not start with a bracket
  (`Addresses.ParsePrinted`).
- The address parser takes an empty port for port 0 (`Addresses.ParseEmptyPort`), does not look at the character behind
  a closing bracket (`Addresses.ParseBracketed`), and skips white space and a plus sign in front of a port
  (`Addresses.ParseLenient`).

## Model

| member | source | states |
|---|---|---|
| BsonFormat.BlockSizeIsLength | src/bson.c:817-860 | for each of the twenty value types of the grammar, the deprecated ones included, the computed block size is exactly the length of the encoding found there |
| BsonFormat.StepToNext | src/bson.c:863-891 | from the start of any element of any well-formed document below 2^31 bytes, type byte, key length and block size lead exactly to the start of the next element |
| BsonFormat.ValueStored | src/bson.c:1008-1252 | the encoding of the value stands right behind the key's NUL, where the getters read |
| BsonFormat.ElementLayout | src/bson.c:863-933 | element offsets cut the document into its element encodings; the first is 4 and the last one is the closing zero byte |
| BsonFormat.ElementBytes | src/bson.h:62-90 | every element byte for byte: the type byte as a number, the key, its NUL and the layout of the value, for all twenty types |
| BsonFormat.DocumentBytes | src/bson.c:521-539 | a document is its whole size, its elements one behind the other and a zero byte |
| Bytes.LittleEndian32 | src/bson.c:60-64 | the four bytes of a 32-bit number, least significant first, add up to it modulo 2^32, negative numbers included |
| Bytes.LittleEndian64 | src/bson.c:71-75 | a 64-bit number is its low half and then its high half, which carries the sign |
| Bytes.SignedReading | src/bson.c:1127-1252 | the getters read four or eight bytes as the two's complement number with the least significant byte first |
| BsonUnique.DocumentUnique | src/bson.c:614-780 | two well-formed documents with the same bytes are the same tree: keys, types, values and order, to any depth |
| BsonUnique.ValueUnique | src/bson.c:614-780 | values of one type with the same encoding are equal, nested documents included |
| BsonObject.RunRenders | src/bson.c:521-780 | every run of appends, finishes and resets on a new object leaves exactly the bytes of the document that the run describes: open, a zero size and the elements; finished, the real size, the elements and one zero byte |
| BsonObject.StepRenders | src/bson.c:521-780 | one call on the bytes is one call on the list of elements; refused appends and appends to a finished object change nothing |
| BsonObject.FinishedIsFrozen | src/bson.c:90-103 | between a finish and the next reset no run of calls changes a byte, a second finish included |
| BsonObject.CloneAndExtend | src/bson.c:269-281 | copying all but the last byte of a finished document, appending elements and finishing gives the document with these elements at the end |
| BsonObject.CloneReproduces | src/bson.c:269-281 | finishing such a copy right away reproduces the document byte for byte |
| BsonObject.StoredSizeExact | src/bson.c:521-539 | the size stored by finish reads back as the real size exactly for documents below 2^31 bytes |
| BsonObject.Bson.constructor | src/bson.c:252-266 | a new object is open and holds four zero bytes |
| BsonObject.Bson.NewFromData | src/bson.c:269-281 | an open copy of the first size bytes; nothing for a size of 0 or less |
| BsonObject.Bson.Finish | src/bson.c:521-539 | appends one zero byte and writes the length over the first four bytes; an already finished object stays as it is |
| BsonObject.Bson.Reset | src/bson.c:566-576 | an open object with four zero bytes again |
| BsonObject.Bson.Size | src/bson.c:542-551 | the real size of a finished object below 2^31 bytes and never more, so copying that many is in bounds; -1 while open |
| BsonObject.Bson.AppendHeader | src/bson.c:90-103 | type, key and NUL are appended unless the object is finished |
| BsonObject.Bson.AppendText | src/bson.c:123-142 | string, code and symbol elements: refused for length 0 or below -1 and on a finished object; otherwise type, key, NUL, length + 1, exactly the first length bytes and a NUL, where for -1 the text is the longest prefix without a NUL |
| BsonObject.Bson.AppendDocumentElement | src/bson.c:162-173 | appends a finished document under the given type; refused if either object is in the wrong state |
| BsonObject.Bson.AppendInt64Element | src/bson.c:185-193 | appends exactly one datetime, timestamp or int64 element |
| BsonObject.Bson.AppendDouble | src/bson.c:614-623 | appends exactly one double element |
| BsonObject.Bson.AppendBinary | src/bson.c:645-659 | refused for a size of 0 or less; the subtype is cut to one byte |
| BsonObject.Bson.AppendOid | src/bson.c:662-672 | appends exactly one ObjectID element |
| BsonObject.Bson.AppendBoolean | src/bson.c:675-682 | appends one boolean element whose value is cut to one byte |
| BsonObject.Bson.AppendNull | src/bson.c:691-694 | appends exactly one null element |
| BsonObject.Bson.AppendRegex | src/bson.c:697-712 | appends exactly one regular expression element with both of its C strings |
| BsonObject.Bson.AppendJavascriptWScope | src/bson.c:729-758 | appends code and any finished object as scope: the whole size, length + 1, exactly the first length bytes or for -1 the longest prefix without a NUL, a NUL and the scope; unlike the other texts a length of 0 is accepted |
| BsonObject.Bson.AppendInt32 | src/bson.c:761-768 | appends exactly one int32 element |
| BsonBuild.AddSingle | src/bson.c:299-445 | adding an element of any type, with the object of its subdocument, is one step of the builder's state machine; types without an append function add nothing |
| BsonBuild.Perform | src/bson.c:521-780 | every call on the object is the step of the state machine whose runs are proved about |
| BsonBuild.Build | src/bson.c:448-518 | building any tree with nested appends and finishes gives exactly the encoding of the tree |
| BsonCursors.BsonCursor.constructor | src/bson.c:786-797 | a new cursor stands before the first element |
| BsonCursors.BsonCursor.Next | src/bson.c:863-891 | moves to the next element exactly if there is one, with its key and value offset; after the last it keeps failing and does not move |
| BsonCursors.BsonCursor.Search | src/bson.c:894-933 | from element boundary to element boundary the scan finds the first element of that name, wrapping over up to exactly the starting element; a scan that starts elsewhere and gives up fails; a failed search leaves the cursor as it was |
| BsonCursors.BsonCursor.Find | src/bson.c:936-943 | from any element: succeeds iff the key occurs, on the first occurrence at or behind the current element, else on the first before it; from a cursor that has not moved yet it fails where the scan gives up |
| BsonCursors.BsonCursor.FindNext | src/bson.c:946-953 | the first occurrence at or behind the current element, the element itself included; no wrapping |
| BsonCursors.BsonCursor.FindFirst | src/bson.c:956-969 | a cursor on the first element of that name, nothing if there is none or the object is open |
| BsonCursors.BsonCursor.StepUntil | src/bson.c:863-969 | stepping with next until the key matches ends where bson_find ends |
| BsonCursors.CyclicFirst | src/bson.c:936-943 | what the cyclic search means: found iff the key occurs, first at or behind i, else first before i |
| BsonCursors.FirstIn | src/bson.c:894-933 | the first occurrence in a range and nothing before it |
| BsonCursors.ProbeElement | src/bson.c:907-925 | one turn of the scan on any element either hits that element's key or lands exactly on the next element |
| BsonCursors.FreshCursorGivesUp | src/bson.c:894-943 | for every document of 19 to 126 bytes and every non-empty key a scan from offset 0, where a new cursor stands, gives up at once, so the search fails even for keys that occur |
| BsonCursors.FreshCursorFindFails | src/bson.c:936-943 | on the document {a: null} it gives up after one miss, although a scan from offset 4 hits the key |
| BsonCursors.TinyDocument | src/bson.c:936-943 | the eight bytes of {a: null} used there are a well-formed document |
| BsonCursors.BsonCursor.GetText | src/bson.c:1008-1180 | succeeds exactly on an element of that type and gives its text up to the first NUL |
| BsonCursors.BsonCursor.GetDouble | src/bson.c:1021-1032 | succeeds exactly on a double and gives its bytes |
| BsonCursors.BsonCursor.GetSubdocument | src/bson.c:1035-1080 | succeeds exactly on that type and gives a new finished object equal to the embedded document |
| BsonCursors.BsonCursor.GetBinary | src/bson.c:1083-1098 | succeeds exactly on a binary and gives subtype, size and data |
| BsonCursors.BsonCursor.GetOid | src/bson.c:1101-1111 | succeeds exactly on an ObjectID and gives its twelve bytes |
| BsonCursors.BsonCursor.GetBoolean | src/bson.c:1114-1124 | succeeds exactly on a boolean and gives its byte |
| BsonCursors.BsonCursor.GetStamp | src/bson.c:1127-1252 | datetime, timestamp and int64: succeeds exactly on that type and gives the signed number |
| BsonCursors.BsonCursor.GetInt32 | src/bson.c:1213-1224 | succeeds exactly on an int32 and gives the signed number |
| BsonCursors.BsonCursor.GetRegex | src/bson.c:1142-1154 | succeeds exactly on a regular expression and gives both strings |
| BsonCursors.BsonCursor.GetJavascriptWScope | src/bson.c:1183-1210 | succeeds exactly on scoped code, gives the code up to its first NUL and a finished object equal to the scope |
| BsonWalk.RoundTrip | src/bson.c:614-1252 | for every buildable tree of any depth, building it and walking it back gives the same keys, types, values and order with texts up to their first NUL; the tree comes back whole iff no text contains a NUL |
| BsonWalk.Walk | examples/bson-inspect.c:42-244 | walking any well-formed document whose values have getters gives what a reader of C strings can see of the tree |
| BsonWalk.VisibleExact | src/bson.c:1008-1018 | a document reads back unchanged exactly when none of its texts, at any depth, contains a NUL |
| Wire.SplitConcat | src/mongo-wire.c:289-293 | documents put one behind the other split back, by the sizes in front, into exactly these documents |
| Wire.ConcatUnique | src/mongo-wire.c:289-293 | different runs of documents never look the same on the wire |
| Wire.InsertReadBack | src/mongo-wire.c:249-298 | an OP_INSERT body is read back as its namespace and exactly its documents |
| Wire.UpdateReadBack | src/mongo-wire.c:204-246 | an OP_UPDATE body is read back as namespace, flags, selector and update, in this order |
| Wire.QueryReadBack | src/mongo-wire.c:337-386 | an OP_QUERY body is read back as flags, namespace, skip, return count and documents |
| Wire.CmdInsertN | src/mongo-wire.c:249-298 | a packet exactly if there are documents and all are finished; opcode 2002, a header length of 16 plus the data size, and every byte of the buffer written: four zero bytes, the namespace with its NUL, the documents |
| Wire.CmdUpdate | src/mongo-wire.c:204-246 | the same with opcode 2001: four zero bytes, the namespace, the flags, the selector and the update |
| Wire.CmdQuery | src/mongo-wire.c:337-386 | the same with opcode 2004: flags, namespace, skip, return count, the query and the field selector if there is one |
| Wire.Packet.SetData | src/mongo-wire.c:169-187 | the data is replaced by a copy and the header length follows; refused for a size of 0 or less |
| Wire.GetReplyHeader | src/mongo-wire.c:550-579 | flags, cursor id, start and count, from the bytes 0, 4, 12 and 16 on, for packets with opcode 1 and data only |
| Wire.GetNthDocument | src/mongo-wire.c:607-645 | succeeds exactly for 1..returned and gives the n-th document without its last byte, still open |
| Wire.FinishReproduces | src/mongo-wire.c:641-644 | finishing such an object gives the document byte for byte |
| SyncCursors.ArrivingComplete | src/mongo-sync.c:654-815 | however a result set is cut into non-empty batches, all of it arrives iff every reply answers its request, has the lowest flag clear and does not start with an error report |
| SyncCursors.ArrivingPrefix | src/mongo-sync.c:654-815 | what arrives of any batches, empty ones included, is everything in front of the first one for which this does not hold |
| SyncCursors.ErrorReports | src/mongo-sync.c:731-766 | a document is an error report iff there is a string (2) or a null (10) under its first err key or, if it has no err key at all, under its first errmsg key |
| SyncCursors.GetError | src/mongo-sync.c:731-766 | whether the document is an error report in that sense, keys and types given as bytes |
| SyncCursors.Server.CheckError | src/mongo-sync.c:769-815 | a reply is dropped exactly if its first document is an error report |
| SyncCursors.Server.GetMore | src/mongo-sync.c:1015-1036 | the next batch as a reply packet with its own flags, cursor id and start, or nothing at the end, for a reply to another request, with the lowest flag set, for an empty batch, or for an error report in front; any other first document arrives |
| SyncCursors.SyncCursor.constructor | src/mongo-sync-cursor.c:28-53 | a new cursor stands before the first document of the query's reply |
| SyncCursors.SyncCursor.Next | src/mongo-sync-cursor.c:56-80 | succeeds exactly while documents are left and moves to the next one; get_more is asked, with size and cursor id of the last batch, exactly when the current batch is used up |
| SyncCursors.SyncCursor.GetData | src/mongo-sync-cursor.c:99-118 | a finished object equal to the document under the cursor; nothing before the first step |
| SyncCursors.SyncCursor.Drain | src/mongo-sync-cursor.c:56-118 | alternating next and get_data until the first FALSE gives every arriving document once and in order, byte for byte |
| BulkInsert.CodeSplit | src/mongo-sync.c:902-937 | batches are non-empty and put together they are the input in order; the loop makes progress on every turn |
| BulkInsert.CodeMergesTail | src/mongo-sync.c:902-917 | the batches are those of the splitter that respects the limit, except that a single left-over document joins the batch before it |
| BulkInsert.BatchesWithinLimit | src/mongo-sync.c:902-917 | all batches stay below max_insert_size iff the limit-respecting split leaves no single document over; all but the last always do and would reach it with the next document; none reaches twice the limit |
| BulkInsert.LimitSplitMaximal | src/mongo-sync.h:230-250 | the reference splitter: every batch below the limit and none able to take the next document |
| BulkInsert.OvershootExample | src/mongo-sync.c:902-917 | two documents of six bytes under a limit of ten go out as one batch of twelve |
| BulkInsert.ServerSeesPrefix | src/mongo-sync.c:872-940 | whatever fails on the way, an unfinished document included, the documents that the server reads out of the packets are a prefix of the input, in order, and all of it if the call succeeds |
| BulkInsert.InsertConnection.InsertN | src/mongo-sync.c:872-940 | nothing is sent for no documents or a document at the limit; otherwise exactly the packets of the delivered batches, and success exactly if all were stored; with auto-reconnect and finished documents it succeeds, with every document on the server, whenever each failed send comes back and the next attempt is stored |
| BulkInsert.InsertConnection.Send | src/mongo-sync.c:609-652 | with auto-reconnect, after a failed send whose reconnect worked the packet is sent exactly once more and the second outcome counts, two outcomes being used up; in every other case the first outcome counts |
| BulkInsert.DeliverRecovers | src/mongo-sync.c:609-652 | with auto-reconnect all batches are delivered if each failed send comes back and the attempt after it is stored |
| BulkInsert.DeliverPlain | src/mongo-sync.c:902-937 | without auto-reconnect exactly the batches in front of the first failed send reach the server, and a refused one too |
| BulkInsert.DeliverUnfinished | src/mongo-sync.c:921-925 | a batch with an unfinished document stops the call in front of it |
| BulkInsert.InsertConnection.CountBatch | src/mongo-sync.c:904-914 | the inner loop counts the next batch |
| BulkInsert.InsertConnection.SendBatches | src/mongo-sync.c:902-937 | the outer loop stops at the first batch that gets no packet, is not sent or is refused |
| Failover.ReconnectEnds | src/mongo-sync.c:272-393 | on any topology, nodes that never answer a ping included, and from any connection a reconnect ends, within one nested call more than there are nodes, iff the connection is good enough, nobody answers, or the walk of the first answering address comes to a node that is good enough, or to one that leads nowhere, before it comes to a node twice; good enough is a master if one is forced, else any node that answers a ping |
| Failover.FreshEnds | src/mongo-sync.c:272-393 | the same from a new connection, within as many nested calls as there are nodes |
| Failover.ReconnectLands | src/mongo-sync.c:272-393 | a reconnect that ends fails iff the connection was not good enough and nobody answers, and where no node leads nowhere it ends on a node that is good enough |
| Failover.ReconnectKeeps | src/mongo-sync.c:240-269 | every reconnect that ends, forced or not, on any topology, keeps seeds, credentials, slaveok, safe mode, auto-reconnect and insert size |
| Failover.EndlessWithoutMaster | src/mongo-sync.c:272-393 | where no node is good enough, a reconnect that finds anybody never ends, whatever number of nested calls it is given |
| Failover.EndlessExample | src/mongo-sync.c:272-393 | a single node that answers a ping but not ismaster is asked for ever |
| Failover.PrintableLeadsOn | src/mongo-sync.c:187-195 | a new connection has its own address as a seed, so no node whose address can be printed and parsed leads nowhere |
| Failover.ReconnectReachesMaster | src/mongo-sync.c:272-393 | with one master that every other node names: a forced reconnect ends within three nested calls, succeeds iff the connection works or its primary, a host or a seed answers, ends on the master, and keeps what the client set up |
| Failover.ReconnectFindsAny | src/mongo-sync.c:272-393 | an unforced reconnect leaves a working connection alone, else takes the first address that answers; it ends iff that one answers a ping, or nobody answers |
| Failover.LearntHostsLead | src/mongo-sync.c:1467-1579 | after a refresh that was answered with a host list, whatever becomes of the servers and of the connection: if the master that is left was among those hosts or passives and the others name it, a forced reconnect ends on it within three nested calls |
| Failover.ReconnectForgets | src/mongo-sync.c:240-269 | a reconnect that moves the connection leaves no primary, no hosts and request id -1, where no node leads nowhere |
| Failover.FirstAnsweringIsFirst | src/mongo-sync.c:316-389 | the address taken is the first of the list that parses and can be connected to; none iff there is none |
| SyncConnections.Connection.Reconnect | src/mongo-sync.c:272-393 | wherever the reconnect ends within some number of nested calls, the method leaves the whole connection in the state that these theorems are about, and fails exactly where they say |
| SyncConnections.Connection.GoodEnough | src/mongo-sync.c:288-300 | the connection stays iff it is alive and its node answers a ping and, if forced, says that it is master; a node that was asked has refreshed primary and hosts |
| SyncConnections.Connection.ConnectCandidate | src/mongo-sync.c:307-389 | connects to the primary if it can be reached, else to the first such host, else to the first such seed; nothing iff there is none |
| SyncConnections.Connection.Replace | src/mongo-sync.c:240-269 | takes over socket and slaveok, forgets primary and hosts, resets the request id and keeps everything else; nothing without a new connection |
| SyncConnections.Connection.IsMaster | src/mongo-sync.c:1467-1579 | for an answering node with a host list the hosts become the listed hosts and then the passives, without one they stay; the primary is set exactly for a node that is no master and names one; any other reply or none changes nothing |
| SyncConnections.Connection.SeedAdd | src/mongo-sync.c:219-237 | appends the printed address; refused for a negative port |
| SyncConnections.Connection.ConnectVia | src/mongo-sync.c:174-198 | without a cache the address itself becomes the seed, with a cache replica set and credentials come from it |
| SyncConnections.Connection.Load | src/mongo-sync.c:125-154 | replica set and credentials are those of the cache, each one of the credentials for itself |
| SyncConnections.Connection.Store | src/mongo-sync.c:94-122 | the cache holds exactly the connection's replica set and credentials, and the connection's credentials are gone |
| SyncConnections.Connection.Disconnect | src/mongo-sync.c:396-415 | a cache takes over everything; the connection is emptied |
| SyncConnections.RecoveryCache.Discard | src/mongo-sync.c:2064-2071 | an empty cache |
| SyncConnections.RecoveryCache.SeedAdd | src/mongo-sync.c:2074-2087 | appends the printed address |
| SyncConnections.Connection.PickFromList | src/mongo-sync.c:2090-2121 | the first answering address is taken with the cached replica set and credentials; for slaveok the cache is kept, otherwise it is emptied and the connection goes through an unforced reconnect, which cannot fail there |
| SyncConnections.Connection.ConnectRecoveryCache | src/mongo-sync.c:2124-2149 | connects, on any topology where the reconnect in it ends, iff the cached primary, a seed or a host can be reached, in this order, with the cached seeds and credentials, and for slaveok also hosts and primary; without slaveok to a node that answers a ping, where no node leads nowhere; the cache is emptied iff it connects and slaves are not acceptable |
| SyncConnections.SessionsConserve | src/mongo-sync.c:94-154 | across any number of sessions that come to their end, on topologies that differ and change in between, slaveok or not, connected or not, with any refreshes, failovers and breaks, seeds and credentials in the cache stay the same |
| SyncConnections.OpenedPings | src/mongo-sync.c:2090-2121 | without slaveok the connection stays on the first node that can be reached, knowing what the cache knew, if that answers a ping, and else goes to one that does, where no node leads nowhere |
| SyncConnections.QuietSession | src/mongo-sync.c:94-154 | on a node that answers, a session without activity leaves the cache as it was, and one with a refresh leaves the hosts, passives and primary that the node told |
| SyncConnections.ActivitiesMean | src/mongo-sync.c:272-393 | in a session a forced failover ends on the master that the other nodes name if anybody answers; a break or a lost node closes the connection |
| SyncConnections.SessionsEnd | src/mongo-sync.c:272-393 | sessions come to their end as long as at every time some master is named by the other nodes |
| SyncConnections.RunSession | src/mongo-sync.c:2124-2149 | connecting from a cache, any activity and disconnecting leave in the cache exactly what the session does |
| SyncConnections.RunSessions | src/mongo-sync.c:2124-2149 | the same for any number of sessions with one cache |
| Pools.Pool.Create | src/mongo-sync-pool.c:54-151 | every id leads back to its place, nothing is in use, and secondary i is connected to eligible host i mod m; only without eligible hosts there are none, and then nslaves is -1 |
| Pools.Pool.NextSecondary | src/mongo-sync-pool.c:103-133 | from any place the search stops at the next eligible host, starting over once, and fails only if there is none |
| Pools.Pool.AddSlaves | src/mongo-sync-pool.c:103-147 | the i-th round of the loop takes eligible host i mod m |
| Pools.EligibleBehind | src/mongo-sync-pool.c:113-133 | right behind an eligible host the remaining ones come in list order |
| Pools.EligiblePlaces | src/mongo-sync-pool.c:113-133 | the eligible places are, in list order, exactly those whose address parses and differs from the master's in host or port |
| Pools.FairPlaces | src/mongo-sync-pool.c:103-147 | of any number of secondaries, two eligible places of the host list get numbers that differ by at most one |
| Pools.FairShare | src/mongo-sync-pool.c:103-147 | in a pool over hosts that are listed once, the numbers of secondaries connected to two eligible hosts differ by at most one |
| Pools.FreshBalanced | src/mongo-sync-pool.c:93-146 | in a new pool nothing is held and nothing is in use, where every run starts |
| Pools.RunBalanced | src/mongo-sync-pool.c:179-269 | over every run of picks and returns a connection is in use iff a client holds it, none is held twice, and held connections are successful picks minus returns |
| Pools.PickBalanced | src/mongo-sync-pool.c:179-224 | a successful pick hands out a connection that nobody holds |
| Pools.ReturnBalanced | src/mongo-sync-pool.c:227-269 | a return frees exactly the returned connection |
| Pools.Choice | src/mongo-sync-pool.c:179-224 | a pick fails iff every connection allowed for it is in use, takes a master for a reader only if all slaves are in use, and takes the first free one of its list |
| Pools.Pool.Pick | src/mongo-sync-pool.c:179-224 | the objects take exactly the step of the state machine, first fit |
| Pools.Pool.Return | src/mongo-sync-pool.c:227-269 | the slot is found by the id alone and exactly its flag is cleared, refused iff the id is too large; for a connection of the pool it is that connection's own slot |
| Addresses.ParsePrinted | src/mongo-utils.c:110-197 | parsing undoes printing host and port, for ports -1..INT_MAX, iff the host is not empty and does not start with a bracket; colons in the host included |
| Addresses.ParseBracketed | src/mongo-utils.c:127-149 | the bracket form gives back any non-empty host without a closing bracket, with and without a port, whatever character stands behind the bracket |
| Addresses.ParseBadBracket | src/mongo-utils.c:127-136 | an opening bracket without a closing one, or with nothing in between, is refused |
| Addresses.ParseSplits | src/mongo-utils.c:151-167 | the last colon separates host and port; an empty host in front of it is refused |
| Addresses.ParseNoColon | src/mongo-utils.c:151-157 | without a colon everything is host, even nothing, and the port is -1 |
| Addresses.ParseEmptyPort | src/mongo-utils.c:169-196 | an empty port is port 0 |
| Addresses.ParseOutOfRange | src/mongo-utils.c:169-185 | every number but -1..INT_MAX is refused, far beyond the range of long too |
| Addresses.ParseLenient | src/mongo-utils.c:169-196 | any port may have white space and a plus sign in front and gives the same address; anything behind the number is refused |
| Addresses.PrintDigits | src/mongo-sync.c:187-195 | host, colon, sign and decimal digits: how seeds are printed |
| Addresses.ParseAddr | src/mongo-utils.c:110-197 | the parser with its out-parameters: a failure clears the host and sets the port to -1 |
| GridFs.ChunkAt | src/sync-gridfs-chunk.c:245-270 | chunk i is data[i * cs..min((i + 1) * cs, size)] |
| GridFs.ConcatChunks | src/sync-gridfs-chunk.c:245-270 | the chunks in order are the data |
| GridFs.ChunkCountAdvertised | src/sync-gridfs.c:267-281 | the advertised number of chunks, over exact quotients, is the number an uploader stores |
| GridFsCount.ChunkCountRounded | src/sync-gridfs.c:267-281 | the same with both roundings to double, for all files for which twice the length, the chunk size and one together are less than 2^53 |
| GridFsCount.NearestRoundsTo | src/sync-gridfs.c:267-281 | what is asked of rounding there holds for every nearest double, where doubles lie one ulp apart |
| GridFs.DownloadIsUpload | src/sync-gridfs-chunk.c:160-206 | reading as many chunks as advertised, in the order of n, gives the data back |
| GridFsDownload.BuildChunk | src/sync-gridfs-chunk.c:251-257 | the chunk document of both uploaders: files_id, n and the data as a generic binary |
| GridFsDownload.ChunkKeys | src/sync-gridfs-chunk.c:251-257 | the three keys, by name and in this order |
| GridFsDownload.GetChunk | src/sync-gridfs-chunk.c:160-206 | by the first data key of the document under the cursor: all of a binary of subtype 0, all but the first four bytes of one of subtype 2; nothing for any other type, subtype or size, or without that key |
| GridFsDownload.Download | src/sync-gridfs-chunk.c:126-206 | stepping the cursor and putting the chunks together gives the payloads of all arriving documents, in order |
| GridFsDownload.DownloadFile | src/sync-gridfs-chunk.c:126-206 | an uploaded file comes back whole through the result cursor, however the server cuts the chunk documents, ordered by n, into non-empty batches |
| GridFs.Store.UploadChunks | src/sync-gridfs-chunk.c:243-274 | the loop stores exactly the chunks of the data and hashes all of it, or some first chunks if an insert fails |
| GridFs.Store.UploadBuffer | src/sync-gridfs-chunk.c:209-329 | stores exactly the chunks of the data and the file document, byte for byte, with the user's metadata, length, digest and new id; a failure leaves some first chunks and no file document |
| GridFs.Store.SetChunkSize | src/sync-gridfs.c:113-129 | refused below 1 |
| GridFsWriter.StreamWriter.New | src/sync-gridfs-stream.c:103-163 | a new writer has taken nothing, keeps the metadata, if any, with an _id, and stores under the user's own ObjectID or the new one; refused iff the user's _id is no ObjectID |
| GridFsWriter.StreamWriter.Write | src/sync-gridfs-stream.c:307-360 | under any insert failures the stored full chunks and the buffer are the bytes taken so far; a failed write has taken a prefix and keeps a full buffer, which the next write stores first, taking nothing if that fails again; the loop ends despite the turn that copies nothing |
| GridFsWriter.StreamWriter.Flush | src/sync-gridfs-stream.c:340-355 | a full buffer becomes the next chunk and part of the checksum, or stays where it is |
| GridFsWriter.StreamWriter.Position | src/sync-gridfs-stream.c:325-357 | length and offset are current_chunk * chunk_size + buffer_offset |
| GridFsWriter.StreamWriter.Close | src/sync-gridfs-stream.c:432-507 | the tail is stored and then, only if there was one and it was stored, the file document with length, chunk size, date and digest behind the metadata; TRUE is returned even if the tail was lost, FALSE without metadata |
| GridFsWriter.UploadStream | src/sync-gridfs-stream.c:307-507 | any split of the data into writes stores the chunks of the data; there is a file document afterwards iff the length is no multiple of the chunk size and there was metadata |
| GridFsWriter.UploadsAgree | src/sync-gridfs-chunk.c:209-329 | the one-shot uploader and any sequence of stream writes leave the same chunks; their file documents, where the stream leaves one, hold the same elements in another order and tell a reader the same, if the user's metadata has neither _id nor length |
| GridFsReader.StreamReader.QueryFile | src/mongo-sync.c:986-1012 | the query gives the stored file document back, unless its error key holds null or a string |
| GridFsReader.StreamReader.Find | src/sync-gridfs-stream.c:28-100 | a reader with exactly the id, length and chunk size that the walk over the stored file document reads; nothing iff the query drops the document or the walk yields no ObjectID or a 0; at position 0 of the flat file if the chunks are there |
| GridFsReader.StreamReader.SeekChunk | src/sync-gridfs-stream.c:166-217 | loads a chunk of the generic or the legacy subtype; anything else drops the loaded one |
| GridFsReader.StreamReader.ReadPiece | src/sync-gridfs-stream.c:245-274 | every turn of the read loop makes progress, copies the next bytes of the file and never asks for a missing chunk |
| GridFsReader.StreamReader.Read | src/sync-gridfs-stream.c:220-277 | in place: min(size, length - offset) bytes equal to that slice of the flat file; after any run of operations, failed ones included: exactly the upcoming bytes, which after a dropped chunk are the first chunk and those behind the stale number, up to the first chunk end at or behind the length; start_offset bytes before the end: nothing |
| GridFsReader.StreamReader.Seek | src/sync-gridfs-stream.c:363-429 | in place: whence 0, 1 and 2 count from the start, from the old offset and from the end; the seek succeeds, and leaves the offset there, iff that is in the file and not the very end of a file of full chunks, where only staying put with whence 0 or 1 succeeds; a failed one keeps the offset; there it drops the loaded chunk but not the position |
| GridFsReader.FlatSeeks | src/sync-gridfs-stream.c:363-429 | on the flat file of these theorems: a seek by p from offset o is the seek to o + p from the start, one from the end is the seek to length + p, in range iff 0..length; a read gives the next bytes |
| GridFsReader.TargetChunk | src/sync-gridfs-stream.c:417-426 | quotient and remainder of the target are the chunk and the offset of that position, and the chunk exists iff the target is not the end of full chunks |
| GridFsReader.StreamReader.ValidIsSteady | src/sync-gridfs-stream.c:220-277 | a reader that is in place will read the rest of the file |
| GridFsReader.StreamReader.RunOps | src/sync-gridfs-stream.c:220-429 | any run of reads and seeks behaves like a position on the flat file iff it does not contain that one failing seek |
| GridFsReader.StreamRoundTrip | src/sync-gridfs-stream.c:28-507 | uploading in any pieces with any metadata that has no length key behind its _id, finding the file by its document and running any reads and seeks at all behaves like a position on the uploaded bytes; it is found iff its length is no multiple of the chunk size and there is metadata whose error key does not hold null or a string |
| GridFsReader.ChunkedRoundTrip | src/sync-gridfs-chunk.c:209-329 | a one-shot upload of any length, with metadata that has neither _id nor length, is found iff the metadata's error key does not hold null or a string, and then a run of reads and seeks behaves like a position on the data iff it does not contain the failing seek |
| GridFsReader.SeekToEndExample | src/sync-gridfs-stream.c:363-429 | a file of four bytes in chunks of two: after a failed seek to the end the second byte reads as the first |
| GridFsReader.LastByte | src/sync-gridfs-stream.c:248-249 | after a seek to it the last byte of a file cannot be read iff it is in a legacy chunk |
| GridFsMeta.ReadMeta | src/sync-gridfs-stream.c:54-81 | find's walk over the file document with one cursor, key after key |
| GridFsMeta.OpenMeta | src/sync-gridfs-stream.c:117-157 | the user's metadata with an _id, added at the end if there is none; refused iff the user's _id is no ObjectID |
| GridFsMeta.CloseMeta | src/sync-gridfs-stream.c:470-484 | length, chunkSize, uploadDate and md5 behind it |
| GridFsMeta.ChunkedMeta | src/sync-gridfs-chunk.c:276-291 | the one-shot uploader's document: the user's metadata if any, the four keys and the new _id last |
| GridFsMeta.DocumentKeys | src/sync-gridfs-chunk.c:276-291 | both file documents key by key and in order, with the keys spelt out |
| GridFsMeta.FindMetaUnordered | src/sync-gridfs-stream.c:54-90 | a document that has each of the three keys once is understood wherever they stand, iff the id is an ObjectID, the length an int64 or int32 and the chunk size an int32, neither of them 0 |
| GridFsMeta.MetaReadBack | src/sync-gridfs-stream.c:48-81 | find reads the id of the chunks and the length and chunk size that close wrote, if the user's metadata has no length key behind its _id, unless its error key holds null or a string |
| GridFsMeta.MetaReadBackExact | src/sync-gridfs-stream.c:48-81 | the length is read back for every file iff the user's metadata has no length key behind its _id and its error key does not hold null or a string |
| GridFsMeta.ErrorOfDocument | src/mongo-sync.c:731-766 | what the uploaders add to the metadata makes no difference to the error check of a query |
| GridFsMeta.ChunkedReadBack | src/sync-gridfs-chunk.c:276-291 | the same for the one-shot uploader if the user's metadata has neither an _id nor a length |
| GridFsMeta.ChunkedReadBackExact | src/sync-gridfs-chunk.c:276-291 | id and length are read back for every new id and every file iff the user's metadata has neither and its error key does not hold null or a string |

## Left out

- Sockets, timeouts, `errno`, NULL guards, varargs, glib memory and locked pages: I/O and C mechanics.
- MD5 and the authentication exchange: only the bytes that go into the checksum are recorded.
- Malformed BSON and packets: the C code reads without bounds checks there, so the readers require a well-formed
  document.
- The packets of get_more, delete, kill_cursors and custom commands: the same building blocks with fewer parts.
- The ismaster check before a query or get_more on a connection that accepts no slaves: it is a reconnect of its own.
- The two's complement overflow of summed sizes: a batch may come close to twice the maximum insert size, which fits
  `gint32` for limits below 2^30.
- Request ids: they are stored but nothing is claimed about their uniqueness.
- ObjectID creation, `gridfs_list`, `gridfs_remove`, the chunked find, which reads two keys more than the stream's, and
  the command wrappers: easy members.
- Documents of chunks in the store: a stored chunk is its subtype and payload; GridFsDownload builds and reads the
  documents.
- `next` on a result cursor that is used up: it works with a stale reply header; claims end at the first FALSE.
- GridFs.ChunkCountAdvertised: is over exact quotients; GridFsCount.ChunkCountRounded bounds where rounding to double
  cannot show.
- BsonCursors.BsonCursor.Find: requires a cursor on an element or a scan from offset 0 that gives up, because any other
  scan from there misreads the document, possibly beyond its end.
- BsonCursors.BsonCursor.FindNext: requires the same, for the same reason.
- BsonBuild.Perform: a subdocument comes with the object that holds it, as the append functions take it.
- BulkInsert.InsertConnection.Send: a packet that could not be sent is taken not to have reached the server; whether the
  reconnect after it succeeds is an outcome.
- SyncConnections.Connection.ConnectRecoveryCache: requires that the unforced reconnect in it ends, because otherwise it
  has no end either; ReconnectFindsAny says when that is.
- SyncConnections.RunSession: requires that the session's reconnects end, because otherwise it has no end either;
  SessionsEnd gives a condition for that.
- Pools.Pool.Create: the connects to the given address and to eligible hosts succeed; a failed one is dereferenced at
  once in the C code (src/mongo-sync-pool.c lines 97 and 143), which has no defined outcome.
- Pools.Pool.Return: requires an id that is not negative and not the one id that is skipped between masters and
  secondaries, because the C code dereferences what it does not find there.
- GridFsReader.StreamRoundTrip: requires metadata without a `length` behind its `_id`, because otherwise the length that
  is read back is the user's, as MetaReadBackExact shows, and a file document below 2^31 bytes.
- GridFsReader.ChunkedRoundTrip: requires metadata with neither `_id` nor `length`, as ChunkedReadBackExact shows, and at
  least one byte.
- GridFsReader.LastByte: for a last chunk that is not a legacy chunk it requires that none of the file is; a start offset
  stays behind once a legacy chunk was loaded.
- GridFsWriter.UploadsAgree: requires at least one byte, because the one-shot uploader refuses an empty buffer, and
  metadata with neither `_id` nor `length`, because otherwise the two file documents tell a reader different things.
- GridFsWriter.StreamWriter.Close: a failed insert is a chunk or file document that is not stored; inserts that fail
  after being stored are not modelled.
