# Verified model of mul_database

mul_database is a small relational store: a client packs records into requests, a server keeps databases and
tables and appends records to a page per table, and allocators underneath serve the server's memory. This project
models its record pipeline, its two allocators, its growable vector and its catalogue in Dafny, and proves what they
guarantee over every input and every run.

`dafny verify dfyconfig.toml` checks everything.

## What is modelled

* **Records** (`Bytes`, `SeriUtils`, `Schema`, `SeHeap`, `Record`, `Pipeline`, `RecordRuns`): the server lays out a
  table and describes it; the client rebuilds the schema, caches arguments, packs them through `strlen` into
  fixed-width fields; the server unpacks a record of the claimed length and appends it to a 4 KB page; the dump decodes
  it. Both sides are little-endian. The two integer types share one code, so an integer is its 32 bits. A page is the
  memory from its start on, because strings of its last row may be read past its end. Strings longer than their field
  and integer fields below four bytes are included: what memory then holds is given byte for byte
  (`RecordRuns.RowInMemory`), and so is what the dump shows of it (`RecordRuns.DumpsIffSpelled`).
* **Memory pool** (`Blocks`, `PoolState`, `PoolRuns`, `PoolWords`, `KvMemory`): nine size classes, a page each, with
  free lists threaded through the free blocks, and malloc behind them. Every block size is a multiple of eight, so the
  arena is an array of 64-bit cells, and a block's link is its first cell. What malloc answers is a parameter
  constrained only by what malloc promises. Releases name a size of the class that was allocated.
* **Requests** (`Requests`, `RequestRuns`, `TableRuns`): insert and query-table on catalogue, message and pool together;
  histories of them; what one table holds and shows after requests to many. Messages and the reply are the memory from
  the buffer on, and what memory holds behind a payload is a parameter, so overlong claims and replies are included.
* **Catalogue** (`VectorUtil`, `Catalogue`, `CatalogueVectors`, `Directory`, `SprManager`): the byte vector and the
  sequence it refines; the lists of databases and tables, the vectors they are kept in and the map they refine; the
  id counter.
* **Memory contexts** (`MemCtxState`, `MemCtxRuns`, `MemCtxWords`, `MemCtxMain`): a tree of contexts that borrow pages
  from their ancestors and cut them into slots. Page headers are one array in the source, so a page is named by its
  index; a context too, parents before children.

Code that updates things in place is modelled by classes and methods over arrays, each proved equal to a function on
states; the theorems about runs are about those functions. What those functions promise is stated without them: the
limits, sizes and statuses that the server answers are written out as numbers in the theorems, and the map the catalogue
refines has its own requests.

Where the code differs from its own comments, the model follows the code: the pool's classes are 8 to 2048 bytes, not
4 to 1024 (`src/common/include/kv_memory.h:27`); a new vector has room for 25 items although its capacity is 5; an
insert call that refuses an argument reports success and sends nothing. The exception is the slot layer of the memory
contexts, modelled as its comments intend: splitting a page clears the page's contents, where the code clears the
page's header and what follows it (`src/common/memctx/memctx_main.c:358-360`, called at 370), and the search for a
slot ends at a missing page, where the code ends it at a page without a successor
(`src/common/memctx/memctx_main.c:381`). Page borrowing is modelled as written.

Four properties one might expect are false of the code. For each there is a concrete run that shows it, and the exact
condition under which it holds is proved.

* An integer is shown as it was inserted if and only if it has no zero byte below a nonzero one, because integers are
  copied through `strlen` (`Pipeline.FieldReadsIff`, `RecordRuns.IntegerDamaged`).
* A string exactly as long as its field is shown as it was inserted if and only if the next bytes put behind it start
  with a NUL, because only the characters are copied: those of the next field of nonzero size, of the next record, or
  of the memory before all inserts, so a later insert may change how an earlier row reads (`Pipeline.FieldReadsIff`,
  `RecordRuns.StringEndsIff`, `RecordRuns.FullStringDamaged`, `RecordRuns.LaterInsertDamages`).
* An insert leaves the pool as it found it if and only if its ids name a table whose page has room, a query if and only
  if its ids name a table, because a rejected request returns before it releases anything (`Requests.InsertNeutralIff`,
  `Requests.QueryNeutralIff`, `Requests.RejectedInsertHoldsBoth`, `Requests.RejectedQueryHoldsBlock`,
  `RequestRuns.HistoryKeeps`).
* Database and table ids differ in every run that draws no counter value from a given one on if and only if that one is
  at most 500101 (`Catalogue.KindsCollideIff`).

## Model

| member | source | states |
|---|---|---|
| RecordRuns.EveryRowReadsBack | src/datamodel/simple_relation/spr_label.c:251-276 | Main result for records. For every table of at most 30 fields whose description stands anywhere in the reply, every memory content to start with and every history of records the client takes, inserted through the one statement built from the description: all are accepted, and the memory afterwards holds their rows one behind the other and otherwise what it held. The dump of row k shows any given values if and only if they are written out there. When this record and the next, if any, fit their fields it shows the record, integers cut at their first zero byte, if and only if behind every string that fills its field a NUL is put by the next field of nonzero size, else by the next record, else stood in memory before all inserts; and exactly what was inserted if and only if, besides, no integer has a zero byte below a nonzero one |
| RecordRuns.HistoryAppendsRows | src/runtime/rt_handle_opcode.c:55-63 | Any number of inserts through cache, message and payload is accepted while the page has room; it does to the heap what inserting their rows does, and the stored rows are the earlier ones followed by one row per insert |
| RecordRuns.InsertAppendsRow | src/client/client_simple_relation.c:199-239 | One insert of arguments the client takes, whatever was cached by earlier ones, is accepted and appends exactly the row of those values |
| RecordRuns.RowInMemory | src/storage/se_heap.c:21-30 | In memory after any history of inserts, row k stands at k times the row size, byte for byte what packing the k-th record gives: each byte that of the last image covering it, or zero |
| RecordRuns.DumpsIffSpelled | src/datamodel/simple_relation/spr_label.c:260-275 | The dump shows exactly the values written out at the fields: four little-endian bytes, or characters and a NUL |
| RecordRuns.StringEndsIff | src/common/seri_utils.c:34-39 | In memory after any history of inserts, when record k and the next one fit their fields, a string of record k that fills its field is followed by a NUL if and only if the next field of nonzero size in its record gets an empty image, or, when there is none, the first such field of the next record does, or, for the last record, the memory held a zero behind the row before all inserts |
| RecordRuns.LaterInsertDamages | src/storage/se_heap.c:21-30 | A concrete run: in a table of one string field of one byte, "a" inserted on cleared memory is shown as "a", and as "ab" once "b" is inserted |
| RecordRuns.ShorterStringShown | src/client/client_simple_relation.c:214-221 | Any string of at most 63 characters, inserted into a longer field of a fresh table, is accepted and shown as inserted |
| Pipeline.MessageCarriesRow | src/client/client_simple_relation.c:172-196 | The packed request holds the two ids, a length equal to the server's row size, and behind the header exactly the row, also for strings longer than their field and integer fields below four bytes |
| Pipeline.PackedIsRow | src/client/client_simple_relation.c:179-195 | Copying the cached values field by field through strlen yields, on a cleared buffer, in every byte that of the last image that covers it, or zero |
| Pipeline.RowFieldAt | src/client/client_simple_relation.c:179-195 | When all arguments fit, field i of the row is the image of its argument padded with zeros, and no other argument reaches into it |
| Pipeline.LayoutsAgree | src/client/client_simple_relation.c:164-196 | The client's cursor displacement before every field equals the server's offset of that field, although each side sums the sizes itself |
| Pipeline.OffsetsAgreeIff | src/datamodel/simple_relation/spr_label.c:185-198 | The server's 32-bit offset equals the client's displacement if and only if the fields before it take less than 2^32 bytes; the two 32-bit record lengths always agree |
| Pipeline.RowReadsBack | src/datamodel/simple_relation/spr_label.c:260-275 | The same equivalences for a row lying anywhere in memory: what the server reads at its own offsets |
| Pipeline.FieldReadsIff | src/datamodel/simple_relation/spr_label.c:260-275 | One field decodes to its value, an integer cut at its first zero byte, if and only if a string that fills it has a NUL right behind; and to exactly what was inserted if and only if, besides, an integer has no zero byte below a nonzero one |
| Pipeline.FullStringEndsIff | src/common/seri_utils.c:34-39 | A string that fills its field, with bytes of its own row behind it, has a NUL behind it if and only if the next field of nonzero size gets an image without bytes: an empty string, or an integer whose lowest byte is zero |
| RecordRuns.IntegerDamaged | src/common/seri_utils.c:34-39 | A concrete run: 256 inserted into a fresh table of one 4-byte integer field is accepted and the dump shows 0 |
| RecordRuns.FullStringDamaged | src/common/seri_utils.c:34-39 | A concrete run: the string "a" inserted into a field of one byte in front of an integer field that gets 1 is accepted, and the dump does not show what was inserted |
| Pipeline.RtSRInitInsert | src/runtime/rt_handle_opcode.c:55-63 | Unpacks the ids and a record of exactly the length the request claims |
| Pipeline.DmTraceTableRow | src/datamodel/simple_relation/spr_label.c:251-276 | The dump walks all rows by adding the row size and decodes each at the field offsets |
| Pipeline.DmTraceRow | src/datamodel/simple_relation/spr_label.c:263-271 | The dump decodes one row field by field; types it does not know print nothing |
| Pipeline.OneCellEach | src/datamodel/simple_relation/spr_label.c:263-271 | The dump of a row has one cell, in order, for each field of type 0, an integer, or 1, a string, read at the field's offset, and none for other fields |
| Record.ReuseCarriesNothing | src/client/client_simple_relation.c:203-226 | Reusing a statement, also after a refused call, leaves every value buffer fit for the next call, and what is copied after an accepted call depends on the new arguments alone |
| Record.PutForgetsEarlierValue | src/client/client_simple_relation.c:206-221 | What strlen lets through of a value buffer after storing an argument is that argument's image, whatever the buffer held before |
| Record.PutWritesOnly | src/client/client_simple_relation.c:206-221 | Storing an argument writes four bytes, or the characters and a NUL, and leaves the rest of the buffer |
| Record.SRCInsertData | src/client/client_simple_relation.c:199-239 | The insert call caches the arguments up to the first one it refuses, sends nothing if it refused one, and otherwise sends the packed request; it sends if and only if every argument is an integer for a field of type 0 or a string of at most 63 characters for one of type 1 |
| Record.CacheArguments | src/client/client_simple_relation.c:204-226 | The caching loop stores exactly the arguments before the first refused one and reports whether all were accepted |
| Record.CacheArgument | src/client/client_simple_relation.c:206-225 | One argument is stored at the start of its buffer, or refused, exactly when it is no integer for a field of type 0 and no string of at most 63 characters for one of type 1 |
| Record.SRCSeriRequsetBuf | src/client/client_simple_relation.c:172-196 | Writes header and values, each at its cursor position in order, an overlong value running into the next field before that is written; stops at an unsupported type |
| Record.GetRecordTotalLen | src/client/client_simple_relation.c:164-170 | The claimed length is the 32-bit sum of the field sizes |
| Bytes.SurvivingBytes | src/common/seri_utils.c:34-39 | The bytes of an integer before its first zero byte, padded with zeros, are the integer modulo 256^k, k the number of those bytes |
| Bytes.SurvivesIffDense | src/common/seri_utils.c:34-39 | An integer survives the copy through strlen if and only if it has no zero byte below a nonzero one |
| Bytes.LE32RoundTrip | src/common/seri_utils.c:19-23 | Writing a 32-bit integer in little-endian order and reading it back gives the integer |
| SeriUtils.SeriUint32M | src/common/seri_utils.c:19-23 | Writes the four bytes at the cursor, nothing else, and moves the cursor by four |
| SeriUtils.SeriStringM | src/common/seri_utils.c:25-32 | Writes length and characters at the cursor, nothing else, and moves the cursor behind them |
| SeriUtils.SeriFixedStringM | src/common/seri_utils.c:34-39 | Copies the characters before the first NUL, however many, and moves the cursor by the fixed length |
| SeriUtils.DeseriUint32M | src/common/seri_utils.c:56-61 | Reads the four bytes at the cursor and moves it by four |
| SeriUtils.DeseriStringM | src/common/seri_utils.c:63-69 | Overwrites the start of the destination with the characters read and leaves the rest of it |
| SeriUtils.DeseriFixedStringM | src/common/seri_utils.c:72-76 | Overwrites the start of the destination with fixLen bytes and moves the cursor by fixLen |
| SeriUtils.StringRoundTrip | src/common/seri_utils.c:25-32 | The length prefix on the wire reads back as the length, and what follows it is the string |
| Schema.SchemaRoundTrip | src/client/client_connect.c:137-158 | For any at most 30 fields the client rebuilds exactly the names, types, sizes and order the server described, whatever surrounds the description; both cursors stop at byte 4 plus the sum of 12 + name length |
| Schema.FieldOnWire | src/runtime/rt_handle_opcode.c:80-93 | On the wire a field is the length of its name, the name without its NUL, type and size, in this order and little-endian |
| Schema.ReadFieldsInvertsFieldsBytes | src/client/client_connect.c:150-156 | Parsing inverts describing, field by field, and stops where the description ends |
| Schema.RtSeriTable | src/runtime/rt_handle_opcode.c:80-93 | Writes the description of the table at the cursor and nothing else |
| Schema.SrParseTable | src/client/client_connect.c:137-158 | Builds a fresh schema holding exactly what the bytes at the cursor describe, with cleared value buffers |
| Schema.SrParseFields | src/client/client_connect.c:150-156 | The parsing loop fills the first fldNum properties with the fields the bytes describe |
| Schema.DescriptionFits | src/runtime/rt_handle_opcode.c:80-93 | Any table of at most 30 fields with names of at most 22 bytes fits the 1024-byte reply |
| Schema.LongerNamesOverflow | src/runtime/rt_handle_opcode.c:80-93 | 22 is the largest such bound: for every longer admissible length there is a table of 30 fields that does not fit |
| Schema.LayOutFields | src/datamodel/simple_relation/spr_label.c:185-207 | Each field gets the 32-bit sum of the sizes before it as offset, and the row size is the 32-bit sum of all |
| Schema.FieldsTileRow | src/datamodel/simple_relation/spr_label.c:185-198 | Every byte of a row lies in exactly one field interval, and no other byte lies in any |
| SeHeap.HeapRefinesList | src/storage/se_heap.c:21-30 | From any state, inserts are accepted exactly up to floor(4096 / rowSize) rows, and the stored rows are then the earlier ones followed by the new ones in order |
| SeHeap.InsertAppends | src/storage/se_heap.c:27-29 | An insert appends its row, leaves every earlier row byte for byte as it was and keeps the position equal to count times row size |
| SeHeap.RoomIffBelowCapacity | src/storage/se_heap.c:22-26 | The full-page assertion is not reached if and only if fewer than floor(4096 / rowSize) rows are stored |
| SeHeap.FixedHeap.constructor | src/storage/se_heap.c:8-19 | A new heap on a page of arbitrary contents holds no rows |
| SeHeap.FixedHeap.SEFixedHeapInsertRow | src/storage/se_heap.c:21-30 | Copies the row to the current position and moves on, or, exactly when it would pass byte 4096, reports the failed assertion and changes nothing |
| PoolRuns.PoolSafeOverEveryRun | src/common/kv_memory.c:188-259 | Main result for the pool. After every history of allocations, releases and owner writes from init: no two outstanding allocations overlap; the in-block links of each class, followed for however many steps, visit exactly its blocks not handed out, each once, and end at NULL; with nothing outstanding a class has all its 4096 / blockSize blocks |
| PoolRuns.RunKeepsInv | src/common/kv_memory.c:188-259 | Every history keeps free and live blocks a partition of each page, threaded through the free blocks, and malloc blocks outside the arena |
| PoolRuns.InitialInv | src/common/kv_memory.c:102-159 | The state init leaves satisfies the invariant |
| PoolRuns.AllocGivesFreshBlock | src/common/kv_memory.c:188-217 | An allocation is non-null and not outstanding before; it comes from the pool exactly when its class has a free block, then it is the head of the list, at least as large as asked, inside the arena and all zero; otherwise it is malloc's |
| PoolRuns.LiveAllocationsDisjoint | src/common/kv_memory.c:92-100 | Any two outstanding allocations are disjoint, across classes and sources |
| PoolRuns.RangeTestIsExact | src/common/kv_memory.c:5-14 | The address-range test is true of an outstanding allocation if and only if it is a pool block |
| PoolRuns.FreePlusLive | src/common/kv_memory.c:125-132 | Free and live blocks of a class always number 4096 / blockSize together |
| PoolRuns.WalkMeetsFreeBlocks | src/common/kv_memory.c:134-156 | Following the links from currMemPtr, for however many steps, meets each free block of the class's page once and nothing else, freeBlockCnt in all, and ends at NULL |
| PoolRuns.FreeUndoesAlloc | src/common/kv_memory.c:219-259 | Releasing an allocation, with a size of the same class, restores every list in order, the live sets and the malloc blocks, once all work in between is undone |
| PoolRuns.WellBracketedIsNeutral | src/common/kv_memory.c:235-259 | Allocations released last-in-first-out, nested to any depth, sharing classes, spilling to malloc anywhere and written to by their owners, leave every free list identical in order |
| PoolRuns.FreeTakesBack | src/common/kv_memory.c:246-259 | A release takes back the allocation released and no other |
| PoolRuns.ClassSizes | src/common/include/kv_memory.h:18-28 | The nine classes have blocks of 8, 16, 32, 64, 128, 256, 512, 1024 and 2048 bytes, 512 down to 2 of them |
| PoolWords.AllocWritesItsBlock | src/common/kv_memory.c:188-217 | An allocation served by the pool writes the block it answers, as long as its class says, and no other byte of the arena; one that malloc serves writes none |
| PoolWords.FreeWritesOneWord | src/common/kv_memory.c:219-259 | A release writes at most the first eight bytes of the block released |
| PoolWords.AllocKeepsWords | src/common/kv_memory.c:188-217 | An allocation takes no word from anyone and changes none that is held; the words it newly hands out are zero |
| PoolWords.FreeKeepsWords | src/common/kv_memory.c:219-259 | A release changes no word that is still held |
| PoolWords.HoldersFindTheirWords | src/common/kv_memory.c:188-259 | Main result for block contents. After every history of allocations, releases and owner writes from init, every word of every outstanding block is what its holder last stored there, or zero if it stored nothing there since the block was handed out |
| PoolWords.WellBracketedKeepsWords | src/common/kv_memory.c:235-259 | Well-bracketed work of any depth changes no word that someone holds when it begins |
| PoolWords.FilledWords | src/runtime/rt_handle_opcode.c:61-62 | Filling a held block stores the words in order from its start and changes no other cell |
| PoolState.ChooseSlotBlockIdByAllocSize | src/common/kv_memory.c:48-90 | The smallest class that holds the size; none exactly when every class is smaller |
| PoolState.PoolAllocKeepsInv | src/common/kv_memory.c:188-217 | Popping and clearing a block keeps the partition and the threading of all nine classes |
| PoolState.MemFreeKeepsInv | src/common/kv_memory.c:246-259 | Releasing an outstanding allocation to where it came from keeps the invariant |
| PoolState.StoreKeepsInv | src/common/kv_memory.c:210-211 | An owner may write any word anywhere in its block without harm to any list |
| KvMemory.KVMemoryPoolManager.constructor | src/common/kv_memory.c:102-159 | Init threads every page completely and leaves nothing handed out |
| KvMemory.KVMemoryPoolManager.KVMemPoolAlloc | src/common/kv_memory.c:188-217 | New state and answer are those of popping the class's list; NULL when no class fits or the list is empty |
| KvMemory.KVMemoryPoolManager.KVMemPoolFree | src/common/kv_memory.c:219-233 | New state is that of pushing the block on its class's list |
| KvMemory.KVMemoryPoolManager.KVMemAlloc | src/common/kv_memory.c:235-244 | Pool first, malloc second |
| KvMemory.KVMemoryPoolManager.KVMemFree | src/common/kv_memory.c:246-259 | NULL is ignored; otherwise the block goes back to the source the range test names |
| KvMemory.KVMemoryPoolManager.OwnerFill | src/runtime/rt_handle_opcode.c:61-62 | Writing any words into a block one holds, up to its size, leaves every list, counter and free block of the pool as it was |
| Requests.RtHandleInsert | src/runtime/rt_handle_opcode.c:134-169 | An insert request acts on the catalogue as specified, whatever record length it claims: a row longer than the payload goes on with what memory holds behind it. The pool's bookkeeping is unchanged, every list in the same order, if and only if the ids name a table whose page has room; otherwise statement and payload stay allocated |
| Requests.RtHandleQueryTable | src/runtime/rt_handle_opcode.c:134-169 | A query-table request replies with the description of the table, which runs past the reply buffer if it is longer; the pool's bookkeeping is unchanged if and only if the ids name a table; otherwise the statement stays allocated |
| Requests.InsertNeutralIff | src/runtime/rt_handle_opcode.c:155-168 | For every pool state, catalogue and insert: the pool is left as it was if and only if the ids name a table whose page has room |
| Requests.QueryNeutralIff | src/runtime/rt_handle_opcode.c:155-168 | For every pool state, catalogue and query: the pool is left as it was if and only if the ids name a table |
| Requests.QueryHoldsCopy | src/datamodel/simple_relation/spr_label.c:324-335 | A query that finds its table allocates its statement and a block with room for 76 bytes for each field, and releases both in reverse order |
| Requests.RejectedQueryHoldsBlock | src/runtime/rt_handle_opcode.c:156-159 | A concrete failure: on a fresh pool, with one database and no table, a query for any table keeps the first 64-byte block |
| Requests.RejectedInsertHoldsBoth | src/runtime/rt_handle_opcode.c:156-159 | A concrete failure: on the same server an insert of a record of five bytes keeps the first 64-byte block and the first 8-byte block |
| Requests.RowStored | src/storage/se_heap.c:27 | What the heap copies is the start of the payload, continued by what lies behind it when the payload is shorter than a row |
| RequestRuns.HistoryKeeps | src/runtime/rt_handle_opcode.c:134-169 | Over every history of inserts and queries the outstanding allocations grow by exactly one per rejected query and two per rejected insert; so all lists of the pool end as they began, in the same order, if and only if every request succeeded |
| RequestRuns.HistoryKeepsWords | src/runtime/rt_handle_opcode.c:134-169 | Over every history of inserts and queries, rejected or not, every word of a block handed out before it is kept |
| RequestRuns.SixtyFourExhaust | src/runtime/rt_handle_opcode.c:156-159 | On a fresh pool, rejected queries empty the 64-byte class if and only if there are at least 64 of them |
| TableRuns.RunGains | src/datamodel/simple_relation/spr_label.c:338-355 | Over every interleaving of requests to all databases and tables that keeps a table's database, the table gains exactly the rows of the inserts addressed to it that found room, in order, and nothing else about it changes |
| TableRuns.EveryTableShowsItsRecords | src/datamodel/simple_relation/spr_label.c:251-276 | Over every such run, the page the server keeps for a table that was empty, changed by each insert addressed to the table that finds room, holds the rows of exactly the records addressed to it and accepted, in order, and agrees with the catalogue; the dump shows each of them under the conditions of the record result |
| Requests.SecondHeld | src/runtime/rt_handle_opcode.c:163-167 | Both blocks of a request are outstanding while it runs, may be released in reverse order, and amount to well-bracketed work |
| Requests.ClientRecordStored | src/datamodel/simple_relation/spr_label.c:338-355 | The request a client packs for a table makes the insert succeed and copy exactly the row of its values, whatever lies behind the payload |
| TableRuns.CatalogueRowsAreHeapRows | src/datamodel/simple_relation/spr_label.c:354 | The catalogue's list of rows and the table's page accept the same rows and grow alike |
| TableRuns.TakesRowIff | src/storage/se_heap.c:22-26 | A table of the catalogue takes a row if and only if it has fewer than floor(4096 / rowSize) |
| VectorUtil.DbVector.constructor | src/common/vector_util.c:8-22 | A new vector is empty with capacity 5 and a buffer for 25 items |
| VectorUtil.DbVector.DbVectorAppendItem | src/common/vector_util.c:24-42 | The items become the old ones and the new item, also across the first realloc, which shrinks the buffer from 25 items' space to 10; the capacity stays 5 times a power of two and the buffer always has room for that many items |
| VectorUtil.DbVector.DbVectorGetItem | src/common/vector_util.c:44-53 | The answer points at the bytes of the item, and is NULL exactly when the index is out of range |
| VectorUtil.DbVector.DbVectorRemoveItem | src/common/vector_util.c:55-70 | Drops the item at the index and keeps the others in order; out of range changes nothing |
| VectorUtil.DbVector.WriteItem | src/common/vector_util.c:44-53 | A store of an item through the pointer the vector answered replaces that item and no other |
| VectorUtil.DbVector.DbVectorClear | src/common/vector_util.c:72-76 | The items become empty; the capacity stays |
| VectorUtil.AppendsCopyFewerThanTwice | src/common/vector_util.c:24-42 | Over every run of appends, removals and clears from init, n appends copied fewer than 2n items through reallocations and the capacity is 5 plus what was copied |
| VectorUtil.ItemsRemove | src/common/vector_util.c:69 | Moving the bytes behind an item down by one item size removes exactly that item |
| CatalogueVectors.DatabasesAreVector | src/datamodel/simple_relation/spr_db.c:28-95 | Over every run of requests whose stored bytes stand for what the requests put in the structs, under any relation between bytes and structs: each append, removal and store through an item pointer meets what the vector asks of its callers while the number of requests keeps the buffer within 32 bits, and the vector stands item for item for the list of databases |
| CatalogueVectors.TablesAreVector | src/datamodel/simple_relation/spr_label.c:143-228 | The same for the vector of tables inside any database over every run that keeps the database |
| Directory.FreshServerRefinesMap | src/datamodel/simple_relation/spr_db.c:28-95 | Main result for the catalogue. Over every run of requests from a fresh server until the id counter wraps, the nested lists stand for the map from database name to id and tables that the same requests build |
| Directory.RunRefinesMap | src/datamodel/simple_relation/spr_db.c:28-95 | The same from any state with unique names and ids |
| Directory.StepRefinesMap | src/datamodel/simple_relation/spr_label.c:143-228 | Each request has the outcome and effect of its counterpart on the map |
| Directory.CreateDbRefines | src/datamodel/simple_relation/spr_db.c:28-76 | Create-db acts on the map as stated there: 4001001 for an empty name, 4001002 for one over 128 characters, 4001004 for a taken one, and else that name is added with the counter as id and no tables |
| Directory.DropDbRefines | src/datamodel/simple_relation/spr_db.c:78-95 | Drop-db removes exactly the named entry, and is rejected with 4001001, 4001002 or 4001005 exactly when the name is empty, too long or absent |
| Directory.CreateTableRefines | src/datamodel/simple_relation/spr_label.c:143-228 | Create-table adds one empty table, with an id 400000 above the counter, to the database with the id, unless the id is unknown (4001007) or the table name taken there (4001506) |
| Directory.InsertRowRefines | src/datamodel/simple_relation/spr_label.c:338-355 | An insert adds one row, of the size of the fields, to the table with the ids and changes nothing else; unknown ids are rejected with 4001007 and 4001507, and a page of 4096 bytes that is full stops the server |
| Directory.LookupByName | src/datamodel/simple_relation/spr_manager.c:109-127 | First-match search by name finds an entry exactly when the map has the name, and finds the map's entry |
| Directory.LookupById | src/datamodel/simple_relation/spr_manager.c:129-147 | First-match search by id finds an entry exactly when the id is in use, and finds its only holder |
| Directory.QueryRefinesMap | src/datamodel/simple_relation/spr_label.c:309-335 | Query-table has the outcome of its counterpart on the map: a failed assertion without a manager, 4001007 for an unknown database id, 4001507 for an unknown table id there, and else the fields the map holds |
| Directory.CreateDbOutcome | src/datamodel/simple_relation/spr_db.c:16-37 | Create-db succeeds if and only if the name has 1 to 128 characters and no database has it; each cause of rejection has its own status, if and only if it is the cause |
| Directory.DropDbOutcome | src/datamodel/simple_relation/spr_db.c:78-95 | Drop-db succeeds if and only if the name has 1 to 128 characters and a database has it; likewise for the causes |
| Directory.CreateTableOutcome | src/datamodel/simple_relation/spr_label.c:143-168 | With a manager, create-table answers 4001007 if and only if the database id is not in use, 4001506 if and only if the name is taken there, and else succeeds |
| Directory.InsertRowOutcome | src/datamodel/simple_relation/spr_label.c:338-355 | With a manager, an insert answers 4001007 or 4001507 for the unknown id, and else succeeds if and only if one more row fits 4096 bytes |
| Catalogue.RunKeepsInv | src/datamodel/simple_relation/spr_manager.c:42-107 | Over every run database names stay unique and table names stay unique per database; ids stay unique within a kind until the counter wraps |
| Catalogue.StepKeepsNames | src/datamodel/simple_relation/spr_db.c:34-37 | Every request keeps names unique |
| Catalogue.StepKeepsIds | src/datamodel/simple_relation/spr_manager.c:9-17 | Every request keeps ids distinct and below the counter |
| Catalogue.KindsApartBelowLimit | src/datamodel/simple_relation/spr_manager.c:6-17 | No database has the id of a table while every drawn counter value is below 500101: the first value 100100 never makes a table, because a table needs a database |
| Catalogue.KindsCollideIff | src/datamodel/simple_relation/spr_manager.c:6-17 | The limit is exact: a run from the fresh server that gives a database and a table the same id exists if and only if the value 500101 may be drawn; the run is create-db, create-table, and one more database created and dropped until that value is drawn for it |
| Catalogue.DropRetiresId | src/datamodel/simple_relation/spr_manager.c:149-168 | Dropping a database leaves no database with its id |
| Catalogue.RetiredForever | src/datamodel/simple_relation/spr_manager.c:9-17 | A dropped database id never resolves again in any later run until the counter wraps |
| Catalogue.DropRetiresTableIds | src/datamodel/simple_relation/spr_manager.c:149-168 | Dropping a database leaves no table anywhere with the id of one of its tables |
| Catalogue.TableRetiredForever | src/datamodel/simple_relation/spr_manager.c:14-17 | The id of a dropped table never names another table in any later run until the counter wraps |
| SprManager.SrDbCtrlManager.DMSrCreateDb | src/datamodel/simple_relation/spr_db.c:28-76 | Outcome and new catalogue are those of the create-db step |
| SprManager.SrDbCtrlManager.DMSrDropDb | src/datamodel/simple_relation/spr_db.c:78-95 | Outcome and new catalogue are those of the drop-db step |
| SprManager.SrDbCtrlManager.DMSrCreateTable | src/datamodel/simple_relation/spr_label.c:143-228 | Outcome and new catalogue are those of the create-table step; a failed assertion when no manager exists yet |
| SprManager.SrDbCtrlManager.DMSrInsertData | src/datamodel/simple_relation/spr_label.c:338-355 | Outcome and new catalogue are those of the insert step |
| SprManager.SrDbCtrlManager.DMSrQueryTable | src/datamodel/simple_relation/spr_label.c:309-335 | The fields of the table with the ids, or why there is none |
| SprManager.SrDbCtrlManager.IsDbNameExist | src/datamodel/simple_relation/spr_manager.c:82-107 | Tells whether a database has the name, and creates the manager on first use |
| SprManager.SrDbCtrlManager.DmGetDbCtrlByName | src/datamodel/simple_relation/spr_manager.c:109-127 | The first database with the name |
| SprManager.SrDbCtrlManager.DmGetDbCtrlByDbId | src/datamodel/simple_relation/spr_manager.c:129-147 | The first database with the id |
| SprManager.SrDbCtrlManager.IsLabelNameExist | src/datamodel/simple_relation/spr_manager.c:42-60 | Tells whether a table of the database has the name |
| SprManager.SrDbCtrlManager.DmGetLabelCtrlByLabelId | src/datamodel/simple_relation/spr_manager.c:62-80 | The first table with the id |
| SprManager.SrDbCtrlManager.RemoveDbCtrlByName | src/datamodel/simple_relation/spr_manager.c:149-168 | Removes the first database with the name and keeps the others in order |
| SprManager.SrDbCtrlManager.GenSrDbId | src/datamodel/simple_relation/spr_manager.c:9-12 | The counter's value, which then advances |
| SprManager.SrDbCtrlManager.GenSrTableId | src/datamodel/simple_relation/spr_manager.c:14-17 | 400000 above the counter's value in 32 bits, which then advances |
| MemCtxState.TakePageIsNearest | src/common/memctx/memctx_main.c:299-352 | A page request takes the head page of the nearest context, the requester first, that has one, and changes no other list; it fails exactly when the whole chain is empty, and then changes nothing |
| MemCtxState.NearestDonorIsFirst | src/common/memctx/memctx_main.c:299-324 | The donor is the first context of the chain with a free page; there is none exactly when all are empty |
| MemCtxState.BorrowKeepsInv | src/common/memctx/memctx_main.c:312-322 | Moving a page between two contexts keeps every page on exactly one list |
| MemCtxState.BorrowMovesHeadPage | src/common/memctx/memctx_main.c:312-322 | The page moved is the donor's head page and heads the borrower's list; no other list and no memory changes |
| MemCtxState.SplitKeepsInv | src/common/memctx/memctx_main.c:362-378 | Clearing and threading a page, as intended, makes all its slots free and leaves other pages alone |
| MemCtxState.SplitCellElsewhere | src/common/memctx/memctx_main.c:362-378 | As intended: splitting leaves zero in every word of the page that is not a link, and writes no word outside it |
| MemCtxRuns.SlotAllocGives | src/common/memctx/memctx_main.c:417-474 | As intended: a page is split only when every page of the level is full; the request fails exactly when, besides, no context up the chain has a page; a slot handed out is new, non-null and large enough, and nothing handed out is taken back |
| MemCtxRuns.OutSlotsDisjoint | src/common/memctx/memctx_main.c:380-394 | No two slots handed out overlap, whatever their contexts, levels and pages |
| MemCtxRuns.EachPageOnOneList | src/common/memctx/memctx_main.c:399-412 | Every page is on exactly one free list or level list |
| MemCtxRuns.SlotsSafeOverEveryRun | src/common/memctx/memctx_main.c:417-474 | Main result for the contexts. Over every run of small allocations from any contexts and owner writes: slots stay disjoint, pages stay on one list each, and the in-page links of a split page, followed for however many steps, visit exactly its slots not handed out, each once, and end at NULL; free and handed-out slots make up the page |
| MemCtxRuns.FreshContextsSafe | src/common/memctx/memctx_main.c:147-188 | The same from the state the server starts in, over any tree |
| MemCtxRuns.StoreKeepsInv | src/common/memctx/memctx_main.c:386-390 | An owner may write anything in its slot without harm to any chain |
| MemCtxWords.SlotComesFrom | src/common/memctx/memctx_main.c:417-474 | As intended: a slot is the first free one of the first page of the level that has one; only when there is none the head page of the nearest context with a free page is split and heads the level, the slot is its first, and no other page or list changes |
| MemCtxWords.SlotAllocKeepsWords | src/common/memctx/memctx_main.c:380-394 | As intended: an allocation takes no word from anyone and changes none that is held; the words it newly hands out are zero |
| MemCtxWords.HoldersFindTheirWords | src/common/memctx/memctx_main.c:417-474 | As intended: after every run from the start state, over any tree, every word of every slot handed out is what its holder last stored there, or zero |
| MemCtxState.DbGetFixSizeLevel | src/common/memctx/memctx_main.c:267-278 | The smallest level whose slots hold the size |
| MemCtxState.LevelSizes | src/common/memctx/memctx_main.c:267-278 | The eight levels have slots of 8, 16, 32, 64, 128, 256, 512 and 1024 bytes |
| MemCtxMain.DbMemCtxManager.constructor | src/common/memctx/memctx_main.c:147-188 | All pages are on the top context's list in address order; counters equal list lengths |
| MemCtxMain.DbMemCtxManager.DbInitFreeList | src/common/memctx/memctx_main.c:106-117 | The headers are numbered, addressed and linked in order, the last to NULL |
| MemCtxMain.DbMemCtxManager.DbGetFreePageFromParentMemCtx | src/common/memctx/memctx_main.c:299-324 | As written: walks up the parents, moves one page to the borrower through heads, links and counters, and reports whether there was one |
| MemCtxMain.DbMemCtxManager.DbAllocPageFromCurrMemCtx | src/common/memctx/memctx_main.c:337-352 | Borrows if the own list is empty, then cuts the head page off |
| MemCtxMain.DbMemCtxManager.DbMemGetAndSplitPage | src/common/memctx/memctx_main.c:399-412 | A page is taken, split into slots of the level and hung at the head of its list, or none can be had |
| MemCtxMain.DbMemCtxManager.DbMemPageFindSlotWithLevelList | src/common/memctx/memctx_main.c:380-394 | As intended: a cleared slot of the first page along the list that has one, NULL when none has |
| MemCtxMain.DbMemCtxManager.DbDynMemCtxAlloc | src/common/memctx/memctx_main.c:417-474 | For small sizes: new state and answer are those of the slot allocation step |

## Left out

- Sockets, threads, start and stop: requests are taken one at a time, and allocations from the operating system succeed.
- Parsing of the table description in JSON: create-table starts from the parsed field list.
- Logging and printed layout; the dump is the sequence of decoded values.
- Opcode dispatch, reply headers, the calculator opcode and opcodes without an implementation.
- Cleanup after failed allocations, `KVMemoryPoolUninit`, `DbVectorDestroy`.
- The names, properties and heap pages that create-db and create-table allocate from the pool and keep.
- `DbGetFreePageFromParent`, allocations over 1024 bytes from a context, and creation of child contexts.
- SprManager.SrDbCtrlManager.DMSrCreateTable: starts at the parsed field list, leaves out the pool allocations and the heap page, and the lists are sequences; that the vectors of databases and of tables stand for their lists over every run is proved apart (`CatalogueVectors.DatabasesAreVector`, `CatalogueVectors.TablesAreVector`).
- SprManager.SrDbCtrlManager.DMSrInsertData: appends to a list of rows; that the table's page holds the same rows is proved apart (`TableRuns.CatalogueRowsAreHeapRows`, `TableRuns.EveryTableShowsItsRecords`).
- Requests.RtHandleInsert: the payload's bytes and the cells of its pool block are separate, the latter taking arbitrary words, so the model does not pack bytes into cells.
- Requests.RtHandleQueryTable: likewise, the copied properties and the cells of their pool block are separate.
- SprManager.SrDbCtrlManager.DMSrCreateDb: leaves out the pool allocations of the name and of the answer.
