# mcdb: a model and its proofs

mcdb is a constant database. A writer (`mcdb_make.c`) builds a file of records followed by 256
open-addressed hash tables; a reader (`mcdb.c`) maps the file and looks keys up in it. Around these
two sit a text form that can be dumped and read back (`mcdbctl.c`, `mcdb_makefmt.c`), a protocol by
which threads move together to a newer map of the database (`mcdb.c`), and a compiler of netgroups
into database records (`nss/`). This project models all five and proves what they promise.

A stored record is a key and a data string. A file is a sequence of bytes; every number in it is
packed and unpacked big-endian. `Layout.Image(recs)` defines the file as a function of the list of
added records alone. The writer's classes are proved to produce exactly that file, and the reader's
to find in it exactly those records.

| file | models |
|---|---|
| `Wrappers.dfy`, `Bytes.dfy`, `Parts.dfy` | options, lists without repeats, words and their packing, concatenations and where their parts lie |
| `Uint32.dfy` | the djb hash, decimal printing |
| `ProbeTable.dfy` | linear probing, apart from any byte layout |
| `Layout.dfy`, `KnownFile.dfy` | the file as a function of the records, in both cell layouts; the file of one record, byte by byte |
| `Search.dfy` | what a lookup returns, as a function of the records |
| `Reader.dfy`, `Walks.dfy` | lookup, slot validation, record count and iteration on the bytes |
| `HpLists.dfy`, `Placing.dfy`, `Make.dfy` | the writer: linked blocks of hash entries, sliding window, finish |
| `Limits.dfy` | which lists of records stay within the writer's limits |
| `TextFormat.dfy`, `MakeFmt.dfy`, `Dump.dfy` | the text form: grammar, refilling parser, printer |
| `Ctl.dfy` | the commands that read or rewrite a database |
| `Refresh.dfy`, `Registration.dfy`, `Threads.dfy` | the refresh protocol as a state machine, the pointer code that carries out its steps, and whole runs of threads on linked maps |
| `Uniq.dfy`, `NgTables.dfy`, `NgGraph.dfy`, `Triples.dfy`, `Netgroup.dfy` | the netgroup compiler |
| `Netgr.dfy`, `NetgroupDb.dfy` | netgroup queries, and what they answer on a compiled database |
| `NgBuild.dfy`, `NgMeaning.dfy` | from the lines of a netgroup file to numbered groups, with the same meaning |
| `RoundTrip.dfy` | writer and reader, compiler and query, put together |

Conventions. Objects that the C code updates in place are classes with the same fields; loops are
loops. Ghost fields such as `McdbMake.recs` carry the list that the specification is about. A
predicate named `Idle`, `InRecord`, `Cursor`, `Next`, `Valid`, `Ready` or `Inv` is the invariant of
its class or state machine. Numbers of 32 and 64 bits are the subset types `word` and `long`, and
every wrap-around that the C code can reach is written out.

What the code needs of its callers appears as preconditions, and nothing more does: `Finishable`
says that at most 2^28 records fall in one slot in the 8-byte layout and 2^27 in the 16-byte layout
(the shifts in `mcdb_make_finish` are 32-bit), that there are fewer than 2^32 records in all, and that
the file stays below 2^63 bytes. `INT_MAX` is not assumed there: `finish` is proved to succeed exactly when the
total is at most `INT_MAX`. Any list of at most 2^27 records is `Finishable` (`Limits.FewFinishable`). Netgroup and triple numbers stay below 2^27, which is proved to be enough
for the visited-id table never to fill up.

## Where the code does something else than one might expect

- Records of one slot are placed newest block of 250 first. `Search.Matches` is the order in which a
  lookup returns duplicates. `Search.InsertionOrderIff` proves that it is insertion order if and only if
  all duplicates of the key share one block of their slot; `Search.TwoBlocksReorder` gives 251 equal
  records that come back in another order.
- `mcdb_validate_slots` adds in 64 bits, so it also accepts a header whose first table position is
  near 2^64. `Walks.AcceptedIsTiled` proves that the tables tile if and only if the header is accepted and
  the first position lies inside the file; `Walks.WrappedHeaderAccepted` is a file that is accepted and
  not tiled.
- A new thread must register through a pointer to the newest map. Through an older one the code moves
  a handle that was never counted. `Refresh.FreshRegistration` proves that the invariant survives
  registration if and only if the pointer is to the newest map; `Refresh.StaleRegistrationUncounts` is a
  run after which such a registration leaves a map with a handle and a count of 0.
- A failed reopen leaves its guard bit set for good. `Refresh.NoLeak` proves what that costs: once no
  thread is registered, exactly the maps before the first one whose reopen failed have been released,
  so all have if and only if none failed. `Refresh.FailedReopenLeaks` is a run that leaks.
  Safety holds in all runs.
- When several maps become unused at once they leave the chain oldest first, but the code then frees
  the oldest one and after it the others from the newest back. `Registration.DropOrder` proves that the
  two orders agree if and only if at most two maps are released, which is to say that the first map
  still in use is at most two places further on. `Refresh.ThreeReleased` is a run in which one refresh
  releases three maps, and `Threads.ReleaseThree` carries it out: the third is freed ahead of the second.
- `innetgr` answers "not found" for a host or domain longer than 255 bytes even if the netgroup has a
  triple that matches anything. A longer user name is still matched against triples without a user.
  `RoundTrip.CompileThenAsk` has the exact condition; `RoundTrip.LongHostMissed` gives such lines and a
  query for a host of 256 bytes.
- A text line whose numbers have so many leading zeros that its preamble exceeds 23 bytes may be
  refused when read in pieces, though the same text mapped whole is accepted. `MakeFmt.MakeFromText`
  proves that this is the only difference, and that reads of one byte refuse a text if and only if it
  is malformed or has such a preamble; `RoundTrip.LeadingZerosDiffer` is a text that shows both.

## Model

| member | source | states |
|---|---|---|
| Bytes.UnpackPack64 | uint32.h:46-61 | unpacking undoes packing of a 64-bit position |
| Bytes.PackedFirst | uint32.h:46-55 | the most significant byte of a 32-bit number comes first |
| Bytes.PackedFirst64 | uint32.h:57-60 | so it does for 64 bits |
| Uint32.HashStep | uint32.h:78-78 | one step is the exclusive or of the byte with 33 times the hash, in 32-bit arithmetic |
| Uint32.HashStarts | uint32.h:76-98 | the hash begins with 5381 and takes the first byte first |
| Uint32.HashOfA | uint32.h:76-98 | the hash of the key "a" is 177604, in slot 196 |
| Uint32.HashDjb | uint32.h:91-98 | the loop computes the fold of the wrapping per-byte step |
| Uint32.HashConcat | mcdb_make.c:382-391 | hashing a key in pieces, or a tag byte ahead of it, gives the hash of the whole stored key |
| Uint32.ValueDecimal | uint32.h:377-391 | reading back the printed digits of a number gives the number |
| Uint32.ToAsciiBase10Loop | uint32.c:140-147 | the loop writes exactly the decimal digits, at most ten bytes, and changes nothing else |
| Uint32.ToAsciiBase10 | uint32.h:377-391 | the special cases for one and two digits agree with the loop |
| ProbeTable.PlaceKeepsProbed | mcdb_make.c:538-548 | placing an entry keeps: each entry in one cell, no empty cell between it and its home, entries of one home in placement order |
| ProbeTable.FreeStepExists | mcdb_make.c:514-571 | with fewer entries than cells the probe loop reaches an empty cell, so it ends |
| ProbeTable.Build | mcdb_make.c:514-571 | a whole table has that shape |
| ProbeTable.WalkFinds | mcdb.c:131-185 | from any step on, a walk meets exactly the wanted entries not yet passed, before the empty cell that ends it |
| ProbeTable.SearchFinds | mcdb.c:87-185 | a search returns exactly the wanted entries, each once, in placement order |
| Layout.PlacementPermutes | mcdb_make.c:535-541 | visiting the blocks newest first neither loses nor repeats an entry |
| Layout.PlacementAt | mcdb_make.c:535-541 | where each entry goes: blocks of 250 from the last back, each in its own order |
| Layout.SlotAndHome | mcdb_make.c:540-540 | the low eight bits of a hash name the slot, the others modulo the table size the home |
| Layout.ImageIsImage | mcdb_make.c:468-575 | the file is header, data, padding and 256 tables, each at its computed place |
| Layout.RecAt | mcdb_make.c:346-391 | every record lies at its own position, lengths first |
| Layout.CellAt | mcdb_make.c:529-570 | every cell lies at its own position, empty cells being zero |
| KnownFile.OneRecordFile | mcdb_make.c:468-575 | the 4128 bytes of the file of the record "a", "b": header, record, padding and table |
| KnownFile.LengthsFirst | mcdb_make.c:365-366 | a record starts with the length of its key, then that of its data, both big-endian |
| KnownFile.WideCell | mcdb_make.c:551-570 | the fields of a 16-byte cell, used exactly when the tables start at 2^32 - 1 or later |
| KnownFile.NextCellTaken | mcdb_make.c:542-544 | a second entry with the same home goes to the next cell, and from the last cell to the first |
| Layout.AddRecord | mcdb_make.c:394-403 | adding a record extends the data, moves no earlier record, and joins exactly one slot |
| Search.MatchesAreTheRecords | mcdb.c:87-185 | the records returned for a key are exactly those stored under it, each once |
| Search.InsertionOrderIff | mcdb_make.c:535-541 | a lookup returns duplicates in insertion order iff they share one block of 250 of their slot |
| Search.MatchesInInsertionOrder | mcdb_make.c:118-121 | so it does in a slot of at most 250 records |
| Search.TwoBlocksReorder | mcdb_make.c:535-541 | 251 equal records, which come back in another order |
| Search.RemainingFromStart | mcdb.c:87-128 | nothing is skipped before the first findtagnext |
| Reader.HeaderFields | mcdb_make.c:522-526 | slot s of the header gives its table's position and twice its number of records |
| Reader.StridesAgree | mcdb.c:337-337 | the reader's choice of stride (file size, top half of the first position) is the writer's (aligned start of the tables), for every list of records |
| Reader.PositionFits | mcdb_make.c:499-512 | every stored position is non-zero and fits 32 bits in the small layout |
| Reader.CellFields | mcdb.c:131-185 | a cell read from the bytes is empty or describes a record of the slot |
| Reader.KeyIsTagKey | mcdb.c:157-180 | comparing the tag byte and then the key is comparing with the stored key |
| Reader.Mcdb.FindTagStart | mcdb.c:87-128 | false only when no record has the key; otherwise every match is still to come |
| Reader.Mcdb.FindTagNext | mcdb.c:131-185 | returns the next match and leaves the rest; false exactly when none is left |
| Reader.Mcdb.NextNarrow | mcdb.c:141-162 | the same for the loop over 8-byte cells |
| Reader.Mcdb.NextWide | mcdb.c:163-183 | the same for the loop over 16-byte cells |
| Walks.CountAll | mcdb.c:202-213 | the slots partition the records |
| Walks.NumRecs | mcdb.c:202-213 | numrecs is the number of records added |
| Walks.ValidateSlots | mcdb.c:216-239 | accepts exactly the headers whose tables chain from the first position to the file's end, in 64-bit arithmetic |
| Walks.AcceptedIsTiled | mcdb.c:216-239 | the tables tile the file from the first position to its end, without gap or overlap, iff the header is accepted and that position lies inside the file |
| Walks.WrappedHeaderAccepted | mcdb.c:216-239 | a header that is accepted by wrap-around and does not tile |
| Walks.ProducedIsAccepted | mcdb.c:202-239 | every produced file is accepted and counted right |
| Walks.McdbIter.Advance | mcdb.c:242-258 | yields the records in insertion order, then stops, for every padding length; the 32-bit length sum does not wrap |
| Walks.EndOfData | mcdb.c:261-276 | padding of 8 bytes or more reads as the end mark, shorter padding lies past the end bound |
| HpLists.VisitIsPlacement | mcdb_make.c:535-541 | walking a slot's chain from its head is the placement order |
| HpLists.HpLists.constructor | mcdb_make.c:428-465 | the first array gives every slot an empty block with room |
| HpLists.HpLists.Alloc | mcdb_make.c:113-147 | a slot whose block is full gets a fresh or a spare one; no slot's records change; a spare block costs no allocation, otherwise exactly one array joins those allocated and none is forgotten; fails exactly without a spare block and with INT_MAX records counted |
| HpLists.HpLists.AddEnd | mcdb_make.c:394-403 | the entry joins the end of its own slot's list and no other |
| HpLists.HpLists.Destroy | mcdb_make.c:584-616 | walking slot 0 alone frees every allocated array exactly once, and with them every block of every slot |
| Placing.FilledAppend | mcdb_make.c:538-568 | placing one more entry changes one empty cell of the table's bytes |
| Placing.TakenTest | mcdb_make.c:541-563 | the test of the probe loop sees whether a cell is taken |
| Make.McdbMake.MapWrite | mcdb_make.c:372-391 | a write through the window is the same write at its position in the file, and the window must cover it |
| Make.McdbMake.Upsize | mcdb_make.c:267-343 | the window then covers what was asked for, lies inside the file, and the bytes written so far stay |
| Make.McdbMake.constructor | mcdb_make.c:428-465 | a started writer holds no record |
| Make.McdbMake.AddBegin | mcdb_make.c:346-369 | fails exactly for lengths over INT_MAX-8, or when a block is needed, none is spare and the counts add up to INT_MAX; on success the record's room is in the window |
| Make.McdbMake.AddBufKey | mcdb_make.c:382-391 | appends key bytes and updates the hash |
| Make.McdbMake.AddBufData | mcdb_make.c:372-379 | appends data bytes |
| Make.McdbMake.AddEnd | mcdb_make.c:394-403 | the list of records grows by this record |
| Make.McdbMake.AddRevert | mcdb_make.c:406-409 | before the end of a record, as if it had not been begun |
| Make.McdbMake.Add | mcdb_make.c:412-423 | adds the record whenever the lengths are in range and the list is not full |
| Make.McdbMake.PlaceEntry | mcdb_make.c:538-568 | the entry goes to the first empty cell of its path; nothing before the table changes |
| Make.McdbMake.PlaceSlot | mcdb_make.c:529-570 | a zeroed table becomes the table of the slot's entries, in both layouts |
| Make.McdbMake.OneSlot | mcdb_make.c:514-571 | one slot's header entry and table follow what was written before |
| Make.McdbMake.Pad | mcdb_make.c:499-506 | the tables start at the next multiple of 16 after the data |
| Make.McdbMake.Finish | mcdb_make.c:468-575 | succeeds iff at most INT_MAX records were added, the file then being `Image` of them; every array allocated is freed once either way, and every block is part of one of them |
| Make.McdbMake.SumIsCount | mcdb_make.c:486-490 | the 32-bit sum of the slot counts is the number of records |
| Make.ShiftsFit | mcdb_make.c:529-570 | 2^28 and 2^27 are exactly as many records of a slot as the 32-bit shifts can address |
| TextFormat.Number | mcdb_makefmt.c:133-154 | a digit run is a number iff its value is at most INT_MAX-8 |
| TextFormat.PrePrefix | mcdb_makefmt.c:113-124 | a preamble lies whole in a prefix of the input or not at all |
| TextFormat.ParseText | mcdbctl.c:147-219 | parsing undoes printing, for arbitrary binary keys and data |
| TextFormat.ParseIff | mcdb_makefmt.c:254-303 | a text is read as a list of records exactly when it spells them line by line and ends in an empty line; any other is refused |
| TextFormat.NewlineMissing | mcdb_makefmt.c:241-241 | a line with anything but a newline after its data is malformed |
| TextFormat.TextUndoes | mcdbctl.c:147-219 | printing undoes parsing, for texts without leading zeros |
| TextFormat.TextExample | mcdbctl.c:147-219 | two lines character by character |
| MakeFmt.McdbInput.Fill | mcdb_makefmt.c:90-103 | whatever number of bytes a read delivers, the unread input stays the same |
| MakeFmt.McdbInput.ReadNumber | mcdb_makefmt.c:133-154 | the overflow-safe loop accepts exactly the numbers of the grammar |
| MakeFmt.McdbInput.ReadPreamble | mcdb_makefmt.c:164-183 | accepts the preambles of the grammar and nothing else; in pieces it may refuse those over 23 bytes, and with reads of one byte it does |
| MakeFmt.McdbInput.PreambleFill | mcdb_makefmt.c:113-124 | afterwards the buffer alone decides the preamble |
| MakeFmt.McdbInput.ReadStr | mcdb_makefmt.c:194-207 | hands exactly the next bytes to the writer across refills; false iff the input is too short |
| MakeFmt.McdbInput.ReadRec | mcdb_makefmt.c:232-242 | reads exactly a record of the grammar |
| MakeFmt.FastLine | mcdb_makefmt.c:275-287 | a record that lies whole in the buffer is added as the slow path would add it |
| MakeFmt.SlowLine | mcdb_makefmt.c:288-295 | a record in pieces is added as parsing the whole input would |
| MakeFmt.MakeFromText | mcdb_makefmt.c:254-303 | for every way of splitting the input the file is that of parsing it whole; refused inputs are malformed (`TextFormat.ParseIff` says which are) or have an over-long preamble, and with reads of one byte all of those are refused |
| TextFormat.PaddedIsLong | mcdb_makefmt.c:113-124 | a well-formed text with n leading zeros; its preamble is over-long iff n + 5 > 23 |
| Dump.Writev | mcdbctl.c:99-121 | prints the vector's pieces in order, the digit buffer included |
| Dump.DumpText | mcdbctl.c:130-219 | the bytes printed are the text form of the records, however often the vector is flushed |
| Dump.DumpThenMake | mcdbctl.c:130-219 | dumping a produced file and making a database of the text gives the file back byte for byte |
| Ctl.DataPosInjective | mcdbctl.c:246-258 | a data position names its record |
| Ctl.GetAll | mcdbctl.c:303-321 | prints the data of every record under the key |
| Reader.InCellOnce | mcdb.c:131-185 | a record lies in one cell on the way from its key's home, so the number of cells visited is determined |
| Ctl.Stats | mcdbctl.c:228-264 | finds every iterated record by its key at its own position; bucket d < 10 counts the records found in cell number d+1 on the way, bucket 10 those found later |
| Ctl.HasUniqueKeys | mcdbctl.c:430-454 | answers unique iff no two records share a key |
| Ctl.KeptMembers | mcdbctl.c:462-517 | what uniq writes is one record for each leading match |
| Ctl.UniqMeaning | mcdbctl.c:462-517 | the output has the input's keys, each once, with the data of the first or last match |
| Ctl.KeptInOrder | mcdbctl.c:462-517 | the records of the output are in the order of the leading matches |
| Ctl.KeptFinishable | mcdbctl.c:462-517 | the output stays within the writer's limits when the input did |
| Ctl.MakeUniqueKeys | mcdbctl.c:462-517 | the loop writes the file of exactly those records |
| Limits.PickedFinishable | mcdb_make.c:486-575 | some of the records of a list that finish can store, each taken once, can be stored too |
| Limits.FewFinishable | mcdb_make.c:486-575 | any 2^27 records can be stored, whatever their sizes and slots |
| Refresh.ReleaseFrees | mcdb.c:608-613 | releasing frees the maps up to the first one in use |
| Refresh.DropKeeps | mcdb.c:608-621 | the last decrement on a map keeps the invariant |
| Refresh.MoveKeeps | mcdb.c:594-605 | moving a handle to the newest map keeps the invariant |
| Refresh.PublishKeeps | mcdb.c:657-676 | linking a new map outside the lock keeps the invariant |
| Refresh.StepKeeps | mcdb.c:565-681 | every step of every thread keeps the invariant; links and releases are never undone |
| Refresh.StepThread | mcdb.c:565-681 | where every step of a registered thread leaves it: on the newest map after a refresh, after a reopen of a superseded map and after a reopen; unregistered; guarding iff the guard bit was clear |
| Refresh.StepRegisters | mcdb.c:594-605 | a first registration is possible iff the newest map is not released, and leads to it |
| Refresh.RunInv | mcdb.c:565-681 | the invariant holds after every interleaving |
| Refresh.Safety | mcdb.c:565-681 | in every run no thread holds a released map, the low 30 bits of each count are its handles, exactly the oldest live map lacks bit 30, bit 31 is set exactly during a reopen or after a failed one, live maps form one chain |
| Refresh.NoLeak | mcdb.c:608-670 | when no thread is registered, exactly the maps before the first with a failed reopen are released; all are iff none failed |
| Refresh.FailedReopenLeaks | mcdb.c:650-670 | a run that ends without handles and with a map never released |
| Refresh.RunForward | mcdb.c:608-628 | released maps stay released and links stay, however a run goes on |
| Refresh.HandlesConserved | mcdb.c:594-605 | the counts of the live maps add up to the registered threads |
| Refresh.RefreshMoves | mcdb.h:242-244 | a refresh moves the handle to the newest map and changes no other handle |
| Refresh.FreshRegistration | mcdb.c:594-605 | a first registration keeps the invariant iff it goes through the newest map |
| Refresh.StaleRegistrationUncounts | mcdb.c:594-605 | a run after which registering through the older map leaves a handle on a map with count 0 |
| Refresh.ThreeReleased | mcdb.c:605-628 | a run in which one thread's refresh releases three maps in one step |
| Registration.Unlink | mcdb.c:608-620 | the pointer loop takes off exactly the unused maps after the one dropped and unmarks the next |
| Registration.Decrement | mcdb.c:607-628 | carries out the decrement of the state machine; frees exactly the maps it releases, each once, the oldest first and then the newest back |
| Registration.FreedOldestFirst | mcdb.c:606-628 | the frees follow the order in which maps leave the chain iff no more than two leave it |
| Registration.DropOrder | mcdb.c:605-628 | which maps a decrement frees, and whether oldest first, can be told before it from the first map in use |
| Registration.ThreeFreedOutOfOrder | mcdb.c:605-628 | in the run above the three maps are freed as first, third, second |
| Registration.Move | mcdb.c:594-628 | carries out the move of the state machine, freeing likewise and in that order |
| Registration.Register | mcdb.c:565-632 | the routine, with its refusals for a NULL pointer and for a map already unmapped |
| Threads.Process.BeginReopen | mcdb.c:641-656 | the first section of a reopen on the linked maps: on a superseded map the pointer moves to the newest; otherwise the guard bit is set, unless it was |
| Threads.Process.Publish | mcdb.c:663-675 | links a new map with count 2^30 outside the lock |
| Threads.Process.EndReopen | mcdb.c:676-680 | clears the guard and moves the pointer to the newest map |
| Threads.Process.Act | mcdb.c:565-681 | whatever a thread may do next, the linked maps, pointers and frees stay those of the state machine |
| Threads.RunThreads | mcdb.c:565-681 | any interleaving carried out on linked maps: the state machine's run; no registered thread points to an unmapped map, no map is freed twice |
| Threads.ReleaseThree | mcdb.c:605-628 | the run that frees out of order, carried out |
| Registration.RunAllows | mcdb.c:565-632 | in every state of every run the routine may be called on a thread's map |
| Uniq.AllDealt | nss/nss_mcdb_netdb_make.c:1138-1151 | dealing every row out over four keeps the set of ids, negative ones too, and no row overflows |
| Uniq.NeverCrowded | nss/nss_mcdb_netdb_make.c:1122-1156 | ids below 2^27 in size always find room by the largest table |
| Uniq.UniqTable.Reset | nss/nss_mcdb_netdb_make.c:1112-1115 | clearing the counts alone empties the set |
| Uniq.UniqTable.Resize | nss/nss_mcdb_netdb_make.c:1122-1156 | a fourfold table with the same set; refused exactly at 2^22 rows |
| Uniq.UniqTable.UniqId | nss/nss_mcdb_netdb_make.c:1497-1539 | true, and the id joins the set, iff it is new and 64 ids do not already share its row in the largest table |
| NgTables.InChain | nss/nss_mcdb_netdb_make.c:1050-1056 | a key that the table holds is found in the chain of its hash |
| NgTables.NgTable.InsertId | nss/nss_mcdb_netdb_make.c:1046-1089 | a key known already keeps its number, a new one gets the next; equal numbers mean equal bytes |
| NgGraph.ClosedReach | nss/nss_mcdb_netdb_make.c:1545-1562 | a set closed under entries holds everything the group reaches |
| NgGraph.FlattenedMembers | nss/nss_mcdb_netdb_make.c:1545-1590 | with or without subgroups, the flattened list has exactly the triples in reach |
| NgGraph.TrailOne | nss/nss_mcdb_netdb_make.c:1545-1562 | in going through a group's entries a triple is emitted when it is first met, and what has been seen is passed over |
| NgGraph.TrailGroup | nss/nss_mcdb_netdb_make.c:1545-1562 | a subgroup met for the first time is gone through in its place |
| NgGraph.VisitShrinks | nss/nss_mcdb_netdb_make.c:1545-1562 | a group entered for the first time leaves fewer to visit, so recursion ends on cyclic graphs |
| Triples.LowerIs | nss/nss_mcdb_netdb_make.c:1225-1245 | capital letters become small ones, every other byte stays |
| Triples.LowerSame | nss/nss_mcdb_netdb_make.c:1225-1245 | two strings are stored alike iff they differ in the case of letters at most |
| Triples.EncodeExamples | nss/nss_mcdb_netdb_make.c:1203-1245 | the bytes of two triples; 255 bytes is the longest field |
| Triples.EncodeInjective | nss/nss_mcdb_netdb_make.c:1203-1245 | two triples have one encoding iff they are stored alike |
| Triples.EncodedAt | nss/nss_mcdb_netdb_make.c:1212-1241 | what a reader finds at an encoded triple: total, two lengths, three strings |
| Triples.EncodeListFlat | nss/nss_mcdb_netdb_make.c:1612-1615 | the value written is the triples' encodings one after another and two bytes of 0 |
| Netgroup.EncodeInto | nss/nss_mcdb_netdb_make.c:1203-1245 | the buffer filled step by step is the encoding of the triple with host and domain in lower case |
| Netgroup.NgData.TripleId | nss/nss_mcdb_netdb_make.c:1203-1245 | -1 iff a field exceeds 255 bytes; otherwise the number of the folded triple, new ones added |
| Netgroup.NgData.GroupId | nss/nss_mcdb_netdb_make.c:1250-1272 | a name's number; a new name gets an empty list |
| Netgroup.NgData.AppendInt | nss/nss_mcdb_netdb_make.c:1277-1289 | one more entry of one group |
| Netgroup.NgData.Reserve | nss/nss_mcdb_netdb_make.c:1406-1412 | triple 0 matches everything and group 0 is no text's name; the two tables stay apart |
| Netgroup.NgData.Append | nss/nss_mcdb_netdb_make.c:1459-1491 | the triple's bytes follow those before, across growth of the buffer |
| Netgroup.NgData.Recurse | nss/nss_mcdb_netdb_make.c:1545-1562 | adds only what the root reaches, finishes every group it enters, emits each triple once, terminates |
| Netgroup.WalkedAll | nss/nss_mcdb_netdb_make.c:1545-1590 | a walk from the group alone has found exactly what the group reaches |
| Netgroup.NgData.Datastr | nss/nss_mcdb_netdb_make.c:1568-1590 | the group's own list without subgroups, otherwise every triple in reach exactly once, in the order of `NgGraph.Trail` |
| NetgroupDb.EncodeGroup | nss/nss_mcdb_netdb_make.c:1602-1622 | a group with a triple in reach gets one record, its list encoded; others none; a refused record says why |
| NetgroupDb.EncodeAll | nss/nss_mcdb_netdb_make.c:1594-1625 | the records of all groups, in order, after those there before; a group whose record is refused stops it |
| NetgroupDb.Write | nss/nss_mcdb_make.c:132-145 | the record is stored under the tag byte, whatever it is, and the name |
| Netgr.TripleMatches | nss/nss_mcdb_netdb.c:434-450 | the test at one encoded triple accepts iff each field is not asked for, empty, or equal |
| Netgr.InnetgrDecode | nss/nss_mcdb_netdb.c:407-455 | success iff host and domain are at most 255 bytes and some triple of the list accepts |
| Netgr.Innetgr | nss/nss_mcdb_netdb.c:458-476 | the same through the lookup; not found for a name that is not there |
| Netgr.GetNetgrentDecode | nss/nss_mcdb_netdb.c:265-312 | the next triple as strings in the caller's buffer; a small buffer leaves the cursor where it was; the end is reported once and stays |
| Netgr.GetAllNetgrent | nss/nss_mcdb_netdb.c:265-312 | repeated calls give the triples of the list in order |
| NetgroupDb.GroupFound | nss/nss_mcdb.c:334-359 | a lookup of a group's name finds its own record, and none when nothing is in reach |
| NetgroupDb.ListAnswers | nss/nss_mcdb_netdb_make.c:1545-1590 | asking the flattened list is asking the graph |
| NetgroupDb.AskNetgroup | nss/nss_mcdb_netdb.c:407-476 | on the compiled database innetgr succeeds iff the group exists and reaches, through subgroups, a triple that matches |
| NetgroupDb.ListNetgroup | nss/nss_mcdb_netdb.c:265-312 | getnetgrent on the compiled database gives the flattened triples in order |
| NgBuild.Code | nss/nss_mcdb_netdb_make.c:1313-1384 | numbers an entry, keeping what the groups so far say; refused iff a triple is too long |
| NgBuild.AddLine | nss/nss_mcdb_netdb_make.c:1441-1446 | adds a line's entries to its name's list, in order |
| NgBuild.Build | nss/nss_mcdb_netdb_make.c:1399-1452 | every list of lines becomes numbered groups with the same entries in the same order; refused iff a triple is too long |
| NgMeaning.MemberIs | nss/nss_mcdb_netdb.c:407-450 | a query accepts a triple iff each field is not asked for, empty on either side, or the same: host and domain whatever their case, user exactly |
| NgMeaning.GivenMatches | nss/nss_mcdb_netdb.c:407-450 | a triple that a line gives the netgroup answers every query that it agrees with in that way |
| NgMeaning.IncludesSubgroup | nss/nss_mcdb_netdb_make.c:1545-1562 | a netgroup includes itself and the subgroups of what it includes |
| NgMeaning.AskedForAnything | nss/nss_mcdb_netdb.c:407-455 | three NULLs are answered iff the lines give the netgroup any triple |
| NgMeaning.PathNamed | nss/nss_mcdb_netdb_make.c:1545-1562 | a path through numbered groups is a chain of subgroup names |
| NgMeaning.PathNumbered | nss/nss_mcdb_netdb_make.c:1545-1562 | and the reverse |
| NgMeaning.ListMeaning | nss/nss_mcdb_netdb_make.c:1399-1590 | the flattened list of a name holds exactly the triples that its lines give it through subgroups: its own in order when it has no subgroup, each once otherwise |
| NgMeaning.SameMeaning | nss/nss_mcdb_netdb_make.c:1399-1590 | a group reaches a matching triple iff its name includes one in the lines |
| RoundTrip.OpenedHolds | mcdb.c:309-345 | a finished file, opened, is read in the layout it was written in |
| RoundTrip.Store | mcdb_make.c:412-575 | adding records one by one and finishing gives the file of the list |
| RoundTrip.StoreThenGet | mcdb.c:87-185 | what is stored under a key is what is found: each record once, nothing else |
| RoundTrip.LeadingZerosDiffer | mcdb_makefmt.c:113-124 | that text, accepted mapped, and refused byte by byte exactly from 19 zeros on |
| RoundTrip.Overlarge | nss/nss_mcdb_netdb_make.c:1602-1622 | a record is refused only for names near INT_MAX bytes or more than 2^21 names and entries |
| RoundTrip.CompileThenAsk | nss/nss_mcdb_netdb_make.c:1399-1625 | from any lines: built, compiled, written, reopened and asked, innetgr succeeds iff the lines give the netgroup, through subgroups, a triple that matches |
| RoundTrip.LongHostMissed | nss/nss_mcdb_netdb.c:407-455 | a netgroup whose triple matches anything, and a query that is refused for a host of 256 bytes |
| RoundTrip.CompileThenList | nss/nss_mcdb_netdb_make.c:1399-1625 | from any lines: built, compiled, written, reopened and listed, getnetgrent gives exactly the triples that the lines give the netgroup |

## Left out

- System calls: open, stat, mmap, ftruncate, fallocate, msync, madvise, read errors and `errno`. A file is its bytes; allocations succeed. `mcdb_make.c` with a file descriptor of -1 (malloc instead of mmap) is not modelled.
- 32-bit builds, where files stay below 4 GB and `uintptr_t` has 32 bits.
- Hash functions other than djb with its own initial value; writer and reader are taken to use the same.
- Make.McdbMake.AddRevert: stated inside a record only. After `mcdb_make_addend` the source moves the position back but keeps the hash entry, which no caller does.
- Make.McdbMake.Add: after a failed add only the list of entries is described, since callers stop there.
- Make.McdbMake.constructor: the source's error path, which reaches destroy before the block links are set up.
- Make.McdbMake.Finish: the final flush and the writing of the header by a second mapping are one assignment of the first 4096 bytes.
- HpLists.HpLists.Alloc: the 256 blocks of one `malloc` are separate objects here, each with the number of its array; freeing is recorded on the first of them.
- Reader.Mcdb.FindTagStart: the call of `mcdb_thread_refresh_self` before a lookup is not part of it; the map is the one it finds. What the call does is `Refresh.RefreshMoves`.
- Reader.Mcdb.FindTagNext: not described after it has returned false; callers stop there.
- Dump.Writev: a short write is not modelled; each call writes all it is given.
- Refresh.Safety: a thread does not share its handle with another, reads it after the call rather than the return value, and there are fewer than 2^30 threads.
- Registration.Register: the lock itself and the flag `MCDB_REGISTER_ALREADY_LOCKED`; each call is one step.
- Threads.RunThreads: each section under the lock, the unlocked test of the link and the unlocked store of the link is one step, and memory is sequentially consistent; file names, hash settings and allocators of the maps are not fields. What a failed reopen leaves behind is its guard bit, as in the source.
- Uniq.UniqTable.Resize: `malloc` does not fail.
- NgTables.NgTable.InsertId: neither `malloc` nor the limit of `SIZE_MAX >> 4` nodes fails; the hash is computed in full, buckets are any positive number.
- Netgroup.NgData.Datastr: stack depth of the recursion is not bounded, as in the source.
- Netgroup.NgData.AppendInt: the growing array of ints is a sequence.
- Triples.EncodeInjective: `tolower` is that of the C locale.
- Netgr.GetAllNetgrent: names hold no NUL, as the netgroup grammar has it.
- NgBuild.Build: takes the lines of `/etc/netgroup` already split into names and entries; the scanner is not modelled. Names hold no NUL, and there are fewer than 2^27 names and entries.
- The scanners of passwd, group, shadow, hosts, services and aliases files: many similar members that depend on libc character classes.
- The record that `nss_mcdb_make_dbfile` writes first stands for any records without the netgroup tag.
- `mcdbctl get` with a sequence number, command-line parsing, temporary-file installation, `contrib/`, AIX and Solaris wrappers.
