# A verified model of a flash store

The repository stores data on raw flash in two ways: a key-value log (`src/kvdb.rs`) and a ring of
time-stamped records (`src/tsdb.rs`). Both rest on a status code whose states only clear bits, on a
checksum, and on a flat medium that is read, programmed and erased (`src/status.rs`, `src/flash.rs`,
`src/crc32.rs`, `src/storage.rs`). This project models all of it in Dafny and proves what the code keeps:
that the key-value log behaves as a map and loses nothing to garbage collection, what exactly a power cut
can do to it, that time queries are filters of the append history, and that opening finds what was there.

`dafny verify dfyconfig.toml` checks the whole project.

## How it is built

The model has three levels, and a class at each engine's top that ties them together.

- Bytes. `Bytes`, `Sectors`, `Status`, `Flash`, `Crc32`, `Storage`. The medium is `RamStorage`, which
  overwrites. Beside its image it keeps the one that a device which ANDs would hold; the engines only clear bits,
  so that both never differ. Its ghost `history` lists the images that the storage calls of one operation go
  through. A power cut leaves one of them behind.
- Layout. `KvLayout`, `KvImage`, `KvRead`, `KvScan` and `TsLayout`, `TsRead` say when the bytes of a sector are
  those of a sequence of records, and what every single write and read makes of that, records cut off at
  any write, and records that have lost their last byte to the next one, included.
- Logs. `KvModel` and `TsModel` define on sectors of records what each operation does, with the same branches
  and constants as the code and with a `log` of the states in between. `KvContents`, `KvInvariant`, `KvGc`,
  `KvReclaim`, `KvMap`, `KvRuns`, `KvIterate`, `KvLoad`, `KvHeaders`, `KvCrash`, `KvResume`, `KvPowerCut`, `KvRetry`,
  `KvDelete`, `KvCutOrder`, `KvRecovery` and `TsHistory`, `TsQuery`, `TsDescent`, `TsStates` prove what the log keeps.
  `KvStrays` and `KvClip` are about the stray bytes that a power cut can leave.

The classes `KvStore.Kvdb` and `TsStore.Tsdb` have the fields of the original's structs and its loops. Their methods
take addresses, read bytes and program them. Their contracts say that the new state is that of the
specification function, and `Valid` says that the image is that of the log, and that each image in `history`
is that of a state in `log`. `KvInfo`, `KvShows`, `KvAnswers`, `TsKnown`, `TsImages` and `TsWalks` hold the facts the
methods use. `KvMedium` and `TsMedium` carry results on logs back to images that can be opened. `KvLoss` and
`TsExamples` are runs of the classes that end badly, and `KvExamples` has logs on which a power cut does harm.

The original's long loops are split into one method for a sector and one for a step around the ring, and
`collect_by_time` into its two directions; each method is proved against the same specification functions.

An operation on a database at rest (`Rested`, `Live`) leaves it at rest, so the contracts compose over runs;
`KvRuns` and `TsHistory` prove whole runs on the specification. Lookups need less: any key-value log that can
be walked and holds a map (`Mapped`), which is what opening gives after a power cut.

## What the proofs say about the code

Where the documentation promises more than the code does, the code is modelled and the exact condition proved.

- The key-value log survives a power cut during a replacement only if the new record is not scanned before the
  old one (`KvCutOrder.SetSurvives`). Recovery stops at the first torn record (`src/kvdb.rs:1010-1018`), so an old
  copy behind it stays marked and the key is gone. `KvCutOrder.KeyLost` is an instance. Opening once more brings
  the old value back (`KvPowerCut.SecondOpening`), so that two openings always recover (`KvMedium.ReopenTwice`).
- Recovery that finds no room for a record asks for a collection and tries again. This ends after two rounds unless the
  cut left the record marked in a sector not yet marked dirty, and no collection makes room; then opening never ends
  (`KvRetry.CutRetries`, `KvExamples.NeverOpens`).
- A collection cut off between two moves is taken up again on opening, which walks the ring from its own beginning. No
  entry is lost if a sector is empty or the sector being collected is the first dirty one (`KvResume.CutBetweenMoves`).
  Otherwise a dirty sector for whose records there is no room is erased with them (`src/kvdb.rs:765-783`,
  `KvResume.OpenLoses`, `KvExamples.CollectionLost`).
- A cut between the two writes of a deletion leaves a deleted record in a clean sector, which no collection takes
  (`KvDelete.CutDelete`).
- A set answers SavedFull exactly if there is no room even after the collection it asks for (`KvMap.SetRefinesMap`).
  That collection ends early when a receiver has room for the record but not for the 88 bytes to be kept free besides
  (`KvReclaim.GcCollectReclaims`), so that dirty sectors can be left; every such failure leaves fewer of them
  (`KvReclaim.GcProgress`).
- A key of 64 bytes that does not end in a zero byte is stored under another name
  (`src/kvdb.rs:284-288`, `KvMap.SetThenGet`, `KvRuns.LongKeyLost`). If that name is taken the log no longer holds
  a map (`KvMap.SetShadows`).
- After a cut right behind the first status byte of a record in a sector that has others, that stray byte
  stays (`KvLoss.FirstWrite`), and a walk does not count it. The end of the sector is then found by its last byte that
  is not erased (`src/kvdb.rs:404-409`), so that a later record hides it if and only if it ends in an erased byte
  (`KvStore.Kvdb.Set`, `KvStrays.ReplaceShows`). The next record that goes there is written over that byte, and
  exactly the record that ends with it is lost (`KvClip.BehindRefines`). `KvLoss.LosingRun` is a run: set, cut, open,
  set, set, and a key that read back is missing.
- A key-value sector never becomes Full, so the collection at the end of a set is never reached in a fault-free
  run (`KvInvariant.OpensUsing`).
- A descending time query may begin at the slot behind a sector's last record. When blobs have filled the sector
  up to there, data is read as a record. The answer is the reversed filter of the log if and only if this misleads
  the query in no sector (`TsStore.Tsdb.CollectByTime`, with `TsDescent.Misled` for the condition). One free byte is
  enough to rule it out (`TsStore.Tsdb.GapIsClear`). `TsExamples.LuredRun` is a run with a wrong answer: a blank
  medium, one append, one query.
- With rollover off a ring that has gone around goes on giving up its oldest sectors until it reaches the last
  sector of the medium (`TsHistory.RollsAnyway`, with the run `TsExamples.RollsExample`). Before it has gone around
  nothing is lost (`TsHistory.AcceptsAll`).
- A database that has refused a record for want of space, with rollover off, accepts nothing any more after rollover is
  switched on again (`TsHistory.RefusesFull`).
- When the first record of a sector is torn, reopening forgets the time of the last append, and an earlier time is
  accepted (`TsHistory.TornTime`, `TsMedium.ReopenTorn`).
- A status whose number is a positive multiple of 8 is written as the erased table (`Status.RoundTrip`). No
  table in the repository has one.

## Hypotheses

The contracts ask of callers only what the code needs.

- The geometry is the one `validate_geometry` accepts (`src/db.rs:12-26`), with sectors of at least 64 bytes and
  `max_size + sec_size` below 2^32; for the time-series database also `sec_size` a multiple of 16, which every
  power of two of that size is, and `max_len + 48 <= sec_size`, because a fresh sector is not checked for
  room (`src/tsdb.rs:520-533`).
- Record sizes fit into 32 bits.
- `RoomToRecover`: there is room for one more copy of a record whose deletion is pending, so that recovery runs no
  collection. `KvCutOrder.RoomForSet` gives a condition that can be checked before the call. `KvRetry.CutRetries` and
  `KvMedium.ReopenRetrying` do without it.
- `Roomy`: a set finds room at once or, when it has to collect first, moving records hides no end: the store has no
  stray byte, or no record that ends in an erased one.
- `OneMagic`: the bytes of a record that may be left torn hold the magic word only in its place, since a torn record is
  searched byte by byte.
- `Filled`: the current sector of the time-series log holds a record unless the log is empty. Every append
  establishes it; only a power cut between two sectors breaks it.
- `Timed`: no torn record. Those read back with time 0, so queries by time are not ordered after one.

## Model

| member | source | states |
|---|---|---|
| `Bytes.ProgramIsOverwrite` | src/storage.rs:3-7 | programming bytes (AND) and overwriting them give the same image if and only if no bit has to be set again |
| `Bytes.WordRoundTrip` | src/kvdb.rs:45-47 | the little-endian bytes of a 32-bit word read back as that word |
| `Storage.RamStorage.Read` | src/storage.rs:77-85 | the bytes at the address, or a read error exactly when the range leaves the medium |
| `Storage.RamStorage.Write` | src/storage.rs:87-95 | any bytes in range overwrite and are one step of the history, out of range nothing changes and it is an error; the image stays that of a device that ANDs if and only if no bit is set again |
| `Storage.RamStorage.Erase` | src/storage.rs:97-107 | in range it sets the bytes to 0xFF in one step, out of range it changes nothing and is an error |
| `Status.SetStatus` | src/status.rs:16-28 | fills the table in place with the code of the state, leaves the rest of the buffer alone, and returns the one byte to program, none for state 0 |
| `Status.GetStatus` | src/status.rs:34-50 | the highest state whose bit is cleared, as decoded by the specification function for tables of any size |
| `Status.RoundTrip` | src/status.rs:16-50 | decoding an encoded state gives it back if and only if its number is 0 or no multiple of 8; the others read as state 0 |
| `Status.NinthStateLost` | src/status.rs:16-50 | a concrete table of nine states in which the last one reads as state 0 |
| `Status.CodeIsTable` | src/status.rs:16-28 | for tables of up to eight states the table is one byte, and decoding it gives the state |
| `Status.CodesNest` | src/status.rs:1-28 | the code of a later state only clears bits of an earlier one |
| `Status.MergeIsMax` | src/status.rs:34-50 | programming any table over any other decodes to the later of the two states, so a status never moves backwards |
| `Flash.WriteStatus` | src/flash.rs:20-33 | programs just the status byte, in one storage call; state 0 makes no call |
| `Flash.ReadStatus` | src/flash.rs:38-44 | the state that the byte at the address decodes to |
| `Flash.ContinueFfAddr` | src/flash.rs:48-74 | the start of the longest erased suffix of the range, across 32-byte chunks: everything from there on is erased and the byte before it is not |
| `Crc32.CalcCrc32` | src/crc32.rs:57-63 | the table-driven loop computes the remainder that bit-by-bit reflected division by 0xEDB88320 defines (section 8 of RFC 1952) |
| `Crc32.TableEntry` | src/crc32.rs:7-51 | each of the 256 table entries is eight division steps of its index |
| `Crc32.Streams` | src/kvdb.rs:254-266 | the checksum of a concatenation is the checksum of the second part continued from that of the first, whatever the chunks |
| `Crc32.DetectsBurst` | src/crc32.rs:57-63 | two buffers of equal length that differ, and only inside a window of four bytes, have different checksums |
| `Crc32.CheckValue` | src/crc32.rs:70-73 | the checksum of the nine digits "123456789" is 0xCBF43926 |
| `Sectors.PartWrite` | src/def.rs:45-47 | a write inside one sector changes that sector as if it were alone and no other sector |
| `Sectors.GeometryIs` | src/db.rs:12-26 | the sizes accepted are sectors of a power of two bytes, at least two of them and no remainder |
| `KvContents.FindFinds` | src/kvdb.rs:847-881 | the search finds a live entry of the key if and only if the log has one |
| `KvContents.GetIsMapLookup` | src/kvdb.rs:1089-1101 | on a log that holds a map, a lookup is the lookup in that map |
| `KvInvariant.OpensUsing` | src/kvdb.rs:452-476 | a sector that allocation chose never becomes Full by the write: the threshold keeps it below, so the collection at the end of a set is never asked for |
| `KvGc.RoomToMove` | src/kvdb.rs:517-564 | the capacity argument of a collection: what it has to move out of a sector fits into one other, so every carrier of the victim finds room, and at most one empty sector is taken |
| `KvGc.MovePreserves` | src/kvdb.rs:691-711 | marking, copying and marking again keep the contents, and every state between keeps every entry reachable |
| `KvGc.MoveLive` | src/kvdb.rs:691-742 | moving a live record of the victim succeeds, so that ignoring its result is safe |
| `KvGc.GcNodesKeeps` | src/kvdb.rs:765-777 | after the walk over the first nodes of the victim none of them is worth keeping, exactly their live bytes are in use elsewhere, and nothing was lost |
| `KvGc.GcSectorKeeps` | src/kvdb.rs:747-789 | collecting one dirty sector keeps the live entries at every state on the way; the sector is empty afterwards, clean sectors have at most gained live records, other dirty ones are as they were, what is in use is less by exactly what the sector wasted, and the ring begins behind it; a clean sector is passed over |
| `KvGc.GcCollectKeeps` | src/kvdb.rs:792-834 | a whole collection loses no entry at any write and ends with no fewer empty sectors than it began with |
| `KvReclaim.GcCollectReclaims` | src/kvdb.rs:792-834 | with one empty sector a collection takes the dirty sectors in ring order, and ends at the end of the ring or right behind the first one for which the receiver before it has more than the asked bytes left; all earlier receivers have no more; it gains exactly the bytes the collected sectors wasted, and the ring begins behind the last of them; with two empty sectors it does nothing |
| `KvReclaim.GcProgress` | src/kvdb.rs:792-834 | after a collection no sector is dirty or a clean one has more than the asked bytes left, and if any sector was dirty fewer are |
| `KvReclaim.FitsAfterFirst` | src/kvdb.rs:567-583 | there is room for a record, at once or after the collection, whenever it fits into one sector together with the live records of the first dirty sector of the ring |
| `KvReclaim.SetReclaims` | src/kvdb.rs:1027-1062 | a set that fails for want of space has collected as above, or, with two empty sectors, its record is too long for any sector |
| `KvMap.AllocSpares` | src/kvdb.rs:544-564 | at rest allocation succeeds if and only if some sector has room that spares the last empty sector, and asks for a collection exactly when it fails with one empty sector left |
| `KvMap.SpareMeans` | src/kvdb.rs:517-564 | spare room in bytes: 16 of the sector header, what is in use, the record and 88 more are less than the sector, which is in use, or empty while another one is |
| `KvMap.AllocFirst` | src/kvdb.rs:517-564 | allocation takes the first sector in use of the ring with room, and the first empty one only if there is none in use |
| `KvMap.NewKvKeeps` | src/kvdb.rs:567-583 | allocation with its collection keeps the contents and the reserve; it fails if and only if there is no spare room and, with one empty sector left, none after the collection either |
| `KvMap.CreateAdds` | src/kvdb.rs:591-639 | writing a node in an allocated sector succeeds and adds just that node |
| `KvMap.ReplacePresent` | src/kvdb.rs:1040-1062 | mark, write, mark: a replacement turns the map into the updated one, and each state it goes through holds the old or the new value and every other entry |
| `KvMap.SetRefinesMap` | src/kvdb.rs:1040-1062 | set is map update when it succeeds and leaves the map alone when it fails, whether or not it collects garbage; every state on the way keeps the old or the new value and all other entries; it answers SavedFull if and only if there is no spare room and, with one empty sector left, none after a collection either; an empty sector remains; a key of 64 bytes that does not read back goes under the name it is stored as |
| `KvMap.SetShadows` | src/kvdb.rs:284-288 | after a successful set the log holds a map if and only if the key reads back as written or the name it is stored under was free; otherwise there are two live records of that name |
| `KvMap.DelRefinesMap` | src/kvdb.rs:642-688 | del removes the key, fails exactly when the map lacks it, and every state on the way has the map with or without it |
| `KvMap.SetThenGet` | src/kvdb.rs:284-288 | after a successful set the value reads back if and only if the key is shorter than 64 bytes or ends in a zero byte there |
| `KvRuns.LongKeyLost` | src/kvdb.rs:284-288 | a concrete store and a key of 64 letters whose successful set cannot be read back |
| `KvRuns.CleanReopen` | src/kvdb.rs:912-973 | opening a log at rest writes nothing and gives the same map |
| `KvRuns.FormatBlank` | src/kvdb.rs:912-973 | opening a blank medium formats every sector and gives the empty map |
| `KvLoad.OldestIs` | src/kvdb.rs:886-909 | the address found is that of the last sector in use right behind an empty one, and 0 if there is none, whatever the states of the sectors |
| `KvHeaders.ChecksAll` | src/kvdb.rs:915-938 | the header check formats exactly the sectors without a header, counts them, and finds all of them missing only if they are |
| `KvHeaders.OpenFills` | src/kvdb.rs:912-973 | a log at rest some sectors of which have no header while they hold nothing: opening writes those headers, changes nothing else, and the map is what it was |
| `KvHeaders.OpenGrown` | tests/kvdb.rs:252-292 | a log at rest opens with its map on a medium to which any number of blank sectors has been added |
| `KvHeaders.OpenErased` | src/kvdb.rs:437-449 | and with the header of an empty sector missing, as a cut between erasing and formatting leaves it |
| `KvRuns.RunRefines` | src/kvdb.rs:1027-1101 | from any log at rest, every run of set, del and reopen in which no key is stored under a different name that is taken refines the map: a lookup of any key after the run is the lookup in the map after the run, and an empty sector always remains |
| `KvRuns.RunFromBlank` | src/kvdb.rs:159-202 | the same for every run from a blank medium |
| `KvLoad.RecoverNodeSettles` | src/kvdb.rs:1007-1022 | each step of a recovery pass settles a pending deletion or moves on, which bounds the pass although it appends to sectors it walks |
| `KvResume.CutBetweenMoves` | src/kvdb.rs:942-962 | a power cut between two moves of a collection, then opening: no entry is lost if a sector is empty or recovery comes to the sector being collected before any other dirty one |
| `KvResume.OpenMidCollection` | src/kvdb.rs:942-962 | any log in which nothing is half done but a collection has begun opens with all its entries under that condition, at rest if not more than one sector was empty |
| `KvResume.OpenLoses` | src/kvdb.rs:765-783 | when recovery comes first to a dirty sector whose records find no room, exactly what that sector holds is lost |
| `KvExamples.CollectionLost` | src/kvdb.rs:942-962 | a concrete log of three sectors that loses a key so: a cut after the first move of a collection, then opening |
| `KvCrash.RestoreOld` | src/kvdb.rs:691-711 | recovery of a pending deletion whose new copy is missing restores the old entry |
| `KvCrash.DropOld` | src/kvdb.rs:691-711 | recovery of a pending deletion whose new copy exists drops the old entry |
| `KvResume.MoveSettles` | src/kvdb.rs:691-711 | a collection during recovery settles a pending deletion too: it drops the record if its key has a live one, and otherwise brings it back |
| `KvCrash.AbandonTorn` | src/kvdb.rs:1010-1018 | a torn node is marked erroneous and ends the pass |
| `KvCrash.PassPendingThenTorn` | src/kvdb.rs:975-1004 | a pass that meets the old node before the torn one settles both |
| `KvPowerCut.PowerCut` | src/kvdb.rs:1040-1062 | a power cut after any number of the storage calls of a set that runs no collection, then opening with room to recover: the log holds the old map or the updated one, or, exactly when recovery meets the torn node first, the old map without the key, and then the old map after one more opening |
| `KvPowerCut.RecoversLookup` | src/kvdb.rs:912-1022 | in terms of lookups: the key reads as before or as set if and only if the torn node does not come first, and every other key reads as before |
| `KvPowerCut.SecondOpening` | src/kvdb.rs:975-1022 | where the torn node came first, opening the medium once more gives every key the value it had before the set |
| `KvRetry.CutRetries` | src/kvdb.rs:963-970 | the same without asking for room: recovery collects and tries again, and ends after two rounds at most, if and only if the cut did not leave a record marked in a clean sector with no room for its copy even after a collection; in that case it ends after no number of rounds |
| `KvExamples.NeverOpens` | src/kvdb.rs:963-970 | a concrete log of two sectors that can not be opened any more: a record is replaced by a shorter one and the power is cut after the first write |
| `KvDelete.CutDelete` | src/kvdb.rs:642-688 | a power cut at any write of a deletion, then opening, which writes nothing: the key has its value or is gone, every other key its own; the store is at rest if and only if the sector of the record is dirty, which it is not between the two writes of a first deletion in it |
| `KvCutOrder.SetSurvives` | src/kvdb.rs:1007-1022 | a set survives every power cut if and only if the key is new or the sector that takes the new node is not scanned before that of the old one |
| `KvCutOrder.RoomForSet` | src/kvdb.rs:963-970 | three empty sectors are room enough for the recovery of every state of a set |
| `KvCutOrder.KeyLost` | src/kvdb.rs:1007-1022 | a concrete store in which a cut during a set loses the key: it has neither its old nor its new value |
| `KvIterate.VisitsMap` | src/kvdb.rs:1215-1261 | the nodes that an iteration visits are, as a multiset, the entries of the map |
| `KvIterate.VisitsEachOnce` | src/kvdb.rs:1215-1261 | it visits as many nodes as the map has keys, no key twice, each with the value of the map |
| `KvIterate.VisitsInOrder` | src/kvdb.rs:1215-1261 | it visits exactly the live nodes of the sectors in use, sector by sector around the ring from the oldest on, and in each from the first to the last |
| `KvLayout.NodeStatus` | src/kvdb.rs:642-688 | programming a status byte turns the image of a sector into that of the sector with the record's status changed |
| `KvLayout.WriteBody` | src/kvdb.rs:591-639 | any part of a node's bytes, written behind what is already there, gives the image of the sector with the node that far written |
| `KvLayout.LastStatus` | src/kvdb.rs:628-634 | the last status write turns the fully written node into a live one |
| `KvLayout.Formatting` | src/kvdb.rs:437-449 | an erased sector with the header written is the image of an empty sector |
| `KvLayout.NewCrc` | src/kvdb.rs:610-619 | the checksum written is that of name length, value length, name and value in turn |
| `KvImage.NoMagicBetween` | src/kvdb.rs:293-314 | between the end of a record and the next one no magic word shows |
| `KvImage.NextMagic` | src/kvdb.rs:293-314 | the next record's magic word lies within reach of the scan |
| `KvScan.WalkNext` | src/kvdb.rs:317-338 | from a record the scan for the next magic word stops at the next record of the sector or, if there is none, nowhere, even if values hold magic words |
| `KvScan.EndFound` | src/kvdb.rs:404-409 | the end of the sector's contents is found if and only if the sector has no stray byte or its last byte is not erased |
| `KvStrays.ReplaceShows` | src/kvdb.rs:1040-1062 | a set hides the end of the sector it writes to if and only if that sector holds a stray byte and the record ends in an erased one |
| `KvStrays.MoveFirm` | src/kvdb.rs:691-711 | moving a record never hides the end of a sector if the store has no stray byte or no record that ends in an erased one, and the store stays so |
| `KvClip.ClipFlash` | src/kvdb.rs:404-409 | where one stray byte hides an end, the bytes of the medium also read as a sector that lacks the last byte of its last record, the place where measuring finds its end |
| `KvClip.BehindRefines` | src/kvdb.rs:1040-1062 | a set of a new key on any store at rest whose hidden ends are off by one byte: it is stored, and of all other keys just the one whose record ends at the hidden end of the sector written to is lost |
| `KvLayout.RuinBroken` | src/kvdb.rs:254-282 | a record whose last byte was erased and has been programmed fails its checksum |
| `KvRead.NodeReads` | src/kvdb.rs:226-290 | what the engine reads of each record of a sector: the record, or for one that has lost its last byte to the next a record with a wrong checksum |
| `KvLoss.FirstWrite` | src/kvdb.rs:479-490 | after the first storage call of a set of a new key, in a sector in use, the log has one stray byte more and is otherwise as it was |
| `KvLoss.LosingRun` | src/kvdb.rs:404-409 | a run on two sectors of 256 bytes: a value is set, a second set is cut off after its first storage call, the medium is opened, the second set is made again and reads back its one byte 0xFF, a third key is set, and the second reads as missing |
| `KvRead.HeaderReads` | src/kvdb.rs:226-253 | the 24 bytes of a record's header read back as its status, length, checksum and name and value lengths |
| `KvStore.Kvdb.ReadCrc` | src/kvdb.rs:254-266 | the checksum over 32-byte chunks is that of the whole range |
| `KvStore.Kvdb.ReadKv` | src/kvdb.rs:226-290 | reads the record at the address into all fields; a record without a header is marked erroneous on the medium and takes the length of a bare header; the result says whether the checksum is right |
| `KvStore.Kvdb.FindNextKvAddr` | src/kvdb.rs:293-314 | the least address from the start on whose magic word lies in reach, missing none across the overlapping 32-byte windows, or the failure address if there is none |
| `KvStore.Kvdb.GetNextKvAddr` | src/kvdb.rs:317-338 | the first record of a sector, or the record after the given one, or the failure address at the end of the sector |
| `KvStore.Kvdb.ReadSectorInfo` | src/kvdb.rs:341-412 | store and dirty state of the header, and, when asked, the address behind the last record and the bytes left behind it, or both one byte too early where a single stray byte hides the end |
| `KvStore.Kvdb.MeasureSector` | src/kvdb.rs:382-410 | the walk measures a sector rightly if and only if the end shows: no stray byte, or a last byte that is not erased; where a single stray byte hides the end of a live record it finds the end one byte early |
| `KvStore.Kvdb.RingNext` | src/kvdb.rs:415-430 | the next sector address goes around the ring and fails exactly after all sectors have been visited |
| `KvStore.Kvdb.FormatSector` | src/kvdb.rs:437-449 | erases the sector and writes the header of an empty one |
| `KvStore.Kvdb.UpdateSecStatus` | src/kvdb.rs:452-476 | opens an empty sector or marks it full exactly as the specification does, on the medium |
| `KvStore.Kvdb.WriteKvHdr` | src/kvdb.rs:479-490 | status first, then the rest of the header: two states of the medium, both logged |
| `KvStore.Kvdb.CountSectors` | src/kvdb.rs:493-514 | the numbers of empty and of used sectors, and nothing written |
| `KvStore.Kvdb.ScanForRoom` | src/kvdb.rs:517-541 | the first sector of the ring, from the oldest on, of the wanted state that has room as measured |
| `KvStore.Kvdb.Allocate` | src/kvdb.rs:544-564 | the sector and the collection request that the specification of allocation gives for the log as measured |
| `KvStore.Kvdb.NewNodeAddr` | src/kvdb.rs:567-588 | allocation with its collection and second try, as specified; on a log with hidden ends the first try, if it finds room |
| `KvStore.Kvdb.ReplaceKv` | src/kvdb.rs:1040-1062 | the part of a set after allocation: mark, write and mark as specified, also where the record takes the last byte of the one before it |
| `KvStore.Kvdb.CreateKvBlob` | src/kvdb.rs:591-639 | refuses long names and records longer than a sector, otherwise writes the node as specified, each storage call a logged state |
| `KvStore.Kvdb.DelKv` | src/kvdb.rs:642-688 | marks the record found, or the one given, and its sector, or fails without a change when there is none |
| `KvStore.Kvdb.CopyChunks` | src/kvdb.rs:713-742 | the copy loop moves a record byte for byte in chunks of 32, across its own states |
| `KvStore.Kvdb.MoveKvBody` | src/kvdb.rs:713-742 | the copy is live, intact and equal to the source, which is still in place |
| `KvStore.Kvdb.MoveNode` | src/kvdb.rs:691-711 | keeps a record whose key has a live copy already, otherwise marks, copies and marks it, as specified |
| `KvStore.Kvdb.DoGcOne` | src/kvdb.rs:747-789 | one step of a collection changes medium and memory as specified |
| `KvStore.Kvdb.CollectGarbage` | src/kvdb.rs:792-834 | a whole collection changes medium and memory as specified (KvReclaim.GcCollectReclaims says what that is) |
| `KvStore.Kvdb.FindKv` | src/kvdb.rs:847-881 | finds the node that the specification's search finds, and reads it |
| `KvStore.Kvdb.FindOldestAddr` | src/kvdb.rs:886-909 | the last sector in use right behind an empty one, 0 if there is none, and nothing written |
| `KvStore.Kvdb.RecoverOneKv` | src/kvdb.rs:1007-1022 | one step of recovery as specified, and whether it ends the pass |
| `KvStore.Kvdb.RecoverKvsPass` | src/kvdb.rs:975-1004 | a whole pass as specified, on images with torn nodes and stray bytes as well |
| `KvStore.Kvdb.LoadLog` | src/kvdb.rs:912-973 | opening does to the medium what the specification of opening says, for any number of rounds of recovery |
| `KvStore.Kvdb.Open` | src/kvdb.rs:171-202 | fails exactly on bad geometry; otherwise the object is consistent with the medium and holds the log that opening gives (KvHeaders, KvRuns, KvRetry and KvResume say what that is), with no stray byte more, and stays safe to collect in if it was |
| `KvStore.Kvdb.Set` | src/kvdb.rs:1027-1062 | on any store at rest in which allocation knows the ends of the sectors: the object stays consistent, its map is updated on success and unchanged on failure, errors are as documented, SavedFull if and only if there is no room even after a collection, which then has freed what it could, every image the medium went through keeps the old or the new value and all other entries, and the ends of all sectors show afterwards if and only if the record does not end in an erased byte behind a stray one; where an end is hidden, a new key is stored and just the last record there is lost |
| `KvStore.Kvdb.Del` | src/kvdb.rs:1065-1070 | on any store at rest, stray bytes included: the key leaves the map; the error exactly when it was not there; every image on the way has the map with or without it |
| `KvStore.Kvdb.GetVec` | src/kvdb.rs:1089-1101 | on any store that can be walked and holds a map, also right after a power cut: the value in the map, or none |
| `KvStore.Kvdb.Get` | src/kvdb.rs:1074-1086 | the same, as many bytes of the value as the buffer takes, the rest of the buffer untouched |
| `KvStore.Kvdb.Check` | src/kvdb.rs:1165-1197 | succeeds if and only if every sector has a header and every record the walk meets is intact; always after fault-free runs |
| `KvStore.Kvdb.Iterator` | src/kvdb.rs:1200-1211 | stands before the first sector of the ring with every live node still to come |
| `KvStore.Kvdb.Iterate` | src/kvdb.rs:1215-1261 | each call goes to the next live node still to come, in ring order, with counters equal to the count and the byte sums of what was visited; it ends exactly when none is left |
| `KvStore.Kvdb.IterCollect` | src/kvdb.rs:1264-1271 | the live nodes in ring order (KvIterate.VisitsInOrder): every key of the map once with its value length, and nothing else |
| `KvStore.Kvdb.SetDefault` | src/kvdb.rs:1147-1162 | formats every sector, after which the map is empty |
| `KvMedium.BlankMedium` | src/kvdb.rs:171-202 | a blank medium can be opened and gives the empty map |
| `KvMedium.RestMedium` | src/kvdb.rs:171-202 | what a database at rest leaves on the medium, stray bytes included, can be opened and gives its map |
| `KvMedium.ReopenFilled` | tests/kvdb.rs:252-292 | on bytes: a medium on which sectors without records have no header is opened; the database is at rest with the same map, and the ring begins where it should |
| `KvMedium.CutImage` | src/kvdb.rs:912-1022 | on bytes: every image a set without a collection leaves behind when cut can be opened; the key reads as before or as set if and only if the torn node does not come first; every other key as before |
| `KvMedium.ReopenAfterCut` | tests/recovery.rs:61-109 | a set without a collection is cut off at any of its storage calls, the medium is opened, and two keys are looked up in the opened object: the set key has its old or its new value if and only if the torn record does not come first, the other its own; in that case the store is at rest again, and, if no record of it ends in an erased byte, ready for any further set |
| `KvMedium.ReopenTwice` | tests/recovery.rs:61-109 | a set without a collection is cut off at any of its storage calls and the medium is opened twice: the store is at rest and holds the old or the updated map, without any condition on the order of the records |
| `KvMedium.ReopenRetrying` | tests/recovery.rs:61-109 | on bytes and without asking for room: unless the cut image is one on which recovery never ends, two rounds are enough, and the key has its old or its new value if and only if the torn record does not come first |
| `KvMedium.ReopenAfterDelete` | tests/recovery.rs:113-131 | on bytes: a deletion is cut off at any of its writes and the medium opened; other keys have their values and check succeeds |
| `TsModel.DropsOldest` | src/tsdb.rs:505-515 | formatting the oldest sector drops exactly its records from the log |
| `TsModel.CloseKeeps` | src/tsdb.rs:428-492 | closing the current sector keeps the log, and a closed sector holds at least the guaranteed number of records |
| `TsModel.SeatedKeeps` | src/tsdb.rs:426-515 | going on to the next sector loses exactly the oldest sector's records if none is empty, and otherwise nothing |
| `TsModel.ExhaustedKeeps` | src/tsdb.rs:494-518 | with nowhere to go the append fails and the log is as it was |
| `TsModel.UpdateKeeps` | src/tsdb.rs:426-535 | whatever happens to the sectors, the ring keeps its shape, and success means room for the record |
| `TsModel.AppendKeeps` | src/tsdb.rs:538-559 | an append is refused exactly for its length, its time or want of space and then changes no record; otherwise the log is the old one less what a rollover drops, with the record at its end |
| `TsModel.StatusKeeps` | src/tsdb.rs:578-586 | a status change leaves times, blobs and order of the log as they were |
| `TsHistory.Suffix` | src/tsdb.rs:396-559 | after any run of appends, status changes and switches of rollover the log is, but for statuses, a suffix of what it held and everything accepted since |
| `TsHistory.Retention` | src/tsdb.rs:426-535 | an empty database keeps, over any such run, at least the smaller of all it accepted and (sectors - 1) * floor((sector - 32) / (16 + longest blob)) + 1 records |
| `TsHistory.RollsAnyway` | src/tsdb.rs:494-515 | with rollover off an append still gives up the oldest sector's records, exactly if it needs a new sector and the ring has gone around before |
| `TsHistory.RefusesLate` | src/tsdb.rs:854-860 | an unwrapped database that refuses a record for want of space holds at least max_blob_count records |
| `TsHistory.AcceptsAll` | src/tsdb.rs:854-860 | with rollover off an unwrapped database accepts all records in order up to max_blob_count, and keeps them all |
| `TsHistory.MaxBlobsTight` | src/tsdb.rs:854-860 | max_blob_count is exact: of records of the longest length, in order, an empty database accepts just so many with rollover off, and refuses the next one for want of space |
| `TsHistory.RolloverAccepts` | src/tsdb.rs:538-559 | with rollover on every record that is later than the last and not too long is accepted, however many, unless the current sector is full |
| `TsHistory.RefusesFull` | src/tsdb.rs:516-518 | once the current sector is full, as a refusal with rollover off leaves it, nothing is accepted any more, whatever rollover is switched to |
| `TsHistory.RunTimed` | src/tsdb.rs:538-559 | over any run the times of the log increase and the sector headers agree with them |
| `TsHistory.ReopenFinds` | src/tsdb.rs:892-950 | the scan of the headers finds the current and the oldest sector, wrapped or not |
| `TsHistory.ReopenTime` | src/tsdb.rs:952-970 | the end time of the current sector or, when it is empty, of the one before it is the time of the last record |
| `TsHistory.TornTime` | src/tsdb.rs:321-333 | behind a torn record reopening finds the time of the last append if and only if the sector had a record before or the log is empty; otherwise it finds 0 |
| `TsHistory.ScanFails` | src/tsdb.rs:892-928 | init formats everything if and only if some sector has no header, or one is in use behind another that is in use or empty |
| `TsHistory.RunReopens` | src/tsdb.rs:892-972 | after any run with rollover on, opening finds the sectors that the live object had as current and oldest |
| `TsLayout.PushAt` | src/tsdb.rs:396-422 | a record written to the next index slot and the end of the gap gives the image of the sector with the record added |
| `TsLayout.FinishSlot` | src/tsdb.rs:414-420 | the last status write completes the record |
| `TsLayout.StageTorn` | src/tsdb.rs:396-422 | every stage before that is the image of a torn record |
| `TsLayout.SlotsApart` | src/tsdb.rs:266-279 | index slots and blobs never overlap |
| `TsLayout.TsFormatting` | src/tsdb.rs:380-393 | erasing, then status and magic word: the images along the way and the empty sector at the end |
| `TsQuery.SectorUp` | src/tsdb.rs:776-807 | search and ascending walk yield, of one sector, just the records in the closed interval, and stop exactly behind it |
| `TsQuery.SectorDown` | src/tsdb.rs:725-730 | search and descending walk of one sector yield just the records in the interval if and only if the slot behind the last record is not misread or neither it nor the last record lies in the interval |
| `TsDescent.StopsShort` | src/tsdb.rs:801-804 | a sector in which the walk stops at a misread slot ends the query: the answer is wrong exactly if that sector's last record was to be found |
| `TsDescent.SpoiledIsWrong` | src/tsdb.rs:783-797 | an answer with a record whose index slot is no record of the log is the answer to no query |
| `TsQuery.QueryIsFilter` | src/tsdb.rs:740-822 | the records that a query is to find are the log filtered to the interval, in order |
| `TsQuery.PlacesAreLog` | src/tsdb.rs:600-636 | the places that a walk over all sectors visits are the log |
| `TsQuery.RingOrdered` | src/tsdb.rs:740-822 | along the ring times increase, so that a query may stop early |
| `TsRead.SlotReads` | src/tsdb.rs:266-279 | an index slot reads back as the record's status, time, length and address |
| `TsRead.BlobReads` | src/tsdb.rs:589-595 | the bytes at the address read are the record's blob |
| `TsStore.Tsdb.ReadSectorInfo` | src/tsdb.rs:282-349 | the header's fields, and for a sector in use the next index slot, the end of the gap, the room left and the last time, with torn records counted at the longest length |
| `TsStore.Tsdb.Traverse` | src/tsdb.rs:321-346 | the loop over the index slots of a sector in use finds its end, counting exactly what is left |
| `TsStore.Tsdb.RingStep` | src/tsdb.rs:352-362 | the next sector goes around the ring and fails exactly after all sectors |
| `TsStore.Tsdb.BackStep` | src/tsdb.rs:365-375 | the previous sector goes around the ring backwards and fails exactly after all sectors |
| `TsWalks.NextSlot` | src/tsdb.rs:140-149 | the next index slot, or the failure address exactly behind the last record |
| `TsWalks.LastSlot` | src/tsdb.rs:152-161 | the previous index slot, or the failure address exactly before the first record |
| `TsStore.Tsdb.FormatSector` | src/tsdb.rs:380-393 | the sector is erased and empty, the others untouched |
| `TsStore.Tsdb.CloseSector` | src/tsdb.rs:428-492 | end time and index go to the first free of the two fields, then the sector is full |
| `TsStore.Tsdb.AdvanceSector` | src/tsdb.rs:502-515 | on to the next sector; one in use is formatted and the one behind it becomes the oldest |
| `TsStore.Tsdb.OpenSector` | src/tsdb.rs:520-533 | an empty sector is taken into use with the start time |
| `TsStore.Tsdb.UpdateSecStatus` | src/tsdb.rs:426-535 | the change of sectors as specified, in memory and on the medium; no state on the way lacks a record of a sector other than the one formatted |
| `TsStore.Tsdb.WriteTsl` | src/tsdb.rs:396-422 | the record is added; at every storage call but the last the medium holds all earlier records and one torn record |
| `TsStore.Tsdb.TslAppend` | src/tsdb.rs:538-559 | an append as specified, with what is in memory about the current sector kept right |
| `TsStore.Tsdb.AppendWithTs` | src/tsdb.rs:570-575 | the log gains the record and loses just what a rollover drops, or the call fails, exactly for its length, its time or want of space, and the log is as before; every image the medium went through, while one sector is closed and the next formatted and opened as well, has all records of every sector but the one given up |
| `TsStore.Tsdb.SetTslStatus` | src/tsdb.rs:578-586 | just the status of that record changes |
| `TsStore.Tsdb.ReadLog` | src/tsdb.rs:589-595 | the first bytes of the blob, as many as the buffer takes, the rest untouched |
| `TsStore.Tsdb.SetRollover` | src/tsdb.rs:259-261 | switches rollover and nothing else |
| `TsStore.Tsdb.Collect` | src/tsdb.rs:600-636 | the records of the log, in order, as they read |
| `TsStore.Tsdb.CollectReverse` | src/tsdb.rs:665-706 | exactly the reverse of that |
| `TsStore.Tsdb.SearchStart` | src/tsdb.rs:709-736 | the binary search over 16-byte slots ends at the lower bound, or one before it for a descending query |
| `TsStore.Tsdb.WalkSectorUp` | src/tsdb.rs:780-816 | the ascending walk over one sector |
| `TsStore.Tsdb.WalkSectorDown` | src/tsdb.rs:780-816 | the descending walk over one sector |
| `TsStore.Tsdb.QueryDown` | src/tsdb.rs:740-822 | the descending loop over the ring: its answer is the reversed filter of the log if and only if no sector misleads it |
| `TsStore.Tsdb.CollectByTime` | src/tsdb.rs:740-822 | for all bounds and any ring without torn records: ascending, the log's records in the closed interval; descending, their reverse if and only if no sector misleads the query, that is, begins at or before its upper bound, is misread behind a last record before it, is reached, and has that record or the slot read in the interval |
| `TsStore.Tsdb.GapIsClear` | src/tsdb.rs:725-730 | one erased byte between index and blobs of each sector: no sector misleads any query |
| `TsStore.Tsdb.QueryCount` | src/tsdb.rs:843-851 | how many of the records that the query yields have the status, which are those of the log in the interval unless a descending query is misled |
| `TsStore.Tsdb.MaxBlobsIs` | src/tsdb.rs:854-860 | what max_blob_count returns is the number of TsHistory.MaxBlobsTight for the sectors of the medium |
| `TsStore.Tsdb.Clean` | src/tsdb.rs:865-884 | every sector formatted, an empty log, and times may begin again |
| `TsStore.Tsdb.ScanSectors` | src/tsdb.rs:892-928 | the walk of init over the headers, as specified |
| `TsStore.Tsdb.Init` | src/tsdb.rs:892-972 | a medium with a bad header is cleaned; otherwise current and oldest sector are those of the log on the medium, and the last time is that of the last complete record of the current sector, torn ones behind it or not, or that in the header before an empty one |
| `TsStore.Tsdb.Open` | src/tsdb.rs:201-231 | fails exactly on bad geometry or length; otherwise the object knows the log on the medium, with the last time as for init, which is that of the log when no record is torn |
| `TsMedium.BlankMedium` | src/tsdb.rs:892-972 | a blank medium can be opened |
| `TsMedium.LiveMedium` | src/tsdb.rs:892-972 | what a live database with increasing times, rollover on and a current sector not full leaves on the medium reopens as the same log, even if the current sector is filled exactly |
| `TsMedium.SameInMemory` | src/tsdb.rs:892-972 | and the reopened object has the same oldest address, last time and current sector information |
| `TsMedium.TornMedium` | src/tsdb.rs:396-422 | a power cut at any storage call of writing a record but the last: the medium reopens with every earlier record and one torn record, whose room is set aside so that later appends land on erased bytes |
| `TsMedium.ReopenTorn` | src/tsdb.rs:952-970 | such a medium is opened and a record appended: it is refused if it is not later than the last complete one of the sector; where the torn record is the first of its sector any time after 0 is accepted |
| `TsExamples.RollsExample` | src/tsdb.rs:494-515 | a run on two sectors of 64 bytes: three appends go around the ring, rollover is switched off, and a fourth append gives up the second record, which the log held |
| `TsExamples.LuredIsReached` | src/tsdb.rs:538-559 | one append of 16 bytes to that newly formatted database fills its first sector exactly |
| `TsExamples.LuredMisleads` | src/tsdb.rs:709-736 | on every medium that holds this log the slot behind the record, where its blob is, reads as a record of time 5, and misleads a query from 20 down to 0 |
| `TsExamples.LuredRun` | src/tsdb.rs:740-822 | the run: a blank medium, one append, one descending query, whose answer is not the reversed filter of the log |

## Left out

- KvStore.Kvdb.Set: a key whose stored name is taken by another is not taken, since the log then holds no map (KvMap.SetShadows); nor is a set that begins with a collection in a store with stray bytes and records that end in erased ones. Behind a hidden end it takes new keys, where the end is hidden by one stray byte and by a live record whose value holds no magic word.
- KvStore.Kvdb.Iterate: says nothing of a call after one that returned false; the iterator then visits the last sector again.
- KvStore.Kvdb.Open: takes a medium that holds a log, whole or cut off during a set; other contents are not modelled, nor is the option `not_formatable`.
- KvStore.Kvdb.SetDefault: has no default pairs to write; with them it is a run of sets.
- KvStore.Kvdb.LoadLog: the retry loop is given the number of rounds it takes; whether it ends is shown for cuts of a set that runs no collection (KvRetry.CutRetries).
- KvPowerCut.PowerCut: is about a set that runs no collection; for sets that do, and for collections, every state on the way keeps every entry (KvMap.SetRefinesMap, KvGc.GcCollectKeeps).
- KvResume.CutBetweenMoves: is about cuts between two moves of a collection; cuts inside a move, where a record is marked or torn in a sector being collected, are left out.
- KvMedium.CutImage: begins with a store without stray bytes; after a second cut there may be two in a sector.
- KvMedium.ReopenAfterCut: the same; when the torn record comes first, the store has a deletion pending and takes lookups only, until it is opened again (KvMedium.ReopenTwice).
- TsStore.Tsdb.Collect: takes a log whose current sector holds a record (`Filled`), as every append leaves it.
- TsStore.Tsdb.CollectReverse: the same; after a cut that leaves an empty current sector behind full ones the code returns nothing.
- TsStore.Tsdb.CollectByTime: takes a log without torn records.
- TsStore.Tsdb.QueryCount: the same.
- TsStore.Tsdb.SetTslStatus: takes a status that is not behind the present one; moving back would need bits set.
- KvMedium.ReopenRetrying: begins with a store in which no record ends in an erased byte, so that a collection knows the ends of the sectors after the cut.
- TsStore.Tsdb.Open: takes a medium whose current sector is not full; with rollover on no run ends there. The option `not_formatable` is left out.
- TsMedium.TornMedium: cuts during the write of a record; what a medium opens as that was cut off while one sector was closed and the next one formatted is left out. That it has all other records is part of TsStore.Tsdb.AppendWithTs.
- Storage errors: reads and writes in range succeed, so the branches that pass on a storage error are left out; each write is all or nothing.
- `FileStorage` and its file handles (`src/storage.rs:113-224`).
- Combined sectors, which nothing writes: the combined word is always the erased one.
- `get_obj`, `read_value`, `set_str`, `get_str`, `dump`, `print`, `is_str` and the callback forms `iter`, `iter_reverse`, `iter_by_time`: thin wrappers.
- `append` with the clock closure: times are inputs.
- The sync flag and the rounding to a write granularity of one byte, which do nothing.
