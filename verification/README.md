# Verified model of the FSMOD file system module

FSMOD simulates file systems inside SimGrid: partitions with a bounded size and an optional
eviction scheme, files opened through handles and written in two steps, storage spread over disks
by a RAID level, and path strings resolved at mount points. This project models that behaviour in
Dafny and proves what the rest of a simulation relies on. `dafny verify dfyconfig.toml` checks it.

## What is modelled

* `Volume.dfy` holds the state of one partition (free space, two-level contents as a map from
  directory and name to objects, the records of the objects, the priority list keyed by sequence
  number) and one function per operation, with its refusals. Object identity is kept: contents and
  priority list hold references to the same objects.
* `Index.dfy`, `Eviction.dfy`, `Recency.dfy` prove what the caching partitions promise: the two
  indexes agree, eviction is exact, and victims are the oldest.
* `Guards.dfy` says when each operation succeeds and which error it gives otherwise, in terms of the
  state before it, and `Flags.dfy` what becomes of the flag that makes a file evictable.
* `Ledger.dfy`, `Reservations.dfy`, `Discipline.dfy`, `Writes.dfy` account for every byte while
  writes are in flight and complete in any order.
* `Handles.dfy`, `Systems.dfy`, `Appends.dfy`, `Positions.dfy`, `Refusals.dfy`, `WriteRuns.dfy` are about whole
  file systems: any number of partitions, files and handles, with steps interleaved freely. A write is two
  steps, because simulated time passes between them and other actors run.
* `Overflows.dfy` holds the runs in which 64-bit counters wrap: each shows that the condition of a
  theorem about the ledger, eviction or appends cannot be dropped.
* `Content.dfy`, `Partition.dfy`, `FileSystem.dfy` are the classes of the source, with their fields,
  loops and events. Each method is proved to do to the objects what the functions above do to the
  abstract state, for the whole state of the file system. A call is a step of the abstract system or,
  while handles agree, a refusal that changes nothing, so the theorems about runs hold for the objects.
* `PlainMap.dfy` shows that a partition is a map from key to size, which loses the evicted files first.
* `Paths.dfy`, `Mounts.dfy` are about path strings and the mount table, `Raid.dfy` about the choice
  of disks. `Words.dfy` and `Sums.dfy` hold 64-bit arithmetic and sums over maps.

Sizes, positions and free space are 64-bit unsigned numbers that wrap as in the source, reference
counts are 32-bit, and every place where wrapping matters is written out.

## Where the code and its own words differ

The model follows the code.

* The comments of the caching schemes speak of creation dates; a move also sends a file to the back
  of the list, under FIFO as well as under LRU.
* `delete_file` is documented to do nothing for a missing file; it throws.
* "r+" is accepted by `open` and by writes, but reads are refused for every mode except "r".
* `close` does not wait for writes in flight, and opening in mode "w" resets sizes under them, as a
  shipped example does (examples/open_seek_write.cpp:44 and 79-80).
* `truncate_file` dereferences a null pointer for a missing file; the model gives that case its own outcome.
* The mount test is a raw string prefix, so that "/a" captures "/ab/x"; and "/" can be mounted over
  or under everything else, since "//" is never a prefix of a simplified mount point.
* The parity index is decremented as an unsigned number before the modulo.

## Hypotheses that appear in several theorems

* *Safe steps*: a handle is used and closed only while it is open, new objects are new, write ids come
  from one increasing counter, and a write completes only while its file still exists. The source has
  undefined behaviour otherwise.
* *Permitted runs*: a caching partition is spared the three steps that break its index (proved to be
  exactly those). The class methods that reserve space ask for a priority list that points to live
  objects only, and only where free space does not suffice; it follows from agreement.
* Theorems about one partition start from a freshly mounted one; `Systems.RunProjects` carries them to
  file systems.

## Model

| member | source | states |
|---|---|---|
| `Index.IndexAgreesInEveryReachableState` | src/PartitionFIFOCaching.cpp:41-52 | after every permitted run of a FIFO or LRU partition, `priority_list_` and `content_` are in bijection: each sequence number is below the counter, belongs to one live object, is the number that object carries, and the object's directory and name look up to that same object |
| `Index.StepKeepsIndexUnlessBreaking` | src/Partition.cpp:92-232 | for every operation: the two indexes agree after the step if and only if the step is not a move across directories, an overwriting move or the removal of a non-empty directory on a caching partition |
| `Index.MoveBreaksIndex` | src/Partition.cpp:164-172 | a move across directories or over another file always destroys the agreement (the object keeps its old directory, the overwritten object keeps its entry) |
| `Index.DirectoryAndIndex` | src/Partition.cpp:194-209 | removing a directory keeps the agreement exactly when it is refused, empty, or the partition does not cache |
| `Index.EvictionFailsAfterMoveAcross` | src/Partition.cpp:164-172 | a run from mounting: a file is created that fills a FIFO partition, and is moved to another directory; making room then selects it as a large enough victim and fails with "file not found" |
| `Index.IndexedLeavesNothingDangling` | src/PartitionFIFOCaching.cpp:36-38 | agreement implies that no entry of the priority list points to a destroyed object, which is what the deletion loop needs |
| `Eviction.EvictionFollowsCounter` | src/PartitionFIFOCaching.cpp:13-39 | with agreeing indexes and n > 0, whatever the sizes: `create_space(n)` evicts the closed evictable files, in priority order, up to where the 64-bit counter first reaches n; it is refused with no change of state when the counter never does |
| `Eviction.EvictionIsExact` | src/PartitionFIFOCaching.cpp:13-39 | with agreeing indexes and n > 0: when closed evictable files total less than n the request is refused with no change of state; otherwise there is a shortest prefix of them, in priority order, that reaches n, and the call deletes exactly that prefix, and changes nothing else, if and only if the sizes of that prefix add up to less than 2^64; free space then rises by their exact sum if and only if it fits 64 bits too |
| `Eviction.EvictedExactly` | src/PartitionFIFOCaching.cpp:13-39 | the same file by file, with the fields written out: a stored file goes if and only if its reference count is 0, its flag is set and such files before it in the list hold less than n bytes; nothing goes if all of them together hold less (where one more file still fits the 64-bit counter) |
| `Eviction.ShortestIsReached` | src/PartitionFIFOCaching.cpp:26-31 | when the shortest sufficient prefix itself fits 64 bits, the counter stops at it |
| `Eviction.ShortestIsUnique` | src/PartitionFIFOCaching.cpp:26-31 | there is only one such prefix |
| `Eviction.SelectStopsAtFirst` | src/PartitionFIFOCaching.cpp:17-32 | for every priority list and all sizes: the selection loop takes closed evictable files in order and stops at the first one at which its wrapped counter reaches the request, or takes them all; the space found is what the counter holds |
| `Eviction.DeleteVictimsDeletesThem` | src/PartitionFIFOCaching.cpp:36-38 | the deletion loop never meets a missing entry, a missing file or an open file, and removes exactly the victims |
| `Overflows.EvictionOverlooksSpace` | src/PartitionFIFOCaching.cpp:28-35 | a permitted run on a FIFO partition of 2^64 - 1 bytes after which a file is refused although free space and closed evictable files hold enough: the shortest sufficient prefix is two files that add up past 64 bits |
| `Eviction.PinnedFileStays` | src/Partition.cpp:226-233 | a file made non-evictable survives any room made, with agreeing indexes |
| `Flags.FlagDecides` | src/Partition.cpp:226-233 | on a caching partition with agreeing indexes, a closed file is among those that may be evicted after its flag was set if and only if it was set to true |
| `Flags.StepKeepsFlags` | src/Partition.cpp:92-232 | no other operation changes the flag of any file, and a new file has it set |
| `Flags.FlagIsLastSetFromMounting` | src/Partition.cpp:226-233 | over every permitted run, the flag of a file is the one last set, or true if none was, whatever was opened, written, moved or truncated in between |
| `Eviction.RoomShape` | src/Partition.cpp:98-101 | making room changes nothing, or removes exactly the victims it selected, for any partition with agreeing indexes |
| `Recency.StepRefinesRecencyList` | src/PartitionLRUCaching.cpp:10-14 | on the list of files ordered by sequence number, one step removes what it destroys, moves what it touches to the back (creation and move; under LRU also reads and ends of writes) and keeps all else in order |
| `Recency.ListIsSortedByLastTouch` | src/PartitionFIFOCaching.cpp:41-52 | over every permitted run the list is sorted by the step that last touched each file |
| `Recency.EvictionTakesTheOldest` | src/PartitionFIFOCaching.cpp:13-39 | over every permitted run, each file evicted to make room was last touched before every file with reference count 0 and its flag set that stays |
| `Ledger.StepMoves` | src/Partition.cpp:92-224 | every step, over the integers: reservations shrink by what it returns plus what it loses, and free space grows by what it returns, up to 64-bit wrap. Returned and lost bytes are read off the state before (deleted file, old destination, files of the directory, victims, what a cut gives back, what is taken), and free space never goes below zero |
| `Ledger.DestroyedAreGone` | src/Partition.cpp:92-209 | the files named as destroyed, operation by operation, are exactly the objects stored before the step and not after it |
| `Ledger.StepIsExactIff` | include/fsmod/Partition.hpp:78-79 | a step keeps free space plus reservations plus losses over the integers if and only if free space plus the returned bytes is below 2^64 |
| `Ledger.LedgerIsExactIff` | include/fsmod/Partition.hpp:78-79 | over every permitted run: the integer ledger holds in every state if and only if no step returns more than free space can count |
| `Ledger.StepConserves` | src/Partition.cpp:92-224 | the same balance modulo 2^64 for every step, with no condition |
| `Ledger.LedgerIsExact` | src/Partition.cpp:92-224 | with no discipline assumed: free space + sum of future sizes + lost bytes is the partition size after every permitted run, modulo 2^64 |
| `Reservations.HonestIff` | src/FileSystem.cpp:327-331 | from a state in which no file, and no pending write, exceeds what the file has reserved: a step keeps this if and only if it cuts no file shorter than its pending writes (for opening in "w" mode, every pending target is 0) |
| `Reservations.HonestThroughoutIff` | src/FileSystem.cpp:327-331 | over every permitted run from such a state: it holds in every state of the run if and only if no step cuts a file shorter than its pending writes |
| `Reservations.LedgerOverIntegers` | src/File.cpp:91-113 | in every permitted run that cuts no file shorter than its pending writes, free space never wraps: free space + reservations + lost bytes is the size over the integers, lost bytes lie between 0 and the size, and no file is longer than its reservation |
| `Overflows.LedgerFailsOverIntegers` | src/FileSystem.cpp:327-331 | the condition cannot be dropped: a permitted run of openings, writes and completions on any uncached partition of at least 2^63 bytes, after which free space + reservations + lost bytes is 2^64 short of the size |
| `Overflows.FileOutgrowsItsReservation` | src/FileSystem.cpp:327-331 | and on any partition of at least n bytes, uncached or FIFO, a permitted run that ends with a file of n bytes for which nothing is reserved |
| `Reservations.StepStaysSolvent` | src/File.cpp:91-109 | from a state whose files fit their reservations, every step keeps free space + reservations + lost bytes equal to the size over the integers |
| `Reservations.RoomIsEnough` | src/File.cpp:99-107 | when making room succeeds there is enough of it, so that `decrease_free_space` does not wrap |
| `Reservations.SolventEvictionIsExact` | src/PartitionFIFOCaching.cpp:28 | in such states the shortest sufficient prefix and free space never exceed the partition size, so that eviction deletes exactly it |
| `Discipline.LedgerBalances` | src/File.cpp:91-113 | if files are reset, truncated or destroyed only with no write in flight and writes on a file complete in issue order: free space + sum of future sizes is the size after every permitted run, and a file with no pending write has current size equal to future size |
| `Discipline.LosesNothingIff` | src/Partition.cpp:113-224 | from a state whose files fit their reservations: a step loses nothing if and only if every file it deletes, overwrites, evicts, removes with its directory, truncates or resets has current size equal to future size |
| `Discipline.LedgerBalancesIff` | src/Partition.cpp:92-224 | after every permitted run that cuts no file shorter than its pending writes: free space + sum of future sizes is the size if and only if all files destroyed or cut on the way were finished |
| `Discipline.EveryPartitionBalances` | src/Partition.cpp:92-224 | the same for each partition of a whole file system, whatever happens on the others |
| `Writes.TargetsAreMonotone` | include/fsmod/FileMetadata.hpp:57-60 | between resets, targets grow with the write id, and the current size and all targets stay at or below the future size, for every interleaving |
| `Writes.SizesAreLastTargets` | include/fsmod/FileMetadata.hpp:57-68 | from any state of the file and for every interleaving: the current size is the target of the write that ended last, and the future size that of the write begun last |
| `Writes.FutureIsLargestTarget` | include/fsmod/FileMetadata.hpp:57-60 | the future size is the largest target, that of the newest write |
| `Writes.SizesAgreeIffLargestEndsLast` | include/fsmod/FileMetadata.hpp:62-68 | once a write has ended, the two sizes agree if and only if the write that ended last has the largest target |
| `Writes.IssueOrderSettles` | include/fsmod/FileMetadata.hpp:57-68 | writes that end in issue order leave current size equal to future size when none is pending |
| `Writes.OutOfOrderShrinks` | include/fsmod/FileMetadata.hpp:66 | a shorter write that ends last leaves the file shorter than its reservation |
| `Writes.EndingTwiceIsEndingOnce` | include/fsmod/FileMetadata.hpp:64-65 | completing a write twice is completing it once |
| `WriteRuns.SizesOfRun` | src/File.cpp:91-140 | over every permitted run of a partition with rising write ids that does not cut the file: its sizes and pending writes are those that its own starts and ends of writes leave, whatever happens to the other files |
| `WriteRuns.FileSizesOverRuns` | src/File.cpp:91-140 | over every run of a whole file system that does not cut the file, from any state of it: its current size is the target of its write that ended last, and its future size that of its write begun last; if it starts out settled (as when just created), targets grow in issue order and the two sizes agree if and only if no target is larger than the current size |
| `WriteRuns.ProjectionIdsRise` | src/File.cpp:109-113 | the ids of the writes one partition accepts rise strictly, since all files share one counter |
| `Handles.StepKeepsHandles` | src/FileSystem.cpp:303-346 | every step of the whole system keeps: open handles find their object where they were opened, reference counts count open handles, the open-file counter counts them all and stays within the maximum |
| `Handles.StepStays` | src/Partition.cpp:119-157 | no operation of a partition moves, destroys or re-counts an open file |
| `Handles.ReadStopsAtEndIff` | src/File.cpp:69-71 | a read, synchronous or not, stays within the file if and only if it starts at or before the end; past the end the unsigned difference lets it run on |
| `Systems.OpenHandlesAreSafe` | src/File.cpp:228-231 | over every run from fresh partitions, the object of an open handle stays stored under the directory and name it was opened with, and the open-file counter is the sum of all reference counts and at most the maximum |
| `Systems.MountKeepsHandles` | src/FileSystem.cpp:103-116 | mounting one more partition disturbs no handle |
| `Systems.RunProjects` | src/File.cpp:84-116 | each partition of a system goes through a permitted run of its own operations, so that the theorems on one partition hold for every partition |
| `Guards.AcceptedIff` | src/Partition.cpp:92-232 | each operation succeeds if and only if what it asks for holds before it: names free or present, files closed, and free space sufficient or reached by the counter of the selection loop |
| `Guards.RefusedAs` | src/Partition.cpp:113-232 | which error it is, each by an if-and-only-if on the state before: a missing file (deletion, source of a move, flag, opening in "r" or "r+"), an open file (deletion, either end of a move, anything in a removed directory), truncation of a missing or an open file, an existing or a missing directory |
| `Guards.CreationRefusedAs` | src/Partition.cpp:92-105 | the same for creation, opening and writing: the path of a directory, an existing file, missing space; and there is no other error |
| `Guards.RoomIsPlain` | src/Partition.cpp:98-101 | when the shortest sufficient prefix fits 64 bits, the space condition is that free space plus the sizes of all files with reference count 0 and their flag set is enough |
| `Guards.RefusedOperationChangesNothing` | src/Partition.cpp:92-224 | a refused operation leaves contents, sizes, free space, reference counts and priority list unchanged; eviction never stops half way |
| `Refusals.RefusedStepChangesNothing` | src/File.cpp:84-104 | on the file system: a refused step changes nothing, except that a refused append may have moved its own handle to the end of the file |
| `Refusals.StepRefusedAs` | src/File.cpp:62-104 | on the file system: reads in any mode but "r" and writes in mode "r" are refused for their mode, openings at the maximum for the number of open files, and all else is answered by the partition |
| `Positions.StepMovesHandle` | src/File.cpp:62-213 | the position every step leaves to every handle, accepted or refused: its own seek sets it, its own write in mode "a" raises it to the future size, its own read in mode "r" moves it by what is read, and nothing else moves it or changes its file, key or mode |
| `Positions.NewHandleStands` | src/FileSystem.cpp:337-341 | a new handle stands at 0 or, in mode "a" on an existing file, at its current size |
| `Positions.WritersMoveBySeeks` | src/File.cpp:91-92 | over every run, a handle in mode "w" or "r+" stands where its last own seek put it, whatever was written |
| `Positions.FutureIsFarthestEnd` | src/File.cpp:91-113 | over every run that does not reset the file, whoever writes and in whatever mode: the future size is the farthest of the initial one and the ends of the accepted writes, each starting where its handle stands or at the future end |
| `Positions.SecondWriteGoesOver` | src/File.cpp:91-113 | two accepted writes of n bytes in a row by one handle in mode "w" or "r+" at p leave the future size at the larger of the old one and p + n |
| `Appends.WriteReachesItsEnd` | src/File.cpp:97-113 | a write that starts leaves the future size at the larger of what it was and the end of the write, if and only if that end is below 2^64; otherwise the wrapped end counts |
| `Appends.AppendTakesTheEnd` | src/File.cpp:91-104 | an accepted append starts at or after the future end of the file, at it unless its handle stood beyond, and its end becomes the future end if and only if it is below 2^64 |
| `Appends.AppendsNeverOverlap` | src/File.cpp:91-113 | over every run that does not reset the file: the byte ranges reserved by any number of append handles come in order, without overlap, up to the future end, if and only if all of them end below 2^64 |
| `Appends.AppendsAbut` | src/File.cpp:91-113 | with appends only and no seek past the end: the ranges abut up to the future end, and the future size is the initial one plus the sum of the requests, if and only if all ranges end below 2^64 |
| `Overflows.AppendsMayOverlap` | src/File.cpp:99-100 | a run of an open, a seek and two appends of one handle whose byte ranges are the same |
| `PlainMap.OperationRefinesUpdate` | src/Partition.cpp:92-224 | every operation on any partition with agreeing indexes that is not refused is the update of a plain map from key to size and a set of directories, once the files it evicts are gone |
| `PlainMap.OperationFreesExactly` | src/Partition.cpp:159-162 | and gives back exactly what that map says, besides the sizes of what it evicts: an overwriting move the old destination's size, a removed directory the sum of its files' sizes |
| `PlainMap.FinishSetsSize` | include/fsmod/FileMetadata.hpp:62-68 | the end of a pending write sets the size of its file to the target and changes no other |
| `Content.FlatPut` | src/Partition.cpp:103 | storing a file in the two-level map is one update of the flattened map, and creates the directory |
| `Content.FlatErase` | src/Partition.cpp:125 | erasing a file removes one key and no directory |
| `Content.FlatEraseDirectory` | src/Partition.cpp:207 | erasing a directory removes exactly the keys in it |
| `Content.FlatSize` | src/Partition.cpp:64-70 | the sizes of the inner maps add up to the size of the flattened map |
| `Partitions.FileMetadata.constructor` | src/FileMetadata.cpp:14-27 | the object is registered with its partition: a creation event, then an access event, on the abstract state |
| `Partitions.FileMetadata.NotifyWriteStart` | include/fsmod/FileMetadata.hpp:57-60 | registers the target and raises the future size |
| `Partitions.FileMetadata.NotifyWriteEnd` | include/fsmod/FileMetadata.hpp:62-68 | assigns the target to the current size, or does nothing for an unknown id |
| `Partitions.Partition.NewFileCreationEvent` | src/PartitionFIFOCaching.cpp:41-44 | nothing without caching; otherwise a new sequence number and entry |
| `Partitions.Partition.NewFileAccessEvent` | src/PartitionLRUCaching.cpp:10-14 | under LRU the object is re-keyed with the next number; otherwise nothing |
| `Partitions.Partition.NewFileDeletionEvent` | src/PartitionFIFOCaching.cpp:50-52 | the entry under the object's number is dropped |
| `Partitions.Partition.GetFileMetadata` | src/Partition.cpp:78-84 | returns the object stored under directory and name, or null exactly if there is none |
| `Partitions.Partition.SelectVictims` | src/PartitionFIFOCaching.cpp:13-32 | the loop over the priority list computes the victims and the space of the specification |
| `Partitions.Partition.DeleteAll` | src/PartitionFIFOCaching.cpp:36-38 | the deletion loop does to the objects what the specification does to the state |
| `Partitions.Partition.CreateSpace` | src/PartitionFIFOCaching.cpp:13-39 | outcome and new state are those of the specification, for all three schemes |
| `Partitions.Partition.CreateNewFile` | src/Partition.cpp:92-105 | outcome and new state are those of the specification, with a fresh object exactly on success |
| `Partitions.Partition.DeleteFile` | src/Partition.cpp:113-126 | outcome and new state are those of the specification |
| `Partitions.Partition.MoveFile` | src/Partition.cpp:135-173 | outcome and new state are those of the specification, including the untouched directory path and the overwritten destination |
| `Partitions.Partition.TruncateFile` | src/Partition.cpp:211-224 | outcome and new state are those of the specification |
| `Partitions.Partition.MakeFileEvictable` | src/Partition.cpp:226-233 | outcome and new state are those of the specification |
| `Partitions.Partition.CreateNewDirectory` | src/Partition.cpp:187-192 | outcome and new state are those of the specification |
| `Partitions.Partition.DeleteDirectory` | src/Partition.cpp:194-209 | outcome and new state are those of the specification: files go without a deletion event |
| `Partitions.Partition.CheckDirectory` | src/Partition.cpp:198-205 | the loop finds an open file exactly if there is one, and otherwise the sum of current sizes |
| `Partitions.Partition.GetNumFiles` | src/Partition.cpp:64-70 | the count is the number of stored files |
| `FileSystems.File.WriteInitChecks` | src/File.cpp:84-116 | refuses a reader; otherwise position, reservation, registered target and write id are those of the specification, also when room cannot be made |
| `FileSystems.File.WriteAsync` | src/File.cpp:132-142 | the state of the whole file system is that of a write step of its handle, which moves only in mode "a" |
| `FileSystems.File.CompleteWrite` | src/File.cpp:135-140 | completion is an access event followed by the end of the write, and changes nothing else in the file system |
| `FileSystems.File.Write` | src/File.cpp:160-180 | a synchronous write of zero bytes does nothing; another is the two halves of the asynchronous one; the handle moves only in mode "a" |
| `FileSystems.File.Read` | src/File.cpp:62-82 | the state is that of a read step; the count is the request cut to the current size minus the position, which wraps past the end, and the position moves by the count |
| `FileSystems.File.ReadAsync` | src/File.cpp:35-44 | the same without the early return on an empty request |
| `FileSystems.File.Seek` | src/File.cpp:186-213 | the new position is the integer sum of offset and origin (0, the position, the current size or the number given) when it lies in [0, 2^63); a sum in [-2^63, 0) is refused without change; other sums wrap |
| `FileSystems.File.Close` | src/File.cpp:228-231 | one reference and one open file less, and nothing else, whether or not writes are in flight |
| `FileSystems.FileSystem.MountPartition` | src/FileSystem.cpp:85-117 | accepted exactly if the path is simplified and clashes with no mount point; then the table and the system gain one empty partition |
| `FileSystems.FileSystem.FindPathAtMountPoint` | src/FileSystem.cpp:38-52 | finds the first mount point in map order that is a prefix, exactly if there is one, and the remainder |
| `FileSystems.FileSystem.CreateFile` | src/FileSystem.cpp:245-262 | unresolved paths are refused; otherwise the whole system makes the creation step of the resolved partition with a fresh object, or the refusal is that of a directory path, an existing file or missing room, with the state each leaves; with agreeing handles a refusal changes nothing |
| `FileSystems.FileSystem.Open` | src/FileSystem.cpp:303-346 | too many open files, then unresolved paths, are refused; an existing file is opened, reset in mode "w", and gains a handle and a reference; a missing one is refused without change in modes "r" and "r+" and under a directory path, and otherwise created and opened; every opening is a step of the whole system, and the handle returned can be used |
| `FileSystems.FileSystem.UnlinkFile` | src/FileSystem.cpp:373-380 | the whole system makes the deletion step of the resolved partition |
| `FileSystems.FileSystem.TruncateFile` | src/FileSystem.cpp:269-276 | the whole system makes the truncation step of the resolved partition |
| `FileSystems.FileSystem.MakeFileEvictable` | src/FileSystem.cpp:285-294 | the whole system makes the step of the resolved partition |
| `FileSystems.FileSystem.MoveFile` | src/FileSystem.cpp:387-404 | moves across partitions are refused; otherwise the whole system makes the move step of the one partition |
| `FileSystems.FileSystem.FileExists` | src/FileSystem.cpp:411-420 | true exactly if the path resolves to a stored file |
| `FileSystems.FileSystem.CreateDirectory` | src/FileSystem.cpp:426-434 | refused for the path of a file; otherwise the directory step of the resolved partition |
| `FileSystems.FileSystem.UnlinkDirectory` | src/FileSystem.cpp:467-471 | the whole system makes the directory removal step of the resolved partition |
| `FileSystems.FileSystem.AgreementIsEnough` | src/File.cpp:228-231 | in every state whose handles agree, each open handle meets what the methods of `File` ask, and every partition what creation asks |
| `Paths.SimplifyMeans` | src/PathUtil.cpp:17-23 | simplification computes the component-stack meaning of "/" followed by the input |
| `Paths.SimplifiedShape` | src/PathUtil.cpp:17-23 | the result is absolute, has no empty component and ends in no slash unless it is "/" |
| `Paths.Meaning` | src/PathUtil.cpp:17-23 | a path stands for proper components only: none empty, ".", ".." or with a slash |
| `Paths.SimplifyIsIdempotent` | src/PathUtil.cpp:17-23 | simplifying twice is simplifying once |
| `Paths.SimplifyAgrees` | src/PathUtil.cpp:17-23 | two inputs simplify alike if and only if they resolve to the same components |
| `Paths.OrderOfCancellationDoesNotMatter` | src/PathUtil.cpp:19 | in whatever order names are cancelled against "..", the outcome is the same (section [fs.path.generic] of ISO/IEC 14882:2017 leaves the order open) |
| `Paths.RemoveTrailingSlashes` | src/PathUtil.cpp:29-33 | the loop removes exactly the trailing slashes, down to one character |
| `Paths.SplitIsParentAndName` | src/PathUtil.cpp:41-54 | splitting a simplified path gives the parent and the last component |
| `Paths.SplitAtLastSlash` | src/PathUtil.cpp:41-54 | any path is split at its last slash, whatever stands before it, and one without a slash, as below a mounted "/", has an empty directory |
| `Paths.SplitThenJoin` | src/PathUtil.cpp:41-54 | joining the parts and simplifying gives the path back |
| `Paths.KeysAreInjective` | src/PathUtil.cpp:41-54 | distinct paths without an empty component get distinct keys, with or without a leading slash, in spite of the special case for "/" |
| `Mounts.TableIsWellMounted` | src/FileSystem.cpp:87-98 | over every sequence of mounts, entries are simplified and no entry other than "/" leads another component by component |
| `Mounts.ClashIff` | src/FileSystem.cpp:94-98 | two simplified mount points clash if and only if they are equal, or neither is "/" and one leads the other component by component |
| `Mounts.AcceptsIff` | src/FileSystem.cpp:87-98 | a mount is accepted if and only if its path is simplified up to trailing slashes, is not mounted, and neither lies below nor above a mounted one, "/" aside |
| `Mounts.NestedMountIsRefused` | src/FileSystem.cpp:94-98 | a mount above or below a mounted one is refused, whatever else is mounted |
| `Mounts.RootIsNotRefused` | src/FileSystem.cpp:94-98 | "/" is accepted if and only if it is not mounted yet, whatever else is |
| `Mounts.RootNeitherRefusesNorIsRefused` | src/FileSystem.cpp:94-98 | a mounted "/" refuses nothing but itself: acceptance is decided by the other entries |
| `Mounts.TableIsSorted` | src/FileSystem.cpp:103-116 | the table stays in strict lexicographic order, as `std::map` keeps it |
| `Mounts.LookupIsShortest` | src/FileSystem.cpp:41-45 | the lookup finds the shortest mount point that is a raw prefix of the path |
| `Mounts.ResolvesIff` | src/FileSystem.cpp:38-52 | a path resolves if and only if some mount point is a raw prefix of it |
| `Mounts.ResolvesToOwnMountPoint` | src/PathUtil.cpp:62-65 | a path below a mount point resolves to it if and only if no other mount point is a raw prefix of that mount point |
| `Mounts.ResolutionIsUnique` | src/FileSystem.cpp:38-52 | if no mount point is a raw prefix of another, at most one matches any path, the order of the table does not matter, and mount point plus remainder is the path |
| `Mounts.SiblingCapturesPath` | src/PathUtil.cpp:63 | otherwise "/a" captures every path below "/ab" |
| `Mounts.RemaindersHaveDistinctKeys` | src/PathUtil.cpp:74-80 | distinct simplified paths at one mount point, "/" included, get distinct keys |
| `Raid.JBODStorage.SetRaidLevel` | src/JBODStorage.cpp:48-56 | accepted exactly with at least 3 disks for levels 4 and 5 and at least 4 disks for level 6; refused without change |
| `Raid.JBODStorage.ReadPlan` | src/JBODStorage.cpp:58-104 | accepted exactly for levels 0, 1, 4, 5 and 6; one mirror in turn and the whole size under level 1, and otherwise all disks but the dropped ones, with an equal share each that falls short of the request by less than one byte per target |
| `Raid.JBODStorage.WritePlan` | src/JBODStorage.cpp:155-181 | bytes per disk for every level: the whole size under level 1, and otherwise an equal share of n, n - 1 or n - 2 disks; levels 5 and 6 move the parity first |
| `Raid.JBODStorage.UpdateParityDiskIdx` | include/fsmod/JBODStorage.hpp:54 | the unsigned decrement modulo the number of disks, which stays a valid index |
| `Raid.JBODStorage.GetNextReadDiskIdx` | include/fsmod/JBODStorage.hpp:56 | the next counter value modulo the number of disks |
| `Raid.DroppedAre` | src/JBODStorage.cpp:67-95 | the dropped places, written out: none, the last, the one after the parity index modulo n, the two ends or two neighbours |
| `Raid.ReadTakes` | src/JBODStorage.cpp:67-85 | a read under level 0, 4 or 5 takes disk i, once and in order, if and only if it is not the last (level 4) or not the one after the parity index modulo n (level 5) |
| `Raid.ExceptIsOrderedSelection` | src/JBODStorage.cpp:67-95 | the targets are distinct disks in their original order: exactly those whose place holds data |
| `Raid.ExceptNeighbours` | src/JBODStorage.cpp:92-95 | erasing the range of two neighbours leaves exactly the disks at other places, in order |
| `Raid.ExceptEnds` | src/JBODStorage.cpp:89-91 | dropping the last and then the first leaves exactly the disks at other places, in order |
| `Raid.PlanCoversSize` | src/JBODStorage.cpp:67-95 | targets times bytes per disk is at most the request and short by less than the number of targets |
| `Raid.CastIsExact` | src/JBODStorage.cpp:89 | the cast of the disk count to int is harmless exactly if its upper 33 bits are equal |
| `Raid.ReadsAroundParityIff` | src/JBODStorage.cpp:86-95 | level 6 reads leave out exactly the two parity places, for every index and with no range past the end, if and only if the disk count is below 2^31 or at least 2^64 - 2^31 |
| `Raid.UpdateIsDecrementIff` | include/fsmod/JBODStorage.hpp:54 | the update counts down modulo n for every index if and only if n divides 2^64 |
| `Raid.EveryDiskOnce` | include/fsmod/JBODStorage.hpp:54 | if n divides 2^64, n consecutive writes put the parity at every disk exactly once |
| `Raid.RotationIsFairIff` | include/fsmod/JBODStorage.hpp:54 | every run of n writes reaches every disk if and only if n divides 2^64 |
| `Raid.NeverAboveTopAgain` | include/fsmod/JBODStorage.hpp:54 | otherwise the index comes down to (2^64 - 1) mod n and never exceeds it again |
| `Raid.ThreeDisksGetStuck` | src/JBODStorage.cpp:33 | with three disks the index is 0 from the second write on |
| `Raid.ReadsOfIs` | include/fsmod/JBODStorage.hpp:56 | how many of k mirrored reads go to each disk |
| `Raid.ReadsAreBalanced` | include/fsmod/JBODStorage.hpp:56 | these counts differ by at most one |

## Left out

- SimGrid activities, actors, hosts, links, clocks and timing: a started write may complete at any later step.
- `OneDiskStorage`, `OneRemoteDiskStorage`, the base class `Storage`, and the activities built in `JBODStorage` after targets and sizes are chosen, with the parity computation cost.
- Hardware failures: a write that never completes is covered, an exception after space was reserved is not.
- Size strings such as "10kB", logging, exception texts, and the registration and lookup of file systems in netzones.
- Creation, modification and access dates as numbers; only the events they trigger are kept.
- `stat`, `list_files_in_directory`, `file_size`, `partition_by_name`, free-space queries and other plain accessors, and the Python bindings.
- The sequence counter and the write-id counter are unbounded integers; their wrap after 2^64 accesses or 2^31 writes is not modelled.
- Mode strings: the four modes are a datatype, so the refusal of an unknown mode by `open` does not appear.
- The order in which a hash map is traversed: loops over the files of a directory take them in any order.
- Lifetime of objects beyond the safe-step hypothesis: a record stays readable in the model after its file is destroyed.
- `Content.Flat`: the two-level map is a value of nested maps in a field, not a hash table with buckets.
- Ledger.LedgerIsExact: holds modulo 2^64; `Ledger.LedgerIsExactIff` says when the integer form holds, and `Overflows.LedgerFailsOverIntegers` is a run in which it does not.
- Raid.JBODStorage.ReadPlan: leaves out the undefined case of level 6 in which the erased range runs past the end (`Raid.ReadsAroundParityIff` says when there is none), and signed overflow of the read counter of level 1.
- Raid.JBODStorage.WritePlan: the parity computation cost is not part of this model.
- FileSystems.File.Write: covers the write that takes no simulated time; with simulated time, other steps come between the two halves that `File.WriteAsync` and `File.CompleteWrite` describe.
- FileSystems.File.Seek: for an origin given as a number, signed overflow of origin plus offset is not treated separately.
