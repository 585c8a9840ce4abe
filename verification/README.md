# bit7z in Dafny

bit7z is a C++ library over the 7-Zip shared libraries. This project models the parts of it that
compute something themselves, in their POSIX build (neither `_WIN32` nor `BIT7Z_PATH_SANITIZATION`
defined), and proves what those parts are for. `dafny verify dfyconfig.toml` checks everything.

| component | files | what is proved |
|---|---|---|
| multi-volume streams over an LRU cache of file handles | `VolumesCache`, `VolumeNames`, `Disks`, `Seeking`, `MultiVolumeSpec`, `MultiVolumeLemmas`, `MultiVolumeOut`, `MultiVolumeIn`, `Evictions`, `MultiVolumeRuns`, `SparseRuns` | many files and a bounded number of handles behave as one flat file: every run, holes, growth and eviction included, and reading back |
| bounded queue between extractor and reader | `BufferQueues`, `Pipeline`, `Threads` | no byte lost or reordered, no lost wakeup, deadlock exactly on a chunk that does not fit, every other run drains; the objects carry out every run |
| UTF-8, UTF-16 and UTF-32 conversion | `Utf`, `UtfStrings`, `NarrowWiden` | well-formed output for every input, and exactly which strings survive the round trips |
| archive editing | `OutputArchives`, `ArchiveEditing`, `ArchiveEditors` | any order of calls yields "old items less deleted, first edits applied, then new items" |
| paths and globs | `Paths`, `SafePaths`, `RelativePaths`, `Glob` | textual tests mean what they should on names; item paths never leave the base; the matcher is the glob relation |
| dates, nested reader | `FileTimes`, `NestedReaders` | exact saturation and round trips; the least possible number of reopenings |

Code that changes state step by step is a class with methods (`VolumesCache`, `MultiVolumeOutStream`,
`MultiVolumeInStream`, `BufferQueue`, the synchronized streams, `Extraction`, `BitOutputArchive`,
`BitArchiveEditor`, `BitNestedArchiveReader`) or a method with loops (`Narrow`, `Widen`, `WildcardPatternMatch`). Each method
is proved equal to a specification function on plain values, and the meaning is proved about that function.

The file system is a map from names to bytes, an open file a name with an operating-system position, and
the bound on open handles a parameter of at least 3. Threads are steps, one pass through the locked
region each, with the two condition variables as explicit sleepers that may also wake for no reason.

## Where the code is not what one would expect

Each of these is a theorem, with the exact condition.

- A `Write` that accepts nothing at the start of a new volume creates an empty file with recorded size 0. If
  that volume is then evicted, the next `Write` there tries to create the file again and fails
  (`EvictionShows`, and `WatchEviction` on stream objects; `EmptyWriteHidesFile` on a dense archive). A write
  accepts nothing there when it is empty or the volume size is a multiple of 2^32, and these are the only
  cases, provided there is room for three volumes at all (`InvisibleIff`). The comment at
  `src/internal/cmultivolumeoutstream.cpp:79-80` overlooks them.
- `Write` and `Read` cut the rest of a volume to 32 bits. Where that rest is a multiple of 2^32, as at the
  start of every volume of exactly 4 GiB, they succeed without moving. They always make progress exactly
  when volumes are smaller than 2^32 bytes (`WriteProgress`, `ReadProgress`).
- `SetSize` allows one volume less than the vector can hold, while `Write` fills it (`SetSizeRefusesIff`,
  `WriteBeyondCapacity`).
- A file left over under the number right after the last volume becomes part of the archive for the reader,
  which fails to open if that file or one numbered on from it is empty, and otherwise reads its bytes after
  those that were written, unless its size is a multiple of 2^32. Without it the round trip is exact
  (`RoundTrip`).
- A seek back by 2^63 is refused even where the sum is a valid position, and nothing else is
  (`UpperHalfRewind`).
- Writer and reader agree on volume names exactly when the archive name has a filename part (`NamesAgree`).
  Through `compressTo` no other name reaches the writer: it is refused at `src/bitoutputarchive.cpp:285`.
- The names a reader derives repeat exactly when the first one is itself the name of a later volume
  (`InNamesDistinct`); a reader is only ever opened on a name that ends in `.001` (`VolumeOneIsFirst`).
- Extraction blocks for good in some run exactly when some chunk is neither empty nor below the memory limit
  (`BlocksIff`): the queue accepts only what keeps usage strictly below it.
- The conversion of a FILETIME overflows exactly from 2^63 ticks up to 2^63 plus the distance of the epochs,
  and beyond that it yields the earliest time point (`ConvertibleIff`, `ToTimeTypeSaturates`).
- Recursive deletion by a path that climbs out of the archive, such as `..`, selects every item, or none,
  without looking at the items (`InsideWhenClimbing`).
- A recursive deletion by any path also takes every item whose own path is absolute: such a path has no
  relative form, and the empty text passes the test (`AbsoluteItemsTaken`).
- Deleting by a path that ends like a folder's takes no item unless the deletion is recursive (`DeletePathTakes`).
- In `Update` mode an edited item is deleted all the same exactly when a new item bears its old path: the
  index is marked without dropping the edit (`EditSurvivesIff`, `RenameLostInUpdateMode`).

## Model

| member | source | states |
|---|---|---|
| VolumesCaches.WalkFollowsList | src/internal/volumescache.hpp:84-88 | The links are one acyclic chain: following `older` from any element of the open list visits exactly the rest of the list and stops. |
| VolumesCaches.ListIsUnique | src/internal/volumescache.hpp:84-88 | The links determine the open list: one cache state never represents two lists. |
| VolumesCaches.VisitsKeepHandlesBounded | src/internal/volumescache.hpp:164-191 | After any sequence of visits under either policy the open list has no duplicates, is shorter than the threshold and is headed by the last visit. |
| VolumesCaches.OldestKeepsRecent | src/internal/volumescache.hpp:242-256 | Closing the oldest is least recently used: whatever is visited, exactly the last visited volumes are open, in that order, as many as the threshold allows. |
| VolumesCaches.NewestClosesPrevious | src/internal/volumescache.hpp:258-272 | Closing the newest: when a volume must be opened at the threshold, exactly the one visited just before is closed; below it nothing is. |
| VolumesCaches.VictimIsAnotherVolume | src/internal/volumescache.hpp:275-281 | When opening a volume closes one, the closed one is never the volume being opened, it leaves the list, and every other open volume stays open. |
| VolumesCaches.BridgedLinks | src/internal/volumescache.hpp:198-212 | Bridging the neighbours of one list element leaves every other element linked to its new neighbours on both sides. |
| VolumesCaches.BridgingDrops | src/internal/volumescache.hpp:198-212 | Bridging turns a well-linked cache into a well-linked cache whose list lacks exactly that element, ends included. |
| VolumesCaches.HeadingLinks | src/internal/volumescache.hpp:230-240 | Putting an unlisted volume in front yields a well-linked cache whose list has it as new head. |
| VolumesCaches.EvictionCloses | src/internal/volumescache.hpp:244-272 | Closing the victim of either policy while a volume is being opened keeps handles and list in step and touches no record. |
| VolumesCaches.VolumesCache.PushBack | src/internal/volumescache.hpp:135-143 | Appends an unopened volume, or fails at the maximum size of the vector; the open list is untouched. |
| VolumesCaches.VolumesCache.Unlink | src/internal/volumescache.hpp:198-212 | Takes exactly one volume out of the open list and keeps everything but links. |
| VolumesCaches.VolumesCache.LinkAsNewest | src/internal/volumescache.hpp:230-240 | Puts an unlisted volume at the newest end and keeps everything but links. |
| VolumesCaches.VolumesCache.Evict | src/internal/volumescache.hpp:244-272 | Closes the oldest or the newest open volume, as the policy says: it loses its handle and its place, the count drops by one, and nothing else changes. |
| VolumesCaches.VolumesCache.Promote | src/internal/volumescache.hpp:188-191 | Moves an open volume to the newest place without touching any record. |
| VolumesCaches.VolumesCache.TrackReopen | src/internal/volumescache.hpp:164-180 | After an open the volume is newest, at most one other was evicted, its handle stands at the recorded seek position, and fewer than threshold handles are open. |
| VolumesCaches.VolumesCache.Close | src/internal/cmultivolumeoutstream.cpp:186-191 | Unlinks, counts down and releases one volume; the others keep their order. |
| VolumesCaches.VolumesCache.SeekWhenElsewhere | src/internal/cmultivolumeoutstream.cpp:99-105 | After the seek that both streams do first, record and handle stand at the wanted offset, whether or not the system call was skipped. |
| VolumesCaches.VolumesCache.Advance | src/internal/cmultivolumeoutstream.cpp:114-117 | After a transfer of n bytes the recorded position has moved by n and still is where the operating system left the handle. |
| VolumeNames.PaddedRoundTrip | src/internal/cmultivolumeoutstream.cpp:39-42 | The zero-padded number can be read back, whatever its width. |
| VolumeNames.PaddedWidth | src/internal/cmultivolumeoutstream.cpp:39-42 | Numbers below 1000 take exactly three characters, and longer ones have no leading zero. |
| VolumeNames.ExtensionIs | src/internal/cmultivolumeinstream.cpp:35 | What replacing an extension replaces: the part from the last dot of the filename on, but not a leading dot, and nothing of a dot-dot or of a folder. |
| VolumeNames.FirstOutName | src/internal/cmultivolumeoutstream.cpp:39-45 | The first volume is the archive name followed by `.001`, which is what a reader is given. |
| VolumeNames.OutNamesDistinct | src/internal/cmultivolumeoutstream.cpp:39-45 | Two volumes of one archive never share a name. |
| VolumeNames.NamesAgree | src/internal/cmultivolumeinstream.cpp:24-36 | The reader derives exactly the names the writer chose if and only if the archive name has a filename part. |
| VolumeNames.InNamesDistinct | src/internal/cmultivolumeinstream.cpp:24-36 | The names the reader derives, the first included, are pairwise distinct if and only if the first is not itself the name of a later volume. |
| VolumeNames.VolumeOneIsFirst | src/bitinputarchive.cpp:274-275 | A first name that ends in `.001`, the only kind a reader is opened on, is not the name of a later volume. |
| MultiVolumeSpec.CeilDivMeaning | src/internal/cmultivolumeoutstream.cpp:158-163 | The overflow-safe formula is the true ceiling: n is the result exactly when n volumes hold the size and n - 1 do not. |
| MultiVolumeSpec.PrefixSizes | src/internal/cmultivolumeoutstream.cpp:124-126 | The sizes of the first k volumes add up to where volume k starts, or to the total. |
| MultiVolumeSpec.DenseVolumes | src/internal/cmultivolumeoutstream.cpp:124-126 | In an archive that spells out a byte sequence every volume but the last is full, the last is not empty, sizes add up to the total, and there are ceil(total / max) volumes. |
| MultiVolumeLemmas.WriteFinds | src/internal/cmultivolumeoutstream.cpp:34-66 | On a dense archive Write finds the volume at the cursor, or creates exactly one fresh volume, whichever handles are open. |
| MultiVolumeLemmas.WriteIntoRepresents | src/internal/cmultivolumeoutstream.cpp:99-126 | Writing into that volume overwrites the flat sequence at the cursor and leaves all other volumes dense. |
| MultiVolumeLemmas.WriteRepresents | src/internal/cmultivolumeoutstream.cpp:90-130 | Write at a position up to the end succeeds, moves the cursor by what it accepted, and the volumes spell out the flat sequence overwritten there, whichever handles are open. |
| MultiVolumeLemmas.WriteBeyondCapacity | src/internal/cmultivolumeoutstream.cpp:37-54 | A dense archive at the capacity of the vector refuses to grow and stays as it was. |
| MultiVolumeLemmas.WriteProgress | src/internal/cmultivolumeoutstream.cpp:108 | A non-empty Write accepts at least one byte at every position if and only if the maximum volume size is below 2^32. |
| MultiVolumeLemmas.EvictionVisibleIff | src/internal/cmultivolumeoutstream.cpp:76-84 | Whether the handle at the cursor was closed in between makes a difference to Write if and only if the volume is an existing file with recorded size zero. |
| MultiVolumeLemmas.DenseHidesNothing | src/internal/cmultivolumeoutstream.cpp:79-82 | A dense archive has no such volume, so a reopened volume is never created anew. |
| MultiVolumeLemmas.EmptyWriteHidesFile | src/internal/cmultivolumeoutstream.cpp:79-82 | On a dense archive such a volume arises from a write of nothing at the end of a full last volume; the next write there succeeds with the handle kept and fails without it. |
| MultiVolumeLemmas.TrimmedIs | src/internal/cmultivolumeoutstream.cpp:178-201 | Trimming keeps exactly the volumes that start before the new size and deletes exactly the files of the others. |
| MultiVolumeLemmas.SetSizeRepresents | src/internal/cmultivolumeoutstream.cpp:167-232 | SetSize to a size the archive already has leaves dense volumes that spell out exactly the flat prefix, with the cursor where it was. |
| MultiVolumeLemmas.SetSizeRefusesIff | src/internal/cmultivolumeoutstream.cpp:168-176 | On any archive and for any size, growth included, SetSize refuses exactly what needs more than one volume less than the vector can hold, and then changes nothing. |
| Seeking.SeekToOffset | src/internal/util.hpp:27-49 | The new position is the exact sum whenever that is a 64-bit position and the offset is not the most negative one; each refusal has its own code and leaves the position alone. |
| Seeking.UpperHalfRewind | src/internal/util.hpp:30-32 | A move to a valid position is refused if and only if it goes back by 2^63 from a position of at least 2^63; 2^63 itself is such an input. |
| Disks.Disk.Open | src/internal/cmultivolumeoutstream.cpp:81-82 | Opening needs the file to exist, creating needs it not to exist, and only creating changes the disk. |
| MultiVolumeOut.MultiVolumeOutStream.EnsureVolumeOpen | src/internal/cmultivolumeoutstream.cpp:68-88 | A closed volume is reopened or created as its recorded size says; success makes it the newest, failure changes neither list nor disk; records never change. |
| MultiVolumeOut.MultiVolumeOutStream.AddVolumes | src/internal/cmultivolumeoutstream.cpp:37-54 | Appends empty volumes up to the index with their names and offsets; on reaching the capacity it fails with those added so far kept. |
| MultiVolumeOut.MultiVolumeOutStream.CurrentVolume | src/internal/cmultivolumeoutstream.cpp:34-66 | Returns the volume at the cursor, open and newest, having added the missing ones; says exactly when it fails and what remains then. |
| MultiVolumeOut.MultiVolumeOutStream.WriteToVolume | src/internal/cmultivolumeoutstream.cpp:99-126 | Performs one write at the right place of the right file and updates seek position, size, cursor and total as specified. |
| MultiVolumeOut.MultiVolumeOutStream.Write | src/internal/cmultivolumeoutstream.cpp:90-130 | Refines the specification of Write on volumes, files, cursor and total, and visits the volume in the cache when it succeeds. |
| MultiVolumeOut.MultiVolumeOutStream.Seek | src/internal/cmultivolumeoutstream.cpp:132-153 | Origin 0 goes to the offset, 1 to the cursor plus the offset, 2 to the total plus the offset, each exactly when that is a 64-bit position and the offset is not -2^63; any other origin is an invalid function; a refused seek stays; volumes are never touched. |
| MultiVolumeOut.MultiVolumeOutStream.TrimVolumes | src/internal/cmultivolumeoutstream.cpp:178-201 | Refines trimming on records and disk, closing handles as it deletes. |
| MultiVolumeOut.MultiVolumeOutStream.SetSize | src/internal/cmultivolumeoutstream.cpp:167-232 | Refines the specification of SetSize, reopening the last volume when it was evicted. |
| MultiVolumeIn.VolumeAtCovers | src/internal/cmultivolumeinstream.cpp:40-69 | Every position before the end lies in exactly one volume. |
| MultiVolumeIn.ReadProgress | src/internal/cmultivolumeinstream.cpp:110-113 | Every Read before the end returns at least one byte if and only if all volumes are shorter than 2^32 bytes. |
| MultiVolumeIn.FewNamesExist | src/internal/cmultivolumeinstream.cpp:27-36 | The scan for consecutive names is bounded by the number of files, so it ends. |
| MultiVolumeIn.SearchStep | src/internal/cmultivolumeinstream.cpp:44-67 | Comparing with one volume tells on which side of it the wanted one lies. |
| MultiVolumeIn.MultiVolumeInStream.AddVolume | src/internal/cmultivolumeinstream.cpp:160-177 | Appends a volume right after the previous ones; an empty file or a full vector is refused and changes nothing. |
| MultiVolumeIn.MultiVolumeInStream.Open | src/internal/cmultivolumeinstream.cpp:23-37 | Collects exactly the consecutively numbered files from the first on; fails only on an empty file or a full vector. |
| MultiVolumeIn.MultiVolumeInStream.EnsureVolumeOpen | src/internal/cmultivolumeinstream.cpp:73-87 | Opens or promotes the volume; it is then the newest of the cache and the one opened last. |
| MultiVolumeIn.MultiVolumeInStream.CurrentVolume | src/internal/cmultivolumeinstream.cpp:40-69 | The search, started at the volume opened last, terminates, finds the one volume that contains the cursor and leaves it open and newest. |
| MultiVolumeIn.MultiVolumeInStream.ReadFromVolume | src/internal/cmultivolumeinstream.cpp:101-127 | Returns the flat slice at the cursor that lies in the volume, cut to 32 bits, and moves the cursor by it. |
| MultiVolumeIn.MultiVolumeInStream.Read | src/internal/cmultivolumeinstream.cpp:90-133 | Returns exactly the flat slice at the cursor; its length is what the volume has left, cut to 32 bits and to the buffer; nothing from the end on. |
| MultiVolumeIn.MultiVolumeInStream.Seek | src/internal/cmultivolumeinstream.cpp:135-158 | The same three origins, conditions and refusals for the reader. |
| MultiVolumeIn.MultiVolumeInStream.ReadToEnd | src/internal/cmultivolumeinstream.cpp:90-133 | Reading on until nothing comes returns the bytes from the cursor on: all of them when volumes are below 2^32 bytes, and none beyond the start of a volume whose size is a multiple of 2^32, where the loop stops. |
| MultiVolumeRuns.RunMeans | src/internal/cmultivolumeoutstream.cpp:90-232 | Every run of covered calls (writes that accept something, leave no hole and create no volume whose name a stale file bears) leaves dense volumes that spell out the bytes of the same run on one flat file, whichever handles were closed on the way. |
| MultiVolumeRuns.CoveredRunsAgree | src/internal/cmultivolumeoutstream.cpp:68-88 | Covered runs on a dense archive agree in replies and outcome whichever handles each of them finds open. |
| MultiVolumeRuns.HandlesMakeNoDifference | src/internal/volumescache.hpp:275-281 | On stream objects over any files: the same calls under any two thresholds get equal replies and leave equal records, files, cursor and total, if every write accepts something at a volume start or there is no room for three volumes; covered calls spell out the flat run. |
| MultiVolumeRuns.WriteAll | src/internal/cmultivolumeoutstream.cpp:90-130 | Repeating Write takes all of the data when the volume size is below 2^32, across as many volumes as needed. |
| MultiVolumeRuns.Perform | src/internal/cmultivolumeoutstream.cpp:90-232 | Whole writes, seeks and truncations on the stream object mean the same operations on one flat file. |
| MultiVolumeRuns.ScanReads | src/internal/cmultivolumeinstream.cpp:160-177 | Contiguous volumes over the files of a dense archive hold exactly its bytes. |
| MultiVolumeRuns.OpenArchive | src/internal/cmultivolumeinstream.cpp:23-37 | Opening volume `.001` of a dense archive finds exactly its volumes and its bytes, unless a file bears the name of the next volume; then its bytes are appended. Opening succeeds if and only if no file numbered on from the last volume is empty and there is room for all of them. |
| MultiVolumeRuns.RoundTrip | src/internal/cmultivolumeoutstream.cpp:34-232 | For every legal series of calls, every two thresholds and every buffer size, writing and then reading from `.001` to the end returns the bytes of the flat run if and only if opening succeeds, for which the condition is exact, and no stale file bears the name of the next volume or its size is a multiple of 2^32; the result always starts with those bytes. |
| MultiVolumeRuns.FlatSeek | src/internal/cmultivolumeoutstream.cpp:134-147 | On one flat file, too, a seek goes to the offset, to the cursor plus it, or to the end plus it, as the origin says, or nowhere; both flat meanings agree. |
| SparseRuns.WriteAnswers | src/internal/cmultivolumeoutstream.cpp:90-130 | On every archive: when Write succeeds, and how much it takes, namely what is left of the volume at the cursor, cut to 32 bits. |
| SparseRuns.WriteVolumes | src/internal/cmultivolumeoutstream.cpp:99-126 | A write that succeeds overwrites the data of its volume at the offset within it and leaves the data of all others alone; recorded size, cursor and total are exact. |
| SparseRuns.WriteSpells | src/internal/cmultivolumeoutstream.cpp:90-130 | For every archive, holes included: a write changes exactly the bytes of its range, and cursor and size are those of one file. |
| SparseRuns.SetSizeSpells | src/internal/cmultivolumeoutstream.cpp:167-232 | For every archive and size, growth included: every byte below the new size stays, every other one is gone, and the size is the new one. |
| SparseRuns.SetSizeLeavesOpen | src/internal/cmultivolumeoutstream.cpp:186-220 | After SetSize only kept volumes are open that were open before, all of them when none had to be cut; and the one that had to be cut is open. |
| SparseRuns.SparseRunMeans | src/internal/cmultivolumeoutstream.cpp:90-232 | Every run of a stream, with holes, growth, empty writes and failures, under every threshold, means the run on one file in which what was never written is zero. |
| SparseRuns.MakeSparseCalls | src/internal/cmultivolumeoutstream.cpp:90-232 | The same of a new stream object on a disk that may hold anything. |
| Evictions.EvictionInvisible | src/internal/cmultivolumeoutstream.cpp:68-88 | For every run, with holes, growth, stale files or a full vector: if handles are found open only on volumes that have data, replies, records, seek positions, files, cursor and total are those of a run that never finds one open. |
| Evictions.SeekMeans | src/internal/cmultivolumeoutstream.cpp:134-147 | A seek in a run, answer included: the three origins, and which status every refusal gives. |
| Evictions.SetSizeSucceedsIff | src/internal/cmultivolumeoutstream.cpp:167-232 | Where every volume with data has its file, SetSize succeeds if and only if the size is not refused. |
| Evictions.StreamRunHandles | src/internal/cmultivolumeoutstream.cpp:56-88 | Every run of a stream is a run for some choice of handles, one for each call. |
| Evictions.CallKeepsData | src/internal/cmultivolumeoutstream.cpp:99-126 | While every write accepts something at a volume start, only volumes that have data are open, after Write and after SetSize. |
| Evictions.StreamIgnoresHandles | src/internal/volumescache.hpp:164-180 | From any state in which the open volumes have data, such a run of a stream answers and leaves what a stream without any open handle does, for every threshold. |
| Evictions.EvictionShows | src/internal/cmultivolumeoutstream.cpp:79-82 | For every layout with room for three volumes and every data that can be accepted nowhere at a volume start (empty, or the volume size a multiple of 2^32) seven calls whose last write fails with two handles and succeeds with three. |
| Evictions.FewVolumesAgree | src/internal/volumescache.hpp:275-281 | With room for fewer than three volumes the threshold is never reached, so all runs agree, open volumes included. |
| Evictions.InvisibleIff | src/internal/volumescache.hpp:275-281 | Eviction is invisible in all runs over all files whose writes come from a given set of data if and only if there is no room for three volumes, or every one of those data is non-empty and the volume size is not a multiple of 2^32. |
| Evictions.MakeCalls | src/internal/cmultivolumeoutstream.cpp:90-232 | The stream object carries out every run of calls exactly as specified: replies, volumes, files, cursor, total and the list of open volumes. |
| Evictions.WatchEviction | src/internal/cmultivolumeoutstream.cpp:79-82 | The failure on two stream objects: the same calls fail with two handles and succeed with more. |
| BufferQueues.PassesKeepSound | src/internal/bufferqueue.cpp:21-56 | Every pass keeps usage equal to the queued total and below the limit, and queued chunks non-empty; popping never underflows the usage. |
| BufferQueues.BufferQueue.Pop | src/internal/bufferqueue.cpp:21-37 | One pass of pop: oldest chunk, or empty after the end, or sleep; wakes the producer only when it took something. |
| BufferQueues.BufferQueue.Push | src/internal/bufferqueue.cpp:39-50 | One pass of push: queued and consumer woken if it stays below the limit, else sleep with the queue untouched. |
| BufferQueues.SynchronizedOutStream.Write | src/internal/csynchronizedoutstream.cpp:23-53 | Refuses an empty chunk without touching the queue; otherwise one pass of push. |
| BufferQueues.SynchronizedInStream.Read | src/internal/csynchronizedinstream.cpp:38-71 | One pass of Read never gives more than `size` bytes: the unread rest first, else the oldest chunk, of which it gives that many or all and keeps the remainder; an empty answer at the end; no answer while the queue is empty. The first positive size starts the extraction. |
| BufferQueues.ReadHandsOut | src/internal/csynchronizedinstream.cpp:52-68 | What a pass gives and what it keeps make up the chunk it served; it gives less than asked only where the chunk ends, and takes a chunk from the queue only when no rest is left. |
| Pipeline.StepKeeps | src/internal/bufferqueue.cpp:21-56 | Every step of every thread, spurious wakeups included, keeps byte conservation, sound accounting and "a sleeper's condition is false". |
| Pipeline.StepHandsOut | src/internal/csynchronizedinstream.cpp:60-68 | In every step of every run the reader is given at most what its call asked for, and less only where a chunk ends. |
| Pipeline.StepPossibleIff | src/internal/bufferqueue.cpp:21-50 | When each step of each thread can be made, in terms of where the thread stands and who sleeps. |
| Pipeline.ReachableIsConsistent | src/internal/csynchronizedinstream.cpp:38-85 | All of that in every reachable state of every interleaving. |
| Pipeline.EmptyReadMeansEnd | src/internal/csynchronizedinstream.cpp:56-58 | A Read of positive size that returns nothing, at once or after sleeping, does so only after the end was signalled and every accepted byte delivered. |
| Pipeline.DeadlockNeedsOversizedChunk | src/internal/bufferqueue.cpp:39-46 | Both threads asleep at once implies the chunk being written is at least as large as the limit. |
| Pipeline.OversizedChunkBlocksForever | src/internal/bufferqueue.cpp:39-46 | An extractor writing a chunk at least as large as the limit never gets past it, on any continuation: no more bytes, no end. |
| Pipeline.OversizedFirstChunk | src/internal/bufferqueue.cpp:39-46 | Such a state is two steps from the start: a Read and the Write of any chunk that does not fit put both threads to sleep. |
| Pipeline.StepProgresses | src/internal/bufferqueue.cpp:21-56 | Every step, a failing extraction included, decreases one measure; a spurious wakeup raises it by one. |
| Pipeline.StuckIff | src/internal/bufferqueue.cpp:21-56 | Until the end is read no thread can go on if and only if both sleep. |
| Pipeline.EndNeedsFitting | src/internal/csynchronizedoutstream.cpp:28-44 | Whatever the run, without a failure the end is read only if every chunk is empty or below the limit. |
| Pipeline.EveryRunDrains | src/internal/csynchronizedinstream.cpp:38-85 | With a reader that keeps reading every run is bounded, two steps more for each spurious wakeup. A run that cannot go on has read the end if and only if extraction failed or every chunk is empty or below the limit; else both threads sleep on a chunk that is not. At the end all that was accepted is delivered: everything, in order, unless extraction failed. |
| Pipeline.BlocksIff | src/internal/bufferqueue.cpp:39-46 | For given limit and chunks some run blocks for good without a failure if and only if some chunk is neither empty nor below the limit. |
| Pipeline.DeliveredIsPrefix | src/internal/csynchronizedinstream.cpp:79-85 | In every reachable state, failing extraction included, what was read is a prefix of the nested archive. |
| Pipeline.EndMeansAll | src/internal/csynchronizedinstream.cpp:56-58 | Whatever the run, whoever has read the end has been given all that was accepted: without a failure, every chunk in order, and every chunk is empty or below the limit. |
| Threads.Extraction.ReadPass | src/internal/csynchronizedinstream.cpp:38-71 | One pass of Read on the stream objects is the pass of the run: it starts the extractor, fetches, sleeps or hands out as specified. |
| Threads.Extraction.WritePass | src/internal/csynchronizedoutstream.cpp:23-53 | One pass of Write with the next chunk on the stream objects: refused, queued or asleep as specified. |
| Threads.Extraction.Perform | src/internal/bufferqueue.cpp:21-56 | One step of either thread on the objects is possible if and only if the run can make it, and does to streams and queue exactly what the run says. |
| Threads.Extraction.PerformAll | src/internal/csynchronizedinstream.cpp:38-85 | The queue and the two streams carry out every series of steps of the two threads exactly as the run does. |
| Threads.Extract | src/internal/csynchronizedinstream.cpp:38-85 | On new objects, for every limit, chunks and series of steps: what the reader was handed is that of the run, a prefix of the nested archive, and all of it once it has read the end without a failure. |
| UtfStrings.DecodeEncoded | src/internal/stringutil.cpp:163-201 | The decoder of the code gives back every scalar value from its UTF-8 form, whatever follows it. |
| UtfStrings.ValidIsEncoded | src/internal/stringutil.cpp:54-83 | Every character of the grammar of RFC 3629 section 4 is the encoding of a scalar value. |
| UtfStrings.EncodedAreValid | src/internal/stringutil.cpp:54-83 | Encoding scalar values yields well-formed UTF-8. |
| UtfStrings.DecodeEncodedAll | src/internal/stringutil.cpp:163-201 | Decoding a whole encoded string gives back its characters. |
| UtfStrings.ValidIffReencodes | src/internal/stringutil.cpp:163-201 | A byte string is well-formed if and only if re-encoding what the code decodes gives it back. |
| UtfStrings.SurrogatePair | src/internal/stringutil.cpp:104-112 | The folded constant in the pair formula is right: combining the two units of a character gives the character. |
| UtfStrings.PairIsCharacter | src/internal/stringutil.cpp:104-112 | Every pair of a high and a low surrogate is the UTF-16 form of exactly the character the formula computes. |
| UtfStrings.DecodeUtf16All | src/internal/stringutil.cpp:121-129 | The UTF-16 form of scalar values is well-formed and decodes to them. |
| UtfStrings.ValidIffReencodes16 | src/internal/stringutil.cpp:92-118 | A wide string is well-formed UTF-16 if and only if its decoded code points are scalar and it is their UTF-16 form. |
| UtfStrings.DecodedIsWellFormed | src/internal/stringutil.cpp:163-201 | Whatever is decoded to anything but U+FFFD was exactly one character of the grammar of RFC 3629 section 4, no overlong form, surrogate or value beyond the range. |
| UtfStrings.ErrorsLeaveReplacements | src/internal/stringutil.cpp:163-201 | No malformed input passes silently: it leaves at least one U+FFFD. |
| UtfStrings.DecodingSplits | src/internal/stringutil.cpp:163-201 | Whatever comes before it, decoding starts afresh at every byte that is no continuation byte: an error never swallows the character after it. |
| UtfStrings.DecodeConsumes | src/internal/stringutil.cpp:163-201 | For any bytes: one step consumes the first byte and the continuation bytes after it, up to the number the first one announces, and yields U+FFFD unless they are a character of the grammar. |
| UtfStrings.LoneSurrogate | src/internal/stringutil.cpp:92-118 | A surrogate that is not part of a pair is one U+FFFD, and the next unit is left alone. |
| UtfStrings.WideSplits | src/internal/stringutil.cpp:92-118 | Decoding a wide string starts afresh everywhere but inside a surrogate pair. |
| UtfStrings.CollapsedKeeps | src/internal/stringutil.cpp:71-74 | Of a run of replacement characters exactly the first stays, and everything else stays. |
| UtfStrings.CollapsedIsNormal | src/internal/stringutil.cpp:71-74 | Collapsing leaves no two replacement characters in a row and changes nothing exactly when there were none. |
| Utf.DecodedIsScalar | src/internal/stringutil.cpp:163-201 | Whatever the bytes, a decoded code point is a scalar value. |
| NarrowWiden.EndsInReplacementCharacter | src/internal/stringutil.cpp:71-74 | UTF-8 is self-synchronising: the text ends in EF BF BD if and only if its last character is U+FFFD. |
| NarrowWiden.ToUtf8 | src/internal/stringutil.cpp:54-89 | Appends one character, out-of-range ones replaced and repeated replacements dropped. |
| NarrowWiden.DecodeWideCodepoint | src/internal/stringutil.cpp:92-118 | Decodes one unit or one pair and says which unit was the last one used. |
| NarrowWiden.Narrow | src/internal/stringutil.cpp:249-256 | The loop computes the UTF-8 form of the decoded, repaired and collapsed characters. |
| NarrowWiden.DecodeCodepoint | src/internal/stringutil.cpp:163-201 | Decodes one character from the position on; at least one byte is consumed and none beyond the end. |
| NarrowWiden.ToUtf16 | src/internal/stringutil.cpp:121-129 | Appends the UTF-16 form of one character. |
| NarrowWiden.Widen | src/internal/stringutil.cpp:287-293 | The loop terminates and computes the UTF-16 form of the decoded characters. |
| NarrowWiden.WidenSplits | src/internal/stringutil.cpp:287-293 | Widening starts afresh at every byte that is no continuation byte, however broken the text before it. |
| NarrowWiden.WidenKeepsText | src/internal/stringutil.cpp:287-293 | Whatever precedes it, well-formed text is widened to exactly its characters. |
| NarrowWiden.LetterAfterError | src/internal/stringutil.cpp:183-189 | The bytes C3 41 are widened to U+FFFD and the letter A. |
| NarrowWiden.NarrowOfUnit | src/internal/stringutil.cpp:249-256 | One unit is narrowed to the UTF-8 form of its character, or to EF BF BD where it is a surrogate or beyond the range. |
| NarrowWiden.NarrowIsNormal | src/internal/stringutil.cpp:249-256 | For every wide string, valid or not, the result is well-formed UTF-8 without two U+FFFD in a row. |
| NarrowWiden.WidenIsValid | src/internal/stringutil.cpp:287-293 | For every byte string, valid or not, the result is well-formed UTF-16. |
| NarrowWiden.NarrowWidenRoundTrip | src/internal/stringutil.cpp:261-295 | narrow(widen(s)) == s if and only if s is well-formed UTF-8 without two U+FFFD in a row. |
| NarrowWiden.CleanWideningLosesNothing | src/internal/stringutil.cpp:261-295 | A string whose wide form shows no U+FFFD is given back exactly by narrow. |
| NarrowWiden.NarrowIsStable | src/internal/stringutil.cpp:249-293 | narrow(widen(narrow(w))) == narrow(w) for every wide string. |
| NarrowWiden.WidenNarrowRoundTrip | src/internal/stringutil.cpp:249-293 | widen(narrow(w)) == w if and only if w is well-formed UTF-16 without two U+FFFD in a row. |
| Glob.MatchesIffDescribes | src/internal/fsutil.cpp:98-134 | The recursive reading of a pattern is the declarative one: the string can be cut into parts, one per pattern character. |
| Glob.PlainPattern | src/internal/fsutil.cpp:107-127 | A pattern without wildcards matches itself only; with a star at its end, exactly what starts with it. |
| Glob.QuestionMarks | src/internal/fsutil.cpp:107-112 | Question marks match exactly the strings of as many characters. |
| Glob.NothingLeft | src/internal/fsutil.cpp:116-124 | Why a star need not be tried against the end of the string: what follows it starts with a character that must be there. |
| Glob.WildcardPatternMatch | src/internal/fsutil.cpp:98-134 | The backtracking matcher terminates and returns true exactly for the strings the rest of the pattern matches. |
| Glob.WildcardMatch | src/internal/fsutil.cpp:137-142 | An empty pattern matches everything; any other exactly the strings it describes. |
| SafePaths.InsideIsPrefix | src/internal/fsutil.cpp:464-527 | The character comparison asks whether the base plus separator is a prefix, whatever the trailing separators. |
| SafePaths.OutsideIffNames | src/internal/fsutil.cpp:464-527 | On normal absolute paths the comparison says "inside" if and only if the names of the base start the names of the path. |
| SafePaths.BasePathIs | src/internal/fsutil.cpp:531-540 | The prepared base is the current directory for an empty base path or a dot, where an absolute base path leads, and otherwise where the base path leads from the current directory; it ends in a separator exactly when the argument ends like a folder. |
| SafePaths.WalksFromBase | src/internal/fsutil.cpp:458 | Joining and normalising is walking down the names of the item path from the base. |
| SafePaths.BuildPathStaysInside | src/internal/fsutil.cpp:553-574 | For every item path: a result lies below the base; a relative NUL-free path is accepted if and only if the walk it describes ends below the base; each error has its exact condition. |
| SafePaths.ExtractionTarget | src/internal/fsutil.cpp:531-574 | From current directory, base path and item path to the file: below the folder the base path names, where the item path leads, written out character for character; refused exactly when the item path leads elsewhere, is absolute or contains NUL. |
| Paths.SpecialElements | src/internal/fsutil.cpp:539 | A dot-dot undoes a name, stays at the root and otherwise climbs; a dot does nothing. |
| Paths.NormalExample | src/internal/fsutil.cpp:539 | The example of the standard: `foo/./bar/..` becomes `foo/`. |
| RelativePaths.NormalOnce | src/internal/fsutil.cpp:539 | Normalising any path a second time changes nothing. |
| Paths.NormalIsFixed | src/internal/fsutil.cpp:539 | A normal absolute path is its own normal form. |
| Paths.PrefixIffNames | src/internal/fsutil.cpp:501-526 | With a separator at the end, string prefix is prefix of the lists of names. |
| RelativePaths.NormalElements | src/bitarchiveeditor.cpp:179 | A normalised relative path is dot-dots, then names, then possibly a trailing separator. |
| RelativePaths.RelativeLeads | src/bitarchiveeditor.cpp:144 | The relative path is the way: walking it from the base arrives at the path; a separator at the end of either changes nothing. |
| RelativePaths.InsideIffBelow | src/bitarchiveeditor.cpp:143-163 | For a path that stays in the archive the textual test holds if and only if its names start the item's names, the item itself only as a folder. |
| RelativePaths.InsideWhenClimbing | src/bitarchiveeditor.cpp:143-163 | For a path that climbs out of the archive the test does not look at the item at all: it holds if and only if the path has at most as many names as dot-dots. |
| OutputArchives.RemainingIs | include/bit7z/bitoutputarchive.hpp:389-400 | The list of what is left is increasing and has exactly the undeleted numbers. |
| OutputArchives.RemainingCount | src/bitoutputarchive.cpp:374-380 | Deleted and left-over numbers add up to all of them. |
| OutputArchives.IncreasingIsUnique | include/bit7z/bitoutputarchive.hpp:389-400 | There is only one increasing list with given members. |
| OutputArchives.FirstWithPath | src/bitinputarchive.cpp:966-980 | The first item with the path, or the number of items when there is none. |
| OutputArchives.BitOutputArchive.ItemsCount | src/bitoutputarchive.cpp:374-380 | The sum modulo 2^32 is the number of undeleted input items and new items. |
| OutputArchives.BitOutputArchive.UpdateInputIndices | src/bitoutputarchive.cpp:358-372 | The two loops terminate and build exactly the list of undeleted numbers, with nothing built when nothing is deleted. |
| OutputArchives.BitOutputArchive.DeleteReplaced | src/bitoutputarchive.cpp:230-238 | In Update mode exactly the first input item with the path of some new item is deleted as well. |
| OutputArchives.BitOutputArchive.PrepareOutput | src/bitoutputarchive.cpp:225-241 | When the archiver is called the mapping is in place for the final set of deletions. |
| OutputArchives.BitOutputArchive.MappingIsOrderedBijection | src/bitoutputarchive.cpp:410-417 | Output numbers map, strictly increasing, onto the undeleted input indices followed by all new items: each is hit exactly once. |
| OutputArchives.BitOutputArchive.MappingIsRemaining | src/bitoutputarchive.cpp:410-417 | Each output number maps to that element of the list of undeleted numbers. |
| ArchiveEditing.SessionMeaning | src/bitarchiveeditor.cpp:66-131 | After any calls in any order an item is deleted if some call deleted it, else carries its first edit, else is untouched; additions are in call order. |
| ArchiveEditing.StepMeaning | src/bitarchiveeditor.cpp:66-131 | One call deletes what it selects, edits only an untouched target, and keeps every other slot. |
| ArchiveEditing.DeleteOverloadsAgree | src/bitarchiveeditor.cpp:106-131 | On archives with distinct normal paths, deleting a folder recursively by index and by path selects the same items. |
| ArchiveEditing.FolderPrefix | src/bitarchiveeditor.cpp:121-130 | A path plus separator starts another path if and only if its names properly start the other's names. |
| ArchiveEditing.DeleteAtTakes | src/bitarchiveeditor.cpp:106-131 | On archives with normal paths a deletion by index takes the item, and the items whose names properly extend its names exactly when it is a folder and the deletion is recursive. |
| ArchiveEditing.DeleteAtTakesOne | src/bitarchiveeditor.cpp:117-119 | On any archive a deletion by index that is not recursive, or of an item that is not a folder, takes exactly that item. |
| ArchiveEditing.DeletePathTakes | src/bitarchiveeditor.cpp:166-201 | A deletion by a path that stays in the archive takes exactly the items of its names, unless it ends like a folder's; a recursive one also everything below, and of those names the folders. |
| ArchiveEditing.ClimbingPathTakesNone | src/bitarchiveeditor.cpp:166-201 | A path that climbs out of the archive is no item's own: deleting by it without recursion takes nothing. |
| ArchiveEditing.AbsoluteItemsTaken | src/bitarchiveeditor.cpp:143-182 | A recursive deletion by any path takes every item whose own path is absolute. |
| ArchiveEditing.OnlyNamedAreDeleted | src/bitarchiveeditor.cpp:106-201 | After any calls none of which is recursive, an item is deleted if and only if one of them named its index or its names. |
| ArchiveEditing.TargetIs | src/bitarchiveeditor.cpp:66-104 | A rename records the new path and no data; an update records the data under the old path, or under the path it named; a call by path edits the first item with that path. |
| ArchiveEditing.TargetMissing | src/bitarchiveeditor.cpp:66-104 | A call edits nothing if and only if no item has its index or path. |
| ArchiveEditing.FirstEditIs | src/bitarchiveeditor.cpp:208-210 | The edit of an item is that of the earliest call that edits it. |
| ArchiveEditing.AdditionsInOrder | src/bitarchiveeditor.cpp:66-201 | The additions of a session are those of its parts, in the order of the calls. |
| ArchiveEditors.BitArchiveEditor.FindItem | src/bitarchiveeditor.cpp:233-250 | The first item with the path decides: missing, deleted or found. |
| ArchiveEditors.BitArchiveEditor.SetEditedItem | src/bitarchiveeditor.cpp:208-210 | Records the edit unless the item has one. |
| ArchiveEditors.BitArchiveEditor.RenameItem | src/bitarchiveeditor.cpp:66-69 | Carries out its step of the plan; invalid index, deleted item and success are told apart exactly. |
| ArchiveEditors.BitArchiveEditor.RenameItemByPath | src/bitarchiveeditor.cpp:71-74 | Carries out its step of the plan; no such file exactly when no item has the path, and marked as deleted exactly when the first one that has it is. |
| ArchiveEditors.BitArchiveEditor.UpdateItem | src/bitarchiveeditor.cpp:76-92 | Carries out its step of the plan; invalid index, deleted item and success are told apart exactly. |
| ArchiveEditors.BitArchiveEditor.UpdateItemByPath | src/bitarchiveeditor.cpp:94-104 | Carries out its step of the plan; no such file exactly when no item has the path, and marked as deleted exactly when the first one that has it is. |
| ArchiveEditors.BitArchiveEditor.MarkItemAsDeleted | src/bitarchiveeditor.cpp:203-206 | Forgets the edit and marks the item, so edited and deleted indices stay disjoint. |
| ArchiveEditors.BitArchiveEditor.DeleteItem | src/bitarchiveeditor.cpp:106-131 | Carries out its step of the plan, which DeleteAtTakes describes; succeeds exactly for a valid index. |
| ArchiveEditors.BitArchiveEditor.DeleteItemByPath | src/bitarchiveeditor.cpp:166-201 | Carries out its step of the plan: refuses empty and absolute paths, reports when nothing was selected. |
| ArchiveEditors.BitArchiveEditor.AnswersArePlan | src/bitarchiveeditor.cpp:267-314 | Once the mapping is in place the answers to the archiver are the planned output, item by item. |
| ArchiveEditors.CopiedItemsSurvive | src/bitarchiveeditor.cpp:296-308 | An output item without new data maps to an undeleted old index. |
| ArchiveEditors.FinalMeaning | src/bitoutputarchive.cpp:225-241 | After any calls in any order and in either mode an item is deleted if some call deleted it or, in Update mode, an addition bears its path; else it carries its first edit, else it is untouched; additions are in call order. |
| ArchiveEditors.EditSurvivesIff | src/bitoutputarchive.cpp:230-238 | For every plan, mode and edit: a recorded edit is carried out if and only if it is not the case that the mode is Update and an added item bears the old path; a lost edit means a deleted item. |
| ArchiveEditors.RenameLostInUpdateMode | src/bitoutputarchive.cpp:230-238 | A concrete session in which a rename is lost in Update mode and kept otherwise. |
| ArchiveEditors.Session | src/bitoutputarchive.cpp:225-241 | For any calls in any order and either mode the archiver is given exactly the output that FinalMeaning describes in terms of the calls. |
| ArchiveEditors.SessionShows | src/bitarchiveeditor.cpp:267-314 | From the calls to what the archiver is told of an edited item: a renamed one has the new path and its old data; an updated one has new data, under its old path or the one the call named. |
| ArchiveEditors.SessionKeeps | src/bitarchiveeditor.cpp:267-314 | An item that no call edits, deletes or replaces is told with its old path, old index and old data. |
| ArchiveEditors.SessionAdds | src/bitarchiveeditor.cpp:267-314 | After the items that are left come the added ones in the order of the calls, each told with its path and its data. |
| ArchiveEditors.PerformAll | src/bitarchiveeditor.cpp:66-201 | Any series of calls on the editor carries out the plan of that series. |
| FileTimes.ConvertibleIff | src/internal/dateutil.cpp:90-95 | Moving the epoch overflows exactly for tick counts from 2^63 up to 2^63 plus the distance of the epochs. |
| FileTimes.ToTimeTypeSaturates | src/internal/dateutil.cpp:79-96 | Wherever it does not overflow: exact where a nanosecond clock reaches, stuck to the end of its range exactly elsewhere, counts from 2^63 on being read as negative. |
| FileTimes.ToTimeTypeMonotone | src/internal/dateutil.cpp:90-96 | A later file time converts to an earlier time point if and only if its ticks are read as negative while the earlier one is neither so read nor before the range of the clock; strictly later ones convert to strictly later ones in range. |
| FileTimes.FileTimeRoundTrip | src/internal/dateutil.cpp:90-106 | Wherever it is defined, converting to a time point and back is the identity if and only if the clock can express the file time. |
| FileTimes.TimePointRoundTrip | src/internal/dateutil.cpp:90-106 | The other way round only what is finer than a tick is lost, truncated toward 1970. |
| FileTimes.OverloadsAgree | src/internal/dateutil.cpp:53-60 | The modular overload for whole seconds agrees with the other on every second a nanosecond clock can express, those before 1970 included. |
| FileTimes.EpochDistance | src/internal/dateutil.cpp:26-27 | The distance of the two epochs in seconds is that of the Gregorian calendar, day by day from 1601 to 1970, and the two constants of the code agree. |
| FileTimes.UnixEpoch | src/internal/dateutil.cpp:53-60 | The start of 1970 is the FILETIME with the halves 019DB1DE and D53E8000. |
| NestedReaders.RunsAreNeeded | src/bitnestedarchivereader.cpp:221-234 | No forward-only reader serves a series of accesses with fewer openings than it has maximal non-decreasing runs. |
| NestedReaders.BitNestedArchiveReader.ItemProperty | src/bitnestedarchivereader.cpp:126-134 | Opens the archive again exactly when the item was passed, and stands at it then; accesses served by one opening never go backwards. |
| NestedReaders.BitNestedArchiveReader.PassOver | src/bitnestedarchivereader.cpp:136-219 | A pass over the items (listing, counting, extracting, testing) opens the archive again exactly unless the reader stands at the first item. |
| NestedReaders.ReadAll | src/bitnestedarchivereader.cpp:126-238 | After any series of requests the open count is the number of maximal non-decreasing runs, which some forward-only service attains and none beats. |

## Left out

- SparseRuns.SparseRunMeans: no write reaches beyond the last 64-bit position, where the cursor of the code wraps around.
- MultiVolumeRuns.RoundTrip: needs volumes below 2^32 bytes, because of the 32-bit cut described above.
- MultiVolumeOut.MultiVolumeOutStream.constructor: the maximum volume size is below 2^63; above it, offsets within a volume need not fit the signed offset of a seek.
- MultiVolumeOut.MultiVolumeOutStream.WriteToVolume: the write of the file is complete and does not fail.
- MultiVolumeOut.MultiVolumeOutStream.SetSize: neither removing nor resizing a file fails.
- MultiVolumeOut.MultiVolumeOutStream.Write: writes of a file are complete and never fail, so a partial write or an I/O error after the seek is not modelled.
- MultiVolumeOut.MultiVolumeOutStream.TrimVolumes: removing a file always succeeds; the early return on a failed removal is not modelled.
- VolumesCaches.VolumesCache.SeekWhenElsewhere: seeking an open file always succeeds.
- VolumesCaches.VolumesCache.TrackReopen: seeking a file that was just opened always succeeds; the fallback to position 0 is not modelled.
- MultiVolumeIn.MultiVolumeInStream.Seek: needs a total below 2^64, which 64-bit sizes guarantee in the original.
- MultiVolumeIn.MultiVolumeInStream.ReadFromVolume: reading an open file neither fails nor stops short.
- MultiVolumeIn.MultiVolumeInStream.Read: reading an open file returns all that was asked for; file sizes do not change while the stream is open.
- Disks.Disk.Exists: a path that ends in a separator names a directory and is never taken for a volume.
- BufferQueues.BufferQueue.Pop: one pass through the locked region; blocking is the repetition of passes in `Pipeline`, for one producer and one consumer.
- Pipeline.EveryRunDrains: the extractor either goes on or fails after a refused empty chunk, as it likes; sums of sizes do not reach 2^64. `reset`, destruction while the producer sleeps and failures other than BitException are not part of this model.
- OutputArchives.BitOutputArchive.UpdateInputIndices: the ordered set of deleted indices is a set, and one step of its iterator is a membership test; item counts stay below 2^32.
- ArchiveEditors.Session: from construction to the first compression; a second `applyChanges` on one object, which appends to the same mapping, is not part of this model.
- ArchiveEditors.BitArchiveEditor.UpdateItem: the file, buffer and stream overloads are one method with an opaque data source.
- ArchiveEditors.BitArchiveEditor.AnswersArePlan: of the item properties only the path is answered.
- SafePaths.BasePathIs: a path has no root name; a leading double separator is treated as one.
- FileTimes.FileTimeRoundTrip: for a nanosecond clock; coarser clocks and the conversion to the file clock of the standard library only rescale.
- FileTimes.ToTimeTypeSaturates: where moving the epoch overflows, the original has no defined result and the model says nothing.
- NestedReaders.BitNestedArchiveReader.PassOver: where a pass ends is a parameter, because the 7-Zip side decides it; the cached item count is not modelled.
- Utf.DecodedIsScalar: wide characters are the unsigned 32-bit values the code converts them to.
- The 7-Zip interfaces, reference counting, library loading, real file I/O, permissions, symbolic links and `sysconf`: foreign code.
- The Windows branches, error categories, property and format tables, format detection, plain getters and setters, and the extractor and compressor wrappers: they would only add easy members.
