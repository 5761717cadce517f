# Models of the Nachos kernel, a checksum and a search tree

A Dafny 4.11 model of the hard parts of the Nachos operating-system code under
`courses/su/cis657/Assignment1/code`, of the Internet checksum in the remote-DNS laboratory, and of a
path-copying search tree, with proofs. `dafny verify dfyconfig.toml` checks everything.

## What is modelled

**The file system** (`Bytes`, `Bitmaps`, `SynchDisk`, `FileHeader`, `OpenFile`, `Directory`,
`PersistentBitmap`, `Volumes`, `DiskState`, `FileSystem`, `Handles`, `Transfer`). The disk is an array of 1024 sectors of
128 bytes, and everything on it is bytes: headers, the bitmap and the directory are encoded and decoded for real. The classes
follow the source's classes. What an operation does is stated on disk images (`DiskState`), where the bitmap and
the directory are what the bytes of their files decode to. On top of that the disk refines a map from names, cut
to nine characters, to byte strings, together with a count of free sectors; `Transfer` uses the file system to
copy files in and print them. `Handles` is about programs that hold several files open while others come and go:
a handle keeps the header it read at Open, and writes go through that copy. Formatting makes a disk that satisfies the invariant out of any disk
(`FileSystems.FileSystem.constructor`), so the theorems about such disks are not empty.

**The MIPS simulator** (`Multiply`, `MipsMemory`). The shift-and-add multiplication on 32-bit integers with
wrap-around, and LWL, LWR, SWL and SWR over address translation with the delayed load (the `SIM_FIX` build, on a
little-endian host). The loads and stores are given twice: with the source's masks and shifts, and byte by byte.

**Lists, the hash table, interrupts and scheduling** (`List`, `HashTable`, `Interrupt`, `Scheduler`). Linked nodes
on the heap; the sorted list and its stability; the hash table over heap lists, with a ghost map as its meaning;
the interrupt queue, the scheduler's ready list built on the sorted list. Interrupt handlers are an arbitrary
function from an interrupt to what its handler schedules.

**Synchronization** (`Synch`, `SynchList`). Transition systems. A step is one turn of the loop of P, one V, or one
statement on shared data; any thread that is not asleep may take the next step. The list and the queue of waiters,
which only the lock protects, are read in one step and written back in another, so that the results depend on the
lock. `Semaphore` is also a class whose methods are proved to make these steps.

**Disk timing** (`DiskLatency`), **the checksum** (`Checksum`) and **the search tree** (`Bst`).

Many contracts say that a method computes a function or takes a step of a model. What such a function means is then
said by lemmas that do not repeat its definition: `DivRoundUp` is the fewest pieces that hold, `GrantedIff` says when
an access is granted and to which frame, `ScheduledIsHandledOnTime` what a delay comes to over a run.

Where the source asserts something of its callers, the assertion is a precondition; where it asserts something of
itself, it is proved.

Two properties that might be expected do not hold of the code. The track buffer is meant to answer a read once the
sector has passed under the head, but `ComputeLatency` rounds the time of the request up to the next sector
boundary, so a read that comes while its sector passes for the first time is answered too.
`DiskLatency.HitBeforeItHasPassed` is such a request, `HitTooEarly` says exactly when it happens, and `HitIsRead`
shows that the sector has passed by the time the request completes.

And SWR at A followed by SWL at A+3 does not always store the register's value: LWL and LWR bypass a load that is
still pending, SWL and SWR do not, so after a load to the stored register SWR stores the old value and SWL the new
one. `MipsMemory.UnalignedRoundTrip` is an if and only if: storing and reloading brings back the register's value
exactly if A is aligned or the bytes that SWR stores are the same in both values. `PendingLoadIsTorn` is a state in
which it fails; `NothingPending` covers programs that leave a load its delay slot.

## Model

| member | source | states |
|---|---|---|
| Bitmaps.Bitmap.Mark | courses/su/cis657/Assignment1/code/lib/bitmap.cc:55-63 | the word array afterwards stands for the old bits with bit `which` set, and no other bit of any word has moved |
| Bitmaps.Bitmap.Clear | courses/su/cis657/Assignment1/code/lib/bitmap.cc:72-80 | the same for clearing a bit |
| Bitmaps.Bitmap.FindAndSet | courses/su/cis657/Assignment1/code/lib/bitmap.cc:110-120 | returns and marks the lowest clear bit, or returns -1 and changes nothing when every bit is set |
| Bitmaps.Bitmap.NumClear | courses/su/cis657/Assignment1/code/lib/bitmap.cc:128-139 | counts the clear bits |
| Bitmaps.CountClearIs | courses/su/cis657/Assignment1/code/lib/bitmap.cc:128-139 | the count used everywhere is the number of indices that are clear |
| Bitmaps.MasksDouble | courses/su/cis657/Assignment1/code/lib/bitmap.cc:55-63 | the masks are 1, 2, 4, ..., so bit 0 of a word is its lowest |
| Bitmaps.AllocatesMarks | courses/su/cis657/Assignment1/code/filesys/filehdr.cc:43-58 | sectors given out one after another are distinct, were all clear, are exactly the newly marked ones, and lower the clear count by their number |
| Bitmaps.AllocatesLowest | courses/su/cis657/Assignment1/code/lib/bitmap.cc:110-120 | they come in increasing order and lie below everything that stays clear |
| Bitmaps.DeallocateInvertsAllocate | courses/su/cis657/Assignment1/code/filesys/filehdr.cc:67-74 | clearing what was allocated gives back the old map exactly |
| Bitmaps.ClearAllCount | courses/su/cis657/Assignment1/code/filesys/filehdr.cc:67-74 | releasing distinct marked sectors raises the clear count by their number |
| FileHeaders.FileHeader.Allocate | courses/su/cis657/Assignment1/code/filesys/filehdr.cc:43-58 | succeeds exactly when the clear sectors together hold fileSize bytes; the data sectors are the fewest that do, none for an empty file; FindAndSet then never fails and gives each time the lowest clear sector; a refusal leaves the map as it was |
| Bytes.DivRoundUp | courses/su/cis657/Assignment1/code/lib/utility.h:25 | the one number r with (r - 1) * s < n <= r * s, 0 for n = 0 |
| FileHeaders.FileHeader.Deallocate | courses/su/cis657/Assignment1/code/filesys/filehdr.cc:67-74 | given that the file's sectors are marked, which FileSystems.DataIsMarked proves, clears them and no others, and its assertion holds at every turn |
| FileHeaders.FileHeader.FetchFrom | courses/su/cis657/Assignment1/code/filesys/filehdr.cc:83-87 | the header in memory is the one decoded from the sector |
| FileHeaders.FileHeader.WriteBack | courses/su/cis657/Assignment1/code/filesys/filehdr.cc:96-100 | the sector afterwards holds the encoded header and every other sector is unchanged |
| FileHeaders.HeaderRoundTrip | courses/su/cis657/Assignment1/code/filesys/filehdr.cc:83-100 | a header fits one sector, and decoding its encoding gives it back |
| FileHeaders.HeaderLayout | courses/su/cis657/Assignment1/code/filesys/filehdr.h:60-63 | in the sector the length in bytes comes first, then the number of sectors, then their numbers, 4 bytes each |
| Bytes.U32RoundTrip | courses/su/cis657/Assignment1/code/filesys/filehdr.cc:83-100 | an integer is stored with its least significant byte first, and reading gives it back |
| FileHeaders.FileHeader.ByteToSector | courses/su/cis657/Assignment1/code/filesys/filehdr.cc:112-116 | the data sector that holds the byte |
| FileHeaders.ContentsAt | courses/su/cis657/Assignment1/code/filesys/filehdr.cc:112-116 | byte k of a file is byte k % SectorSize of its data sector number k / SectorSize |
| FileHeaders.ContentsDependOnData | courses/su/cis657/Assignment1/code/filesys/filehdr.cc:112-116 | a file's bytes depend on its own data sectors only |
| OpenFiles.OpenFile.ReadAt | courses/su/cis657/Assignment1/code/filesys/openfile.cc:115-142 | for every alignment, the buffer gets exactly the file's bytes from `position` on, and nothing else changes; none if nothing is asked for or `position` is not in the file, else at least one, and fewer than asked for only if they reach the end of the file |
| OpenFiles.OpenFile.WriteAt | courses/su/cis657/Assignment1/code/filesys/openfile.cc:144-183 | for every alignment of start and end, the file's bytes become the old bytes with the transferred ones spliced in at `position`, as many as ReadAt would give; sectors that are not the file's data are unchanged |
| OpenFiles.OpenFile.Read | courses/su/cis657/Assignment1/code/filesys/openfile.cc:73-79 | reads at the seek position and moves it on by the number of bytes read |
| OpenFiles.OpenFile.Write | courses/su/cis657/Assignment1/code/filesys/openfile.cc:81-87 | writes at the seek position and moves it on by the number of bytes written |
| OpenFiles.ContentsInRun | courses/su/cis657/Assignment1/code/filesys/openfile.cc:128-141 | the bytes wanted are a slice of the run of whole sectors that is read |
| OpenFiles.WrittenContents | courses/su/cis657/Assignment1/code/filesys/openfile.cc:158-183 | reading the partial end sectors first, overlaying the data and writing whole sectors back is a byte-exact splice |
| Directories.StrnEqIsKeyEquality | courses/su/cis657/Assignment1/code/filesys/directory.cc:89-96 | comparing with strncmp over 9 characters decides equality of the names cut to 9 characters |
| Directories.StoredKey | courses/su/cis657/Assignment1/code/filesys/directory.cc:128-142 | what strncpy stores compares equal to exactly the names with the same first 9 characters |
| Directories.SameKeyIff | courses/su/cis657/Assignment1/code/filesys/directory.cc:89-142 | two names are the same to the directory exactly if they are equal, or both have 9 characters or more and the first 9 are equal |
| Directories.TableRoundTrip | courses/su/cis657/Assignment1/code/filesys/directory.cc:62-79 | decoding an encoded table gives it back |
| Directories.TableLayout | courses/su/cis657/Assignment1/code/filesys/directory.h:32-39 | entry i begins at byte 20 * i of the file: the flag, then at 4 the sector, then at 8 the ten bytes of the name |
| Directories.Directory.FetchFrom | courses/su/cis657/Assignment1/code/filesys/directory.cc:62-66 | the table in memory is the one decoded from the file's bytes |
| Directories.Directory.WriteBack | courses/su/cis657/Assignment1/code/filesys/directory.cc:75-79 | the file's bytes decode to the table in memory, and other files' sectors are unchanged |
| Directories.Directory.FindIndex | courses/su/cis657/Assignment1/code/filesys/directory.cc:89-96 | the first live entry with that name, or -1 exactly if there is none |
| Directories.Directory.Add | courses/su/cis657/Assignment1/code/filesys/directory.cc:128-142 | fails, changing nothing, exactly if a live entry has the name or all entries are live; else fills the first entry that is not |
| Directories.Directory.Remove | courses/su/cis657/Assignment1/code/filesys/directory.cc:152-161 | fails, changing nothing, exactly if the name is not there; else frees its first entry |
| PersistentBitmaps.FetchFrom | courses/su/cis657/Assignment1/code/filesys/pbitmap.cc:62-66 | the bits in memory are those decoded from the file |
| PersistentBitmaps.WriteBack | courses/su/cis657/Assignment1/code/filesys/pbitmap.cc:75-79 | the file decodes to the bits in memory, and other files' sectors are unchanged |
| Volumes.CreatePreserves | courses/su/cis657/Assignment1/code/filesys/filesys.cc:174-214 | after Create every sector still has one owner and one use, the marked sectors are exactly the owned ones, names are unique; the new sectors belonged to nobody |
| Volumes.RemovePreserves | courses/su/cis657/Assignment1/code/filesys/filesys.cc:256-286 | the same after Remove |
| Volumes.CreateThenRemove | courses/su/cis657/Assignment1/code/filesys/filesys.cc:174-286 | Create and then Remove of the name restores the marked set, the owners and every live entry |
| DiskStates.FormattedLayout | courses/su/cis657/Assignment1/code/filesys/filesys.cc:81-143 | formatting puts the bitmap file's data in sector 2 and the directory's in sectors 3 and 4 |
| DiskStates.FormattedIsOk | courses/su/cis657/Assignment1/code/filesys/filesys.cc:81-143 | a formatted disk satisfies the ownership invariant although the bitmap is stored in a file whose sectors that bitmap marks; it holds no files and all but five sectors are clear |
| DiskStates.CreateAddsOneFile | courses/su/cis657/Assignment1/code/filesys/filesys.cc:174-214 | Create adds one file of the given size under the name and leaves the bytes of every other file alone |
| DiskStates.RemoveTakesOneFile | courses/su/cis657/Assignment1/code/filesys/filesys.cc:256-286 | Remove takes that file away and leaves the bytes of every other file alone |
| DiskStates.WriteKeepsVolume | courses/su/cis657/Assignment1/code/filesys/openfile.cc:144-183 | a write through a live handle changes neither bitmap nor directory nor any header |
| DiskStates.WriteChangesOneFile | courses/su/cis657/Assignment1/code/filesys/openfile.cc:144-183 | it splices its bytes into the named file and changes no other file |
| DiskStates.HandleWriteIsStep | courses/su/cis657/Assignment1/code/filesys/openfile.cc:144-183 | what WriteAt guarantees, on a handle to a live file, is a Write step of the file system; that the handle is still one to a live file when it is used is Handles.SessionsAreSafe |
| DiskStates.StepRefines | courses/su/cis657/Assignment1/code/filesys/filesys.cc:174-286 | every Create, Remove or Write, failing ones included, keeps the ownership invariant and does to the map from names to byte strings, and to the number of free sectors, what the same operation does on a plain map; it fails exactly when the name exists or is missing, the table is full, or header and data do not fit |
| DiskStates.RunsAreSafe | courses/su/cis657/Assignment1/code/filesys/filesys.cc:81-286 | so does every run from a formatted disk, where a Write names its file; Handles.SessionsAreSafe is the same for writes through handles |
| DiskStates.CreateThenRemoveUndoes | courses/su/cis657/Assignment1/code/filesys/filesys.cc:174-286 | on the disk image: Create and Remove restore bitmap, owners, every live entry, every file and the free count |
| DiskStates.CreateFlushed | courses/su/cis657/Assignment1/code/filesys/filesys.cc:203-206 | writing the header, then the directory, then the bitmap, each through its own file, yields an image on which all three read back as written |
| DiskStates.RemoveFlushed | courses/su/cis657/Assignment1/code/filesys/filesys.cc:280-281 | the same for bitmap and directory in Remove |
| FileSystems.DataIsMarked | courses/su/cis657/Assignment1/code/filesys/filesys.cc:271-276 | the sectors that Remove is about to release are all marked, so Deallocate's assertion holds |
| FileSystems.FileSystem.constructor | courses/su/cis657/Assignment1/code/filesys/filesys.cc:81-143 | formatting yields a formatted disk with the two system files open on it; otherwise the disk is only read |
| FileSystems.FileSystem.Create | courses/su/cis657/Assignment1/code/filesys/filesys.cc:174-214 | all or nothing: succeeds exactly when the name is new, there are fewer than ten files, and the clear sectors but one hold the bytes; otherwise the disk image is bit for bit the old one; either way it is one step of the file system |
| DiskStates.CreateSucceedsIff | courses/su/cis657/Assignment1/code/filesys/filesys.cc:174-214 | Create's tests on table and bitmap amount to that condition on files and clear sectors |
| DiskStates.CreateTakesFewest | courses/su/cis657/Assignment1/code/filesys/filesys.cc:174-214 | a new file has its header in the lowest clear sector and its data in the next lowest, no more of them than its size needs and none for an empty file; those sectors and no others become marked |
| FileSystems.FileSystem.Open | courses/su/cis657/Assignment1/code/filesys/filesys.cc:226-240 | null exactly if no live entry has the name; else a handle with that file's header |
| FileSystems.FileSystem.Remove | courses/su/cis657/Assignment1/code/filesys/filesys.cc:256-286 | succeeds exactly when the name exists; otherwise the disk is unchanged; either way it is one step of the file system |
| DiskStates.CreateAllowed | courses/su/cis657/Assignment1/code/filesys/filesys.cc:174-214 | Create's tests on table and bitmap hold exactly when the name is new, there are fewer than ten files, and enough sectors are free for header and data |
| Handles.LiveContents | courses/su/cis657/Assignment1/code/filesys/openfile.cc:115-142 | what a handle to a live file reads is what the file system has under the name |
| Handles.HandleSurvives | courses/su/cis657/Assignment1/code/filesys/filesys.cc:174-286 | the header that a handle keeps stays that of the live file through every Create, every Remove of another name and every Write, of the same or another file |
| Handles.WriteStaysLive | courses/su/cis657/Assignment1/code/filesys/openfile.cc:144-183 | writing through a handle leaves it a handle to that live file and acts as a write on the map from names to bytes |
| Handles.ActionIsSafe | courses/su/cis657/Assignment1/code/filesys/filesys.cc:174-286 | creating, removing, opening, and writing through any handle opened earlier whose file is still there keep the ownership invariant and every such handle right, and act on the map from names to bytes as the same operation; a write goes to the file the handle was opened on |
| Handles.SessionsAreSafe | courses/su/cis657/Assignment1/code/filesys/filesys.cc:81-286 | so does every run from a formatted disk, with any number of files open at once, each handle keeping the header it read when it was opened; and each handle whose file has not been removed reads that file's bytes |
| Handles.Perform | courses/su/cis657/Assignment1/code/filesys/filesys.cc:174-286 | Create, Remove, Open and WriteAt on the real objects, with the headers cached in the OpenFile objects, are the actions of such a run |
| Transfers.Copy | courses/su/cis657/Assignment1/code/threads/main.cc:81-120 | the UNIX file's bytes become a file under the name, chunk by chunk, no other file changes, and the sectors it takes are no longer free; refused, with nothing changed, exactly when Create refuses |
| Transfers.Print | courses/su/cis657/Assignment1/code/threads/main.cc:129-149 | prints exactly the bytes stored under the name |
| Transfers.CopyThenPrint | courses/su/cis657/Assignment1/code/threads/main.cc:81-149 | what was copied in prints as it was |
| Multiply.Mult | courses/su/cis657/Assignment1/code/machine/mipssim.cc:771-828 | hi:lo is the exact 64-bit product for all 32-bit a and b, signed and unsigned, the most negative value included |
| Multiply.MultUnsigned | courses/su/cis657/Assignment1/code/machine/mipssim.cc:795-814 | the 32 rounds, with the arithmetic right shift of a and the early exit, accumulate the product without losing a carry |
| MipsMemory.Machine.Translate | courses/su/cis657/Assignment1/code/machine/translate.cc:184-251 | the fault the source gives, with tables unchanged, or the physical address with use and dirty bits set; a TLB is searched in order |
| MipsMemory.GrantedIff | courses/su/cis657/Assignment1/code/machine/translate.cc:184-251 | an access is granted exactly if the address is aligned and the entry for the page, the page's own in a table and the first valid match in a TLB, is valid, not both read-only and written, and has a frame that exists; it goes to that entry's frame at the same offset, and of all entries only that one's use bit, and dirty bit on a write, is set |
| MipsMemory.DeniedBecause | courses/su/cis657/Assignment1/code/machine/translate.cc:184-251 | which of the four exceptions a refused access gives, as an if and only if for each |
| MipsMemory.AccessWithinFrame | courses/su/cis657/Assignment1/code/machine/translate.cc:184-251 | a granted access keeps its offset and lies in one page frame inside main memory |
| MipsMemory.SameTranslation | courses/su/cis657/Assignment1/code/machine/translate.cc:184-251 | use and dirty bits do not influence translation, and translation changes nothing else |
| MipsMemory.WritableIsReadable | courses/su/cis657/Assignment1/code/machine/translate.cc:184-251 | what may be written may be read at the same place |
| MipsMemory.LwlMeaning | courses/su/cis657/Assignment1/code/machine/mipssim.cc:312-362 | the masks and shifts of LWL put memory bytes 0..b into the top bytes of the register |
| MipsMemory.LwrMeaning | courses/su/cis657/Assignment1/code/machine/mipssim.cc:364-418 | the masks and shifts of LWR put memory bytes b..3 into the bottom bytes |
| MipsMemory.SwlMeaning | courses/su/cis657/Assignment1/code/machine/mipssim.cc:552-609 | SWL stores the register's top bytes to memory bytes 0..b and keeps the rest of the word |
| MipsMemory.SwrMeaning | courses/su/cis657/Assignment1/code/machine/mipssim.cc:611-668 | SWR stores its bottom bytes to memory bytes b..3 and keeps the rest |
| MipsMemory.Machine.DelayedLoad | courses/su/cis657/Assignment1/code/machine/mipssim.cc:711-718 | commits the pending load, makes the new one pending, and register 0 stays zero |
| MipsMemory.CommitIs | courses/su/cis657/Assignment1/code/machine/mipssim.cc:711-718 | register by register: 0 stays 0, the one with the pending load gets its value, the others keep theirs |
| MipsMemory.Machine.ReadWord | courses/su/cis657/Assignment1/code/machine/translate.cc:85-120 | size 4: the little-endian word at the translated address, or the fault after the pending load is committed |
| MipsMemory.Machine.WriteWord | courses/su/cis657/Assignment1/code/machine/translate.cc:135-167 | size 4: exactly the four bytes at the translated address change, or the fault |
| MipsMemory.Machine.PartialLoad | courses/su/cis657/Assignment1/code/machine/mipssim.cc:312-418 | LWL and LWR, with the bypass of a load still pending to the register, agree with the byte-by-byte meaning |
| MipsMemory.Machine.PartialStore | courses/su/cis657/Assignment1/code/machine/mipssim.cc:552-668 | SWL and SWR agree with the byte-by-byte meaning |
| MipsMemory.LoadMeaning | courses/su/cis657/Assignment1/code/machine/mipssim.cc:312-418 | one LWL or LWR from any state: once it commits, the bytes it loads are those in memory, and the others are those that the register would have had without it |
| MipsMemory.StoreMeaning | courses/su/cis657/Assignment1/code/machine/mipssim.cc:552-668 | one SWL or SWR from any state: which byte of memory gets which byte of the register, as it was before a pending load commits, and that no other byte changes |
| MipsMemory.TrapIff | courses/su/cis657/Assignment1/code/machine/mipssim.cc:312-668 | an instruction traps exactly if its access is refused; then memory is unchanged and the pending load has committed |
| MipsMemory.Machine.OneInstruction | courses/su/cis657/Assignment1/code/machine/mipssim.cc:312-701 | the four cases at registers[rs] + extra, which wraps around, with the final delayed load and the three program counters, which stay put on a trap |
| MipsMemory.StoreWord | courses/su/cis657/Assignment1/code/machine/mipssim.cc:552-668 | SWR at A and SWL at A+3, from any state, change the four bytes at A..A+3 and no other; since neither bypasses a pending load, SWR stores the old register and SWL the one after the load commits, and the bytes left are those of that mixture (`WordStored`) |
| MipsMemory.LoadWord | courses/su/cis657/Assignment1/code/machine/mipssim.cc:312-418 | LWR at A and LWL at A+3, whatever load is pending, load the four bytes at A..A+3 once the last load commits, and change no other register beyond that pending load |
| MipsMemory.UnalignedReload | courses/su/cis657/Assignment1/code/machine/mipssim.cc:312-718 | for every state and every A whose bytes are mapped and writable, the four instructions complete and bring back the word that was stored; memory changes in A..A+3 only, and no register but the loaded one beyond the load pending at the start |
| MipsMemory.UnalignedRoundTrip | courses/su/cis657/Assignment1/code/machine/mipssim.cc:312-718 | they bring back the value of the stored register if and only if A is aligned, or the low bytes, those that SWR stores, are the same before and after the load pending at the start commits |
| MipsMemory.MixedIff | courses/su/cis657/Assignment1/code/machine/mipssim.cc:552-668 | what an unaligned store leaves when the register changes between SWR and SWL is the new value exactly under that condition |
| MipsMemory.NothingPending | courses/su/cis657/Assignment1/code/machine/mipssim.cc:552-718 | the condition holds whenever no load is pending to the stored register |
| MipsMemory.PendingLoadIsTorn | courses/su/cis657/Assignment1/code/machine/mipssim.cc:552-718 | a concrete state, with a load of 1 pending to the register stored at address 1, in which the four instructions complete and bring back something other than 1 |
| Lists.List.IsInList | courses/su/cis657/Assignment1/code/lib/list.cc:185-197 | true exactly if the item is in the list |
| Lists.List.Append | courses/su/cis657/Assignment1/code/lib/list.cc:73-89 | the list becomes the old one followed by the item; first, last, the links and numInList stay consistent |
| Lists.List.Prepend | courses/su/cis657/Assignment1/code/lib/list.cc:96-112 | the item comes first, the rest is unchanged |
| Lists.List.RemoveFront | courses/su/cis657/Assignment1/code/lib/list.cc:123-142 | returns the first item and leaves the rest |
| Lists.List.Remove | courses/su/cis657/Assignment1/code/lib/list.cc:149-178 | takes out the item's first node and leaves the others in order |
| Lists.List.SanityCheck | courses/su/cis657/Assignment1/code/lib/list.cc:270-289 | every test passes on every list these operations make |
| Lists.WithoutOnly | courses/su/cis657/Assignment1/code/lib/list.cc:149-178 | with one occurrence, removing it is cutting out that place and nothing else |
| Lists.SortedList.Insert | courses/su/cis657/Assignment1/code/lib/list.cc:232-260 | the linked list becomes the old one with the item before the first one it must precede |
| Lists.AfterAllNotGreater | courses/su/cis657/Assignment1/code/lib/list.cc:232-260 | in a sorted list that place is after exactly the items that are not greater |
| Lists.InsertedSorted | courses/su/cis657/Assignment1/code/lib/list.cc:232-260 | insertion keeps the list sorted and adds the one item |
| Lists.InsertedIsLastTie | courses/su/cis657/Assignment1/code/lib/list.cc:232-260 | insertion is stable: among items of equal rank the new one goes last, and other ranks see no change |
| Lists.RunKeepsSorted | courses/su/cis657/Assignment1/code/lib/list.cc:123-260 | over any run of Insert and RemoveFront the list stays sorted and no item is lost or made up |
| Lists.RunIsStable | courses/su/cis657/Assignment1/code/lib/list.cc:123-260 | over any run the items of each rank leave first in, first out |
| HashTables.AddedRepresents | courses/su/cis657/Assignment1/code/lib/hash.cc:108-124 | appending an item with a new key to the bucket of its key adds exactly its entry to the map the table stands for |
| HashTables.TakenRepresents | courses/su/cis657/Assignment1/code/lib/hash.cc:208-223 | removing a stored item from its bucket removes exactly its entry |
| HashTables.SoughtLooksUp | courses/su/cis657/Assignment1/code/lib/hash.cc:166-198 | searching the bucket of a key looks the key up in the map |
| HashTables.MoveOne | courses/su/cis657/Assignment1/code/lib/hash.cc:145-150 | one turn of the nested loop of ReHash moves the front item's entry from the old table to the new one; the lists of the two tables share nothing |
| HashTables.MoveAll | courses/su/cis657/Assignment1/code/lib/hash.cc:145-150 | the nested loop terminates with the whole map in the new table |
| HashTables.HashTable.constructor | courses/su/cis657/Assignment1/code/lib/hash.cc:28-52 | an empty map over four empty buckets |
| HashTables.HomeIs | courses/su/cis657/Assignment1/code/lib/hash.cc:88-94 | the bucket of a key is what is left of its hash after whole rounds of the buckets |
| HashTables.HashTable.ReHash | courses/su/cis657/Assignment1/code/lib/hash.cc:134-153 | four times as many buckets stand for the same map, each item in the bucket of its key; both sanity checks pass |
| HashTables.HashTable.SanityCheck | courses/su/cis657/Assignment1/code/lib/hash.cc:270-288 | every test passes in every state reached |
| HashTables.HashTable.FindInBucket | courses/su/cis657/Assignment1/code/lib/hash.cc:166-181 | the first item of the bucket with the key, if any |
| HashTables.HashTable.Find | courses/su/cis657/Assignment1/code/lib/hash.cc:191-198 | what the map holds under the key |
| HashTables.HashTable.Insert | courses/su/cis657/Assignment1/code/lib/hash.cc:108-124 | the map gets the one entry; the buckets become four times as many exactly if there were at least three items to a bucket, so numItems stays within three times numBuckets |
| HashTables.HashTable.Remove | courses/su/cis657/Assignment1/code/lib/hash.cc:208-223 | returns the entry's item and takes the entry out of the map |
| HashTables.Run | courses/su/cis657/Assignment1/code/lib/hash.cc:108-223 | any run of insertions, searches and removals answers as a plain map does |
| Interrupts.FireMakesProgress | courses/su/cis657/Assignment1/code/machine/interrupt.cc:315-320 | each turn of the loop leaves one interrupt fewer due, however much its handler schedules: the loop ends |
| Interrupts.ScheduleKeepsOk | courses/su/cis657/Assignment1/code/machine/interrupt.cc:257-267 | scheduling keeps the order: the log followed by the queue is everything ever scheduled, once each, by due time and then by time of scheduling |
| Interrupts.DrainKeepsOk | courses/su/cis657/Assignment1/code/machine/interrupt.cc:314-320 | the loop calls at least one handler, in that order, and leaves nothing due |
| Interrupts.CheckIfDueKeepsOk | courses/su/cis657/Assignment1/code/machine/interrupt.cc:281-323 | after CheckIfDue nothing is due; a handler was called unless there was none to call; none early |
| Interrupts.TickKeepsOk | courses/su/cis657/Assignment1/code/machine/interrupt.cc:147-177 | a tick adds 10 to total and system ticks in system mode, else 1 to total and user ticks; what falls due within it is handled at its end, and nothing else |
| Interrupts.IdleKeepsOk | courses/su/cis657/Assignment1/code/machine/interrupt.cc:208-228 | idling jumps to the next interrupt, the time jumped over counts as idle, and all that are due then are handled exactly on time |
| Interrupts.RunsAreOk | courses/su/cis657/Assignment1/code/machine/interrupt.cc:147-323 | in every state of every run, for any behaviour of the handlers: time is monotone and adds up, the log only grows, and an interrupt has been handled if and only if its time has come |
| Interrupts.ScheduledIsHandledOnTime | courses/su/cis657/Assignment1/code/machine/interrupt.cc:257-323 | over every run: an interrupt that a step schedules with a delay is there in every later state with its callback and kind, and it has been handled if and only if that many ticks have gone by since |
| Interrupts.RequestsAreAnswered | courses/su/cis657/Assignment1/code/machine/interrupt.cc:257-323 | over every run: all that handlers ask for is scheduled, each request once, for its delay from the time of the call, and nothing else but what the run schedules itself |
| Interrupts.CheckIfDueYields | courses/su/cis657/Assignment1/code/machine/interrupt.cc:281-323 | a context switch is asked for afterwards exactly if one was before or a handler that was called asks for it |
| Interrupts.Interrupt.Schedule | courses/su/cis657/Assignment1/code/machine/interrupt.cc:257-267 | one interrupt is added, due at totalTicks + fromNow, with the caller's callback and kind, and the queue has it in its place |
| Interrupts.Interrupt.CheckIfDue | courses/su/cis657/Assignment1/code/machine/interrupt.cc:281-323 | the same for the loop with its handlers, and the returned flag |
| Interrupts.Interrupt.OneTick | courses/su/cis657/Assignment1/code/machine/interrupt.cc:147-177 | the same; interrupts are on afterwards, the mode is restored, and a yield asked for by a handler is reported once |
| Interrupts.Interrupt.Idle | courses/su/cis657/Assignment1/code/machine/interrupt.cc:208-228 | the same; halts exactly if nothing was pending |
| Interrupts.Interrupt.SetLevel | courses/su/cis657/Assignment1/code/machine/interrupt.cc:123-136 | returns the old level; a tick passes exactly if interrupts go from off to on |
| Semaphores.Semaphore.PTurn | courses/su/cis657/Assignment1/code/threads/synch.cc:85-89 | one turn of the loop of P, between two points where another thread may run |
| Semaphores.Semaphore.V | courses/su/cis657/Assignment1/code/threads/synch.cc:103-118 | raises the value and makes the first sleeper ready |
| Semaphores.RunsAreOk | courses/su/cis657/Assignment1/code/threads/synch.cc:75-118 | in every interleaving the value is the initial value plus completed V's minus completed P's and never negative, the queue holds exactly the sleepers, and no wake-up is lost |
| Semaphores.FirstComeFirstServed | courses/su/cis657/Assignment1/code/threads/synch.cc:75-118 | in every run threads are woken in the order in which they fell asleep |
| SynchLists.AcquireTurn | courses/su/cis657/Assignment1/code/threads/synch.cc:182-186 | a turn of the lock's P keeps: one owner at most, value 0 exactly while there is one, queue of sleepers exact |
| SynchLists.HolderSteps | courses/su/cis657/Assignment1/code/threads/synch.cc:182-204 | setting and clearing lockHolder keeps it the owner's name |
| SynchLists.ReleaseV | courses/su/cis657/Assignment1/code/threads/synch.cc:199-204 | Release leaves no owner, and a sleeper, if any, is on its way in |
| SynchLists.StepKeepsLock | courses/su/cis657/Assignment1/code/threads/synch.cc:182-298 | every step of every thread keeps the lock's invariant |
| SynchLists.StepKeepsViews | courses/su/cis657/Assignment1/code/threads/synchlist.cc:51-81 | what a thread read under the lock still holds when it uses it, so appended = removed + list |
| SynchLists.StepKeepsWaiters | courses/su/cis657/Assignment1/code/threads/synch.cc:245-284 | a waiter's semaphore has the value 1 exactly when its signal has been given and not yet taken |
| SynchLists.StepKeepsProgress | courses/su/cis657/Assignment1/code/threads/synchlist.cc:51-81 | while anyone waits to be signalled there are no more items than threads on their way to one |
| SynchLists.SignalIsKept | courses/su/cis657/Assignment1/code/threads/synch.cc:245-284 | a signal given after the lock's release and before the waiter's P stays for that P through any one step of any thread |
| SynchLists.SignalIsNotLost | courses/su/cis657/Assignment1/code/threads/synch.cc:245-284 | in every run, from the step that gives a signal on, it is there in every state until the waiter's P, which then takes it without sleeping |
| SynchLists.RunsAreSafe | courses/su/cis657/Assignment1/code/threads/synch.cc:182-298 | in every state of every interleaving the invariants of the lock, of what was read under it, of the waiters and of progress hold together |
| SynchLists.SynchListIsFifo | courses/su/cis657/Assignment1/code/threads/synchlist.cc:51-81 | in every state of every interleaving: at most one thread owns the lock, its value is 0 exactly while one does, and a lockHolder that is not null is the owner; no assertion fails, the list is never removed from while empty; the removed items are a prefix of the appended ones with the list as the rest |
| SynchLists.SignalsAreFifo | courses/su/cis657/Assignment1/code/threads/synch.cc:245-284 | in every run the waiters of the condition are signalled in the order in which they came |
| Schedulers.YieldRunsTheHighest | courses/su/cis657/Assignment1/code/threads/process.cc:188-219 | after Yield the running process has at least the priority of every ready one, the processes are those there were, and there was a switch exactly if a ready one had at least the running one's priority |
| Schedulers.RunsWithin | courses/su/cis657/Assignment1/code/threads/process.cc:188-219 | a ready process of highest priority with j equals ahead of it runs after j + 1 yields |
| Schedulers.RoundRobin | courses/su/cis657/Assignment1/code/threads/process.cc:188-219 | with m ready equals of highest priority, m + 1 yields bring back the same state, each having run once |
| Schedulers.RunsKeepOrder | courses/su/cis657/Assignment1/code/threads/scheduler.cc:227-266 | whoever arrives or blocks, the ready list stays sorted without repetitions, and after each yield or block a highest one runs |
| Schedulers.PriorityScheduler.ReadyToRun | courses/su/cis657/Assignment1/code/threads/scheduler.cc:227-237 | the process goes behind its equals and is marked ready |
| Schedulers.PriorityScheduler.HighestPriorityInRQ | courses/su/cis657/Assignment1/code/threads/scheduler.cc:247-254 | the first process's priority, or -10 for an empty list |
| Schedulers.PriorityScheduler.FindNextToRun | courses/su/cis657/Assignment1/code/threads/scheduler.cc:256-266 | takes the first process off the list, or returns none |
| Schedulers.PriorityScheduler.Run | courses/su/cis657/Assignment1/code/threads/scheduler.cc:285-309 | the next process is current and running; a finishing one is kept for destruction |
| Schedulers.PriorityScheduler.Yield | courses/su/cis657/Assignment1/code/threads/process.cc:188-219 | the scheduler's state becomes the yielded one; the two processes' statuses are swapped exactly on a switch |
| DiskLatency.MissIsExact | courses/su/cis657/Assignment1/code/machine/disk.cc:229-250 | without the track buffer a request completes exactly when the sector has just passed the head, in the first slot after the seek in which it passes, and within a fixed bound |
| DiskLatency.HitIsExact | courses/su/cis657/Assignment1/code/machine/disk.cc:236-244 | the track buffer answers exactly reads of the current track whose sector has passed completely, since the buffer began to fill, by the end of the slot the request comes in |
| DiskLatency.HitIsRead | courses/su/cis657/Assignment1/code/machine/disk.cc:236-244 | a hit takes RotationTime, and so the sector has passed completely by the time the request completes |
| DiskLatency.HitBeforeItHasPassed | courses/su/cis657/Assignment1/code/machine/disk.cc:236-244 | but not always by the time of the request: a concrete request that is answered half way through the first pass |
| DiskLatency.HitTooEarly | courses/su/cis657/Assignment1/code/machine/disk.cc:236-244 | it has passed by the time of the request unless the request comes in the middle of the first slot in which the sector passes |
| DiskLatency.Disk.TimeToSeek | courses/su/cis657/Assignment1/code/machine/disk.cc:176-191 | the seek time and the time to the next sector boundary |
| DiskLatency.SeekAddsUp | courses/su/cis657/Assignment1/code/machine/disk.cc:176-191 | seek times add up along the way, are the same in both directions, SeekTime between neighbouring tracks and 0 on one track |
| DiskLatency.Disk.ComputeLatency | courses/su/cis657/Assignment1/code/machine/disk.cc:229-250 | the latency the lemmas above speak of |
| DiskLatency.Disk.UpdateLast | courses/su/cis657/Assignment1/code/machine/disk.cc:258-268 | the buffer restarts when the head arrives, exactly if it moves |
| DiskLatency.Disk.Request | courses/su/cis657/Assignment1/code/machine/disk.cc:113-151 | both, on the state before the request |
| DiskLatency.RunsSettle | courses/su/cis657/Assignment1/code/machine/disk.cc:113-268 | over every run of requests bufferInit is a multiple of RotationTime and not in the future when the next request comes |
| DiskLatency.BufferGoesBackToTheLastSeek | courses/su/cis657/Assignment1/code/machine/disk.cc:113-268 | over every run bufferInit is the first sector boundary after the last seek that moved the head; later requests on the same track have not restarted the buffer |
| Checksums.InCksum | courses/su/cse644/Lab6_RemoteDNS/code/packet_headers.h:58-78 | the complement of the 16-bit one's complement sum (section 1 of RFC 1071) for every buffer of up to 65535 bytes, odd lengths included; the 32-bit accumulator does not overflow |
| Checksums.OnesSumIs | courses/su/cse644/Lab6_RemoteDNS/code/packet_headers.h:58-78 | the one's complement sum is the plain sum modulo 65535, and 0 only for 0 |
| Checksums.OddIsPadded | courses/su/cse644/Lab6_RemoteDNS/code/packet_headers.h:58-78 | a zero byte after a buffer of odd length leaves the checksum alone |
| Checksums.ExampleOfTheRfc | courses/su/cse644/Lab6_RemoteDNS/code/packet_headers.h:58-78 | the eight bytes of the example in section 3 of RFC 1071 give the sum stated there |
| Checksums.ZeroIff | courses/su/cse644/Lab6_RemoteDNS/code/packet_headers.h:58-78 | the checksum is 0 exactly if the words add up to a positive multiple of 65535 |
| Checksums.StoredChecksumVerifies | courses/su/cse644/Lab6_RemoteDNS/code/packet_headers.h:58-78 | storing the checksum in a zeroed field at an even offset makes the recomputation 0 |
| Checksums.ChangedWordIsDetected | courses/su/cse644/Lab6_RemoteDNS/code/packet_headers.h:58-78 | changing one 16-bit word of a buffer that checks out is noticed, except for 0 against 65535 |
| Checksums.ByteOrderDoesNotMatter | courses/su/cse644/Lab6_RemoteDNS/code/packet_headers.h:58-78 | a host of the other byte order computes the same bytes (section 2(B) of RFC 1071) |
| SearchTrees.MemberIff | courses/umn/csci5106/hw5/hw53.c:193-208 | member finds a value exactly if an equal one is in the tree |
| SearchTrees.InsertKeepsOrder | courses/umn/csci5106/hw5/hw53.c:214-248 | insert keeps the search order and adds the value, and nothing else, at its place |
| SearchTrees.SamePointerIff | courses/umn/csci5106/hw5/hw53.c:214-248 | insert returns the very pointer it was given exactly if the value was a member; otherwise it makes one node more than the search visits |
| SearchTrees.RestIsShared | courses/umn/csci5106/hw5/hw53.c:214-248 | no existing node changes: the new tree is made of whole old subtrees and nodes of this call |
| SearchTrees.NamesAreLawful | courses/umn/csci5106/hw5/hw53.c:293-309 | lss_name and equal_name are a strict total order and its equality |
| SearchTrees.NamesInDictionaryOrder | courses/umn/csci5106/hw5/hw53.c:293-304 | lss_name is the dictionary order of the last names, and for equal last names that of the first names |

## Left out

- Directories.Directory.Add: the source writes the padding bytes of an entry as they happen to be in memory; here they are zero. Names contain no NUL before their end.
- FileSystems.FileSystem.Create: `initialSize` is between 0 and MaxFileSize, which the source does not check; the name is not a null pointer.
- OpenFiles.OpenFile.WriteAt: positions are not negative, and position plus numBytes fits an int; a handle is used only while its file is live.
- OpenFiles.OpenFile.ReadAt: the same preconditions.
- Transfers.Copy: the UNIX file is a sequence of at most MaxFileSize bytes that is read in full chunks; a read that returns less is not modelled.
- HashTables.MoveOne: inside ReHash the bucket array is passed as a sequence of list objects, since the array itself does not change; numBuckets does not wrap around at 2^31.
- HashTables.HashTable.constructor: the bucket array is made full of one list before each slot gets its own, instead of uninitialised.
- Lists.SortedList.Insert: SortedList holds a List instead of inheriting from it. Items are values, not objects, so pending interrupts carry a serial number and processes their pid as identity.
- Interrupts.Interrupt.OneTick: that a process must yield is returned to the caller; the context switch inside is not part of this model, nor is the machine's delayed load before a handler. Counters are unbounded integers.
- MipsMemory.Machine.ReadWord: sizes 1 and 2 of ReadMem and WriteMem, fetching and decoding, and all other opcodes are left out as easy or input and output.
- MipsMemory.Machine.WriteWord: the same; size 4 is the only one that the four instructions use.
- MipsMemory.Machine.OneInstruction: the kernel's exception handler after a trap is not part of this model; the register slots for the delayed load and the program counters are fields, and the TLB and the page table are one array with a flag.
- Schedulers.PriorityScheduler.Run: stops at the context switch; saving machine state and destroying finished processes are left out. Priorities do not change while a process is ready.
- DiskLatency.Disk.Request: the transfer of the sector is in SynchDisks, and Schedule, which the source calls last, is in Interrupts; here the latency is returned to the caller.
- DiskLatency.Disk.ComputeLatency: times are unbounded integers; the disk's geometry is that of machine/disk.h, not a parameter, and neither are SectorSize and NumSectors elsewhere.
- Handles.Perform: a handle to a removed file is never written, and positions fit an int; Close only frees memory.
- SynchLists.SynchListIsFifo: safety only. That a woken thread eventually runs is not stated: V readies the owner process while Sleep blocks a thread (`threads/synch.cc:112`, `threads/thread.cc:291`), so it depends on parts that do not fit together. Items are integers, and appending an item that is already in the list, against List::Append's assertion, is not excluded.
- SynchLists.StepKeepsWaiters: Lock, Condition and SynchList are steps on values, not classes, because a thread is suspended in the middle of their methods. Broadcast, which only repeats Signal, is left out.
- SearchTrees.SamePointerIff: nodes are values that carry their address, since no node is ever written after it is made; malloc does not fail.
- Checksums.InCksum: the buffer is a sequence of bytes, and a negative length, for which the source returns 65535, is left out.
- Methods that the source writes as one (Create, Remove, formatting, WriteAt, CheckIfDue, ReHash, Insert on a sorted list) are split into a few, one per loop or phase.
- Printing, listing, self tests, iterators, the console, the network, the timer, thread stacks and kernel start-up: input and output, or easy.
- Files larger than MaxFileSize and handles to removed files: outside what the code supports.
- Process creation, Join, Clone and destruction: incomplete in the source.
- The shifts SRL and SRLV, which shift a signed value in the source, and the remaining instructions.
- The other copies of the same code in the repository, the VPN, DLL loader, drawing and password programs: copies, or input and output.
