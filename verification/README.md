# FurOS kernel: a verified model

This project models the stateful core of the FurOS kernel and proves what it keeps.

* **File system** (`kernel/fs.c`). `Table` is the 128-slot node table as a value, `NodeTree` its paths and
  parent chains, `PathMap` the file system as its users see it (a map from component lists to directories and
  files), `Refinement` the proof that the table implements that map, `Listing` and `Runs` what all listings and
  all runs keep, `FileLaws` when each operation succeeds and what it leaves, in the numbers of the source, and
  `FileSystemModule` the class with the C functions' loops and in-place updates. Everything is proved for a table of
  any size `n >= 1`; the kernel's is 128 (`Image.FS_MAX_NODES`).
* **Persistence and installation** (`fs_serialize`, `fs_deserialize`, `kernel/disk.c`). `Image` is the byte format,
  `DiskLayout` what lies in which sector, `FormatLaws` both byte by byte, `Disk` the driver over a disk whose transfers may fail, `Sessions` whole
  runs of the machine in which file operations, saves, loads and installations alternate and may break off.
* **Boot** (`boot/bootsect.S`, `kernel/boot.S`). `Boot` reads the installed kernel back with 16-bit segment
  arithmetic; `PageTables` fills the tables and walks them as the processor does (Intel SDM Vol. 3A, section 4.5).
* **Terminal** (`kernel/vga.c`). `Terminal`: the viewport is a window on a log that never scrolls.
* **Kate** (`kernel/desktop.c`). `Lines` is line and column geometry, `Kate` the buffer edited in place.
* **Shell and strings** (`kernel/shell.c`, `kernel/kstring.c`). `Tokenizer`, `KString`.

C code that updates state in place is a class or a method over arrays; its contract equates the new state with a
function of the old one, and the lemmas prove what that function means. `Ata.faults` is a ghost count of transfers
that failed on an existing sector: contracts use it to say that an operation fails *only* if the disk did.

`dafny verify dfyconfig.toml` checks the project.

## What the code does not do

Four natural claims are false of the code. Each has its exact condition.

* `is_valid_name` accepts `.` and `..`. `mkdir ..` in the root makes a node whose printed path resolves to the root
  (`Runs.MkdirDotDot`). Print-then-resolve is the identity if and only if no name on the path is one of the two
  (`NodeTree.PrintThenResolve`), and a creation keeps them out if and only if the last name given is neither, or
  nothing is created (`Runs.CreateDotsExactly`). `fs_write_file` never creates them (`Runs.WriteKeepsNoDots`).
* Without a slash in the path the current directory is not checked, and its liveness is checked nowhere. In a fresh
  file system `mkdir a`, `rm a` and then `mkdir b` from the removed directory makes a node that is its own parent
  (`Runs.RemovedCurrentDirectory`). A creation keeps the tree if and only if nothing is created or the directory
  found is live (`Runs.CreateNeedsLiveParent`); `fs_write_file` keeps it if and only if that holds or the
  path already resolves (`Runs.WriteNeedsLiveParent`).
* `vga_set_viewport` promises a usable viewport, but leaves one exactly when the bottom row asked for is not
  negative (`Terminal.ViewportExactly`). No caller in the repository passes a negative one: the desktop passes rows 1
  and 22 (kernel/desktop.c:1422), `vga_reset_viewport` the whole screen.
* A character and a backspace restore the cursor except in a one-row viewport at the last column
  (`Terminal.PutThenBackspace`).

Two further observations: `fs_make_path` asks a non-root caller for one byte more than the text and its NUL take
(`FileSystemModule.FileSystem.MakePath`), and in `run_kate` key code 127 is always Backspace, because that test
comes first; Del is reached through F4 only (`Kate.Editor.HandleCode`).

## Model

| member | source | states |
|---|---|---|
| Paths.ComponentsJoin | kernel/fs.c:261-295 | Splitting at slashes loses and merges nothing: the components of `a/b` are those of `a` followed by those of `b`, empty pieces dropped |
| Paths.ComponentsOfRender | kernel/fs.c:474-495 | A printed path splits back into exactly its components, and is absolute |
| Paths.PathTextIsShortest | kernel/fs.c:474-495 | The printed text is the one shortest absolute text of its components: no doubled slash, none at the end |
| Table.NewNodeOk | kernel/fs.c:67-85 | A new node keeps the per-slot invariant: terminated name, size below 4096, NUL behind the data, mode within 0777 |
| Table.CreateBuffered | kernel/fs.c:298-358 | mkdir and touch keep that invariant in every slot, used or not |
| NodeTree.PathOf | kernel/fs.c:469-472 | A live node's path has as many components as the node's depth, each a valid name |
| NodeTree.PathOfInjective | kernel/fs.c:446-497 | Distinct live nodes have distinct paths |
| NodeTree.FindChildIsPath | kernel/fs.c:87-97 | Lookup of a name in a node finds exactly the live node whose path is one component longer |
| NodeTree.ResolveLive | kernel/fs.c:250-296 | Resolution from a live node fails or ends at a live node |
| NodeTree.LongTokenFails | kernel/fs.c:287-293 | Stopping at a component of more than 31 characters gives the failure its lookup would give |
| NodeTree.ScanIsResolve | kernel/fs.c:250-296 | The character-level resolver is a fold over the components of the text |
| NodeTree.ResolveComposes | kernel/fs.c:250-296 | For a non-empty `p`, `p/q` fails when `p` does, and resolves like a relative `q` from where `p` leads |
| NodeTree.LocateAgreesWithResolve | kernel/fs.c:99-157 | The two parsers agree: resolving the whole path is one step from the parent found, and for a leaf other than `.` and `..` it is `find_child(parent, leaf)` |
| NodeTree.LocateLiveDir | kernel/fs.c:99-157 | From a live current directory the parent found is a live directory |
| NodeTree.DepthBound | kernel/fs.c:469-472 | Pigeonhole: a path in a table of N slots has at most N-1 components |
| NodeTree.ChainReachesRoot | kernel/fs.c:469-472 | Following parents from a live node passes pairwise different live nodes and is at the root after exactly as many steps as the path has components |
| NodeTree.ChainEnds | kernel/fs.c:469-472 | Every parent chain reaches node 0 in at most N-1 steps, so the depth cap never cuts a path |
| NodeTree.PrintThenResolve | kernel/fs.c:446-497 | The printed path of a live node resolves to that node from any directory if and only if no name on it is `.` or `..` |
| NodeTree.PrintInjective | kernel/fs.c:446-497 | Distinct live nodes print differently, dots or not |
| FileLaws.ResolveMeans | kernel/fs.c:250-296 | The empty text and `.` lead to the current directory, `/` to the root, `..` to the parent, and the root's to itself; a leading slash starts at the root |
| FileLaws.NameMeans | kernel/fs.c:250-296 | A plain name leads to a live node of that name and parent, and fails exactly when there is none |
| FileLaws.TargetBehindSlash | kernel/fs.c:129-156 | `head/leaf` has a target exactly when `head` has at most 127 characters and leads to a directory and `leaf` has 1 to 31; the target is that directory and `leaf` |
| FileLaws.TargetOfName | kernel/fs.c:104-156 | `/leaf` goes into the root and a bare name into the current directory, each exactly for 1 to 31 characters |
| FileLaws.CreateExactly | kernel/fs.c:298-358 | mkdir and touch: an existing name succeeds for the same kind only and changes nothing; a new one takes the first free slot behind the root with the owner, the nine mode bits and size 0, and fails only when there is none; no other slot changes |
| FileLaws.NewNameSucceeds | kernel/fs.c:298-358 | A new name of 1 to 31 characters in an existing directory, reached by a text of at most 127, is made whenever a slot is free |
| FileLaws.WrittenIsRead | kernel/fs.c:388-424 | After a successful write a read at the same path gives all bytes written up to 4095, and the first 4095 of more |
| FileLaws.NullKeepsBytes | kernel/fs.c:414-422 | A write with a null pointer keeps the bytes of the slot it writes, a new file's first byte cleared, and sets the size |
| FileLaws.WriteExactly | kernel/fs.c:400-424 | When a write succeeds, in which slot, and with which rights: those of the existing file, or owner 0 and mode 0644 in the first free slot; no other slot changes |
| FileLaws.RemoveExactly | kernel/fs.c:426-444 | A removal succeeds exactly for a node other than the root that is no live node's parent; that slot is freed and no other changes |
| FileLaws.RightsExactly | kernel/fs.c:208-222 | Changing owner or mode returns 0 exactly for a live slot and changes that one field, the mode to its nine low bits |
| Refinement.Abs | kernel/fs.c:8-19 | The map a tree stands for: one entry per live slot under its path, and nothing else |
| Refinement.AbsSize | kernel/fs.c:67-85 | Allocation fails exactly when the map has as many entries as the table has slots |
| Refinement.ResolveRefines | kernel/fs.c:250-296 | `fs_resolve` is lookup in the map: same failures, and the node found holds the entry found |
| Refinement.LocateRefines | kernel/fs.c:99-157 | `resolve_parent_and_leaf` is placement in the map: same failures, same directory, same name |
| Refinement.CreateRefines | kernel/fs.c:298-358 | mkdir and touch perform exactly the map operation `Make`; on failure nothing changes; no node changes slot or path |
| Refinement.TouchThenResolve | kernel/fs.c:400-411 | After the touch in `fs_write_file` succeeds, the second resolution cannot fail and finds the slot just filled |
| Refinement.WriteRefines | kernel/fs.c:400-424 | `fs_write_file` performs exactly `Put`, with the data cut to 4095 bytes, or for a null pointer with what the slot held before the call; on failure nothing changes |
| Refinement.WriteThenRead | kernel/fs.c:388-424 | After a successful write the same path from the same directory resolves to a file with the bytes written |
| Refinement.RemoveThenRead | kernel/fs.c:388-444 | After a successful remove nothing can be read at that path |
| PathMap.PutThenGet | kernel/fs.c:388-424 | In the map, what a successful write puts is what a read gets, for every path text and directory |
| PathMap.DropThenGet | kernel/fs.c:388-444 | In the map, a successful remove leaves nothing to read at the path |
| Refinement.RemoveRefines | kernel/fs.c:426-444 | `fs_remove` performs exactly `Drop`: one file or empty directory goes, never the root; every other node stays |
| Refinement.HasChildIsNonEmpty | kernel/fs.c:434-441 | The slot scan finds a child exactly when the map has an entry below the path, and only directories have any |
| Refinement.SetFieldsRefine | kernel/fs.c:208-222 | Changing owner or mode changes that field of one entry and nothing else |
| Refinement.ReadRefines | kernel/fs.c:388-398 | `fs_read_file` is lookup of a file's content |
| Listing.ListingIsDirectory | kernel/fs.c:364-386 | A directory lists exactly the nodes one component below it, each once, in slot order |
| Listing.ListedOnce | kernel/fs.c:364-386 | Every live non-root node is listed by its parent and by no other slot |
| Listing.CountsSumToLive | kernel/fs.c:364-386 | The counts of all directories sum to the live nodes minus one, which is the size of the map minus one |
| Runs.InitIsTree | kernel/fs.c:159-167 | `fs_init` gives a tree that holds the root directory alone |
| Runs.ApplyKeepsTree | kernel/fs.c:208-444 | Every operation with a live current directory keeps the tree |
| Runs.RunKeepsTree | kernel/fs.c:208-444 | Every run whose calls are made from live directories keeps the tree; nothing is assumed of the tables in between |
| Runs.EveryRunIsATree | kernel/fs.c:159-444 | On every run from `fs_init` whose calls are made from live directories: live directory as parent, chain to node 0 in at most N-1 steps, distinct valid sibling names, and listings that sum to the live nodes minus one |
| Runs.CreateNeedsLiveParent | kernel/fs.c:120-127 | From any current slot, creation keeps the tree if and only if nothing is created or the directory found is live |
| Runs.WriteNeedsLiveParent | kernel/fs.c:400-411 | From any current slot, `fs_write_file` keeps the tree if and only if the path already resolves, or nothing is created or the directory found is live |
| Runs.RemovedCurrentDirectory | kernel/fs.c:120-127 | The counterexample: after `mkdir a` and `rm a`, `mkdir b` from the removed directory makes slot 1 its own parent, which is no tree |
| Runs.OrphanIsNoTree | kernel/fs.c:120-127 | A node under a slot that is not a live directory spoils the tree |
| Runs.CreateDotsExactly | kernel/fs.c:47-65 | mkdir and touch keep the tree free of `.` and `..` if and only if no target is found, its leaf is neither, or the table is full |
| Runs.WriteKeepsNoDots | kernel/fs.c:400-411 | `fs_write_file` never creates such a name |
| Runs.NoDotsRoundTrip | kernel/fs.c:446-497 | In a tree without such names every printed path resolves to its node, from anywhere |
| Runs.RunKeepsNoDots | kernel/fs.c:47-65 | Every run in which no mkdir or touch is given a last name `.` or `..` keeps the tree free of them |
| Runs.EveryRunPrints | kernel/fs.c:250-497 | On every such run from `fs_init` the printed path of every live node resolves to it, from any slot |
| Runs.MkdirDotDot | kernel/fs.c:47-65 | The counterexample: `mkdir ..` in a fresh root makes a node whose printed path does not resolve to it |
| FileSystemModule.FileSystem.constructor | kernel/fs.c:159-167 | A new file system is the table of `fs_init`, and a tree |
| FileSystemModule.FileSystem.Init | kernel/fs.c:159-167 | The loop leaves a table with the root directory alone, whatever was there |
| FileSystemModule.FileSystem.IsValidName | kernel/fs.c:47-65 | True exactly for 1 to 31 characters without a slash |
| FileSystemModule.FileSystem.FindChild | kernel/fs.c:87-97 | The first live slot with that parent and name, or -1 when there is none |
| FileSystemModule.FileSystem.FreeSlot | kernel/fs.c:67-85 | The first free slot after the root, or -1 when all are used |
| FileSystemModule.FileSystem.Resolve | kernel/fs.c:250-296 | The character loop with its token buffer computes the fold over components |
| FileSystemModule.FileSystem.ResolveParentAndLeaf | kernel/fs.c:99-157 | Parent and leaf around the last slash, with every failing case |
| FileSystemModule.FileSystem.MkdirAs | kernel/fs.c:298-324 | The table changes as `Create` says; seen through `Abs` this is `Make`, all or nothing; slot by slot it is `FileLaws.Created`, with every case of success and failure; the current directory stays live |
| FileSystemModule.FileSystem.TouchAs | kernel/fs.c:330-358 | Likewise for an empty file |
| FileSystemModule.FileSystem.WriteFile | kernel/fs.c:400-424 | The table changes as `Write` says; seen through `Abs` this is `Put`, all or nothing; slot by slot it is `FileLaws.WriteOutcome`; and the path then reads as the bytes given, cut to 4095 |
| FileSystemModule.FileSystem.ReadFile | kernel/fs.c:388-398 | Returns the content the map has for the path, or fails when it has no file there |
| FileSystemModule.FileSystem.Remove | kernel/fs.c:426-444 | Succeeds exactly for a non-root node without children, and frees that slot alone; seen through `Abs` this is `Drop`; the tree is kept |
| FileSystemModule.FileSystem.SetOwner | kernel/fs.c:208-214 | Changes the owner of a live node only, and keeps the tree |
| FileSystemModule.FileSystem.SetMode | kernel/fs.c:216-222 | Changes the mode of a live node only, masked to nine bits, and keeps the tree |
| FileSystemModule.FileSystem.List | kernel/fs.c:364-386 | Returns the count of all children and stores those that fit, in slot order; the rest of the output is untouched; -1 exactly for a slot that is not a live directory |
| FileSystemModule.FileSystem.Serialize | kernel/fs.c:499-531 | Writes exactly the version 2 image and nothing behind it, or nothing and returns 0 exactly when it does not fit |
| FileSystemModule.FileSystem.Deserialize | kernel/fs.c:533-621 | A rejected image changes nothing, an image without a root directory leaves a fresh file system, any other is decoded whole: never half-decoded |
| FileSystemModule.FileSystem.CollectChain | kernel/fs.c:466-472 | The stack holds exactly the nodes of the path, last one first, and the depth cap never stops it |
| FileSystemModule.FileSystem.PrintName | kernel/fs.c:476-492 | One round appends the name and a slash, or fails exactly when they and a NUL have no room |
| FileSystemModule.FileSystem.MakePath | kernel/fs.c:446-497 | Succeeds exactly for a live node and a buffer of the text plus two bytes (root: two bytes), writes the path and a NUL, and never past `out_size`; the text is the one shortest absolute text of the node's path |
| FileSystemModule.FileSystem.PrintAndResolve | kernel/desktop.c:1060-1061 | Byte level: the C string that `fs_make_path` leaves in the buffer resolves to the node, from any directory, if and only if no name on its path is `.` or `..` |
| Image.RecordRoundTrip | kernel/fs.c:27-36 | A packed version 2 record decodes to the slot it was made from, given the per-slot invariant |
| Image.RecordMigrates | kernel/fs.c:38-45 | A version 1 record decodes as the version 2 record with owner 0 and the default mode of its kind |
| Image.RecordAtOfImage | kernel/fs.c:569-607 | The bytes read at record `i`'s offset are the bytes written for slot `i`, in both versions |
| Image.SerializeRoundTrip | kernel/fs.c:499-621 | Deserializing a serialized file system gives back every slot, bytes behind the image ignored, except that root's owner and mode are reset |
| Image.ReloadedIsTree | kernel/fs.c:609-620 | The reloaded table is a tree with the same files; only root's owner and mode differ |
| Image.Version1Migrates | kernel/fs.c:550-606 | The version 1 image of any table decodes like the version 2 image of that table with owner 0 and default modes |
| Image.ImageRoundTrip | kernel/fs.c:499-621 | The image of a file system in either version decodes to that file system, root's owner and mode reset, a version 1 image with owner 0 and default modes |
| Image.MigratedIsTree | kernel/fs.c:572-586 | Migration from version 1 keeps the tree and every path, kind and content, and gives owner 0 and the default mode of each kind |
| Image.RestoredIsTree | kernel/fs.c:609-620 | What a saved tree loads as is a tree, whichever version it was saved in |
| Image.ImageSize | kernel/fs.c:499-504 | The image of 128 slots has exactly 16 + 128 * 4142 bytes |
| FormatLaws.ImageHeader | kernel/fs.c:21-25 | The image is 16 + 4142 (or 4138) bytes per slot; it begins with "FURFSv1", NUL, version and slot count, little-endian |
| FormatLaws.ImageRecord | kernel/fs.c:27-45 | Every field of slot `i` is at its packed offset in the record at 16 + 4142 * i, or 16 + 4138 * i without owner and mode |
| FormatLaws.SlotOfBytes | kernel/fs.c:564-606 | What is read from any record: sizes cut to 4095, modes to nine bits, the last name byte and the byte behind the data set to NUL, default rights in version 1 |
| FormatLaws.DecodeExactly | kernel/fs.c:533-562 | An image is rejected exactly when it is too short or its magic, version or slot count is wrong; otherwise it lacks a root exactly when byte 16 or 17 is zero |
| FormatLaws.AcceptedSlots | kernel/fs.c:564-620 | Slot `i` of an accepted image comes from record `i`, with slot 0 made the root |
| FormatLaws.RootFixed | kernel/fs.c:614-620 | Making slot 0 the root sets kind, parent 0, owner 0, mode 0755 and the name "/" and keeps the rest |
| FormatLaws.SumAdds | kernel/disk.c:48-55 | The checksum is the sum of the bytes modulo 2^32 |
| FormatLaws.StoredBytes | kernel/disk.c:20-25 | A complete save has "FURDSK1", NUL, version 1, size and checksum at the start of sector 2048 and payload byte `k` in sector 2049 + k / 512 |
| FormatLaws.LoadExactly | kernel/disk.c:195-243 | Which disk gives which outcome of a load, for every disk |
| FormatLaws.InstalledBytes | kernel/disk.c:27-34 | A complete installation has the boot sector in sector 0, "FURBOOT1", size, sector count and entry in sector 1, and kernel byte `k` in sector 2 + k / 512 |
| FormatLaws.RegionsExactly | kernel/disk.c:10-18 | Whether it succeeds or not, an installation changes no sector from 1922 on, and a save none outside 2048 to 6143 |
| DiskLayout.ChecksumNeverWraps | kernel/disk.c:48-55 | On every payload the driver accepts the 32-bit sum is the true sum |
| DiskLayout.SaveThenLoad | kernel/disk.c:195-288 | A disk with a complete save of either version loads as the file system saved, up to root's owner and mode, and for version 1 all owners and modes |
| DiskLayout.OneByteDetected | kernel/disk.c:217-239 | Changing any one payload byte of a save makes every load fail on the checksum |
| DiskLayout.LastInstallSurvives | kernel/disk.c:10-18 | Over any history of complete and broken-off installs and saves, the last complete installation stays complete while no later installation writes |
| DiskLayout.LastSaveSurvives | kernel/disk.c:10-18 | Likewise the last complete save, whatever installations do |
| Disk.ChecksumBytes | kernel/disk.c:48-55 | The loop with its 32-bit wrap-around computes the sum modulo 2^32 |
| Disk.DiskDriver.LoadFs | kernel/disk.c:195-243 | Success leaves exactly the table the disk holds; failure leaves the old table or, for an image without a root, a fresh one; with no faulty sector the outcome and the error are those of the disk's content |
| Disk.DiskDriver.FetchPayload | kernel/disk.c:195-233 | Delivers a payload only when header, size and checksum agree, and otherwise the error that says which did not |
| Disk.DiskDriver.ReadPayload | kernel/disk.c:219-228 | The ceil-division loop reads exactly the payload and never leaves the buffer for any accepted size; it fails only on a fault or past the end of the disk |
| Disk.DiskDriver.SaveFs | kernel/disk.c:245-288 | Writes no sector outside 2048..6143; success is a complete save of the table; fails only without a disk, with too large a table, on a fault or on too small a disk |
| Disk.DiskDriver.WritePayload | kernel/disk.c:276-283 | The sector loop puts exactly the payload behind the header |
| Disk.DiskDriver.FormatFs | kernel/disk.c:290-297 | Resets the table and saves the empty file system, inside the same sectors |
| Disk.DiskDriver.InstallSystem | kernel/disk.c:109-189 | Writes no sector outside 0..1921; success is a complete installation; the checks before the first write pass exactly for an installable kernel, a boot sector and a large enough disk; then it fails only on a fault or past the end of the disk |
| Disk.DiskDriver.WriteKernel | kernel/disk.c:166-182 | The sector loop stores the kernel, the last sector padded |
| Disk.LastSaveLoads | kernel/disk.c:195-297 | Over any history the last complete save loads as a tree with the same paths, contents, owners and modes, root's owner and mode excepted |
| Sessions.NextIsSound | kernel/disk.c:109-297 | Every action of the machine, complete or broken off, keeps memory a tree and keeps what the last complete save put on the disk; a load may be tried at any time, and of an image no known save made, that it decodes to a tree is assumed |
| Sessions.FinalLoad | kernel/disk.c:195-288 | A successful load gives, slot by slot, what a complete save left on the disk, however long before and whatever was done or installed in between, if no save wrote since |
| Sessions.EverySession | kernel/shell.c:1321-1324 | On every session from `fs_init`, on any disk, the load at boot included, the table is a tree with complete listings; a successful load at its end brings back, slot by slot, the table of the last save, of this session or of one before it in either version |
| Boot.InstalledBoots | boot/bootsect.S:41-81 | What the loader takes from an installed disk is exactly the kernel, and the jump goes to 1 MiB plus the entry offset |
| Boot.BootExactly | boot/bootsect.S:13-81 | Which disk gives which outcome of a boot, for every disk |
| Boot.LastInstallBoots | kernel/disk.c:139-182 | Over any history the last complete installation boots while no later one writes |
| Boot.SegmentIsExact | boot/bootsect.S:61-66 | The 16-bit segment addresses sector `cx` of the buffer if and only if `cx < 1920`, which is if and only if that sector ends at or below 0x100000: the limit is tight |
| Boot.LoopRegisters | boot/bootsect.S:56-81 | No register of the loop wraps for an accepted sector count |
| Boot.MemoryHolds | boot/bootsect.S:56-81 | After `n` rounds the buffer holds the first `n` kernel sectors in order and nothing outside it has changed |
| Boot.BootSector.ReadInfo | boot/bootsect.S:13-53 | Goes on exactly with the fields of an information sector that has the magic, a size and 1 to 1920 sectors |
| Boot.BootSector.LoadKernel | boot/bootsect.S:55-81 | Loads the kernel sectors in order; nothing below 0x10000 or from 0x100000 up is touched; fails only on a fault or past the end of the disk |
| Boot.BootSector.CopyUp | boot/bootsect.S:167-171 | The copy to 1 MiB reproduces the buffer although it may run past it, and leaves everything below and behind it |
| Boot.BootSector.Run | boot/bootsect.S:13-175 | Halts or jumps exactly as the content of the disk says, unless a sector is faulty, with any amount of memory; the boot sector never overwrites itself |
| Boot.BootSector.BootInstalled | boot/bootsect.S:13-175 | End to end: on an installed disk without faults memory from 0x100000 equals the kernel byte for byte and the jump goes to its entry symbol; memory behind the kernel and the boot sector itself are as before |
| PageTables.EntryFits | kernel/boot.S:101-107 | No entry computation of the inner loop loses a bit |
| PageTables.WalkMaps | kernel/boot.S:66-117 | The walk finds a writable 2 MiB page exactly under the first four directory pointers, and the right one |
| PageTables.IdentityMap | kernel/boot.S:66-117 | Every lower-half address below 2^32 translates to itself, present and writable; every other one is not present |
| PageTables.EntriesExactly | kernel/boot.S:66-117 | Every entry in numbers: five pointers with flags 3, 2048 pages of 2 MiB with flags 0x83, and zeros |
| PageTables.BootTables.Setup | kernel/boot.S:66-117 | The loops leave tables with exactly that translation, wherever the linker put them |
| Terminal.StepShows | kernel/vga.c:26-103 | One colour change, character or backspace keeps the viewport a window on the log with the same cursor and touches nothing outside |
| Terminal.ViewportIsWindow | kernel/vga.c:30-103 | After a clear, for any sequence of operations, the viewport rows are the last lines of a terminal that never scrolls, and cells outside never change |
| Terminal.PutThenBackspace | kernel/vga.c:69-103 | A character and a backspace restore the logical cursor, across wrap and scroll, if and only if the viewport has two rows or the column is not the last; the line is then as before with a blank at the cursor |
| Terminal.ColorIs | kernel/vga.c:18-20 | The attribute of two of the 16 colours has the foreground in the low four bits and the background in the high ones |
| Terminal.PutExactly | kernel/vga.c:69-87 | A character stores its byte with the attribute in the cell at the cursor, which goes one column on, or behind the last column as after a newline |
| Terminal.ColouredCell | kernel/vga.c:22-28 | A character printed in two of the 16 colours is to be seen at its place, one row higher if the put scrolled, with that byte, foreground and background |
| Terminal.NewlineExactly | kernel/vga.c:30-67 | A newline goes to the next row, or on the last one moves the viewport's lines up by one and blanks the last with spaces |
| Terminal.ReturnExactly | kernel/vga.c:75-78 | A carriage return goes to column 0 and does nothing else |
| Terminal.BackspaceExactly | kernel/vga.c:89-103 | A backspace stores a space in the cell before the cursor and goes there; in the viewport's first cell it does nothing |
| Terminal.ClearExactly | kernel/vga.c:46-57 | A clear stores spaces in the viewport's cells only and homes the cursor |
| Terminal.ViewportExactly | kernel/vga.c:175-183 | The rows set are those asked for, cut to the screen and the top to the bottom; only the cursor's row may move, to the nearest inside; the viewport is usable if and only if the bottom row asked for is not negative |
| Terminal.VgaTerminal.Scroll | kernel/vga.c:30-44 | The nested loops move the viewport's lines up by one and blank the last |
| Terminal.VgaTerminal.Clear | kernel/vga.c:46-57 | Blanks the viewport rows only and homes the cursor |
| Terminal.VgaTerminal.Newline | kernel/vga.c:59-67 | Next row, or a scroll at the bottom row |
| Terminal.VgaTerminal.PutChar | kernel/vga.c:69-87 | Newline, return, or a cell and the wrap at column 80 |
| Terminal.VgaTerminal.BackspaceKey | kernel/vga.c:89-103 | One place back, across the row above, blanked; nothing at the viewport's first cell |
| Terminal.VgaTerminal.SetColor | kernel/vga.c:18-28 | Changes the colour and nothing else |
| Terminal.VgaTerminal.SetViewport | kernel/vga.c:175-183 | Clamps rows and cursor; the result is usable exactly when the bottom row is not negative |
| Lines.LineAndColumnCount | kernel/desktop.c:843-855 | The line number counts the bytes 10 before a position, the column the bytes behind the last of them |
| Lines.PositionIsLinePlusColumn | kernel/desktop.c:843-870 | Every position is its line's start plus its column and not past the line's end |
| Lines.LinePlusColumnIsPosition | kernel/desktop.c:843-870 | Conversely every column of every line is a position with that line and column |
| Lines.NextLineStart | kernel/desktop.c:857-870 | A line starts one past the end of the line before; past the last line, at the end of the text |
| Lines.LinesMakeText | kernel/desktop.c:857-870 | The lines contain no newline and, joined by newlines, are the text |
| Kate.UpMoves | kernel/desktop.c:988-997 | Moving up lands on the line above at the smaller of the old column and that line's length |
| Kate.DownMoves | kernel/desktop.c:998-1008 | Moving down likewise, the empty line behind a final newline included |
| Kate.DownResult | kernel/desktop.c:998-1008 | The code's guard on the last byte recognises exactly the last line |
| Kate.UpThenDown | kernel/desktop.c:988-1008 | Up and Down return to the line, and to the place if and only if the line above is long enough |
| Kate.TypeThenBack | kernel/desktop.c:965-980 | Typing and erasing restores text and cursor if and only if there was room or nothing before the cursor |
| Kate.DelIsRightBack | kernel/desktop.c:981-987 | Del is Right followed by Backspace |
| Kate.HomeEnd | kernel/desktop.c:1009-1014 | Home and End go to column 0 and to the line break or the end of the text, on the same line |
| Kate.LeftRight | kernel/desktop.c:1088-1089 | Left and Right move by one and undo each other; at the ends of the text they do nothing |
| Kate.TypingInserts | kernel/desktop.c:965-972 | Typing any bytes that fit leaves them, in order, between what was before and what was behind the cursor, and the cursor behind them |
| Kate.CursorCodes | kernel/desktop.c:1086-1091 | Key codes 0x100 to 0x103, 0x201 and 0x203 move the cursor up, down, left, right, home and end, and change no text |
| Kate.EditCodes | kernel/desktop.c:1092-1095 | Codes 8 and 127 erase before the cursor, 0x204 at it, 10 and 13 insert a line break, 32 to 126 insert that byte, up to 4095 bytes; every other code leaves the text |
| Kate.PressAll | kernel/desktop.c:1085-1095 | After any keys the cursor is inside the text and the text below 4096 bytes |
| Kate.RowIsLine | kernel/desktop.c:912-917 | A row is the first 76 bytes of its line, padded with spaces |
| Kate.Editor.constructor | kernel/desktop.c:1056-1069 | Loads the first 4095 bytes of a file, cursor at its start |
| Kate.Editor.KateLineOf | kernel/desktop.c:843-847 | The counting loop gives the line number |
| Kate.Editor.KateColOf | kernel/desktop.c:849-855 | The counting loop gives the column |
| Kate.Editor.KateLnStart | kernel/desktop.c:857-864 | The start of a line, the end of the text past the last one |
| Kate.Editor.KateLnEnd | kernel/desktop.c:866-870 | The end of a line |
| Kate.Editor.ShiftRight | kernel/desktop.c:960-963 | The descending loop moves the tail up by one without losing a byte |
| Kate.Editor.Insert | kernel/desktop.c:965-972 | The byte goes between the two halves; nothing happens at capacity; modified exactly when the text changed |
| Kate.Editor.Backspace | kernel/desktop.c:973-980 | The overlapping move erases the byte before the cursor, both halves otherwise intact |
| Kate.Editor.DelKey | kernel/desktop.c:981-987 | Likewise the byte at the cursor |
| Kate.Editor.MoveUp | kernel/desktop.c:988-997 | Computes the place above |
| Kate.Editor.MoveDown | kernel/desktop.c:998-1008 | Computes the place below |
| Kate.Editor.HandleKey | kernel/desktop.c:1085-1095 | Every editing and movement key, once decoded, does what it does to the pair of text and cursor, and keeps the cursor inside |
| Kate.Editor.HandleCode | kernel/desktop.c:1080-1095 | Every key code has the effect of its key on text and cursor, or none; the order of the tests makes 127 Backspace |
| Kate.Editor.AdjustScroll | kernel/desktop.c:880-881 | Afterwards the cursor line is one of the 18 rows, with the least scrolling: it becomes the first row if it was above, the last if it was below |
| Kate.Editor.DrawRows | kernel/desktop.c:895-922 | The incremental scan gives every row the text recomputed from its line number, past the last line too |
| Kate.Editor.DrawRow | kernel/desktop.c:912-920 | One round: the first 76 bytes of the line padded with spaces, and the offset of the next line |
| Tokenizer.WordsOfJoin | kernel/shell.c:314-339 | Any words joined by single spaces split into those words |
| Tokenizer.Retokenize | kernel/shell.c:314-339 | Splitting, joining by single spaces and splitting again gives the same words |
| Tokenizer.SpansAreRuns | kernel/shell.c:314-339 | The places found are maximal runs of non-blank characters, in order and apart |
| Tokenizer.RunsAreSpans | kernel/shell.c:314-339 | Every maximal run of non-blank characters is found |
| Tokenizer.RunsExactly | kernel/shell.c:63-65 | The places found are exactly the maximal runs of bytes other than space and tab |
| Tokenizer.SpanTexts | kernel/shell.c:314-339 | The words of a line are the texts at those places |
| Tokenizer.ParsedWord | kernel/shell.c:325-335 | A word terminated in place reads back as that word of the original line |
| Tokenizer.ShellParse | kernel/shell.c:314-339 | `argv` gets pointers to exactly the first min(count, max_argv) maximal runs, in order, each NUL-terminated in place and reading back as its word; only blanks are overwritten and later `argv` slots are untouched |
| KString.KMemset | kernel/kstring.c:3-12 | Exactly the given range has the value |
| KString.KMemcpy | kernel/kstring.c:15-25 | Exactly the given range has the source's bytes |
| KString.KMemmoveDown | kernel/kstring.c:15-25 | The ascending loop moves bytes intact inside one buffer when it copies downwards, however much the ranges overlap |
| KString.KStrlen | kernel/kstring.c:27-39 | The length of the string |
| KString.KStrcmp | kernel/kstring.c:41-48 | Zero exactly for equal strings, otherwise the difference at the first place they differ |
| KString.KStrncmp | kernel/kstring.c:50-60 | Zero exactly when the strings agree in their first `n` characters, shorter strings included; otherwise the difference at the first place they differ |
| KString.KStrcpy | kernel/kstring.c:62-72 | The string and its NUL, and nothing else, are stored |

## Left out

- Null pointers: a null path behaves like an empty one and is modelled as such; a null output or name pointer is not modelled, a null `data` of `fs_write_file` is.
- Liveness of the shell's current directory: `cmd_rm` can remove it (kernel/shell.c:587-595). It is a precondition of the file operations; `Runs.CreateNeedsLiveParent` says what happens without it.
- `fs_check_access`, the getters and the fixed-argument wrappers `fs_mkdir` and `fs_touch`: they would only add easy members.
- The name and data buffers of a node are sequences inside an array of node values, so aliasing between a returned `data` pointer and a later write is not captured.
- FileSystemModule.FileSystem.Resolve: the token buffer is represented by its place in the path, not by a copy of its characters.
- Sessions.EverySession: of an image that no known save made, that its table is a tree is assumed when it loads, because `fs_deserialize` does not check parent links (kernel/fs.c:546-611).
- Disk.DiskDriver.SaveFs: says nothing of what a save that broke off leaves in the file system region; the header is written before the payload and the checksum is additive, so the code intends no more.
- Disk.DiskDriver.LoadFs: after a fault it does not say which sector failed, as the code does not.
- Several disks, disk selection, port I/O, DMA and `ata_flush`, whose result the code ignores: a disk is an array of sectors whose transfers may fail.
- Disk.DiskDriver.InstallSystem: the capacity that `disk_get_info` reports is a parameter, because the device answers it; kernel and boot sector are parameters, because the linker provides them.
- Boot.BootSector.Run: the copy asked for by the information sector must not run round the end of the 32-bit addresses; the variables of the boot sector are fields, not bytes of its own sector; BIOS details, A20, the GDT and the mode switches are not modelled.
- Boot.BootSector.LoadKernel: memory is plain RAM throughout. On a PC 0xA0000 to 0xFFFFF is video memory and ROM (kernel/vga.c:6 writes the screen at 0xB8000), and the code loads sector 1152 and later ones there; a kernel of at most 1152 sectors stays below.
- PageTables.BootTables.Setup: table addresses are word indices from the first table, and `orl` of flags is addition on a value whose low twelve bits are clear, which is checked.
- `vga_put_at`, `vga_write_str_at`, `vga_fill_rect` and `vga_set_cursor_pos`: direct writes and cursor placement outside the logical stream; the last one can place the cursor outside the viewport.
- Kate's drawing calls, gutter numbers and `u2s`, status line, saving and prompts: user interface. `u2s` never writes its last but one byte (kernel/desktop.c:188-194), so no claim about printed numbers is made.
- Keyboard, serial port, installer, simulated network and package commands: user interface and polling.
