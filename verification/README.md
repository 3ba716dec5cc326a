# NitroFS in Dafny

A model of the core of `nitrofs`, a read-only FUSE filesystem that serves the
file tree inside a Nintendo DS cartridge image (the NitroFS container). The
C program maps the image, reads four header fields, walks the File Name
Table (FNT) and the File Allocation Table (FAT) to build a tree of entries,
and answers `getattr`, `readdir`, `open`, `opendir` and `read` from that tree.

The model takes the image as an immutable byte sequence and writes every
step as a pure function.

| file | module | what it holds |
|---|---|---|
| `results.dfy` | `Results` | `Result`, usable with `:-`, and `Option` |
| `image.dfy` | `Image` | bytes, `uint16_t`/`uint32_t` wrap-around, bounds-checked little-endian reads, the ROM header |
| `tables.dfy` | `Tables` | FNT main-table rows, FAT rows and FNT sub-table records, each decoder paired with an encoder |
| `entries.dfy` | `Entries` | the `Entry` tree (`nitrofs_entry_t`), file entries |
| `builder.dfy` | `Builder`, `Mounting` | `nitro_build_subdir`/`nitro_build_tree` as a fuel-bounded builder; the declarative tree description `DecodesWithin`; soundness, completeness, depth-bound stability and the shape of built trees |
| `paths.dfy` | `Paths` | `nitro_traverse_path`, both as a recursive function and as the C loop |
| `handlers.dfy` | `Handlers` | `nitro_fill_stat`, `getattr`, the `readdir` cursor protocol, `open`, `opendir`, `read` |

Each operation has a partner it is proved against:
- Every table decoder has an encoder: the bytes a decode consumes are the encoding of what it returned, and decoding an encoding gives the value back.
- The builder has `DecodesWithin`, an independent description of the tree the tables define. The builder produces exactly the trees the description admits.
- The path walk has the C loop, which is proved equal to it. A name path round trip holds for trees with distinct sibling names.
- `readdir` has the full listing. Every call returns a window of it, and any sequence of resumed calls concatenates to the listing.
- `open` and `opendir` are stated against `getattr`.
- `read` is stated against the file's FAT-addressed bytes.

The source reads the image with unchecked pointer arithmetic. Here every read
is bounds-checked and fails with `OutOfBounds(at, width)`. Directory recursion
in the source has no cycle check, so the builder takes a depth bound and fails
with `DepthExhausted` when it runs out.

## Model

| member | source | states |
|---|---|---|
| `Image.ReadBytes` | nitrofs.c:164 | the name copy succeeds exactly when the bytes lie in the image; it then returns those bytes, and otherwise `OutOfBounds` at that position and width |
| `Image.ReadU16Encodes` | nitrofs.c:178 | the two bytes a successful little-endian `uint16_t` read consumed are the encoding of the value read |
| `Image.ReadU16Inverse` | nitrofs.c:178 | a `uint16_t` written little-endian anywhere in an image reads back as itself |
| `Image.ReadU32Encodes` | nitrofs.c:634-637 | the four bytes a successful `uint32_t` read consumed are the encoding of the value read |
| `Image.ReadU32Inverse` | nitrofs.c:634-637 | a `uint32_t` written little-endian reads back as itself |
| `Image.Wrap32IsMod` | nitrofs.c:73-74 | assignment to a `uint32_t` field keeps the value modulo 2^32 |
| `Image.DecodeHeader` | nitrofs.c:634-637 | the four header fields decode exactly when the image reaches 0x50; a short image fails with `OutOfBounds` |
| `Image.DecodeHeaderEncodes` | nitrofs.c:12-22 | the header bytes 0x40..0x50 are the four fields in order, little-endian, at 0x40, 0x44, 0x48 and 0x4C |
| `Image.DecodeHeaderInverse` | nitrofs.c:634-637 | a header written at 0x40 into any image of at least 0x50 bytes decodes back to itself |
| `Tables.RowIndex` | nitrofs.c:25-28 | the row index is below 0x1000; it differs from the id by a multiple of 0x1000; ids below 0x1000 are their own index; the root id 0xF000 and the ids above it select row `id - 0xF000` |
| `Tables.ReadFntRow` | nitrofs.c:188-189 | the main-table row of directory `id` is read at `fnt_offset + 8 * (id & 0x0FFF)` and succeeds exactly when its 8 bytes lie in the image |
| `Tables.ReadFntRowEncodes` | nitrofs.c:83-88 | the 8 bytes of a row that was read are `{u32 offset, u16 next_id, u16 parent_id}` of that row |
| `Tables.ReadFntRowInverse` | nitrofs.c:83-88 | a row written at its directory's position decodes back to itself |
| `Tables.ReadFatRow` | nitrofs.c:204-205 | the FAT row of file `id` is read at `fat_offset + 8 * id` and succeeds exactly when its 8 bytes lie in the image |
| `Tables.ReadFatRowEncodes` | nitrofs.c:91-95 | the 8 bytes of a FAT row that was read are `{u32 start, u32 end}` of that row |
| `Tables.ReadFatRowInverse` | nitrofs.c:91-95 | a FAT row written at its file's position decodes back to itself |
| `Tables.NameLength` | nitrofs.c:156 | the name length is below 128: it is the control byte itself for a file, and the control byte less 0x80 when the directory bit is set |
| `Tables.NameLengthIsMask` | nitrofs.c:156 | the name length is the control byte's low seven bits |
| `Tables.ControlByte` | nitrofs.c:153-171 | an encodable record's control byte is non-zero, so it never reads as the terminator; it carries the name length and has the directory bit exactly for directory records |
| `Tables.DecodeRecord` | nitrofs.c:153-178 | a zero control byte ends the list. Any other record decodes to one whose bytes lie in the image, with its name length and kind taken from the control byte. Failures are `OutOfBounds` |
| `Tables.DecodeRecordEncodes` | nitrofs.c:153-178 | a decoded record occupies `len + 1` bytes for a file and `len + 3` for a directory, and those bytes are the record's encoding |
| `Tables.DecodeRecordInverse` | nitrofs.c:153-178 | an encoded record, anywhere in an image, decodes back to itself |
| `Tables.ScanSubTable` | nitrofs.c:153-219 | a successful scan returns encodable records, and those records and the terminator lie inside the image |
| `Tables.ScanSubTableEncodes` | nitrofs.c:153-219 | the bytes a successful scan consumes are exactly the encoding of the records it returns, in order, followed by the 0 terminator |
| `Tables.ScanSubTableInverse` | nitrofs.c:153-219 | an encoded sub-table, anywhere in an image, scans back to the same records in the same order |
| `Entries.FileSize` | nitrofs.c:131 | a file's size is `end - start` in `uint32_t`: the value that, added to `start` modulo 2^32, gives `end`, with no check that `end >= start` |
| `Builder.NextFileId` | nitrofs.c:213-214 | a file record advances the `uint16_t` file-id counter by one, modulo 2^16; a directory record leaves it alone |
| `Builder.StepwiseSizeWraps` | nitrofs.c:185-211 | adding each record's width to a `uint32_t` in turn ends at the exact total modulo 2^32 |
| `Builder.StepwiseLinksWraps` | nitrofs.c:184 | adding one link per directory record to a `uint32_t` in turn ends at the exact count modulo 2^32 |
| `Builder.BuildChildrenSound` | nitrofs.c:153-219 | a finished child loop appended exactly the children its records describe. It grew the size by the records' width and the links by their directory count |
| `Builder.BuildChildrenComplete` | nitrofs.c:153-219 | over records that describe a list of children, the loop succeeds and appends exactly those children, growing size and links by the records' width and directory count |
| `Builder.BuildDirSound` | nitrofs.c:145-222 | a directory the builder produces is the one the tables describe, with the id and name it was built for |
| `Builder.BuildDirComplete` | nitrofs.c:145-222 | a directory the tables describe is what the builder produces from its row |
| `Mounting.MountSound` | nitrofs.c:250-273 | a successful mount keeps the image and its decoded header. It holds the tree the tables describe, rooted at directory 0xF000, which is its own parent and has an empty name |
| `Mounting.MountComplete` | nitrofs.c:250-273 | whenever the tables describe a tree rooted at 0xF000 within the depth bound, the mount succeeds with that tree |
| `Mounting.DecodesWithinMono` | nitrofs.c:188-192 | a description that holds within some nesting depth holds within any larger one |
| `Mounting.MountStable` | nitrofs.c:188-192 | raising the depth bound never changes a successful mount, so the bound only cuts off cyclic or over-deep images |
| `Mounting.DecodesUnique` | nitrofs.c:145-222 | the tables describe at most one tree for a directory id, name and parent, whatever the depth bounds |
| `Mounting.DecodesLinked` | nitrofs.c:103-136 | in a described tree every entry records the id of the directory holding it as its parent, at every level |
| `Mounting.ChildrenInOrder` | nitrofs.c:149-218 | children appear in record order with their records' names and kinds. A sub-directory has the id that follows its name. Files are numbered consecutively from the row's `next_id`, modulo 2^16, and directories do not consume ids |
| `Mounting.DirectoryShape` | nitrofs.c:108-111 | a described directory's size is the sum over its children of `len + 3` per directory and `len + 1` per file, and its link count is 2 plus its sub-directories, both modulo 2^32 |
| `Paths.CName` | nitrofs.c:328 | the name compared is the prefix of the stored bytes before the first NUL, as `strlen` and `strcmp` see it |
| `Paths.FirstNamed` | nitrofs.c:325-334 | the index found names a child called `comp`, and no earlier child is called that; no index means no child is |
| `Paths.SlashAt` | nitrofs.c:321 | the position found holds the first `/`; there is none exactly when the text holds no `/` |
| `Paths.Walk` | nitrofs.c:320-347 | whatever the walk finds lies strictly below the directory it started from |
| `Paths.Locate` | nitrofs.c:320-347 | the entry the walk finds is a child of the directory it was found in; both lie below the directory the walk started from, or the second is that directory |
| `Paths.Resolve` | nitrofs.c:310-351 | the path `/` resolves to the root as its own parent; any other resolved path gives a child of its parent, and that parent is the root or lies below it |
| `Paths.LocateLinked` | nitrofs.c:320-347 | in a tree whose entries record their parents' ids, the entry the walk finds records the id of the directory it was found in |
| `Paths.ResolveLinked` | nitrofs.c:310-351 | in such a tree with the root as its own parent, a resolved path's entry records its parent's id, for `/` as for any other path |
| `Paths.Traverse` | nitrofs.c:310-351 | the path `/` resolves to the root; any resolved path names the root or an entry below it |
| `Paths.ScanChildren` | nitrofs.c:342-347 | the child loop, run over the children list, returns the first child whose C-string name equals the component |
| `Paths.TraversePath` | nitrofs.c:310-351 | the C loop, which jumps from slash to slash with an inner scan per component, returns what the recursive walk returns |
| `Paths.MissKeepsDirectory` | nitrofs.c:325-338 | an intermediate component that names no child leaves the walk in the same directory |
| `Paths.HitDescends` | nitrofs.c:325-338 | an intermediate component moves the walk into the first child it names |
| `Paths.LastComponent` | nitrofs.c:341-350 | the last component resolves exactly when some child bears its name, and the entry found bears it; the walk over a last component is exactly that lookup |
| `Paths.RoundTrip` | nitrofs.c:310-351 | in a tree whose siblings have distinct clean names, the `/`-joined names from the root to any entry resolve to that entry |
| `Handlers.Mode` | nitrofs.c:37-40 | the mode carries the entry's type and is readable by all; it is searchable by all exactly for directories and writable by none, with no other bit set |
| `Handlers.Inode` | nitrofs.c:286 | the inode is the id's low byte, the parent id's high byte, and between them the two overlapping bytes ORed; the top byte is 0 |
| `Handlers.InodeCollision` | nitrofs.c:286 | two distinct entries, file 0x0101 of the root and file 0x0001 of directory 0xF001, share inode 0xF00101 |
| `Handlers.Blocks` | nitrofs.c:292-293 | the block count is the fewest 4096-byte blocks that hold the size |
| `Handlers.FillStat` | nitrofs.c:281-301 | the stat carries the entry's inode, links and size, the mode of its kind, 4096-byte blocks and the fewest such blocks that cover the size. Its mode is never writable and is a directory mode exactly for directories. The device numbers are 0, and ids and times come from the host |
| `Handlers.GetAttr` | nitrofs.c:361-373 | getattr fails, always with `ENOENT`, exactly when the path does not resolve; otherwise it returns the stat of the entry the path names |
| `Handlers.ListingCursors` | nitrofs.c:400-426 | the listing has two items more than the directory has children, and item `n` hands back cursor `n + 1` |
| `Handlers.ReaddirIsWindow` | nitrofs.c:386-429 | a readdir call returns the part of the listing `.`, `..`, children that starts at its cursor and fits the filler's room; a cursor outside the listing gives nothing |
| `Handlers.DotDotIsWindow` | nitrofs.c:408-426 | from cursor 1 on, the `..` step and the child loop return the window of the listing at the cursor |
| `Handlers.ChildLoopIsWindow` | nitrofs.c:416-426 | the child loop emits children from the one whose position equals the cursor, while room lasts; it emits nothing when the cursor lies before the loop's start |
| `Handlers.WindowsConcatenate` | nitrofs.c:400-426 | resuming at the cursor after the last item returned continues exactly where the previous window stopped |
| `Handlers.ReaddirResumes` | nitrofs.c:401-426 | a call returns the window at its cursor, and its last item hands back the cursor just past the window |
| `Handlers.WindowsListAll` | nitrofs.c:401-426 | any call that returns windows and resumes past them, driven chunk by chunk from a cursor, yields the listing from that cursor up to the total room |
| `Handlers.DriveListsAll` | nitrofs.c:386-429 | readdir calls chained through their returned cursors yield `.`, `..` and the children in order, each once, up to the total buffer room |
| `Handlers.OpenAgreesWithGetAttr` | nitrofs.c:439-465 | open succeeds exactly on paths getattr resolves with a non-writing access mode, and opens the entry getattr describes. An unresolved path gives `EROFS` under `O_CREAT` and `ENOENT` otherwise. A resolved path fails only with `EACCES` |
| `Handlers.OpenReadOnly` | nitrofs.c:456-464 | a resolved path opened with access mode 0 or 3 opens its entry |
| `Handlers.OpenDirParent` | nitrofs.c:517-535 | on a mounted volume, opendir hands back a directory with the entry its parent pointer names: `/` gives the root as its own parent; any other path a child of its parent, which is the root or lies below it, and whose id the child records. These are the `.` and `..` entries of `Readdir` |
| `Handlers.OpenDirAgreesWithGetAttr` | nitrofs.c:517-535 | opendir succeeds exactly on paths whose stat has the directory type, and its handle holds the entry the path resolves to, the one getattr describes. It fails with `ENOENT` exactly when getattr does, and with `EISDIR` exactly for a resolved non-directory |
| `Handlers.SizeSum` | nitrofs.c:499 | `offset + size` is computed as `size_t`, so the sum wraps modulo 2^64 |
| `Handlers.ReadCountClamps` | nitrofs.c:487-500 | when `offset + size` fits in `size_t`, the count is 0 at or past the end of the file and otherwise the request clamped to the bytes left |
| `Handlers.ReadCountWraps` | nitrofs.c:499-500 | every request that starts inside the file and is so large that `offset + size` wraps past 2^64 is not clamped: the count is the whole request, more than the bytes left |
| `Handlers.ReadAsWrittenIgnoresOffset` | nitrofs.c:503 | every non-empty read as written returns the file's first bytes, whatever the offset |
| `Handlers.SampleMounts` | nitrofs.c:632-641 | a 0x65-byte image, with its header, one FNT row, a one-record sub-table, one FAT row and two data bytes, mounts to a root holding a single file "f" |
| `Handlers.ReadAsWrittenCounterexample` | nitrofs.c:486-506 | on that mounted image "/f" opens the file whose data is "AB"; reading one byte at offset 1 returns "A" as written, and "B" with the offset applied |
| `Handlers.SampleReads` | nitrofs.c:486-506 | on the sample volume's file, the FAT-addressed data is "AB"; one byte read at offset 1 is "A" as written and "B" with the offset applied |
| `Handlers.Copy` | nitrofs.c:503 | a copy of no bytes succeeds with nothing; any other copy succeeds exactly when the bytes lie in the image, and returns them |
| `Handlers.ReadsFatRow` | nitrofs.c:486-495 | a read at or past the end of the file returns nothing, as written and corrected; one that starts inside the file reads its FAT row, even for zero bytes, and fails with that read's error when the row lies outside the image |
| `Handlers.Read` | nitrofs.c:477-507 | a read fails with `EINVAL` exactly when the offset is negative, and a successful read returns as many bytes as the clamped count |
| `Handlers.ReadIsSlice` | nitrofs.c:477-507 | when the file's bytes lie in the image and `offset + size` fits in `size_t`, a read returns the file's bytes from the offset, clamped to the end of the file, and nothing at or past the end |
| `Handlers.ReadWhole` | nitrofs.c:477-507 | reading from offset 0 with room for the whole file reproduces its FAT-addressed bytes |

## Left out

- Image access: `open`, `fstat`, `mmap` and `munmap` in `main` are left out. The image is a byte sequence given to `Mount`, and the header is taken to be little-endian on a little-endian host, as the `memcpy` reads assume.
- FUSE plumbing: argument parsing (`nitro_process_arg`, `fuse_opt_parse`), `fuse_main` and the `nitro_ops` table are left out.
- Teardown: `nitro_destroy_tree` and `nitro_destroy` free memory, which has no counterpart in a value model.
- Allocation failure: `malloc` returning `NULL` during the build is not modelled. The builder fails only on an out-of-bounds read or an exhausted depth bound.
- Host values: `getuid`, `getgid` and the image file's times enter `FillStat` as the `Host` parameter.
- Open-file handles: `fi->fh` is not modelled as a pointer. `Open` returns the entry, and `Read` takes it. `OpenDir` returns the entry together with the directory it was found in (`Paths.Found`), which is what the entry's `parent` pointer gives `readdir`, and `Readdir` takes the two.
- The filler: the readdir filler callback is a room count, the number of items the buffer still accepts. `Readdir` returns the items filled, each with the cursor passed to the filler.
- Bounds checks the source lacks: every table and data read the C code performs unchecked is bounds-checked here. A read outside the image fails with `OutOfBounds` (`Fault` for `read`) where the C code reads past the mapping. A read of zero bytes inside the file reads the FAT row and copies nothing, so it touches no data byte.
- Build order: `Builder.BuildDir` scans a directory's sub-table to its terminator before building children, while the C loop interleaves the two. This changes only which failing read is reported on a malformed image, and the C code reports none.
- Depth bound: the depth bound is the only part of `Mount` without a counterpart in the source, which recurses without limit. A cyclic directory id makes the C build overflow its stack, and makes the model fail with `DepthExhausted`.
- Header lengths: `fnt_length` and `fat_length` are decoded but never used, as in the source.
- Handlers.ReadIsSlice: holds only when `offset + size` fits in `size_t`. The corrected `Read` fixes only the copy's start and keeps the source's `size_t` sum, so a request whose sum wraps past 2^64 keeps its unclamped count (`Handlers.ReadCountWraps`) and is not the clamped slice.
- Handlers.Read: the result is a byte sequence. The conversion of a `size_t` count above 2^31 - 1 to `nitro_read`'s `int` return value is not modelled.
- Paths.Traverse: requires a non-empty path. FUSE always passes an absolute path, and the source steps past the first character without checking it.
- Open flags: `O_ACCMODE`, `O_WRONLY`, `O_RDWR` and `O_CREAT` take their Linux values.
- Integer widths: `off_t` and `size_t` are taken to be 64 bits wide, as on a 64-bit Linux host. Offsets range over `I64_MIN..I64_MAX`, and `Handlers.SizeSum` wraps modulo 2^64.
- Path strings: a path is the bytes of the C string up to its terminating NUL, so it holds no NUL byte. Given a sequence with an embedded NUL, `Paths.Resolve` treats the bytes after the NUL as part of the component, where `strchr` and `strcmp` would stop at it.
- Error numbers: the errors are the symbolic `Errno` values `ENOENT`, `EACCES`, `EISDIR`, `EINVAL` and `EROFS`. The negated integers the handlers return are not modelled.

Behaviour of the code that the model keeps:
- An intermediate path component that names no child is skipped, and the walk goes on from the same directory (nitrofs.c:325-338).
- `opendir` on an entry that is not a directory returns `EISDIR` (nitrofs.c:529-530).
- A FAT row with `end < start` gives a file size of `end - start` modulo 2^32 (nitrofs.c:131).
- `read` copies from the file's start whatever the offset (nitrofs.c:503); see the finding below. The rest of the model uses the corrected `Read`.

## Findings

| source | as written | input that shows it | evidently intended | confidence | as-written member | corrected member |
|---|---|---|---|---|---|---|
| nitrofs.c:503 | `nitro_read` copies `size` bytes from `start_offset`, ignoring `offset` | a two-byte file "AB"; read 1 byte at offset 1 and get "A" | copy from `start_offset + offset`, so the read returns "B" | high; not executed | `Handlers.ReadAsWrittenCounterexample` and `Handlers.SampleReads` (the model `Handlers.ReadAsWritten`, with `Handlers.ReadAsWrittenIgnoresOffset`) | `Handlers.ReadIsSlice` (the corrected `Handlers.Read`, with `Handlers.ReadWhole`) |
