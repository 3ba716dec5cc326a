/** The filesystem operations (`nitro_getattr`, `nitro_readdir`, `nitro_open`,
    `nitro_opendir`, `nitro_read`) and the attribute synthesis they share
    (`nitro_fill_stat`), each a pure function of the mounted volume and the
    request. */
module Handlers {
  import opened Results
  import opened Image
  import opened Tables
  import opened Entries
  import opened Builder
  import opened Mounting
  import opened Paths

  /** The error numbers the handlers return, negated, to the FUSE layer. */
  datatype Errno = ENOENT | EACCES | EISDIR | EINVAL | EROFS

  /** What `nitro_fill_stat` takes from the host: the caller's uid and gid
      and the image file's own access, modification and change times. */
  datatype Host = Host(uid: nat, gid: nat, atime: int, mtime: int, ctime: int)

  datatype Stat = Stat(
    dev: nat, ino: bv32, nlink: nat, uid: nat, gid: nat, rdev: nat,
    size: nat, blksize: nat, blocks: nat,
    atime: int, mtime: int, ctime: int,
    mode: bv32)

  /* ---------- attribute synthesis ---------- */

  const S_IFMT: bv32 := 0xF000
  const S_IFDIR: bv32 := 0x4000
  const S_IFREG: bv32 := 0x8000
  const S_IRUSR: bv32 := 0x100
  const S_IWUSR: bv32 := 0x80
  const S_IXUSR: bv32 := 0x40
  const S_IRGRP: bv32 := 0x20
  const S_IWGRP: bv32 := 0x10
  const S_IXGRP: bv32 := 0x8
  const S_IROTH: bv32 := 0x4
  const S_IWOTH: bv32 := 0x2
  const S_IXOTH: bv32 := 0x1

  const READ_BITS: bv32 := S_IRUSR | S_IRGRP | S_IROTH
  const WRITE_BITS: bv32 := S_IWUSR | S_IWGRP | S_IWOTH
  const EXEC_BITS: bv32 := S_IXUSR | S_IXGRP | S_IXOTH

  /** `dr-xr-xr-x` and `-r--r--r--`. */
  const DIR_MODE: bv32 := S_IRUSR | S_IXUSR | S_IRGRP | S_IXGRP | S_IROTH | S_IXOTH | S_IFDIR
  const FILE_MODE: bv32 := S_IRUSR | S_IRGRP | S_IROTH | S_IFREG

  /** The mode of an entry: its type, readable by all, searchable when a
      directory, writable by nobody. */
  function Mode(k: Kind): (m: bv32)
    ensures m & S_IFMT == (if k == Directory then S_IFDIR else S_IFREG)
    ensures m & READ_BITS == READ_BITS
    ensures m & WRITE_BITS == 0
    ensures m & EXEC_BITS == (if k == Directory then EXEC_BITS else 0)
    ensures m & !(S_IFMT | READ_BITS | WRITE_BITS | EXEC_BITS) == 0
  {
    if k == Directory then DIR_MODE else FILE_MODE
  }

  /** `((uint32_t)parent->id << 8) | id`: the low byte of the id, the high
      byte of the parent id, and between them the two bytes that overlap,
      ORed together. */
  function Inode(parentId: u16, id: u16): (ino: bv32)
    ensures ino >> 24 == 0
    ensures ino & 0xFF == (id as bv32) & 0xFF
    ensures ino >> 16 == (parentId as bv32) >> 8
    ensures (ino >> 8) & 0xFF == ((parentId as bv32) & 0xFF) | ((id as bv32) >> 8)
  {
    ((parentId as bv32) << 8) | (id as bv32)
  }

  /** Distinct entries can share an inode number: file 0x0101 of the root
      and file 0x0001 of directory 0xF001 both get 0xF00101. */
  lemma InodeCollision()
    ensures Inode(ROOT_ID, 0x0101) == Inode(0xF001, 0x0001) == 0xF00101
  {
  }

  const BLOCK_SIZE: nat := 4096

  /** `(st_size + st_blksize - 1) / st_blksize`: the fewest 4096-byte blocks that hold `size` bytes. */
  function Blocks(size: nat): (b: nat)
    ensures b * BLOCK_SIZE >= size
    ensures b > 0 ==> (b - 1) * BLOCK_SIZE < size
  {
    (size + BLOCK_SIZE - 1) / BLOCK_SIZE
  }

  /** `nitro_fill_stat`: the inode from the entry's and its parent's ids, its
      links and size, the mode of its kind, and the host's ids and times. */
  function FillStat(e: Entry, host: Host): (st: Stat)
    ensures st.ino == Inode(e.parentId, e.id) && st.ino & 0xFF == (e.id as bv32) & 0xFF
    ensures st.nlink == e.links && st.size == e.size
    ensures st.blksize == BLOCK_SIZE && st.blocks == Blocks(e.size)
    ensures st.blocks * st.blksize >= st.size && (st.blocks == 0 || (st.blocks - 1) * st.blksize < st.size)
    ensures st.mode == Mode(e.kind)
    ensures st.mode & WRITE_BITS == 0
    ensures st.mode & S_IFMT == S_IFDIR <==> e.kind == Directory
    ensures st.dev == 0 && st.rdev == 0
    ensures st.uid == host.uid && st.gid == host.gid
    ensures st.atime == host.atime && st.mtime == host.mtime && st.ctime == host.ctime
  {
    Stat(0, Inode(e.parentId, e.id), e.links, host.uid, host.gid, 0,
         e.size, BLOCK_SIZE, Blocks(e.size),
         host.atime, host.mtime, host.ctime,
         Mode(e.kind))
  }

  /* ---------- getattr ---------- */

  /** `nitro_getattr`: the attributes of the entry a path names, or `ENOENT`. */
  function GetAttr(v: Volume, path: seq<byte>, host: Host): (r: Result<Stat, Errno>)
    requires |path| > 0
    ensures r.Err? <==> Traverse(v.root, path).None?
    ensures r.Err? ==> r.error == ENOENT
    ensures r.Ok? ==> r.value == FillStat(Traverse(v.root, path).value, host)
  {
    match Traverse(v.root, path)
    case None => Err(ENOENT)
    case Some(e) => Ok(FillStat(e, host))
  }

  /* ---------- readdir ---------- */

  /** One call of the filler: a name, its attributes and the cursor that
      resumes the listing after it. */
  datatype DirItem = DirItem(name: seq<byte>, st: Stat, next: int)

  const DOT: seq<byte> := ['.' as byte]
  const DOTDOT: seq<byte> := ['.' as byte, '.' as byte]

  /** The item for child `c` filled at cursor `n`. */
  function ChildItem(c: Entry, n: int, host: Host): DirItem {
    DirItem(CName(c.name), FillStat(c, host), n + 1)
  }

  /** The items of children `kids`, the first at cursor 2. */
  function ChildItems(kids: seq<Entry>, host: Host): seq<DirItem> {
    seq(|kids|, n requires 0 <= n < |kids| => ChildItem(kids[n], n + 2, host))
  }

  /** The complete listing of directory `dir` whose parent is `parent`:
      `.`, `..`, then the children in order, item `n` resuming at `n + 1`. */
  function Listing(dir: Entry, parent: Entry, host: Host): seq<DirItem> {
    [DirItem(DOT, FillStat(dir, host), 1), DirItem(DOTDOT, FillStat(parent, host), 2)]
    + ChildItems(dir.children, host)
  }

  /** The part of a listing that starts at cursor `offset` and fits in `room` items. */
  function Window<T>(l: seq<T>, offset: int, room: nat): seq<T> {
    if 0 <= offset <= |l| then l[offset..if offset + room < |l| then offset + room else |l|] else []
  }

  /** `nitro_readdir` on directory `dir` whose parent entry is `parent`, with
      a buffer that accepts `room` more items: `.` when the cursor is 0, `..`
      when it is 1 (or has just become 1), then the child loop. The two
      entries are those of the handle `OpenDir` returns (`OpenDirParent`). */
  function Readdir(dir: Entry, parent: Entry, offset: int, room: nat, host: Host): seq<DirItem> {
    if offset == 0 then
      if room == 0 then []
      else [DirItem(DOT, FillStat(dir, host), 1)] + ReaddirDotDot(dir, parent, 1, room - 1, host)
    else ReaddirDotDot(dir, parent, offset, room, host)
  }

  function ReaddirDotDot(dir: Entry, parent: Entry, offset: int, room: nat, host: Host): seq<DirItem> {
    if offset == 1 then
      if room == 0 then []
      else [DirItem(DOTDOT, FillStat(parent, host), 2)] + ChildLoop(dir.children, 0, 2, room - 1, host)
    else ChildLoop(dir.children, 0, offset, room, host)
  }

  /** The child loop from child `i`, whose cursor is `i + 2`: a child is filled
      when its cursor equals `offset`, which then moves on with it; a full
      buffer ends the call. */
  function ChildLoop(kids: seq<Entry>, i: nat, offset: int, room: nat, host: Host): seq<DirItem>
    decreases |kids| - i
  {
    if i >= |kids| then []
    else if i + 2 == offset then
      if room == 0 then []
      else [ChildItem(kids[i], offset, host)] + ChildLoop(kids, i + 1, offset + 1, room - 1, host)
    else ChildLoop(kids, i + 1, offset, room, host)
  }

  /** Every item of the listing carries the cursor that follows it. */
  lemma ListingCursors(dir: Entry, parent: Entry, host: Host)
    ensures |Listing(dir, parent, host)| == |dir.children| + 2
    ensures forall n :: 0 <= n < |Listing(dir, parent, host)| ==> Listing(dir, parent, host)[n].next == n + 1
  {
  }

  /** A call returns the window of the listing at its cursor. */
  lemma ReaddirIsWindow(dir: Entry, parent: Entry, offset: int, room: nat, host: Host)
    ensures Readdir(dir, parent, offset, room, host) == Window(Listing(dir, parent, host), offset, room)
  {
    var l := Listing(dir, parent, host);
    if offset == 0 && room > 0 {
      WindowCons(l, 0, room);
      DotDotIsWindow(dir, parent, 1, room - 1, host);
    } else if offset != 0 {
      DotDotIsWindow(dir, parent, offset, room, host);
    } else {
      WindowPast(l, 0, 0);
    }
  }

  lemma DotDotIsWindow(dir: Entry, parent: Entry, offset: int, room: nat, host: Host)
    requires offset != 0
    ensures ReaddirDotDot(dir, parent, offset, room, host) == Window(Listing(dir, parent, host), offset, room)
  {
    if offset == 1 {
      DotDotAtOne(dir, parent, room, host);
    } else {
      DotDotPast(dir, parent, offset, room, host);
    }
  }

  /** At cursor 1 the `..` item comes first, then the children from position 2. */
  lemma DotDotAtOne(dir: Entry, parent: Entry, room: nat, host: Host)
    ensures ReaddirDotDot(dir, parent, 1, room, host) == Window(Listing(dir, parent, host), 1, room)
  {
    var pre := [DirItem(DOT, FillStat(dir, host), 1), DirItem(DOTDOT, FillStat(parent, host), 2)];
    var items := ChildItems(dir.children, host);
    assert Listing(dir, parent, host) == pre + items;
    if room > 0 {
      ChildLoopIsWindow(dir.children, 0, 2, room - 1, host);
      SecondThenRest(pre, items, room);
    } else {
      WindowPast(pre + items, 1, 0);
    }
  }

  /** Past cursor 1 only the child loop runs. */
  lemma DotDotPast(dir: Entry, parent: Entry, offset: int, room: nat, host: Host)
    requires offset != 0 && offset != 1
    ensures ReaddirDotDot(dir, parent, offset, room, host) == Window(Listing(dir, parent, host), offset, room)
  {
    var pre := [DirItem(DOT, FillStat(dir, host), 1), DirItem(DOTDOT, FillStat(parent, host), 2)];
    var items := ChildItems(dir.children, host);
    assert Listing(dir, parent, host) == pre + items;
    ChildLoopIsWindow(dir.children, 0, offset, room, host);
    if offset >= 2 {
      WindowShift(pre, items, offset, room);
    }
  }

  /** The window at cursor 1 of a listing with two leading items: the second
      item, then the window of the rest from its start. */
  lemma SecondThenRest<T>(pre: seq<T>, l: seq<T>, room: nat)
    requires |pre| == 2 && room > 0
    ensures Window(pre + l, 1, room) == [pre[1]] + Window(l, 0, room - 1)
  {
    WindowCons(pre + l, 1, room);
    WindowShift(pre, l, 2, room - 1);
  }

  /** The child loop from child `i` returns the window of the child items at
      `offset - 2`, or nothing when the cursor lies before child `i`. */
  lemma {:induction false} ChildLoopIsWindow(kids: seq<Entry>, i: nat, offset: int, room: nat, host: Host)
    ensures offset < i + 2 ==> ChildLoop(kids, i, offset, room, host) == []
    ensures offset >= i + 2 ==> ChildLoop(kids, i, offset, room, host) == Window(ChildItems(kids, host), offset - 2, room)
    decreases |kids| - i
  {
    var l := ChildItems(kids, host);
    assert |l| == |kids|;
    if i >= |kids| {
      if offset >= i + 2 {
        WindowPast(l, offset - 2, room);
      }
    } else if i + 2 == offset {
      if room > 0 {
        assert l[i] == ChildItem(kids[i], offset, host);
        WindowCons(l, i, room);
        ChildLoopIsWindow(kids, i + 1, offset + 1, room - 1, host);
      } else {
        WindowPast(l, offset - 2, room);
      }
    } else {
      ChildLoopIsWindow(kids, i + 1, offset, room, host);
    }
  }

  lemma WindowPast<T>(l: seq<T>, offset: int, room: nat)
    requires offset >= |l| || room == 0
    ensures Window(l, offset, room) == []
  {
  }

  lemma WindowShift<T>(pre: seq<T>, l: seq<T>, offset: int, room: nat)
    requires offset >= |pre|
    ensures Window(pre + l, offset, room) == Window(l, offset - |pre|, room)
  {
    if offset <= |pre + l| {
      var stop := if offset + room < |pre + l| then offset + room else |pre + l|;
      assert (pre + l)[offset..stop] == l[offset - |pre|..stop - |pre|];
    }
  }

  lemma WindowCons<T>(l: seq<T>, offset: nat, room: nat)
    requires offset < |l| && room > 0
    ensures Window(l, offset, room) == [l[offset]] + Window(l, offset + 1, room - 1)
  {
    var stop := if offset + room < |l| then offset + room else |l|;
    assert l[offset..stop] == [l[offset]] + l[offset + 1..stop];
  }

  /** Resuming at the cursor after the last item returned continues the
      listing exactly where it stopped, however the calls are chunked. */
  lemma WindowsConcatenate<T>(l: seq<T>, offset: int, room1: nat, room2: nat)
    requires 0 <= offset <= |l|
    ensures offset + |Window(l, offset, room1)| <= |l|
    ensures Window(l, offset, room1) + Window(l, offset + |Window(l, offset, room1)|, room2)
         == Window(l, offset, room1 + room2)
  {
  }

  /** The cursor a caller resumes from after receiving `items` at `offset`:
      the one the last item carries, or the same cursor when nothing came back. */
  function Resume(items: seq<DirItem>, offset: int): int {
    if items == [] then offset else items[|items| - 1].next
  }

  /** The items a caller collects by calling `call` once per buffer size in
      `rooms`, each call starting where the previous one left off. */
  function Drive(call: (int, nat) -> seq<DirItem>, offset: int, rooms: seq<nat>): seq<DirItem>
    decreases |rooms|
  {
    if rooms == [] then []
    else
      var items := call(offset, rooms[0]);
      items + Drive(call, Resume(items, offset), rooms[1..])
  }

  function Sum(rooms: seq<nat>): nat {
    if rooms == [] then 0 else rooms[0] + Sum(rooms[1..])
  }

  /** One call: the window at the cursor, and the cursor its last item
      hands back is the one just past the window. */
  lemma ReaddirResumes(dir: Entry, parent: Entry, offset: nat, room: nat, host: Host)
    requires offset <= |dir.children| + 2
    ensures var items := Readdir(dir, parent, offset, room, host);
            && items == Window(Listing(dir, parent, host), offset, room)
            && Resume(items, offset) == offset + |items|
  {
    var l := Listing(dir, parent, host);
    ListingCursors(dir, parent, host);
    ReaddirIsWindow(dir, parent, offset, room, host);
    var items := Readdir(dir, parent, offset, room, host);
    if items != [] {
      assert items[|items| - 1] == l[offset + |items| - 1];
    }
  }

  /** `call` returns, at every cursor inside `l`, the window of `l` there,
      and resumes just past it. */
  ghost predicate Windowed(call: (int, nat) -> seq<DirItem>, l: seq<DirItem>) {
    forall o: nat, r: nat :: o <= |l| ==> call(o, r) == Window(l, o, r) && Resume(call(o, r), o) == o + |call(o, r)|
  }

  /** Any windowed call, driven from a cursor inside `l`, yields `l` from
      there on, up to the total room. */
  lemma {:induction false} WindowsListAll(call: (int, nat) -> seq<DirItem>, l: seq<DirItem>, offset: nat, rooms: seq<nat>)
    requires offset <= |l| && Windowed(call, l)
    ensures Drive(call, offset, rooms) == Window(l, offset, Sum(rooms))
    decreases |rooms|
  {
    if rooms == [] {
      assert Sum(rooms) == 0;
      WindowPast(l, offset, 0);
    } else {
      var next := WindowsListStep(call, l, offset, rooms);
      WindowsListAll(call, l, next, rooms[1..]);
    }
  }

  /** One call of the drive: it returns the window at the cursor and hands on
      the cursor just past it; the rest of the drive then completes the window
      of the whole room. */
  lemma WindowsListStep(call: (int, nat) -> seq<DirItem>, l: seq<DirItem>, offset: nat, rooms: seq<nat>)
    returns (next: nat)
    requires offset <= |l| && Windowed(call, l) && rooms != []
    ensures next <= |l|
    ensures Drive(call, next, rooms[1..]) == Window(l, next, Sum(rooms[1..])) ==>
            Drive(call, offset, rooms) == Window(l, offset, Sum(rooms))
  {
    var items := call(offset, rooms[0]);
    var more := Sum(rooms[1..]);
    WindowedAt(call, l, offset, rooms[0]);
    WindowsConcatenate(l, offset, rooms[0], more);
    next := offset + |items|;
    if Drive(call, next, rooms[1..]) == Window(l, next, more) {
      DriveChunk(call, l, offset, rooms, items, next);
    }
  }

  /** A drive whose first call returned the window at its cursor, and whose
      remaining calls return the window after it, returns the whole window. */
  lemma DriveChunk(call: (int, nat) -> seq<DirItem>, l: seq<DirItem>, offset: nat, rooms: seq<nat>,
                   items: seq<DirItem>, next: nat)
    requires offset <= |l| && rooms != [] && items == call(offset, rooms[0])
    requires items == Window(l, offset, rooms[0]) && next == Resume(items, offset) && next == offset + |items|
    requires Drive(call, next, rooms[1..]) == Window(l, next, Sum(rooms[1..]))
    ensures Drive(call, offset, rooms) == Window(l, offset, Sum(rooms))
  {
    var more := Sum(rooms[1..]);
    DriveStep(call, offset, rooms, items, next);
    ChunkStep(l, offset, rooms[0], more, items, Drive(call, next, rooms[1..]), Drive(call, offset, rooms));
    assert Sum(rooms) == rooms[0] + more;
  }

  lemma WindowedAt(call: (int, nat) -> seq<DirItem>, l: seq<DirItem>, offset: nat, room: nat)
    requires offset <= |l| && Windowed(call, l)
    ensures call(offset, room) == Window(l, offset, room)
    ensures Resume(call(offset, room), offset) == offset + |call(offset, room)|
  {
  }

  /** Two consecutive windows make up the window of their combined room. */
  lemma ChunkStep<T>(l: seq<T>, offset: nat, room: nat, more: nat, items: seq<T>, rest: seq<T>, whole: seq<T>)
    requires offset <= |l| && items == Window(l, offset, room)
    requires rest == Window(l, offset + |items|, more) && whole == items + rest
    ensures whole == Window(l, offset, room + more)
  {
    WindowsConcatenate(l, offset, room, more);
  }

  lemma DriveStep(call: (int, nat) -> seq<DirItem>, offset: int, rooms: seq<nat>, items: seq<DirItem>, next: int)
    requires rooms != [] && items == call(offset, rooms[0]) && next == Resume(items, offset)
    ensures Drive(call, offset, rooms) == items + Drive(call, next, rooms[1..])
  {
  }

  /** `Readdir` on one directory, as a function of the cursor and the room. */
  function ReaddirOn(dir: Entry, parent: Entry, host: Host): (int, nat) -> seq<DirItem> {
    (o: int, r: nat) => Readdir(dir, parent, o, r, host)
  }

  /** Chunked `Readdir` calls starting from a cursor yield the listing from
      there on, `.`, `..` and the children in order, each once, up to the
      total buffer space the caller offered. */
  lemma DriveListsAll(dir: Entry, parent: Entry, offset: nat, rooms: seq<nat>, host: Host)
    requires offset <= |dir.children| + 2
    ensures Drive(ReaddirOn(dir, parent, host), offset, rooms) == Window(Listing(dir, parent, host), offset, Sum(rooms))
  {
    var l := Listing(dir, parent, host);
    var call := ReaddirOn(dir, parent, host);
    ListingCursors(dir, parent, host);
    forall o: nat, r: nat | o <= |l|
      ensures call(o, r) == Window(l, o, r) && Resume(call(o, r), o) == o + |call(o, r)|
    {
      ReaddirResumes(dir, parent, o, r, host);
    }
    WindowsListAll(call, l, offset, rooms);
  }

  /* ---------- open and opendir ---------- */

  const O_ACCMODE: bv32 := 3
  const O_WRONLY: bv32 := 1
  const O_RDWR: bv32 := 2
  const O_CREAT: bv32 := 0x40

  /** `nitro_open`: a path that names nothing fails with `EROFS` when creation
      was asked for and `ENOENT` otherwise; a write or read-write access mode
      fails with `EACCES`; anything else opens the entry, directories included. */
  function Open(v: Volume, path: seq<byte>, flags: bv32): (r: Result<Entry, Errno>)
    requires |path| > 0
  {
    match Traverse(v.root, path)
    case None => if flags & O_CREAT != 0 then Err(EROFS) else Err(ENOENT)
    case Some(e) =>
      if flags & O_ACCMODE == O_RDWR then Err(EACCES)
      else if flags & O_ACCMODE == O_WRONLY then Err(EACCES)
      else Ok(e)
  }

  /** Open agrees with getattr: it succeeds exactly for the paths getattr
      finds, unless the access mode writes, and then opens the entry whose
      attributes getattr reports; its failures come in the source's order. */
  lemma OpenAgreesWithGetAttr(v: Volume, path: seq<byte>, flags: bv32, host: Host)
    requires |path| > 0
    ensures Open(v, path, flags).Ok? <==>
              GetAttr(v, path, host).Ok? && flags & O_ACCMODE != O_WRONLY && flags & O_ACCMODE != O_RDWR
    ensures Open(v, path, flags).Ok? ==> FillStat(Open(v, path, flags).value, host) == GetAttr(v, path, host).value
    ensures GetAttr(v, path, host).Err? ==> Open(v, path, flags) == Err(if flags & O_CREAT != 0 then EROFS else ENOENT)
    ensures GetAttr(v, path, host).Ok? && Open(v, path, flags).Err? ==> Open(v, path, flags).error == EACCES
  {
  }

  /** A read-only open of a path that names something always succeeds, the
      odd access mode 3 included. */
  lemma OpenReadOnly(v: Volume, path: seq<byte>, flags: bv32)
    requires |path| > 0 && Traverse(v.root, path).Some?
    requires flags & O_ACCMODE == 0 || flags & O_ACCMODE == 3
    ensures Open(v, path, flags) == Ok(Traverse(v.root, path).value)
  {
  }

  /** `nitro_opendir`: `ENOENT` for a path that names nothing, `EISDIR` for a
      file (the source's choice of code), otherwise the handle: the directory,
      with the directory holding it that its `parent` pointer leads to. */
  function OpenDir(v: Volume, path: seq<byte>): (r: Result<Found, Errno>)
    requires |path| > 0
  {
    match Resolve(v.root, path)
    case None => Err(ENOENT)
    case Some(h) => if h.entry.kind != Directory then Err(EISDIR) else Ok(h)
  }

  /** In a mounted volume, the handle pairs the directory with the one its
      `..` stands for: the root with itself, any other directory with the
      directory whose children list holds it, whose id it records as parent. */
  lemma OpenDirParent(img: seq<byte>, maxDepth: nat, v: Volume, path: seq<byte>, h: Found)
    requires Mount(img, maxDepth) == Ok(v) && |path| > 0 && OpenDir(v, path) == Ok(h)
    ensures h.entry.kind == Directory && h.entry.parentId == h.parent.id
    ensures path == [SLASH] ==> h == Found(v.root, v.root)
    ensures path != [SLASH] ==> ChildOf(h.entry, h.parent) && (h.parent == v.root || Below(h.parent, v.root))
  {
    MountSound(img, maxDepth, v);
    DecodesLinked(img, v.header, v.root, ROOT_ID, maxDepth);
    assert v.root.parentId == ROOT_ID;
    ResolveLinked(v.root, path);
  }

  /** Opendir succeeds exactly for the paths whose attributes carry the
      directory type, and fails with `EISDIR` for those that carry another. */
  lemma OpenDirAgreesWithGetAttr(v: Volume, path: seq<byte>, host: Host)
    requires |path| > 0
    ensures OpenDir(v, path).Ok? <==> GetAttr(v, path, host).Ok? && GetAttr(v, path, host).value.mode & S_IFMT == S_IFDIR
    ensures OpenDir(v, path).Ok? ==> FillStat(OpenDir(v, path).value.entry, host) == GetAttr(v, path, host).value
    ensures OpenDir(v, path).Ok? ==> Traverse(v.root, path) == Some(OpenDir(v, path).value.entry)
    ensures GetAttr(v, path, host).Err? <==> OpenDir(v, path) == Err(ENOENT)
    ensures (GetAttr(v, path, host).Ok? && GetAttr(v, path, host).value.mode & S_IFMT != S_IFDIR)
              <==> OpenDir(v, path) == Err(EISDIR)
  {
  }

  /* ---------- read ---------- */

  const I64_MIN: int := -0x8000_0000_0000_0000
  const I64_MAX: int := 0x7FFF_FFFF_FFFF_FFFF
  const U64_MOD: nat := 0x1_0000_0000_0000_0000

  /** `offset + size` of an `off_t` and a `size_t`, computed as `size_t`, for
      a non-negative offset. */
  function SizeSum(offset: nat, len: nat): (s: nat)
    requires offset <= I64_MAX && len < U64_MOD
    ensures s < U64_MOD && (s == offset + len || s == offset + len - U64_MOD)
  {
    if offset + len >= U64_MOD then offset + len - U64_MOD else offset + len
  }

  /** The byte count `nitro_read` settles on: `EINVAL` for a negative offset,
      nothing at or past the end, and otherwise the request cut back to the
      end of the file when the `size_t` sum passes it. */
  function ReadCount(fileSize: u32, offset: int, len: nat): (r: Result<nat, Errno>)
    requires I64_MIN <= offset <= I64_MAX && len < U64_MOD
  {
    if offset < 0 then Err(EINVAL)
    else if offset >= fileSize then Ok(0)
    else if SizeSum(offset, len) > fileSize then Ok(fileSize - offset)
    else Ok(len)
  }

  /** Whenever `offset + len` fits in a `size_t`, the count is the request
      clamped to the bytes left in the file. */
  lemma ReadCountClamps(fileSize: u32, offset: int, len: nat)
    requires 0 <= offset <= I64_MAX && len < U64_MOD && offset + len < U64_MOD
    ensures ReadCount(fileSize, offset, len).Ok?
    ensures var n := ReadCount(fileSize, offset, len).value;
            n == if offset >= fileSize then 0 else if len < fileSize - offset then len else fileSize - offset
    ensures offset + ReadCount(fileSize, offset, len).value <= fileSize || offset >= fileSize
  {
  }

  /** A request inside the file so large that `offset + len` wraps past 2^64
      is not clamped: the count is the whole request, more than the bytes left. */
  lemma ReadCountWraps(fileSize: u32, offset: int, len: nat)
    requires 0 <= offset < fileSize && len < U64_MOD && offset + len >= U64_MOD
    ensures ReadCount(fileSize, offset, len) == Ok(len)
    ensures len > fileSize - offset
  {
  }

  /** A read either is refused with an error number, as the source does, or
      would copy bytes from outside the image, which the source does not check. */
  datatype ReadError = Refused(errno: Errno) | Fault(decode: DecodeError)

  /** The `memcpy` of `count` bytes at `at`: a copy of no bytes touches none. */
  function Copy(img: seq<byte>, at: nat, count: nat): (r: Result<seq<byte>, ReadError>)
    ensures r.Ok? ==> |r.value| == count
    ensures r.Ok? <==> count == 0 || at + count <= |img|
    ensures count > 0 && r.Ok? ==> r.value == img[at..at + count]
  {
    if count == 0 then Ok([])
    else match ReadBytes(img, at, count)
      case Err(d) => Err(Fault(d))
      case Ok(bytes) => Ok(bytes)
  }

  /** `nitro_read` as written: `EINVAL` for a negative offset, nothing at or
      past the end of the file; otherwise the file's FAT row is read again and
      `count` bytes are copied from the file's start, whatever the offset. */
  function ReadAsWritten(v: Volume, e: Entry, offset: int, len: nat): (r: Result<seq<byte>, ReadError>)
    requires I64_MIN <= offset <= I64_MAX && len < U64_MOD
  {
    match ReadCount(e.size, offset, len)
    case Err(errno) => Err(Refused(errno))
    case Ok(count) =>
      if offset >= e.size then Ok([])
      else match ReadFatRow(v.image, v.header.fatOffset, e.id)
        case Err(d) => Err(Fault(d))
        case Ok(fat) => Copy(v.image, fat.start, count)
  }

  /** Every read that starts inside the file returns the file's first bytes. */
  lemma ReadAsWrittenIgnoresOffset(v: Volume, e: Entry, offset: int, len: nat)
    requires 0 <= offset <= I64_MAX && len < U64_MOD
    requires ReadAsWritten(v, e, offset, len).Ok? && ReadAsWritten(v, e, offset, len).value != []
    ensures var fat := ReadFatRow(v.image, v.header.fatOffset, e.id).value;
            var n := |ReadAsWritten(v, e, offset, len).value|;
            ReadAsWritten(v, e, offset, len).value == v.image[fat.start..fat.start + n]
  {
  }

  /** The header of the sample volume: the FNT at 0x50, eleven bytes long,
      and the FAT at 0x5B, one row long. */
  const SAMPLE_HEADER: Header := Header(0x50, 11, 0x5B, 8)

  /** An image holding, in a root directory, one file "f" whose contents are
      "AB": the header at 0x40, the root's FNT row at 0x50 and its sub-table
      at 0x58, the FAT row of file 0 at 0x5B, and the file's bytes at 0x63. */
  function SampleImage(): seq<byte> {
    var zeros: seq<byte> := seq(FNT_OFFSET_FIELD, _ => 0);
    zeros + EncodeHeader(SAMPLE_HEADER) + EncodeFntRow(FntRow(8, 0, 1))
    + EncodeSubTable([FileRecord(['f' as byte])]) + EncodeFatRow(FatRow(0x63, 0x65))
    + ['A' as byte, 'B' as byte]
  }

  function SampleFile(): Entry {
    InitFile(ROOT_ID, ['f' as byte], FatRow(0x63, 0x65), 0)
  }

  function SampleVolume(): Volume {
    Volume(SampleImage(), SAMPLE_HEADER, Entry(Directory, ROOT_ID, ROOT_ID, [], 2, 2, [SampleFile()]))
  }

  /** The sample image's header, written at 0x40. */
  lemma SampleHeader()
    ensures DecodeHeader(SampleImage()) == Ok(SAMPLE_HEADER)
  {
    var img := SampleImage();
    var zeros: seq<byte> := seq(FNT_OFFSET_FIELD, _ => 0);
    var rest := EncodeFntRow(FntRow(8, 0, 1)) + EncodeSubTable([FileRecord(['f' as byte])])
              + EncodeFatRow(FatRow(0x63, 0x65)) + ['A' as byte, 'B' as byte];
    assert img == zeros + EncodeHeader(SAMPLE_HEADER) + rest;
    assert img[..FNT_OFFSET_FIELD] == zeros && img[HEADER_END..] == rest;
    DecodeHeaderInverse(img, SAMPLE_HEADER);
  }

  /** The root's FNT row, written at 0x50. */
  lemma SampleRootRow()
    ensures ReadFntRow(SampleImage(), SAMPLE_HEADER.fntOffset, ROOT_ID) == Ok(FntRow(8, 0, 1))
  {
    var img := SampleImage();
    var zeros: seq<byte> := seq(FNT_OFFSET_FIELD, _ => 0);
    var pre := zeros + EncodeHeader(SAMPLE_HEADER);
    var rest := EncodeSubTable([FileRecord(['f' as byte])]) + EncodeFatRow(FatRow(0x63, 0x65)) + ['A' as byte, 'B' as byte];
    assert img == pre + EncodeFntRow(FntRow(8, 0, 1)) + rest;
    ReadFntRowInverse(pre, FntRow(8, 0, 1), rest, SAMPLE_HEADER.fntOffset, ROOT_ID);
  }

  /** The root's sub-table, written at 0x58, holds the one file record. */
  lemma SampleSubTable()
    ensures ScanSubTable(SampleImage(), 0x58) == Ok([FileRecord(['f' as byte])])
  {
    var img := SampleImage();
    var zeros: seq<byte> := seq(FNT_OFFSET_FIELD, _ => 0);
    var pre := zeros + EncodeHeader(SAMPLE_HEADER) + EncodeFntRow(FntRow(8, 0, 1));
    var post := EncodeFatRow(FatRow(0x63, 0x65)) + ['A' as byte, 'B' as byte];
    assert img == pre + EncodeSubTable([FileRecord(['f' as byte])]) + post;
    ScanSubTableInverse(pre, [FileRecord(['f' as byte])], post);
  }

  /** The root's child loop over the sample sub-table builds the one file. */
  lemma SampleChildren()
    ensures BuildChildren(SampleImage(), SAMPLE_HEADER, ROOT_ID, [FileRecord(['f' as byte])], Fresh(0), 0)
         == Ok(Acc([SampleFile()], 2, 2, 1))
  {
    var img, hdr := SampleImage(), SAMPLE_HEADER;
    var recs := [FileRecord(['f' as byte])];
    var acc := Acc([SampleFile()], 2, 2, 1);
    SampleFatRow();
    assert BuildChild(img, hdr, ROOT_ID, recs[0], 0, 0) == Ok(SampleFile());
    assert Absorb(Fresh(0), recs[0], SampleFile()) == acc;
    assert recs[1..] == [];
    assert BuildChildren(img, hdr, ROOT_ID, recs[1..], acc, 0) == Ok(acc);
  }

  /** The sample image mounts, its root holding the one file. */
  lemma SampleMounts()
    ensures Mount(SampleImage(), 1) == Ok(SampleVolume())
  {
    var acc := Acc([SampleFile()], 2, 2, 1);
    SampleHeader();
    SampleRootRow();
    SampleSubTable();
    SampleChildren();
    BuildDirOk(SampleImage(), SAMPLE_HEADER, ROOT_ID, ROOT_ID, [], FntRow(8, 0, 1), 1, [FileRecord(['f' as byte])], acc);
  }

  /** The sample file's FAT row is the one written at 0x5B, and its bytes are "AB". */
  lemma SampleFatRow()
    ensures ReadFatRow(SampleImage(), SAMPLE_HEADER.fatOffset, 0) == Ok(FatRow(0x63, 0x65))
    ensures |SampleImage()| == 0x65 && SampleImage()[0x63..0x65] == ['A' as byte, 'B' as byte]
  {
    var img := SampleImage();
    var zeros: seq<byte> := seq(FNT_OFFSET_FIELD, _ => 0);
    var data: seq<byte> := ['A' as byte, 'B' as byte];
    var pre := zeros + EncodeHeader(SAMPLE_HEADER) + EncodeFntRow(FntRow(8, 0, 1)) + EncodeSubTable([FileRecord(['f' as byte])]);
    assert img == pre + EncodeFatRow(FatRow(0x63, 0x65)) + data;
    ReadFatRowInverse(pre, FatRow(0x63, 0x65), data, 0x5B, 0);
    assert img[0x63..0x65] == data;
  }

  /** On the sample volume, "/f" opens the sample file. */
  lemma SampleOpens()
    ensures Open(SampleVolume(), ['/' as byte, 'f' as byte], 0) == Ok(SampleFile())
  {
    var root := SampleVolume().root;
    assert Named(SampleFile(), ['f' as byte]);
    assert FirstNamed(root.children, ['f' as byte]) == Some(0);
    assert Traverse(root, ['/' as byte, 'f' as byte]) == Some(SampleFile());
  }

  /** On the sample volume, opening "/f" gives the file whose data is "AB";
      reading one byte at offset 1 returns "A" as written, and "B" once the
      offset is applied. */
  lemma ReadAsWrittenCounterexample()
    ensures Mount(SampleImage(), 1) == Ok(SampleVolume())
    ensures Open(SampleVolume(), ['/' as byte, 'f' as byte], 0) == Ok(SampleFile())
    ensures FileData(SampleVolume(), SampleFile()) == Ok(['A' as byte, 'B' as byte])
    ensures ReadAsWritten(SampleVolume(), SampleFile(), 1, 1) == Ok(['A' as byte])
    ensures Read(SampleVolume(), SampleFile(), 1, 1) == Ok(['B' as byte])
  {
    SampleMounts();
    SampleOpens();
    SampleReads(SampleVolume(), SampleFile());
  }

  /** The reads of the counterexample, on the sample volume's file. */
  lemma SampleReads(v: Volume, f: Entry)
    requires v == SampleVolume() && f == SampleFile()
    ensures FileData(v, f) == Ok(['A' as byte, 'B' as byte])
    ensures ReadAsWritten(v, f, 1, 1) == Ok(['A' as byte])
    ensures Read(v, f, 1, 1) == Ok(['B' as byte])
  {
    SampleFatRow();
    var img := v.image;
    assert f.id == 0 && f.size == 2;
    assert img[0x63..0x64] == ['A' as byte];
    assert img[0x64..0x65] == ['B' as byte];
  }

  /** The bytes of file `e`: `size` bytes from the start its FAT row gives. */
  function FileData(v: Volume, e: Entry): Result<seq<byte>, DecodeError> {
    var fat :- ReadFatRow(v.image, v.header.fatOffset, e.id);
    ReadBytes(v.image, fat.start, e.size)
  }

  /** The read the source evidently intends: the same steps, with the copy
      made from `start + offset`. */
  function Read(v: Volume, e: Entry, offset: int, len: nat): (r: Result<seq<byte>, ReadError>)
    requires I64_MIN <= offset <= I64_MAX && len < U64_MOD
    ensures r.Ok? ==> ReadCount(e.size, offset, len) == Ok(|r.value|)
    ensures ReadCount(e.size, offset, len).Err? <==> r == Err(Refused(EINVAL))
  {
    match ReadCount(e.size, offset, len)
    case Err(errno) => Err(Refused(errno))
    case Ok(count) =>
      if offset >= e.size then Ok([])
      else match ReadFatRow(v.image, v.header.fatOffset, e.id)
        case Err(d) => Err(Fault(d))
        case Ok(fat) => Copy(v.image, fat.start + offset, count)
  }

  /** A read that starts inside the file reads the file's FAT row, even for
      no bytes, and fails when that row lies outside the image; one at or past
      the end reads nothing and returns nothing. */
  lemma ReadsFatRow(v: Volume, e: Entry, offset: int, len: nat)
    requires 0 <= offset <= I64_MAX && len < U64_MOD
    ensures offset < e.size && ReadFatRow(v.image, v.header.fatOffset, e.id).Err? ==>
              && Read(v, e, offset, len) == Err(Fault(ReadFatRow(v.image, v.header.fatOffset, e.id).error))
              && ReadAsWritten(v, e, offset, len) == Read(v, e, offset, len)
    ensures offset >= e.size ==> Read(v, e, offset, len) == Ok([]) && ReadAsWritten(v, e, offset, len) == Ok([])
  {
  }

  /** Within a file whose bytes lie in the image, a read returns the slice of
      the file's data at the offset, clamped to the end of the file. */
  lemma ReadIsSlice(v: Volume, e: Entry, offset: int, len: nat)
    requires 0 <= offset <= I64_MAX && len < U64_MOD && offset + len < U64_MOD
    requires FileData(v, e).Ok?
    ensures Read(v, e, offset, len).Ok?
    ensures var data := FileData(v, e).value;
            var stop := if offset + len < |data| then offset + len else |data|;
            Read(v, e, offset, len).value == if offset >= |data| then [] else data[offset..stop]
  {
    var fat := ReadFatRow(v.image, v.header.fatOffset, e.id).value;
    var data := v.image[fat.start..fat.start + e.size];
    assert FileData(v, e) == Ok(data);
    ReadCountClamps(e.size, offset, len);
    var count := ReadCount(e.size, offset, len).value;
    if count == 0 {
      assert Read(v, e, offset, len) == Ok([]);
    } else {
      var bytes := v.image[fat.start + offset..fat.start + offset + count];
      assert Read(v, e, offset, len) == Ok(bytes);
      SliceOfSlice(v.image, fat.start, fat.start + e.size, offset, offset + count);
      assert offset + count == if offset + len < e.size then offset + len else e.size as int;
    }
  }

  lemma SliceOfSlice<T>(s: seq<T>, a: nat, b: nat, i: nat, j: nat)
    requires a <= b <= |s| && i <= j <= b - a
    ensures s[a..b][i..j] == s[a + i..a + j]
  {
    var outer := s[a..b];
    forall k | 0 <= k < j - i
      ensures outer[i..j][k] == s[a + i..a + j][k]
    {
      assert outer[i..j][k] == outer[i + k];
    }
  }

  /** Reading the whole file from offset 0 reproduces its data. */
  lemma ReadWhole(v: Volume, e: Entry, len: nat)
    requires e.size <= len < U64_MOD && FileData(v, e).Ok?
    ensures Read(v, e, 0, len) == Ok(FileData(v, e).value)
  {
    ReadIsSlice(v, e, 0, len);
    assert FileData(v, e).value[0..e.size] == FileData(v, e).value;
  }
}
