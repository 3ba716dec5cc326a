/** Tree construction (`nitro_build_tree`, `nitro_build_subdir`) and a
    declarative description of the tree the tables define (`DecodesWithin`),
    proved to agree with the builder in both directions.

    The C recursion has no bound: a directory id that leads back to one of its
    ancestors recurses until the stack overflows. The builder takes a depth
    bound `fuel` and fails with `DepthExhausted` when it runs out. */
module Builder {
  import opened Results
  import opened Image
  import opened Tables
  import opened Entries

  /** Loop state of `nitro_build_subdir`: the children linked so far, the
      directory's running `size` and `links`, and `next_id`. The C code keeps
      size and links in `uint32_t`, wrapping at every addition; the model keeps
      the exact sums and wraps once when the entry is made, and
      `StepwiseSizeWraps` and `StepwiseLinksWraps` show the two agree. */
  datatype Acc = Acc(children: seq<Entry>, size: nat, links: nat, nextId: u16)

  /** The state right after `nitro_init_dir`: no children, size 0, two links. */
  function Fresh(nextId: u16): Acc {
    Acc([], 0, 2, nextId)
  }

  /** The file id after record `rec`: only a file record consumes one, and the
      `uint16_t` counter wraps from 0xFFFF to 0. */
  function NextFileId(fileId: u16, rec: SubRecord): (r: u16)
    ensures rec.FileRecord? ==> r == Wrap16(fileId + 1)
    ensures rec.DirRecord? ==> r == fileId
  {
    if rec.DirRecord? then fileId
    else if fileId == 0xFFFF then 0
    else fileId + 1
  }

  /** One loop iteration's update: a directory child adds `len + 3` to the size
      and one link; a file child adds `len + 1` and consumes a file id. */
  function Absorb(acc: Acc, rec: SubRecord, child: Entry): Acc {
    match rec
    case FileRecord(name) =>
      Acc(acc.children + [child], acc.size + |name| + 1, acc.links, NextFileId(acc.nextId, rec))
    case DirRecord(name, _) =>
      Acc(acc.children + [child], acc.size + |name| + 3, acc.links + 1, acc.nextId)
  }

  /** Directory `id`, whose main-table row is `row`, with all of its children.
      The sub-table is scanned to its terminator first and the children are
      built from the records; the C loop interleaves the two, which changes
      only which failing read is reported, and the C code reports none. */
  function BuildDir(img: seq<byte>, hdr: Header, id: u16, parentId: u16, name: seq<byte>,
                    row: FntRow, fuel: nat): Result<Entry, DecodeError>
    decreases fuel, 0, 0
  {
    if fuel == 0 then Err(DepthExhausted)
    else
      var table :- ScanSubTable(img, hdr.fntOffset + row.subOffset);
      var acc :- BuildChildren(img, hdr, id, table, Fresh(row.nextId), fuel - 1);
      Ok(Entry(Directory, id, parentId, name, Wrap32(acc.size), Wrap32(acc.links), acc.children))
  }

  /** The `while(*p != 0)` loop over the records of directory `dirId`. */
  function BuildChildren(img: seq<byte>, hdr: Header, dirId: u16, recs: seq<SubRecord>, acc: Acc,
                         fuel: nat): Result<Acc, DecodeError>
    decreases fuel, 2, |recs|
  {
    if recs == [] then Ok(acc)
    else
      var child :- BuildChild(img, hdr, dirId, recs[0], acc.nextId, fuel);
      BuildChildren(img, hdr, dirId, recs[1..], Absorb(acc, recs[0], child), fuel)
  }

  /** The entry one record describes: a file with id `fileId` sized by its FAT
      row, or a directory built from the main-table row its id selects. */
  function BuildChild(img: seq<byte>, hdr: Header, dirId: u16, rec: SubRecord, fileId: u16,
                      fuel: nat): Result<Entry, DecodeError>
    decreases fuel, 1, 0
  {
    match rec
    case FileRecord(name) =>
      var fat :- ReadFatRow(img, hdr.fatOffset, fileId);
      Ok(InitFile(dirId, name, fat, fileId))
    case DirRecord(name, id) =>
      var row :- ReadFntRow(img, hdr.fntOffset, id);
      BuildDir(img, hdr, id, dirId, name, row, fuel)
  }

  /** The mounted filesystem: the image, its header and the tree, built once. */
  datatype Volume = Volume(image: seq<byte>, header: Header, root: Entry)

  /** `main`'s header reads followed by `nitro_build_tree`: the root is directory
      0xF000, its own parent, and its row is the first row of the FNT. */
  function Mount(img: seq<byte>, maxDepth: nat): Result<Volume, DecodeError> {
    var hdr :- DecodeHeader(img);
    var row :- ReadFntRow(img, hdr.fntOffset, ROOT_ID);
    var root :- BuildDir(img, hdr, ROOT_ID, ROOT_ID, [], row, maxDepth);
    Ok(Volume(img, hdr, root))
  }

  /* ---------- the tree the tables describe ---------- */

  /** `e` is directory `e.id` as the tables describe it, nested at most `depth`
      levels deep: its children correspond one to one, in order, to the records
      of its sub-table; its size is the sub-table's length without the
      terminator and its link count two plus its sub-directories, both modulo
      2^32. */
  predicate DecodesWithin(img: seq<byte>, hdr: Header, e: Entry, parentId: u16, depth: nat)
    decreases depth, 0, 0
  {
    && depth > 0
    && e.kind == Directory
    && e.parentId == parentId
    && ReadFntRow(img, hdr.fntOffset, e.id).Ok?
    && var row := ReadFntRow(img, hdr.fntOffset, e.id).value;
       var table := ScanSubTable(img, hdr.fntOffset + row.subOffset);
       && table.Ok?
       && e.size == Wrap32(Overhead(table.value))
       && e.links == Wrap32(2 + DirCount(table.value))
       && ChildrenDecode(img, hdr, e.id, table.value, e.children, row.nextId, depth - 1)
  }

  /** Child `c` of directory `dirId` is what record `rec` describes, given the
      file id that is next in line. */
  predicate ChildDecodes(img: seq<byte>, hdr: Header, dirId: u16, rec: SubRecord, c: Entry,
                         fileId: u16, depth: nat)
    decreases depth, 1, 0
  {
    match rec
    case FileRecord(name) =>
      && ReadFatRow(img, hdr.fatOffset, fileId).Ok?
      && c == InitFile(dirId, name, ReadFatRow(img, hdr.fatOffset, fileId).value, fileId)
    case DirRecord(name, id) =>
      && c.id == id
      && c.name == name
      && DecodesWithin(img, hdr, c, dirId, depth)
  }

  /** The children `kids` are, in order, what the records `recs` describe, the
      file ids being handed out from `fileId` on. */
  predicate ChildrenDecode(img: seq<byte>, hdr: Header, dirId: u16, recs: seq<SubRecord>,
                           kids: seq<Entry>, fileId: u16, depth: nat)
    decreases depth, 2, |recs|
  {
    && |recs| == |kids|
    && (recs != [] ==>
          && ChildDecodes(img, hdr, dirId, recs[0], kids[0], fileId, depth)
          && ChildrenDecode(img, hdr, dirId, recs[1..], kids[1..], NextFileId(fileId, recs[0]), depth))
  }

  /* ---------- arithmetic of the running sums ---------- */

  /** The directory size as the C loop computes it: a `uint32_t` that each
      record adds its width to. */
  function StepwiseSize(size: u32, recs: seq<SubRecord>): u32
    decreases recs
  {
    if recs == [] then size else StepwiseSize(Wrap32(size + RecordWidth(recs[0])), recs[1..])
  }

  /** The link count as the C loop computes it: one more per directory record. */
  function StepwiseLinks(links: u32, recs: seq<SubRecord>): u32
    decreases recs
  {
    if recs == [] then links
    else StepwiseLinks(if recs[0].DirRecord? then Wrap32(links + 1) else links, recs[1..])
  }

  /** Wrapping an intermediate sum does not change the wrapped total. */
  lemma WrapAdd32(a: int, b: int)
    ensures Wrap32(Wrap32(a) + b) == Wrap32(a + b)
  {
    Wrap32IsMod(a);
    Wrap32IsMod(Wrap32(a) + b);
    Wrap32IsMod(a + b);
    var q := a / U32_MOD;
    assert a + b == (a % U32_MOD + b) + q * U32_MOD;
    ModShift(a % U32_MOD + b, q);
  }

  lemma ModShift(x: int, q: int)
    ensures (x + q * U32_MOD) % U32_MOD == x % U32_MOD
  {
  }

  /** The same for the `uint16_t` file-id counter. */
  lemma WrapAdd16(a: int, b: int)
    ensures Wrap16(Wrap16(a) + b) == Wrap16(a + b)
  {
    Wrap16IsMod(a);
    Wrap16IsMod(Wrap16(a) + b);
    Wrap16IsMod(a + b);
    var q := a / U16_MOD;
    assert a + b == (a % U16_MOD + b) + q * U16_MOD;
    ModShift16(a % U16_MOD + b, q);
  }

  lemma ModShift16(x: int, q: int)
    ensures (x + q * U16_MOD) % U16_MOD == x % U16_MOD
  {
  }

  /** Wrapping at every step, as the C code does, ends at the wrapped exact size. */
  lemma {:induction false} StepwiseSizeWraps(size: u32, recs: seq<SubRecord>)
    ensures StepwiseSize(size, recs) == Wrap32(size + Overhead(recs))
    decreases recs
  {
    if recs != [] {
      var next := Wrap32(size + RecordWidth(recs[0]));
      StepwiseSizeWraps(next, recs[1..]);
      WrapAdd32(size + RecordWidth(recs[0]), Overhead(recs[1..]));
    }
  }

  /** Likewise for the link count. */
  lemma {:induction false} StepwiseLinksWraps(links: u32, recs: seq<SubRecord>)
    ensures StepwiseLinks(links, recs) == Wrap32(links + DirCount(recs))
    decreases recs
  {
    if recs != [] {
      var d := if recs[0].DirRecord? then 1 else 0;
      var next := if recs[0].DirRecord? then Wrap32(links + 1) else links;
      StepwiseLinksWraps(next, recs[1..]);
      WrapAdd32(links + d, DirCount(recs[1..]));
    }
  }

  /** Absorbing the first record's child adds the record's width to the size
      and its directory count to the links, and moves the file id past the record. */
  lemma AbsorbCounts(acc: Acc, recs: seq<SubRecord>, child: Entry)
    requires recs != []
    ensures Absorb(acc, recs[0], child).size + Overhead(recs[1..]) == acc.size + Overhead(recs)
    ensures Absorb(acc, recs[0], child).links + DirCount(recs[1..]) == acc.links + DirCount(recs)
    ensures Absorb(acc, recs[0], child).nextId == NextFileId(acc.nextId, recs[0])
    ensures Absorb(acc, recs[0], child).children == acc.children + [child]
  {
  }

  lemma ChildrenDecodeIntro(img: seq<byte>, hdr: Header, dirId: u16, recs: seq<SubRecord>,
                            kids: seq<Entry>, fileId: u16, depth: nat)
    requires |recs| == |kids| > 0
    requires ChildDecodes(img, hdr, dirId, recs[0], kids[0], fileId, depth)
    requires ChildrenDecode(img, hdr, dirId, recs[1..], kids[1..], NextFileId(fileId, recs[0]), depth)
    ensures ChildrenDecode(img, hdr, dirId, recs, kids, fileId, depth)
  {
  }

  /** The parts a described directory is made of: its table row and its sub-table. */
  lemma DecodesWithinElim(img: seq<byte>, hdr: Header, e: Entry, parentId: u16, depth: nat)
    returns (row: FntRow, table: seq<SubRecord>)
    requires DecodesWithin(img, hdr, e, parentId, depth)
    ensures depth > 0 && e.kind == Directory && e.parentId == parentId
    ensures ReadFntRow(img, hdr.fntOffset, e.id) == Ok(row)
    ensures ScanSubTable(img, hdr.fntOffset + row.subOffset) == Ok(table)
    ensures e.size == Wrap32(Overhead(table)) && e.links == Wrap32(2 + DirCount(table))
    ensures ChildrenDecode(img, hdr, e.id, table, e.children, row.nextId, depth - 1)
  {
    row := ReadFntRow(img, hdr.fntOffset, e.id).value;
    table := ScanSubTable(img, hdr.fntOffset + row.subOffset).value;
  }

  lemma DecodesWithinIntro(img: seq<byte>, hdr: Header, e: Entry, parentId: u16, depth: nat,
                           row: FntRow, table: seq<SubRecord>)
    requires depth > 0 && e.kind == Directory && e.parentId == parentId
    requires ReadFntRow(img, hdr.fntOffset, e.id) == Ok(row)
    requires ScanSubTable(img, hdr.fntOffset + row.subOffset) == Ok(table)
    requires e.size == Wrap32(Overhead(table)) && e.links == Wrap32(2 + DirCount(table))
    requires ChildrenDecode(img, hdr, e.id, table, e.children, row.nextId, depth - 1)
    // named, so the predicate is one postcondition rather than one per conjunct
    ensures var ok := DecodesWithin(img, hdr, e, parentId, depth); ok
  {
    var r := ReadFntRow(img, hdr.fntOffset, e.id);
    assert r.value == row;
    var t := ScanSubTable(img, hdr.fntOffset + r.value.subOffset);
    assert t.value == table;
  }

  /* ---------- the builder produces the described tree ---------- */

  lemma {:induction false} BuildDirSound(img: seq<byte>, hdr: Header, id: u16, parentId: u16,
                                         name: seq<byte>, row: FntRow, fuel: nat, e: Entry)
    requires ReadFntRow(img, hdr.fntOffset, id) == Ok(row)
    requires BuildDir(img, hdr, id, parentId, name, row, fuel) == Ok(e)
    // named, so the predicate is one postcondition rather than one per conjunct
    ensures var ok := DecodesWithin(img, hdr, e, parentId, fuel); ok
    ensures e.id == id && e.name == name
    decreases fuel, 0, 0
  {
    var table, acc := BuildDirParts(img, hdr, id, parentId, name, row, fuel, e);
    BuildChildrenSound(img, hdr, id, table, Fresh(row.nextId), fuel - 1, acc);
    FinishedDirDecodes(img, hdr, e, parentId, fuel, row, table, acc);
  }

  /** A directory entry made from a loop that started fresh and described its
      records is the directory the tables describe. */
  lemma FinishedDirDecodes(img: seq<byte>, hdr: Header, e: Entry, parentId: u16, fuel: nat,
                           row: FntRow, table: seq<SubRecord>, acc: Acc)
    requires fuel > 0 && ReadFntRow(img, hdr.fntOffset, e.id) == Ok(row)
    requires ScanSubTable(img, hdr.fntOffset + row.subOffset) == Ok(table)
    requires ChildrenDecode(img, hdr, e.id, table, acc.children[0..], row.nextId, fuel - 1)
    requires acc.size == Overhead(table) && acc.links == 2 + DirCount(table)
    requires e == Entry(Directory, e.id, parentId, e.name, Wrap32(acc.size), Wrap32(acc.links), acc.children)
    ensures DecodesWithin(img, hdr, e, parentId, fuel)
  {
    assert acc.children[0..] == acc.children;
    DecodesWithinIntro(img, hdr, e, parentId, fuel, row, table);
  }

  /** What a successful `BuildDir` is made of: the scanned sub-table and the finished loop. */
  lemma BuildDirParts(img: seq<byte>, hdr: Header, id: u16, parentId: u16, name: seq<byte>,
                      row: FntRow, fuel: nat, e: Entry)
    returns (table: seq<SubRecord>, acc: Acc)
    requires BuildDir(img, hdr, id, parentId, name, row, fuel) == Ok(e)
    ensures fuel > 0
    ensures ScanSubTable(img, hdr.fntOffset + row.subOffset) == Ok(table)
    ensures BuildChildren(img, hdr, id, table, Fresh(row.nextId), fuel - 1) == Ok(acc)
    ensures e == Entry(Directory, id, parentId, name, Wrap32(acc.size), Wrap32(acc.links), acc.children)
  {
    table := ScanSubTable(img, hdr.fntOffset + row.subOffset).value;
    acc := BuildChildren(img, hdr, id, table, Fresh(row.nextId), fuel - 1).value;
  }

  /** A finished loop appended the children the records describe and grew the
      size and links by the records' width and directory count, modulo 2^32. */
  lemma {:induction false} BuildChildrenSound(img: seq<byte>, hdr: Header, dirId: u16, recs: seq<SubRecord>,
                                              acc: Acc, fuel: nat, result: Acc)
    requires BuildChildren(img, hdr, dirId, recs, acc, fuel) == Ok(result)
    ensures |acc.children| <= |result.children| && result.children[..|acc.children|] == acc.children
    ensures ChildrenDecode(img, hdr, dirId, recs, result.children[|acc.children|..], acc.nextId, fuel)
    ensures result.size == acc.size + Overhead(recs)
    ensures result.links == acc.links + DirCount(recs)
    decreases fuel, 2, |recs|
  {
    if recs == [] {
      assert result == acc;
      assert result.children[|acc.children|..] == [];
    } else {
      var child := BuildChild(img, hdr, dirId, recs[0], acc.nextId, fuel).value;
      var acc' := Absorb(acc, recs[0], child);
      BuildChildSound(img, hdr, dirId, recs[0], acc.nextId, fuel, child);
      BuildChildrenSound(img, hdr, dirId, recs[1..], acc', fuel, result);
      AbsorbCounts(acc, recs, child);
      PrefixStep(result.children, acc.children, child);
      var kids := result.children[|acc.children|..];
      ChildrenDecodeIntro(img, hdr, dirId, recs, kids, acc.nextId, fuel);
    }
  }

  lemma PrefixStep<T>(s: seq<T>, a: seq<T>, x: T)
    requires |a| + 1 <= |s| && s[..|a| + 1] == a + [x]
    ensures s[..|a|] == a && s[|a|..][0] == x && s[|a|..][1..] == s[|a| + 1..]
  {
    assert s[..|a|] == s[..|a| + 1][..|a|];
    assert s[|a|] == s[..|a| + 1][|a|];
  }

  lemma {:induction false} BuildChildSound(img: seq<byte>, hdr: Header, dirId: u16, rec: SubRecord,
                                           fileId: u16, fuel: nat, c: Entry)
    requires BuildChild(img, hdr, dirId, rec, fileId, fuel) == Ok(c)
    ensures ChildDecodes(img, hdr, dirId, rec, c, fileId, fuel)
    decreases fuel, 1, 0
  {
    match rec
    case FileRecord(name) =>
    case DirRecord(name, id) =>
      var row := ReadFntRow(img, hdr.fntOffset, id).value;
      BuildDirSound(img, hdr, id, dirId, name, row, fuel, c);
  }

  /* ---------- every described tree is the one the builder produces ---------- */

  lemma {:induction false} BuildDirComplete(img: seq<byte>, hdr: Header, e: Entry, parentId: u16, fuel: nat)
    requires DecodesWithin(img, hdr, e, parentId, fuel)
    ensures BuildDir(img, hdr, e.id, parentId, e.name, ReadFntRow(img, hdr.fntOffset, e.id).value, fuel) == Ok(e)
    decreases fuel, 0, 1
  {
    var row, table := DecodesWithinElim(img, hdr, e, parentId, fuel);
    BuildDirFromParts(img, hdr, e, parentId, fuel, row, table);
    assert ReadFntRow(img, hdr.fntOffset, e.id).value == row;
  }

  lemma {:induction false} BuildDirFromParts(img: seq<byte>, hdr: Header, e: Entry, parentId: u16, fuel: nat,
                                             row: FntRow, table: seq<SubRecord>)
    requires fuel > 0 && e.kind == Directory && e.parentId == parentId
    requires ScanSubTable(img, hdr.fntOffset + row.subOffset) == Ok(table)
    requires e.size == Wrap32(Overhead(table)) && e.links == Wrap32(2 + DirCount(table))
    requires ChildrenDecode(img, hdr, e.id, table, e.children, row.nextId, fuel - 1)
    ensures BuildDir(img, hdr, e.id, parentId, e.name, row, fuel) == Ok(e)
    decreases fuel, 0, 0
  {
    var acc := BuildChildrenComplete(img, hdr, e.id, table, Fresh(row.nextId), fuel - 1, e.children);
    assert acc.children == e.children by {
      assert [] + e.children == e.children;
    }
    DirEntryEta(e, parentId, acc);
    BuildDirOk(img, hdr, e.id, parentId, e.name, row, fuel, table, acc);
  }

  /** The last step of `BuildDir`: the entry made from a scanned table and a finished loop. */
  lemma BuildDirOk(img: seq<byte>, hdr: Header, id: u16, parentId: u16, name: seq<byte>,
                   row: FntRow, fuel: nat, table: seq<SubRecord>, acc: Acc)
    requires fuel > 0
    requires ScanSubTable(img, hdr.fntOffset + row.subOffset) == Ok(table)
    requires BuildChildren(img, hdr, id, table, Fresh(row.nextId), fuel - 1) == Ok(acc)
    ensures BuildDir(img, hdr, id, parentId, name, row, fuel)
         == Ok(Entry(Directory, id, parentId, name, Wrap32(acc.size), Wrap32(acc.links), acc.children))
  {
  }

  lemma DirEntryEta(e: Entry, parentId: u16, acc: Acc)
    requires e.kind == Directory && e.parentId == parentId && e.children == acc.children
    requires e.size == Wrap32(acc.size) && e.links == Wrap32(acc.links)
    ensures e == Entry(Directory, e.id, parentId, e.name, Wrap32(acc.size), Wrap32(acc.links), acc.children)
  {
  }

  /** Over records that describe `kids`, the loop appends exactly `kids` and
      grows the size and links by the records' width and directory count. */
  lemma {:induction false} BuildChildrenComplete(img: seq<byte>, hdr: Header, dirId: u16, recs: seq<SubRecord>,
                                                 acc: Acc, fuel: nat, kids: seq<Entry>)
    returns (result: Acc)
    requires ChildrenDecode(img, hdr, dirId, recs, kids, acc.nextId, fuel)
    ensures BuildChildren(img, hdr, dirId, recs, acc, fuel) == Ok(result)
    ensures result.children == acc.children + kids
    ensures result.size == acc.size + Overhead(recs)
    ensures result.links == acc.links + DirCount(recs)
    decreases fuel, 2, |recs|
  {
    if recs == [] {
      assert acc.children + kids == acc.children;
      result := acc;
    } else {
      var kid := kids[0];
      BuildChildComplete(img, hdr, dirId, recs[0], kid, acc.nextId, fuel);
      var acc' := Absorb(acc, recs[0], kid);
      result := BuildChildrenComplete(img, hdr, dirId, recs[1..], acc', fuel, kids[1..]);
      AbsorbCounts(acc, recs, kid);
      assert acc'.children + kids[1..] == acc.children + kids by {
        assert kids == [kid] + kids[1..];
      }
    }
  }

  lemma {:induction false} BuildChildComplete(img: seq<byte>, hdr: Header, dirId: u16, rec: SubRecord,
                                              c: Entry, fileId: u16, fuel: nat)
    requires ChildDecodes(img, hdr, dirId, rec, c, fileId, fuel)
    ensures BuildChild(img, hdr, dirId, rec, fileId, fuel) == Ok(c)
    decreases fuel, 1, 0
  {
    match rec
    case FileRecord(name) =>
    case DirRecord(name, id) =>
      BuildDirComplete(img, hdr, c, dirId, fuel);
  }
}

/** What holds of every mounted tree: the mount agrees with the description,
    does not depend on the depth bound once it suffices, and yields a tree
    whose parent links, sizes and link counts are consistent. */
module Mounting {
  import opened Results
  import opened Image
  import opened Tables
  import opened Entries
  import opened Builder

  /** A successful mount is the header of the image and the tree the tables
      describe, rooted at directory 0xF000 with an empty name. */
  lemma MountSound(img: seq<byte>, maxDepth: nat, v: Volume)
    requires Mount(img, maxDepth) == Ok(v)
    ensures v.image == img && DecodeHeader(img) == Ok(v.header)
    ensures v.root.id == ROOT_ID && v.root.name == []
    ensures DecodesWithin(img, v.header, v.root, ROOT_ID, maxDepth)
  {
    var row := ReadFntRow(img, v.header.fntOffset, ROOT_ID).value;
    BuildDirSound(img, v.header, ROOT_ID, ROOT_ID, [], row, maxDepth, v.root);
  }

  /** Conversely, whenever the tables describe a tree within the depth bound, the mount yields it. */
  lemma MountComplete(img: seq<byte>, maxDepth: nat, h: Header, root: Entry)
    requires DecodeHeader(img) == Ok(h)
    requires root.id == ROOT_ID && root.name == []
    requires DecodesWithin(img, h, root, ROOT_ID, maxDepth)
    ensures Mount(img, maxDepth) == Ok(Volume(img, h, root))
  {
    BuildDirComplete(img, h, root, ROOT_ID, maxDepth);
  }

  /* ---------- the depth bound ---------- */

  lemma {:induction false} DecodesWithinMono(img: seq<byte>, hdr: Header, e: Entry, parentId: u16,
                                             depth: nat, depth': nat)
    requires DecodesWithin(img, hdr, e, parentId, depth) && depth <= depth'
    // named, so the predicate is one postcondition rather than one per conjunct
    ensures var ok := DecodesWithin(img, hdr, e, parentId, depth'); ok
    decreases depth, 0, 0
  {
    var row := ReadFntRow(img, hdr.fntOffset, e.id).value;
    var table := ScanSubTable(img, hdr.fntOffset + row.subOffset).value;
    ChildrenDecodeMono(img, hdr, e.id, table, e.children, row.nextId, depth - 1, depth' - 1);
    DecodesWithinIntro(img, hdr, e, parentId, depth', row, table);
  }

  lemma {:induction false} ChildrenDecodeMono(img: seq<byte>, hdr: Header, dirId: u16, recs: seq<SubRecord>,
                                              kids: seq<Entry>, fileId: u16, depth: nat, depth': nat)
    requires ChildrenDecode(img, hdr, dirId, recs, kids, fileId, depth) && depth <= depth'
    ensures ChildrenDecode(img, hdr, dirId, recs, kids, fileId, depth')
    decreases depth, 2, |recs|
  {
    if recs != [] {
      if recs[0].DirRecord? {
        DecodesWithinMono(img, hdr, kids[0], dirId, depth, depth');
      }
      ChildrenDecodeMono(img, hdr, dirId, recs[1..], kids[1..], NextFileId(fileId, recs[0]), depth, depth');
    }
  }

  /** Raising the depth bound never changes a successful mount. */
  lemma MountStable(img: seq<byte>, maxDepth: nat, maxDepth': nat, v: Volume)
    requires Mount(img, maxDepth) == Ok(v) && maxDepth <= maxDepth'
    ensures Mount(img, maxDepth') == Ok(v)
  {
    MountSound(img, maxDepth, v);
    DecodesWithinMono(img, v.header, v.root, ROOT_ID, maxDepth, maxDepth');
    MountComplete(img, maxDepth', v.header, v.root);
  }

  /** The tables describe at most one tree per directory id, name and parent. */
  lemma DecodesUnique(img: seq<byte>, hdr: Header, e1: Entry, e2: Entry, parentId: u16, d1: nat, d2: nat)
    requires DecodesWithin(img, hdr, e1, parentId, d1) && DecodesWithin(img, hdr, e2, parentId, d2)
    requires e1.id == e2.id && e1.name == e2.name
    ensures e1 == e2
  {
    var d := if d1 < d2 then d2 else d1;
    DecodesWithinMono(img, hdr, e1, parentId, d1, d);
    DecodesWithinMono(img, hdr, e2, parentId, d2, d);
    BuildDirComplete(img, hdr, e1, parentId, d);
    BuildDirComplete(img, hdr, e2, parentId, d);
  }

  /* ---------- shape of a described tree ---------- */

  /** Every entry of a described tree names its directory as parent. */
  lemma {:induction false} DecodesLinked(img: seq<byte>, hdr: Header, e: Entry, parentId: u16, depth: nat)
    requires DecodesWithin(img, hdr, e, parentId, depth)
    ensures ParentLinked(e)
    decreases depth, 0, 0
  {
    var row := ReadFntRow(img, hdr.fntOffset, e.id).value;
    var table := ScanSubTable(img, hdr.fntOffset + row.subOffset).value;
    ChildrenLinked(img, hdr, e.id, table, e.children, row.nextId, depth - 1);
  }

  lemma {:induction false} ChildrenLinked(img: seq<byte>, hdr: Header, dirId: u16, recs: seq<SubRecord>,
                                          kids: seq<Entry>, fileId: u16, depth: nat)
    requires ChildrenDecode(img, hdr, dirId, recs, kids, fileId, depth)
    ensures forall i :: 0 <= i < |kids| ==> kids[i].parentId == dirId && ParentLinked(kids[i])
    decreases depth, 2, |recs|
  {
    if recs != [] {
      if recs[0].DirRecord? {
        DecodesLinked(img, hdr, kids[0], dirId, depth);
      }
      ChildrenLinked(img, hdr, dirId, recs[1..], kids[1..], NextFileId(fileId, recs[0]), depth);
      forall i | 0 <= i < |kids|
        ensures kids[i].parentId == dirId && ParentLinked(kids[i])
      {
        if i > 0 {
          assert kids[i] == kids[1..][i - 1];
        }
      }
    }
  }

  /** Children come in record order, each with its record's name and kind; a
      sub-directory has the id its record gives, and the file children are
      numbered consecutively from `fileId`, modulo 2^16, the directory
      records between them taking no number. */
  lemma {:induction false} ChildrenInOrder(img: seq<byte>, hdr: Header, dirId: u16, recs: seq<SubRecord>,
                                           kids: seq<Entry>, fileId: u16, depth: nat)
    requires ChildrenDecode(img, hdr, dirId, recs, kids, fileId, depth)
    ensures |kids| == |recs|
    ensures forall i :: 0 <= i < |kids| ==>
              kids[i].name == recs[i].name && (kids[i].kind == Directory <==> recs[i].DirRecord?)
    ensures forall i :: 0 <= i < |kids| && recs[i].DirRecord? ==> kids[i].id == recs[i].dirId
    ensures forall i :: 0 <= i < |kids| && recs[i].FileRecord? ==> kids[i].id == Wrap16(fileId + FileCount(recs[..i]))
    decreases |recs|
  {
    if recs != [] {
      var next := NextFileId(fileId, recs[0]);
      assert ChildDecodes(img, hdr, dirId, recs[0], kids[0], fileId, depth);
      if recs[0].DirRecord? {
        assert DecodesWithin(img, hdr, kids[0], dirId, depth);
      }
      ChildrenInOrder(img, hdr, dirId, recs[1..], kids[1..], next, depth);
      forall i | 0 <= i < |kids|
        ensures kids[i].name == recs[i].name && (kids[i].kind == Directory <==> recs[i].DirRecord?)
        ensures recs[i].DirRecord? ==> kids[i].id == recs[i].dirId
        ensures recs[i].FileRecord? ==> kids[i].id == Wrap16(fileId + FileCount(recs[..i]))
      {
        if i == 0 {
          assert recs[..0] == [];
        } else {
          assert kids[i] == kids[1..][i - 1] && recs[i] == recs[1..][i - 1];
          if recs[i].FileRecord? {
            FileCountCons(recs, i);
            if recs[0].FileRecord? {
              WrapAdd16(fileId + 1, FileCount(recs[1..][..i - 1]));
            }
          }
        }
      }
    }
  }

  lemma FileCountCons(recs: seq<SubRecord>, i: nat)
    requires 0 < i <= |recs|
    ensures FileCount(recs[..i]) == (if recs[0].FileRecord? then 1 else 0) + FileCount(recs[1..][..i - 1])
  {
    assert recs[..i][1..] == recs[1..][..i - 1];
  }

  /** Each child carries its record's name and kind, so the sums over the
      records are sums over the children. */
  lemma {:induction false} ChildrenShape(img: seq<byte>, hdr: Header, dirId: u16, recs: seq<SubRecord>,
                                         kids: seq<Entry>, fileId: u16, depth: nat)
    requires ChildrenDecode(img, hdr, dirId, recs, kids, fileId, depth)
    ensures Overhead(recs) == ChildrenWidth(kids)
    ensures DirCount(recs) == CountDirs(kids)
    decreases |recs|
  {
    if recs != [] {
      assert ChildDecodes(img, hdr, dirId, recs[0], kids[0], fileId, depth);
      if recs[0].DirRecord? {
        assert DecodesWithin(img, hdr, kids[0], dirId, depth);
      }
      ChildrenShape(img, hdr, dirId, recs[1..], kids[1..], NextFileId(fileId, recs[0]), depth);
    }
  }

  /** A described directory reports as size the bytes its children's records
      take and as links two plus its sub-directories, both modulo 2^32. */
  lemma DirectoryShape(img: seq<byte>, hdr: Header, e: Entry, parentId: u16, depth: nat)
    requires DecodesWithin(img, hdr, e, parentId, depth)
    ensures e.kind == Directory
    ensures e.size == Wrap32(ChildrenWidth(e.children))
    ensures e.links == Wrap32(2 + CountDirs(e.children))
  {
    var row := ReadFntRow(img, hdr.fntOffset, e.id).value;
    var table := ScanSubTable(img, hdr.fntOffset + row.subOffset).value;
    ChildrenShape(img, hdr, e.id, table, e.children, row.nextId, depth - 1);
  }
}
