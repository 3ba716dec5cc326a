/** The in-memory tree (`nitrofs_entry_t`). The C struct links siblings through
    `next` and points back to its parent; here a directory owns the sequence of
    its children, and the back pointer is kept as the parent's id, the only thing
    `nitro_fill_stat` reads through it. */
module Entries {
  import opened Image
  import opened Tables

  datatype Kind = File | Directory

  datatype Entry = Entry(
    kind: Kind,
    id: u16,              // directory id (0xF000 for the root) or file id
    parentId: u16,        // id of the directory holding this entry; the root's is its own
    name: seq<byte>,      // the name bytes as stored, `ctl & 0x7F` of them
    size: u32,            // file length, or the synthetic directory size
    links: u32,           // link count reported by stat
    children: seq<Entry>  // sub-table order; empty for files
  )

  /** `end_offset - start_offset` in `uint32_t` arithmetic: the value that,
      added to `start` modulo 2^32, gives `end`. No check that `end >= start`. */
  function FileSize(fat: FatRow): (s: u32)
    ensures s == Wrap32(fat.end - fat.start)
    ensures Wrap32(fat.start + s) == fat.end
  {
    if fat.start <= fat.end then fat.end - fat.start
    else U32_MOD - (fat.start - fat.end)
  }

  /** `nitro_init_file`: a file entry of two links whose size comes from its FAT row. */
  function InitFile(parentId: u16, name: seq<byte>, fat: FatRow, id: u16): Entry {
    Entry(File, id, parentId, name, FileSize(fat), 2, [])
  }

  /** What a child adds to its directory's synthetic size: `len + 3` for a
      directory, `len + 1` for a file. */
  function ChildWidth(e: Entry): nat {
    |e.name| + (if e.kind == Directory then 3 else 1)
  }

  function ChildrenWidth(kids: seq<Entry>): nat {
    if kids == [] then 0 else ChildWidth(kids[0]) + ChildrenWidth(kids[1..])
  }

  function CountDirs(kids: seq<Entry>): nat {
    if kids == [] then 0 else (if kids[0].kind == Directory then 1 else 0) + CountDirs(kids[1..])
  }

  /** Every child records its directory's id as its parent, all the way down. */
  predicate ParentLinked(e: Entry)
    decreases e
  {
    forall i :: 0 <= i < |e.children| ==>
      e.children[i].parentId == e.id && ParentLinked(e.children[i])
  }
}
