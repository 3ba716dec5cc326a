/** The three NitroFS tables: FNT main-table rows (one per directory), FAT rows
    (one per file) and the FNT sub-table records that list a directory's
    children. Each decoder has an encoder as its partner: decoding reads exactly
    the bytes the encoder writes. */
module Tables {
  import opened Results
  import opened Image

  /** Directory id of the root (`NITRO_ROOT`); it selects FNT row 0. */
  const ROOT_ID: u16 := 0xF000

  /** Width in bytes of one FNT main-table row and of one FAT row. */
  const ROW_WIDTH: nat := 8

  /** `{u32 offset, u16 next_id, u16 parent_id}`: where a directory's sub-table
      starts, relative to the FNT, and the id of its first file. */
  datatype FntRow = FntRow(subOffset: u32, nextId: u16, parentId: u16)

  /** `{u32 start, u32 end}`: the byte range of one file in the image. */
  datatype FatRow = FatRow(start: u32, end: u32)

  /** Main-table row selected by a directory id: `id & NITRO_DIRMASK`, the low twelve bits. */
  function RowIndex(id: u16): (r: nat)
    ensures r < 0x1000
    ensures (id - r) % 0x1000 == 0
    ensures id < 0x1000 ==> r == id
    ensures ROOT_ID <= id ==> r == id - ROOT_ID
  {
    id % 0x1000
  }

  function FntRowAt(fntOffset: u32, id: u16): nat {
    fntOffset + ROW_WIDTH * RowIndex(id)
  }

  function FatRowAt(fatOffset: u32, fileId: u16): nat {
    fatOffset + ROW_WIDTH * fileId
  }

  function EncodeFntRow(row: FntRow): (b: seq<byte>)
    ensures |b| == ROW_WIDTH
  {
    U32Bytes(row.subOffset) + U16Bytes(row.nextId) + U16Bytes(row.parentId)
  }

  function EncodeFatRow(row: FatRow): (b: seq<byte>)
    ensures |b| == ROW_WIDTH
  {
    U32Bytes(row.start) + U32Bytes(row.end)
  }

  /** The FNT main-table row of directory `id`. */
  function ReadFntRow(img: seq<byte>, fntOffset: u32, id: u16): (r: Result<FntRow, DecodeError>)
    ensures r.Ok? <==> FntRowAt(fntOffset, id) + ROW_WIDTH <= |img|
    ensures r.Err? ==> r.error.OutOfBounds?
  {
    var at := FntRowAt(fntOffset, id);
    var subOffset :- ReadU32(img, at);
    var nextId :- ReadU16(img, at + 4);
    var parentId :- ReadU16(img, at + 6);
    Ok(FntRow(subOffset, nextId, parentId))
  }

  /** The eight bytes of a row that was read are the encoding of that row. */
  lemma ReadFntRowEncodes(img: seq<byte>, fntOffset: u32, id: u16, row: FntRow)
    requires ReadFntRow(img, fntOffset, id) == Ok(row)
    ensures var at := FntRowAt(fntOffset, id);
            at + ROW_WIDTH <= |img| && img[at..at + ROW_WIDTH] == EncodeFntRow(row)
  {
    var at := FntRowAt(fntOffset, id);
    ReadU32Encodes(img, at, row.subOffset);
    ReadU16Encodes(img, at + 4, row.nextId);
    ReadU16Encodes(img, at + 6, row.parentId);
    assert img[at..at + ROW_WIDTH] == img[at..at + 4] + img[at + 4..at + 6] + img[at + 6..at + 8];
  }

  /** The FAT row of file `fileId`. */
  function ReadFatRow(img: seq<byte>, fatOffset: u32, fileId: u16): (r: Result<FatRow, DecodeError>)
    ensures r.Ok? <==> FatRowAt(fatOffset, fileId) + ROW_WIDTH <= |img|
    ensures r.Err? ==> r.error.OutOfBounds?
  {
    var at := FatRowAt(fatOffset, fileId);
    var start :- ReadU32(img, at);
    var end :- ReadU32(img, at + 4);
    Ok(FatRow(start, end))
  }

  /** The eight bytes of a row that was read are the encoding of that row. */
  lemma ReadFatRowEncodes(img: seq<byte>, fatOffset: u32, fileId: u16, row: FatRow)
    requires ReadFatRow(img, fatOffset, fileId) == Ok(row)
    ensures var at := FatRowAt(fatOffset, fileId);
            at + ROW_WIDTH <= |img| && img[at..at + ROW_WIDTH] == EncodeFatRow(row)
  {
    var at := FatRowAt(fatOffset, fileId);
    ReadU32Encodes(img, at, row.start);
    ReadU32Encodes(img, at + 4, row.end);
    assert img[at..at + ROW_WIDTH] == img[at..at + 4] + img[at + 4..at + 8];
  }

  lemma ReadFntRowInverse(pre: seq<byte>, row: FntRow, post: seq<byte>, fntOffset: u32, id: u16)
    requires FntRowAt(fntOffset, id) == |pre|
    ensures ReadFntRow(pre + EncodeFntRow(row) + post, fntOffset, id) == Ok(row)
  {
    var img := pre + EncodeFntRow(row) + post;
    assert img == pre + U32Bytes(row.subOffset) + (U16Bytes(row.nextId) + U16Bytes(row.parentId) + post);
    ReadU32Inverse(pre, row.subOffset, U16Bytes(row.nextId) + U16Bytes(row.parentId) + post);
    assert img == (pre + U32Bytes(row.subOffset)) + U16Bytes(row.nextId) + (U16Bytes(row.parentId) + post);
    ReadU16Inverse(pre + U32Bytes(row.subOffset), row.nextId, U16Bytes(row.parentId) + post);
    assert img == (pre + U32Bytes(row.subOffset) + U16Bytes(row.nextId)) + U16Bytes(row.parentId) + post;
    ReadU16Inverse(pre + U32Bytes(row.subOffset) + U16Bytes(row.nextId), row.parentId, post);
  }

  lemma ReadFatRowInverse(pre: seq<byte>, row: FatRow, post: seq<byte>, fatOffset: u32, fileId: u16)
    requires FatRowAt(fatOffset, fileId) == |pre|
    ensures ReadFatRow(pre + EncodeFatRow(row) + post, fatOffset, fileId) == Ok(row)
  {
    var img := pre + EncodeFatRow(row) + post;
    assert img == pre + U32Bytes(row.start) + (U32Bytes(row.end) + post);
    ReadU32Inverse(pre, row.start, U32Bytes(row.end) + post);
    assert img == (pre + U32Bytes(row.start)) + U32Bytes(row.end) + post;
    ReadU32Inverse(pre + U32Bytes(row.start), row.end, post);
  }

  /* ---------- sub-table records ---------- */

  /** One child in a directory's sub-table: `{ctl, name[ctl & 0x7F]}` for a
      file, followed by a `u16` directory id when `ctl & 0x80` is set. */
  datatype SubRecord = FileRecord(name: seq<byte>) | DirRecord(name: seq<byte>, dirId: u16)

  /** Names have seven bits of length; a file with an empty name would have a
      control byte of 0, which is the end-of-list marker instead. */
  predicate Encodable(r: SubRecord) {
    |r.name| < 0x80 && (r.FileRecord? ==> |r.name| > 0)
  }

  predicate AllEncodable(recs: seq<SubRecord>) {
    forall i :: 0 <= i < |recs| ==> Encodable(recs[i])
  }

  /** Bytes one record occupies: `len + 1` for a file, `len + 3` for a directory. */
  function RecordWidth(r: SubRecord): nat {
    |r.name| + (if r.DirRecord? then 3 else 1)
  }

  /** `ctl & 0x7F`: the control byte without its top bit. */
  function NameLength(ctl: byte): (n: nat)
    ensures n < 0x80
    ensures DirFlag(ctl) ==> n + 0x80 == ctl
    ensures !DirFlag(ctl) ==> n == ctl
  {
    if ctl >= 0x80 then ctl - 0x80 else ctl
  }

  /** The length is the control byte's low seven bits. */
  lemma NameLengthIsMask(ctl: byte)
    ensures NameLength(ctl) == ctl % 0x80
  {
  }

  /** `ctl & 0x80`, the directory flag. */
  predicate DirFlag(ctl: byte) {
    ctl >= 0x80
  }

  /** The control byte of a record: its name length, with the top bit set for a directory. */
  function ControlByte(r: SubRecord): (ctl: byte)
    requires Encodable(r)
    ensures ctl != 0 && NameLength(ctl) == |r.name| && (DirFlag(ctl) <==> r.DirRecord?)
  {
    |r.name| + (if r.DirRecord? then 0x80 else 0)
  }

  function EncodeRecord(r: SubRecord): (b: seq<byte>)
    requires Encodable(r)
    ensures |b| == RecordWidth(r)
  {
    match r
    case FileRecord(name) => [ControlByte(r)] + name
    case DirRecord(name, id) => [ControlByte(r)] + name + U16Bytes(id)
  }

  /** The record at `at`: `None` for the terminating 0 control byte, otherwise
      the child it describes. Reads happen in the order the C loop performs them:
      control byte, name, then the directory id. */
  function DecodeRecord(img: seq<byte>, at: nat): (r: Result<Option<SubRecord>, DecodeError>)
    ensures r.Ok? && r.value.None? <==> at < |img| && img[at] == 0
    ensures r.Ok? && r.value.Some? ==>
              && Encodable(r.value.value)
              && at + RecordWidth(r.value.value) <= |img|
    ensures r.Ok? && r.value.Some? ==>
              && at < |img|
              && NameLength(img[at]) == |r.value.value.name|
              && (DirFlag(img[at]) <==> r.value.value.DirRecord?)
    ensures r.Err? ==> r.error.OutOfBounds?
  {
    var ctl :- ReadU8(img, at);
    if ctl == 0 then Ok(None)
    else
      var len := NameLength(ctl);
      var name :- ReadBytes(img, at + 1, len);
      if DirFlag(ctl) then
        var id :- ReadU16(img, at + 1 + len);
        Ok(Some(DirRecord(name, id)))
      else
        Ok(Some(FileRecord(name)))
  }

  /** The bytes a decoded record occupies are that record's encoding. */
  lemma DecodeRecordEncodes(img: seq<byte>, at: nat, rec: SubRecord)
    requires DecodeRecord(img, at) == Ok(Some(rec))
    ensures Encodable(rec) && at + RecordWidth(rec) <= |img|
    ensures img[at..at + RecordWidth(rec)] == EncodeRecord(rec)
  {
    DecodeRecordParts(img, at, rec);
    if rec.DirRecord? {
      ReadU16Encodes(img, at + 1 + |rec.name|, rec.dirId);
    }
    RecordBytes(img, at, rec);
  }

  /** The control byte, the name and, for a directory, the id bytes in a row
      make up the record's encoding. */
  lemma RecordBytes(img: seq<byte>, at: nat, rec: SubRecord)
    requires Encodable(rec) && at + RecordWidth(rec) <= |img|
    requires img[at] == ControlByte(rec) && img[at + 1..at + 1 + |rec.name|] == rec.name
    requires rec.DirRecord? ==> img[at + 1 + |rec.name|..at + 3 + |rec.name|] == U16Bytes(rec.dirId)
    ensures img[at..at + RecordWidth(rec)] == EncodeRecord(rec)
  {
    var len := |rec.name|;
    if rec.DirRecord? {
      assert img[at..at + len + 3] == [img[at]] + img[at + 1..at + 1 + len] + img[at + 1 + len..at + 3 + len];
    } else {
      assert img[at..at + len + 1] == [img[at]] + img[at + 1..at + 1 + len];
    }
  }

  /** What a decoded record rests on: its control byte, its name bytes and,
      for a directory, the id after them (the converse of `DecodeRecordFrom`). */
  lemma DecodeRecordParts(img: seq<byte>, at: nat, rec: SubRecord)
    requires DecodeRecord(img, at) == Ok(Some(rec))
    ensures Encodable(rec) && at + 1 + |rec.name| <= |img|
    ensures img[at] == ControlByte(rec) && img[at + 1..at + 1 + |rec.name|] == rec.name
    ensures rec.DirRecord? ==> ReadU16(img, at + 1 + |rec.name|) == Ok(rec.dirId)
  {
  }

  lemma DecodeRecordInverse(pre: seq<byte>, r: SubRecord, post: seq<byte>)
    requires Encodable(r)
    ensures DecodeRecord(pre + EncodeRecord(r) + post, |pre|) == Ok(Some(r))
  {
    var ctl := ControlByte(r);
    var head := pre + [ctl] + r.name;
    var tail := if r.DirRecord? then U16Bytes(r.dirId) + post else post;
    var img := head + tail;
    assert pre + EncodeRecord(r) + post == img;
    var at := |pre|;
    assert img[at] == ctl;
    assert img[at + 1..at + 1 + |r.name|] == r.name;
    if r.DirRecord? {
      assert img == head + U16Bytes(r.dirId) + post;
      ReadU16Inverse(head, r.dirId, post);
    }
    DecodeRecordFrom(img, at, r);
  }

  /** A record is decoded from a control byte that announces it, the name
      bytes after it and, for a directory, the id after those. */
  lemma DecodeRecordFrom(img: seq<byte>, at: nat, r: SubRecord)
    requires Encodable(r) && at + 1 + |r.name| <= |img|
    requires img[at] == ControlByte(r) && img[at + 1..at + 1 + |r.name|] == r.name
    requires r.DirRecord? ==> ReadU16(img, at + 1 + |r.name|) == Ok(r.dirId)
    ensures DecodeRecord(img, at) == Ok(Some(r))
  {
  }

  /* ---------- whole sub-tables ---------- */

  /** The directory overhead the C code accumulates into a directory's size:
      the bytes the records occupy. */
  function Overhead(recs: seq<SubRecord>): nat {
    if recs == [] then 0 else RecordWidth(recs[0]) + Overhead(recs[1..])
  }

  /** The number of directory records. */
  function DirCount(recs: seq<SubRecord>): nat {
    if recs == [] then 0 else (if recs[0].DirRecord? then 1 else 0) + DirCount(recs[1..])
  }

  /** The number of file records, each of which takes one file id. */
  function FileCount(recs: seq<SubRecord>): nat {
    if recs == [] then 0 else (if recs[0].FileRecord? then 1 else 0) + FileCount(recs[1..])
  }

  function EncodeRecords(recs: seq<SubRecord>): (b: seq<byte>)
    requires AllEncodable(recs)
    ensures |b| == Overhead(recs)
  {
    if recs == [] then [] else EncodeRecord(recs[0]) + EncodeRecords(recs[1..])
  }

  /** A complete sub-table: the records followed by the 0 terminator. */
  function EncodeSubTable(recs: seq<SubRecord>): (b: seq<byte>)
    requires AllEncodable(recs)
    ensures |b| == Overhead(recs) + 1
  {
    EncodeRecords(recs) + [0]
  }

  /** The list of records of the sub-table at `at`, up to its terminator. The
      bytes consumed are exactly the encoding of the records returned. */
  function ScanSubTable(img: seq<byte>, at: nat): (r: Result<seq<SubRecord>, DecodeError>)
    decreases |img| - at
    ensures r.Ok? ==>
              && AllEncodable(r.value)
              && at + Overhead(r.value) + 1 <= |img|
    ensures r.Err? ==> r.error.OutOfBounds?
  {
    match DecodeRecord(img, at)
    case Err(e) => Err(e)
    case Ok(None) =>
      assert img[at..at + 1] == [0];
      Ok([])
    case Ok(Some(rec)) =>
      match ScanSubTable(img, at + RecordWidth(rec))
      case Err(e) => Err(e)
      case Ok(rest) =>
        ConsTable(rec, rest);
        Ok([rec] + rest)
  }

  lemma ConsTable(rec: SubRecord, rest: seq<SubRecord>)
    requires Encodable(rec) && AllEncodable(rest)
    ensures AllEncodable([rec] + rest)
    ensures Overhead([rec] + rest) == RecordWidth(rec) + Overhead(rest)
    ensures EncodeSubTable([rec] + rest) == EncodeRecord(rec) + EncodeSubTable(rest)
  {
    var recs := [rec] + rest;
    assert recs[0] == rec && recs[1..] == rest;
  }

  lemma ScanStep(img: seq<byte>, at: nat, rec: SubRecord, next: nat, rest: seq<SubRecord>, recs: seq<SubRecord>)
    requires Encodable(rec) && AllEncodable(rest)
    requires next == at + RecordWidth(rec) && recs == [rec] + rest
    requires next + Overhead(rest) + 1 <= |img|
    requires img[at..next] == EncodeRecord(rec)
    requires img[next..next + Overhead(rest) + 1] == EncodeSubTable(rest)
    ensures AllEncodable(recs)
    ensures at + Overhead(recs) + 1 <= |img|
    ensures img[at..at + Overhead(recs) + 1] == EncodeSubTable(recs)
  {
    ConsTable(rec, rest);
    var stop := next + Overhead(rest) + 1;
    assert at + Overhead(recs) + 1 == stop;
    SplitSlice(img, at, next, stop);
    assert img[at..stop] == EncodeRecord(rec) + EncodeSubTable(rest);
  }

  lemma SplitSlice(s: seq<byte>, i: nat, j: nat, k: nat)
    requires i <= j <= k <= |s|
    ensures s[i..k] == s[i..j] + s[j..k]
  {
  }

  /** The bytes a successful scan consumes are exactly the encoding of the records it returns. */
  lemma {:induction false} ScanSubTableEncodes(img: seq<byte>, at: nat, recs: seq<SubRecord>)
    requires ScanSubTable(img, at) == Ok(recs)
    ensures img[at..at + Overhead(recs) + 1] == EncodeSubTable(recs)
    decreases |img| - at
  {
    var rec := DecodeRecord(img, at).value;
    if rec.None? {
      EncodesEnd(img, at, recs);
    } else {
      var r := rec.value;
      var next := at + RecordWidth(r);
      ScanSubTableUncons(img, at, r, next, recs);
      DecodeRecordEncodes(img, at, r);
      var rest := ScanSubTable(img, next).value;
      ScanSubTableEncodes(img, next, rest);
      ScanStep(img, at, r, next, rest, recs);
    }
  }

  lemma EncodesEnd(img: seq<byte>, at: nat, recs: seq<SubRecord>)
    requires DecodeRecord(img, at) == Ok(None)
    requires ScanSubTable(img, at) == Ok(recs)
    ensures img[at..at + Overhead(recs) + 1] == EncodeSubTable(recs)
  {
    assert recs == [];
    assert img[at..at + 1] == [img[at]];
  }

  lemma ScanSubTableUncons(img: seq<byte>, at: nat, rec: SubRecord, next: nat, recs: seq<SubRecord>)
    requires DecodeRecord(img, at) == Ok(Some(rec))
    requires next == at + RecordWidth(rec)
    requires ScanSubTable(img, at) == Ok(recs)
    ensures ScanSubTable(img, next).Ok? && recs == [rec] + ScanSubTable(img, next).value
  {
  }

  lemma Regroup(a: seq<byte>, b: seq<byte>, c: seq<byte>, d: seq<byte>)
    ensures a + (b + c) + d == a + b + (c + d)
    ensures a + (b + c) + d == (a + b) + c + d
  {
  }

  lemma ScanSubTableEnd(img: seq<byte>, at: nat)
    requires at < |img| && img[at] == 0
    ensures ScanSubTable(img, at) == Ok([])
  {
  }

  lemma ScanSubTableCons(img: seq<byte>, at: nat, rec: SubRecord, next: nat, rest: seq<SubRecord>)
    requires DecodeRecord(img, at) == Ok(Some(rec))
    requires next == at + RecordWidth(rec)
    requires ScanSubTable(img, next) == Ok(rest)
    ensures ScanSubTable(img, at) == Ok([rec] + rest)
  {
  }

  lemma {:induction false} ScanSubTableInverse(pre: seq<byte>, recs: seq<SubRecord>, post: seq<byte>)
    requires AllEncodable(recs)
    ensures ScanSubTable(pre + EncodeSubTable(recs) + post, |pre|) == Ok(recs)
    decreases recs
  {
    var img := pre + EncodeSubTable(recs) + post;
    if recs == [] {
      assert img[|pre|] == 0;
      ScanSubTableEnd(img, |pre|);
    } else {
      var r := recs[0];
      var rest := recs[1..];
      assert recs == [r] + rest;
      ConsTable(r, rest);
      var pre' := pre + EncodeRecord(r);
      var enc, tail := EncodeRecord(r), EncodeSubTable(rest);
      assert img == pre + (enc + tail) + post;
      Regroup(pre, enc, tail, post);
      assert DecodeRecord(img, |pre|) == Ok(Some(r)) by {
        DecodeRecordInverse(pre, r, tail + post);
      }
      assert ScanSubTable(img, |pre'|) == Ok(rest) by {
        ScanSubTableInverse(pre', rest, post);
      }
      ScanSubTableCons(img, |pre|, r, |pre'|, rest);
    }
  }
}
