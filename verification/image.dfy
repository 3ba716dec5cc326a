/** The cartridge image as an immutable byte sequence, with bounds-checked
    little-endian reads and the four ROM header fields the filesystem uses.

    The C program reads the image through raw pointer arithmetic over a memory
    mapping and never checks a bound; here every read reports `OutOfBounds`
    instead of touching bytes past the end. */
module Image {
  import opened Results

  /** A byte of the image, as the unsigned value a C `unsigned char` holds. */
  type byte = x: int | 0 <= x < 0x100
  type u16 = x: int | 0 <= x < 0x1_0000
  type u32 = x: int | 0 <= x < 0x1_0000_0000

  const U16_MOD: nat := 0x1_0000
  const U32_MOD: nat := 0x1_0000_0000

  /** Assignment of an unbounded value to a C `uint16_t`: the value modulo 2^16,
      written as repeated adjustment so that each use costs one step of
      linear arithmetic (`Wrap16IsMod` states the modulus). */
  function Wrap16(x: int): (r: u16)
    decreases if x < 0 then 1 else 0, if x < 0 then -x else x
  {
    if x < 0 then Wrap16(x + U16_MOD)
    else if x < U16_MOD then x
    else Wrap16(x - U16_MOD)
  }

  /** Assignment of an unbounded value to a C `uint32_t`, likewise. */
  function Wrap32(x: int): (r: u32)
    decreases if x < 0 then 1 else 0, if x < 0 then -x else x
  {
    if x < 0 then Wrap32(x + U32_MOD)
    else if x < U32_MOD then x
    else Wrap32(x - U32_MOD)
  }

  lemma {:induction false} Wrap16IsMod(x: int)
    ensures Wrap16(x) == x % U16_MOD
    decreases if x < 0 then 1 else 0, if x < 0 then -x else x
  {
    if x < 0 {
      Wrap16IsMod(x + U16_MOD);
      ModPeriod16(x);
    } else if x >= U16_MOD {
      Wrap16IsMod(x - U16_MOD);
      ModPeriod16(x - U16_MOD);
    }
  }

  lemma {:induction false} Wrap32IsMod(x: int)
    ensures Wrap32(x) == x % U32_MOD
    decreases if x < 0 then 1 else 0, if x < 0 then -x else x
  {
    if x < 0 {
      Wrap32IsMod(x + U32_MOD);
      ModPeriod32(x);
    } else if x >= U32_MOD {
      Wrap32IsMod(x - U32_MOD);
      ModPeriod32(x - U32_MOD);
    }
  }

  lemma ModPeriod16(x: int)
    ensures (x + U16_MOD) % U16_MOD == x % U16_MOD
  {
  }

  lemma ModPeriod32(x: int)
    ensures (x + U32_MOD) % U32_MOD == x % U32_MOD
  {
  }

  datatype DecodeError =
    | OutOfBounds(at: nat, width: nat)  // reading `width` bytes at `at` would leave the image
    | DepthExhausted                    // directories nest deeper than the bound given to the builder

  /** The `width` bytes starting at `at`, or `OutOfBounds` when they do not all lie in the image. */
  function ReadBytes(img: seq<byte>, at: nat, width: nat): (r: Result<seq<byte>, DecodeError>)
    ensures r.Ok? <==> at + width <= |img|
    ensures r.Ok? ==> r.value == img[at..at + width]
    ensures r.Err? ==> r.error == OutOfBounds(at, width)
  {
    if at + width <= |img| then Ok(img[at..at + width]) else Err(OutOfBounds(at, width))
  }

  function ReadU8(img: seq<byte>, at: nat): (r: Result<byte, DecodeError>)
    ensures r.Ok? <==> at < |img|
    ensures r.Ok? ==> r.value == img[at]
    ensures r.Err? ==> r.error == OutOfBounds(at, 1)
  {
    if at < |img| then Ok(img[at]) else Err(OutOfBounds(at, 1))
  }

  /** Little-endian encoding of a 16-bit value. */
  function U16Bytes(v: u16): (b: seq<byte>)
    ensures |b| == 2
  {
    [v % 0x100, v / 0x100]
  }

  /** Little-endian encoding of a 32-bit value. */
  function U32Bytes(v: u32): (b: seq<byte>)
    ensures |b| == 4
  {
    [v % 0x100, v / 0x100 % 0x100, v / 0x100 / 0x100 % 0x100, v / 0x100 / 0x100 / 0x100]
  }

  /** A little-endian `uint16_t` (the `memcpy` into a `uint16_t` on a little-endian host). */
  function ReadU16(img: seq<byte>, at: nat): (r: Result<u16, DecodeError>)
    ensures r.Ok? <==> at + 2 <= |img|
    ensures r.Err? ==> r.error == OutOfBounds(at, 2)
  {
    if at + 2 <= |img| then Ok(img[at] as int + 0x100 * (img[at + 1] as int))
    else Err(OutOfBounds(at, 2))
  }

  /** The two bytes a successful read consumed are the encoding of the value read. */
  lemma ReadU16Encodes(img: seq<byte>, at: nat, v: u16)
    requires ReadU16(img, at) == Ok(v)
    ensures at + 2 <= |img| && img[at..at + 2] == U16Bytes(v)
  {
    var b := img[at..at + 2];
    SplitByte(b[0], b[1]);
  }

  /** A little-endian `uint32_t`. */
  function ReadU32(img: seq<byte>, at: nat): (r: Result<u32, DecodeError>)
    ensures r.Ok? <==> at + 4 <= |img|
    ensures r.Err? ==> r.error == OutOfBounds(at, 4)
  {
    if at + 4 <= |img| then Ok(img[at] as int + 0x100 * (img[at + 1] as int + 0x100 * (img[at + 2] as int + 0x100 * (img[at + 3] as int))))
    else Err(OutOfBounds(at, 4))
  }

  /** The four bytes a successful read consumed are the encoding of the value read. */
  lemma ReadU32Encodes(img: seq<byte>, at: nat, v: u32)
    requires ReadU32(img, at) == Ok(v)
    ensures at + 4 <= |img| && img[at..at + 4] == U32Bytes(v)
  {
    var b := img[at..at + 4];
    var hi := (b[2] as int) + 0x100 * (b[3] as int);
    var mid := (b[1] as int) + 0x100 * hi;
    SplitByte(b[2], b[3]);
    SplitByte(b[1], hi);
    SplitByte(b[0], mid);
    assert U32Bytes(v) == b;
  }

  lemma SplitByte(lo: byte, hi: nat)
    ensures (lo + 0x100 * hi) % 0x100 == lo && (lo + 0x100 * hi) / 0x100 == hi
  {
  }

  lemma ReadU16Inverse(pre: seq<byte>, v: u16, post: seq<byte>)
    ensures ReadU16(pre + U16Bytes(v) + post, |pre|) == Ok(v)
  {
    var img := pre + U16Bytes(v) + post;
    assert img[|pre|..|pre| + 2] == U16Bytes(v);
  }

  lemma ReadU32Inverse(pre: seq<byte>, v: u32, post: seq<byte>)
    ensures ReadU32(pre + U32Bytes(v) + post, |pre|) == Ok(v)
  {
    var img := pre + U32Bytes(v) + post;
    assert img[|pre|..|pre| + 4] == U32Bytes(v);
  }

  /** Byte offsets of the four ROM header fields (nitrofs.c, lines 12-22). */
  const FNT_OFFSET_FIELD: nat := 0x40
  const FNT_LENGTH_FIELD: nat := 0x44
  const FAT_OFFSET_FIELD: nat := 0x48
  const FAT_LENGTH_FIELD: nat := 0x4C
  const HEADER_END: nat := 0x50

  datatype Header = Header(fntOffset: u32, fntLength: u32, fatOffset: u32, fatLength: u32)

  /** The sixteen header bytes at 0x40..0x50 that hold `h`. */
  function EncodeHeader(h: Header): (b: seq<byte>)
    ensures |b| == 16
  {
    U32Bytes(h.fntOffset) + U32Bytes(h.fntLength) + U32Bytes(h.fatOffset) + U32Bytes(h.fatLength)
  }

  /** The four header fields, read in the order `main` reads them. */
  function DecodeHeader(img: seq<byte>): (r: Result<Header, DecodeError>)
    ensures r.Ok? <==> HEADER_END <= |img|
    ensures r.Err? ==> r.error.OutOfBounds?
  {
    var fntOffset :- ReadU32(img, FNT_OFFSET_FIELD);
    var fntLength :- ReadU32(img, FNT_LENGTH_FIELD);
    var fatOffset :- ReadU32(img, FAT_OFFSET_FIELD);
    var fatLength :- ReadU32(img, FAT_LENGTH_FIELD);
    Ok(Header(fntOffset, fntLength, fatOffset, fatLength))
  }

  /** The sixteen header bytes are the encoding of the header decoded from them. */
  lemma DecodeHeaderEncodes(img: seq<byte>, h: Header)
    requires DecodeHeader(img) == Ok(h)
    ensures HEADER_END <= |img| && img[FNT_OFFSET_FIELD..HEADER_END] == EncodeHeader(h)
  {
    ReadU32Encodes(img, FNT_OFFSET_FIELD, h.fntOffset);
    ReadU32Encodes(img, FNT_LENGTH_FIELD, h.fntLength);
    ReadU32Encodes(img, FAT_OFFSET_FIELD, h.fatOffset);
    ReadU32Encodes(img, FAT_LENGTH_FIELD, h.fatLength);
    assert img[FNT_OFFSET_FIELD..HEADER_END]
        == img[0x40..0x44] + img[0x44..0x48] + img[0x48..0x4C] + img[0x4C..0x50];
  }

  /** Writing a header into any image of sufficient length and decoding it gives it back. */
  lemma DecodeHeaderInverse(img: seq<byte>, h: Header)
    requires HEADER_END <= |img|
    ensures DecodeHeader(img[..FNT_OFFSET_FIELD] + EncodeHeader(h) + img[HEADER_END..]) == Ok(h)
  {
    var img' := img[..FNT_OFFSET_FIELD] + EncodeHeader(h) + img[HEADER_END..];
    var pre := img[..FNT_OFFSET_FIELD];
    var post := img[HEADER_END..];
    assert img' == pre + U32Bytes(h.fntOffset) + (U32Bytes(h.fntLength) + U32Bytes(h.fatOffset) + U32Bytes(h.fatLength) + post);
    ReadU32Inverse(pre, h.fntOffset, U32Bytes(h.fntLength) + U32Bytes(h.fatOffset) + U32Bytes(h.fatLength) + post);
    assert img' == (pre + U32Bytes(h.fntOffset)) + U32Bytes(h.fntLength) + (U32Bytes(h.fatOffset) + U32Bytes(h.fatLength) + post);
    ReadU32Inverse(pre + U32Bytes(h.fntOffset), h.fntLength, U32Bytes(h.fatOffset) + U32Bytes(h.fatLength) + post);
    assert img' == (pre + U32Bytes(h.fntOffset) + U32Bytes(h.fntLength)) + U32Bytes(h.fatOffset) + (U32Bytes(h.fatLength) + post);
    ReadU32Inverse(pre + U32Bytes(h.fntOffset) + U32Bytes(h.fntLength), h.fatOffset, U32Bytes(h.fatLength) + post);
    assert img' == (pre + U32Bytes(h.fntOffset) + U32Bytes(h.fntLength) + U32Bytes(h.fatOffset)) + U32Bytes(h.fatLength) + post;
    ReadU32Inverse(pre + U32Bytes(h.fntOffset) + U32Bytes(h.fntLength) + U32Bytes(h.fatOffset), h.fatLength, post);
  }
}
