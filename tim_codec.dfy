/**
 * The TIM container as `read_tim` reads it and `write_tim_file` writes it (tim_operations.py).
 * All fields are little-endian:
 *
 *   offset 0   magic `10 00 00 00`
 *   offset 4   format tag, `08 00 00 00` (4-bit indexed) or `09 00 00 00` (8-bit indexed)
 *   offset 8   CLUT section: u32 bnum (12-byte sub-header included), u16 x, u16 y, u16 w, u16 h,
 *              then bnum - 12 bytes of 16-bit colour entries
 *   then       pixel section: u32 bnum, u16 x, u16 y, u16 stored width, u16 height,
 *              then bnum - 12 bytes of packed indices
 *
 * The stored width counts 16-bit units; the pixel width is four times it for 4-bit images
 * and twice it for 8-bit images.
 */
module TimCodec {
  import opened Results
  import opened Bytes

  datatype Format = Indexed4 | Indexed8

  const Magic: seq<byte> := [0x10, 0, 0, 0]
  const Tag4: seq<byte> := [0x08, 0, 0, 0]
  const Tag8: seq<byte> := [0x09, 0, 0, 0]

  /** Size of the sub-header that each section's bnum counts: u32 bnum and four u16 fields. */
  const SectionHeaderSize: nat := 12
  /** Offset of the first CLUT payload byte. */
  const ClutDataOffset: nat := 20
  /** Bytes a file holds besides the two payloads. */
  const FixedSize: nat := 32

  function FormatTag(f: Format): (tag: seq<byte>)
    ensures |tag| == 4
  {
    match f
    case Indexed4 => Tag4
    case Indexed8 => Tag8
  }

  /** Pixels per stored width unit. */
  function WidthFactor(f: Format): (k: nat)
    ensures k == 2 || k == 4
  {
    match f
    case Indexed4 => 4
    case Indexed8 => 2
  }

  /** The dictionary `read_tim` returns, without the file name and path. */
  datatype TimInfo = TimInfo(
    headerId: seq<byte>,
    format: Format,
    clutBnum: nat,
    clutCoordX: nat,
    clutCoordY: nat,
    clutSizeX: nat,
    clutSizeY: nat,
    clutData: seq<byte>,
    pixelBnum: nat,
    pixelCoordX: nat,
    pixelCoordY: nat,
    pixelDataWidth: nat,
    pixelDataHeight: nat,
    pixelData: seq<byte>)

  datatype ParseError =
    | InvalidHeader      // ValueError("Invalid TIM header")
    | UnsupportedFormat  // ValueError("Unsupported TIM format")
    | Truncated          // struct.error: a fixed-size field read past the end of the file
    | NegativeReadLength // ValueError("read length must be non-negative or -1") from `read(bnum - 12)`

  /**
   * The smallest bnum `read_tim` accepts: it reads `bnum - 12` bytes, a buffered binary file
   * reads to the end for -1 and refuses any length below that.
   */
  const MinBnum: nat := SectionHeaderSize - 1

  /**
   * `raw_file.read(n)` at offset `off`: at most `n` bytes, fewer at the end of the file,
   * and everything that remains for n = -1 (smaller lengths raise, see `MinBnum`).
   */
  function Read(s: seq<byte>, off: nat, n: int): (r: seq<byte>)
    requires off <= |s| && n >= -1
    ensures |r| == if 0 <= n <= |s| - off then n else |s| - off
    ensures r == s[off..off + |r|]
  {
    if 0 <= n <= |s| - off then s[off..off + n] else s[off..]
  }

  predicate IsSupportedTag(tag: seq<byte>) {
    tag == Tag4 || tag == Tag8
  }

  /** The magic and a supported format tag are in place. */
  predicate Tagged(s: seq<byte>) {
    |s| >= 8 && s[..4] == Magic && IsSupportedTag(s[4..8])
  }

  /** The whole file is long enough for both sections' fixed fields, given the CLUT bnum at offset 8. */
  predicate HasSections(s: seq<byte>) {
    |s| >= ClutDataOffset && ReadU32(s, 8) >= SectionHeaderSize
    && |s| >= FixedSize + ReadU32(s, 8) - SectionHeaderSize
  }

  /** The pixel section's bnum, right after the CLUT payload. */
  function PixelBnum(s: seq<byte>): nat
    requires HasSections(s)
  {
    ReadU32(s, ClutDataOffset + ReadU32(s, 8) - SectionHeaderSize)
  }

  /** `read_tim` over the bytes of a file. */
  function Parse(s: seq<byte>): (r: Result<TimInfo, ParseError>)
    // the magic is checked first, after both 4-byte fields have been read
    ensures r == Err(InvalidHeader) <==> |s| < 4 || s[..4] != Magic
    ensures r == Err(UnsupportedFormat) <==>
      |s| >= 4 && s[..4] == Magic && (|s| < 8 || !IsSupportedTag(s[4..8]))
    // a CLUT bnum of 11 reads the rest of the file, so the pixel sub-header is missing
    ensures r == Err(Truncated) <==>
      Tagged(s) && (|s| < ClutDataOffset || (ReadU32(s, 8) >= MinBnum && !HasSections(s)))
    ensures r == Err(NegativeReadLength) <==>
      Tagged(s) && |s| >= ClutDataOffset
      && (ReadU32(s, 8) < MinBnum || (HasSections(s) && PixelBnum(s) < MinBnum))
    ensures r.Ok? ==> HasSections(s) && PixelBnum(s) >= MinBnum
  {
    var headerId := Read(s, 0, 4);
    var formatFlag := Read(s, |headerId|, 4);
    if headerId != Magic then Err(InvalidHeader)
    else if !IsSupportedTag(formatFlag) then Err(UnsupportedFormat)
    else if |s| < ClutDataOffset then Err(Truncated)
    else
      var format := if formatFlag == Tag4 then Indexed4 else Indexed8;
      var clutBnum := ReadU32(s, 8);
      if clutBnum < MinBnum then Err(NegativeReadLength)
      else
        var clutData := Read(s, ClutDataOffset, clutBnum - SectionHeaderSize);
        var p := ClutDataOffset + |clutData|;
        if |s| < p + SectionHeaderSize then Err(Truncated)
        else
          var pixelBnum := ReadU32(s, p);
          if pixelBnum < MinBnum then Err(NegativeReadLength)
          else
            Ok(TimInfo(
              headerId, format,
              clutBnum, ReadU16(s, 12), ReadU16(s, 14), ReadU16(s, 16), ReadU16(s, 18), clutData,
              pixelBnum, ReadU16(s, p + 4), ReadU16(s, p + 6),
              ReadU16(s, p + 8) * WidthFactor(format), ReadU16(s, p + 10),
              Read(s, p + SectionHeaderSize, pixelBnum - SectionHeaderSize)))
  }

  /**
   * `s` holds the fields of `t` where `read_tim` finds them: the magic, the format tag, the
   * CLUT section's sub-header fields and payload, then the pixel section's, located right
   * after the CLUT payload.
   */
  predicate ParsedAs(s: seq<byte>, t: TimInfo) {
    var p := ClutDataOffset + |t.clutData|;
    && HasSections(s)
    && p + SectionHeaderSize + |t.pixelData| <= |s|
    && s[..4] == t.headerId == Magic && FormatTag(t.format) == s[4..8]
    && t.clutBnum == ReadU32(s, 8)
    && t.clutCoordX == ReadU16(s, 12) && t.clutCoordY == ReadU16(s, 14)
    && t.clutSizeX == ReadU16(s, 16) && t.clutSizeY == ReadU16(s, 18)
    // the CLUT payload is exactly bnum - 12 bytes
    && |t.clutData| == t.clutBnum - SectionHeaderSize
    && t.clutData == s[ClutDataOffset..p]
    && t.pixelBnum == ReadU32(s, p) && t.pixelBnum >= MinBnum
    && t.pixelCoordX == ReadU16(s, p + 4) && t.pixelCoordY == ReadU16(s, p + 6)
    // the stored width is scaled to pixels, the height is passed through
    && t.pixelDataWidth == ReadU16(s, p + 8) * WidthFactor(t.format)
    && t.pixelDataHeight == ReadU16(s, p + 10)
    // the pixel payload is bnum - 12 bytes, or whatever is left of the file (too short, or bnum 11)
    && |t.pixelData| == (if t.pixelBnum >= SectionHeaderSize && t.pixelBnum - SectionHeaderSize <= |s| - p - SectionHeaderSize
                         then t.pixelBnum - SectionHeaderSize else |s| - p - SectionHeaderSize)
    && t.pixelData == s[p + SectionHeaderSize..p + SectionHeaderSize + |t.pixelData|]
  }

  /** What `read_tim` returns for a file it accepts, field by field. */
  lemma ParseFields(s: seq<byte>)
    requires Parse(s).Ok?
    ensures ParsedAs(s, Parse(s).value)
  {
  }

  /** A file holds the fields of at most one record. */
  lemma ParsedAsUnique(s: seq<byte>, t1: TimInfo, t2: TimInfo)
    requires ParsedAs(s, t1) && ParsedAs(s, t2)
    ensures t1 == t2
  {
    assert t1.format == t2.format by {
      assert FormatTag(t1.format) == FormatTag(t2.format);
    }
    assert |t1.clutData| == |t2.clutData|;
    assert |t1.pixelData| == |t2.pixelData|;
  }

  /** The dictionary `write_tim_file` expects. */
  datatype TimRecord = TimRecord(
    headerId: seq<byte>,
    timFormat: seq<byte>,
    newClutBnum: nat,
    clutCoordX: nat,
    clutCoordY: nat,
    clutSizeX: nat,
    clutSizeY: nat,
    commonClut: seq<byte>,
    newPixelBnum: nat,
    pixelCoordX: nat,
    pixelCoordY: nat,
    storedWidthValue: nat,
    height: nat,
    newPixelData: seq<byte>)

  datatype WriteError = FieldOutOfRange  // struct.error from struct.pack

  /** Every numeric field fits the width `struct.pack` writes it with. */
  predicate FieldsFit(w: TimRecord) {
    && w.newClutBnum < U32Limit && w.newPixelBnum < U32Limit
    && w.clutCoordX < U16Limit && w.clutCoordY < U16Limit
    && w.clutSizeX < U16Limit && w.clutSizeY < U16Limit
    && w.pixelCoordX < U16Limit && w.pixelCoordY < U16Limit
    && w.storedWidthValue < U16Limit && w.height < U16Limit
  }

  /** `write_tim_file`: the bytes of the written file; lengths are written as given, never checked. */
  function Serialize(w: TimRecord): (r: Result<seq<byte>, WriteError>)
    ensures r.Ok? <==> FieldsFit(w)
    ensures r.Ok? ==> |r.value| == |w.headerId| + |w.timFormat| + 2 * SectionHeaderSize + |w.commonClut| + |w.newPixelData|
  {
    if !FieldsFit(w) then Err(FieldOutOfRange)
    else
      var clutHeader := SectionHeader(w.newClutBnum, w.clutCoordX, w.clutCoordY, w.clutSizeX, w.clutSizeY);
      var pixelHeader := SectionHeader(w.newPixelBnum, w.pixelCoordX, w.pixelCoordY, w.storedWidthValue, w.height);
      Ok(w.headerId + w.timFormat + clutHeader + w.commonClut + pixelHeader + w.newPixelData)
  }

  /**
   * `out` holds the fields of `w` where `write_tim_file` writes them: the two 4-byte fields,
   * the CLUT sub-header and payload, then the pixel sub-header and payload, back to back.
   */
  predicate Written(w: TimRecord, out: seq<byte>) {
    var a := |w.headerId|;
    var b := a + |w.timFormat|;
    var c := b + SectionHeaderSize + |w.commonClut|;
    && |out| == |w.headerId| + |w.timFormat| + 2 * SectionHeaderSize + |w.commonClut| + |w.newPixelData|
    && out[..a] == w.headerId && out[a..b] == w.timFormat
    && HeaderAt(out, b, w.newClutBnum, w.clutCoordX, w.clutCoordY, w.clutSizeX, w.clutSizeY)
    && out[b + SectionHeaderSize..c] == w.commonClut
    && HeaderAt(out, c, w.newPixelBnum, w.pixelCoordX, w.pixelCoordY, w.storedWidthValue, w.height)
    && out[c + SectionHeaderSize..] == w.newPixelData
  }

  /** The 12 bytes at `off` read as a sub-header with these five fields. */
  predicate HeaderAt(s: seq<byte>, off: nat, bnum: nat, x: nat, y: nat, w: nat, h: nat) {
    && off + SectionHeaderSize <= |s|
    && ReadU32(s, off) == bnum && ReadU16(s, off + 4) == x && ReadU16(s, off + 6) == y
    && ReadU16(s, off + 8) == w && ReadU16(s, off + 10) == h
  }

  /** Where `write_tim_file` puts each field of the record. */
  lemma SerializeFields(w: TimRecord)
    requires FieldsFit(w)
    ensures Serialize(w).Ok? && Written(w, Serialize(w).value)
  {
    var clutHeader := SectionHeader(w.newClutBnum, w.clutCoordX, w.clutCoordY, w.clutSizeX, w.clutSizeY);
    var pixelHeader := SectionHeader(w.newPixelBnum, w.pixelCoordX, w.pixelCoordY, w.storedWidthValue, w.height);
    var out := Serialize(w).value;
    assert out == w.headerId + w.timFormat + clutHeader + w.commonClut + pixelHeader + w.newPixelData;
    SerializeLayout(w.headerId, w.timFormat, clutHeader, w.commonClut, pixelHeader, w.newPixelData);
    HeaderFieldsAt(out, |w.headerId| + |w.timFormat|,
      w.newClutBnum, w.clutCoordX, w.clutCoordY, w.clutSizeX, w.clutSizeY);
    HeaderFieldsAt(out, |w.headerId| + |w.timFormat| + SectionHeaderSize + |w.commonClut|,
      w.newPixelBnum, w.pixelCoordX, w.pixelCoordY, w.storedWidthValue, w.height);
  }

  /** Bytes that hold every field of `w` where `write_tim_file` puts it are what it writes. */
  lemma WrittenIsSerialized(w: TimRecord, s: seq<byte>)
    requires FieldsFit(w) && Written(w, s)
    ensures Serialize(w) == Ok(s)
  {
    var a := |w.headerId|;
    var b := a + |w.timFormat|;
    var c := b + SectionHeaderSize + |w.commonClut|;
    var clutHeader := SectionHeader(w.newClutBnum, w.clutCoordX, w.clutCoordY, w.clutSizeX, w.clutSizeY);
    var pixelHeader := SectionHeader(w.newPixelBnum, w.pixelCoordX, w.pixelCoordY, w.storedWidthValue, w.height);
    HeaderOfReads(s, b, w.newClutBnum, w.clutCoordX, w.clutCoordY, w.clutSizeX, w.clutSizeY);
    HeaderOfReads(s, c, w.newPixelBnum, w.pixelCoordX, w.pixelCoordY, w.storedWidthValue, w.height);
    PrefixSplit(s, a, b);
    Reassemble(s, b, c, w.headerId + w.timFormat, clutHeader, w.commonClut, pixelHeader, w.newPixelData);
  }

  lemma PrefixSplit(s: seq<byte>, a: nat, b: nat)
    requires a <= b <= |s|
    ensures s[..b] == s[..a] + s[a..b]
  {
  }

  /** The 12 bytes of a sub-header are the sub-header of the fields read from them. */
  lemma HeaderOfReads(s: seq<byte>, off: nat, bnum: nat, x: nat, y: nat, w: nat, h: nat)
    requires HeaderAt(s, off, bnum, x, y, w, h)
    ensures s[off..off + SectionHeaderSize] == SectionHeader(bnum, x, y, w, h)
  {
    U32BytesOfRead(s, off);
    U16BytesOfRead(s, off + 4);
    U16BytesOfRead(s, off + 6);
    U16BytesOfRead(s, off + 8);
    U16BytesOfRead(s, off + 10);
    assert s[off..off + SectionHeaderSize] ==
      s[off..off + 4] + s[off + 4..off + 6] + s[off + 6..off + 8] + s[off + 8..off + 10] + s[off + 10..off + 12];
  }

  /** A written file is its five pieces: the two 4-byte fields, then header, payload, header, payload. */
  lemma Reassemble(s: seq<byte>, b: nat, c: nat, p1: seq<byte>, p2: seq<byte>, p3: seq<byte>, p4: seq<byte>, p5: seq<byte>)
    requires b + SectionHeaderSize <= c && c + SectionHeaderSize <= |s|
    requires s[..b] == p1 && s[b..b + SectionHeaderSize] == p2 && s[b + SectionHeaderSize..c] == p3
    requires s[c..c + SectionHeaderSize] == p4 && s[c + SectionHeaderSize..] == p5
    ensures s == p1 + p2 + p3 + p4 + p5
  {
    assert s == s[..b] + s[b..b + SectionHeaderSize] + s[b + SectionHeaderSize..c]
      + s[c..c + SectionHeaderSize] + s[c + SectionHeaderSize..];
  }

  /** The 12-byte sub-header of a section: u32 bnum, then four u16 fields. */
  function SectionHeader(bnum: nat, x: nat, y: nat, w: nat, h: nat): (r: seq<byte>)
    requires bnum < U32Limit && x < U16Limit && y < U16Limit && w < U16Limit && h < U16Limit
    ensures |r| == SectionHeaderSize
    ensures ReadU32(r, 0) == bnum && ReadU16(r, 4) == x && ReadU16(r, 6) == y
    ensures ReadU16(r, 8) == w && ReadU16(r, 10) == h
  {
    var r := U32Bytes(bnum) + U16Bytes(x) + U16Bytes(y) + U16Bytes(w) + U16Bytes(h);
    assert r[4..6] == U16Bytes(x) && r[6..8] == U16Bytes(y);
    assert r[8..10] == U16Bytes(w) && r[10..12] == U16Bytes(h);
    r
  }

  /** The fields of a sub-header read back where it is embedded. */
  lemma HeaderFieldsAt(s: seq<byte>, off: nat, bnum: nat, x: nat, y: nat, w: nat, h: nat)
    requires bnum < U32Limit && x < U16Limit && y < U16Limit && w < U16Limit && h < U16Limit
    requires off + SectionHeaderSize <= |s| && s[off..off + SectionHeaderSize] == SectionHeader(bnum, x, y, w, h)
    ensures HeaderAt(s, off, bnum, x, y, w, h)
  {
    var hd := SectionHeader(bnum, x, y, w, h);
    assert forall k | 0 <= k < SectionHeaderSize :: s[off + k] == hd[k];
  }

  /** Where the six pieces of a written file lie. */
  lemma SerializeLayout(h: seq<byte>, f: seq<byte>, h1: seq<byte>, d1: seq<byte>, h2: seq<byte>, d2: seq<byte>)
    ensures var out := h + f + h1 + d1 + h2 + d2;
      var a := |h|;
      var b := a + |f|;
      var c := b + |h1| + |d1|;
      && |out| == |h| + |f| + |h1| + |d1| + |h2| + |d2|
      && out[..a] == h
      && out[a..b] == f
      && out[b..b + |h1|] == h1
      && out[b + |h1|..c] == d1
      && out[c..c + |h2|] == h2
      && out[c + |h2|..] == d2
  {
    var out := h + f + h1 + d1 + h2 + d2;
    var a := |h|;
    var b := a + |f|;
    var c := b + |h1| + |d1|;
    assert out == (h + f + h1 + d1 + h2) + d2;
    assert out[..c + |h2|] == h + f + h1 + d1 + h2;
    assert out[..c] == h + f + h1 + d1;
    assert out[..b + |h1|] == h + f + h1;
    assert out[..b] == h + f;
  }

  /** The record that writes back, field for field, a parsed file whose lengths are exact. */
  function RecordOf(t: TimInfo): (w: TimRecord)
    ensures w.storedWidthValue * WidthFactor(t.format) <= t.pixelDataWidth
  {
    TimRecord(
      t.headerId, FormatTag(t.format), t.clutBnum,
      t.clutCoordX, t.clutCoordY, t.clutSizeX, t.clutSizeY, t.clutData,
      t.pixelBnum, t.pixelCoordX, t.pixelCoordY,
      t.pixelDataWidth / WidthFactor(t.format), t.pixelDataHeight, t.pixelData)
  }

  /**
   * Serialize then parse: every field comes back, the stored width scaled by the
   * format's factor, provided the bnums match the payloads and the tag is supported.
   */
  lemma {:induction false} ParseSerialize(w: TimRecord, f: Format)
    requires FieldsFit(w)
    requires w.headerId == Magic && w.timFormat == FormatTag(f)
    requires w.newClutBnum == |w.commonClut| + SectionHeaderSize
    requires w.newPixelBnum == |w.newPixelData| + SectionHeaderSize
    ensures Serialize(w).Ok?
    ensures |Serialize(w).value| == FixedSize + |w.commonClut| + |w.newPixelData|
    ensures Parse(Serialize(w).value) == Ok(TimInfo(
      Magic, f, w.newClutBnum,
      w.clutCoordX, w.clutCoordY, w.clutSizeX, w.clutSizeY, w.commonClut,
      w.newPixelBnum, w.pixelCoordX, w.pixelCoordY,
      w.storedWidthValue * WidthFactor(f), w.height, w.newPixelData))
  {
    SerializeFields(w);
    ParseWritten(w, f, Serialize(w).value);
  }

  /** Bytes holding a well-formed record's fields parse back to them. */
  lemma ParseWritten(w: TimRecord, f: Format, s: seq<byte>)
    requires w.headerId == Magic && w.timFormat == FormatTag(f)
    requires w.newClutBnum == |w.commonClut| + SectionHeaderSize
    requires w.newPixelBnum == |w.newPixelData| + SectionHeaderSize
    requires Written(w, s)
    ensures Parse(s) == Ok(TimInfo(
      Magic, f, w.newClutBnum,
      w.clutCoordX, w.clutCoordY, w.clutSizeX, w.clutSizeY, w.commonClut,
      w.newPixelBnum, w.pixelCoordX, w.pixelCoordY,
      w.storedWidthValue * WidthFactor(f), w.height, w.newPixelData))
  {
    var t := TimInfo(
      Magic, f, w.newClutBnum,
      w.clutCoordX, w.clutCoordY, w.clutSizeX, w.clutSizeY, w.commonClut,
      w.newPixelBnum, w.pixelCoordX, w.pixelCoordY,
      w.storedWidthValue * WidthFactor(f), w.height, w.newPixelData);
    WrittenParsedAs(w, f, s);
    assert Parse(s).Ok?;
    ParseFields(s);
    ParsedAsUnique(s, Parse(s).value, t);
  }

  /** A well-formed record's bytes hold the parsed fields of the matching file. */
  lemma WrittenParsedAs(w: TimRecord, f: Format, s: seq<byte>)
    requires w.headerId == Magic && w.timFormat == FormatTag(f)
    requires w.newClutBnum == |w.commonClut| + SectionHeaderSize
    requires w.newPixelBnum == |w.newPixelData| + SectionHeaderSize
    requires Written(w, s)
    ensures ParsedAs(s, TimInfo(
      Magic, f, w.newClutBnum,
      w.clutCoordX, w.clutCoordY, w.clutSizeX, w.clutSizeY, w.commonClut,
      w.newPixelBnum, w.pixelCoordX, w.pixelCoordY,
      w.storedWidthValue * WidthFactor(f), w.height, w.newPixelData))
  {
    var p := ClutDataOffset + |w.commonClut|;
    assert |s| == p + SectionHeaderSize + |w.newPixelData|;
    assert s[p + SectionHeaderSize..p + SectionHeaderSize + |w.newPixelData|] == s[p + SectionHeaderSize..];
  }

  /**
   * Parse then serialize: a file whose payloads are exactly as long as its bnums say and
   * which ends after the pixel payload is written back byte for byte.
   */
  lemma {:induction false} SerializeParse(s: seq<byte>)
    requires Parse(s).Ok?
    requires Parse(s).value.pixelBnum == |Parse(s).value.pixelData| + SectionHeaderSize
    requires |s| == FixedSize + |Parse(s).value.clutData| + |Parse(s).value.pixelData|
    ensures Serialize(RecordOf(Parse(s).value)) == Ok(s)
  {
    var t := Parse(s).value;
    ParseFields(s);
    ParsedAsWritten(s, t);
    WrittenIsSerialized(RecordOf(t), s);
  }

  /** A parsed file with exact payload lengths holds the record that writes it back. */
  lemma ParsedAsWritten(s: seq<byte>, t: TimInfo)
    requires ParsedAs(s, t)
    requires t.pixelBnum == |t.pixelData| + SectionHeaderSize
    requires |s| == FixedSize + |t.clutData| + |t.pixelData|
    ensures FieldsFit(RecordOf(t)) && Written(RecordOf(t), s)
  {
    var w := RecordOf(t);
    var p := ClutDataOffset + |t.clutData|;
    var stored := ReadU16(s, p + 8);
    assert w.storedWidthValue == stored by {
      if t.format == Indexed4 {
        assert t.pixelDataWidth / 4 == stored;
      } else {
        assert t.pixelDataWidth / 2 == stored;
      }
    }
    assert s[p + SectionHeaderSize..] == w.newPixelData;
  }
}
