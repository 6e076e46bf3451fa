# TIM codec and re-encoder, modelled in Dafny

This project models the integer core of a PlayStation TIM image tool: reading and writing the
TIM container, decoding it to RGBA, loading a folder of TIM files, grouping them by their CLUT
coordinates, re-encoding an edited raster with a shared group palette, and the integer part of
computing that palette (the thumbnail row tiling, the mosaic placement and the palette
extraction).

A TIM file, all fields little-endian:

- offset 0: the magic `10 00 00 00`;
- offset 4: the format tag, `08 00 00 00` for 4-bit indexed or `09 00 00 00` for 8-bit indexed;
- offset 8: the CLUT section. It starts with a u32 `bnum` that counts its own 12-byte
  sub-header, then four u16 fields (x, y, width, height), then `bnum - 12` bytes of 16-bit
  5-5-5 colour entries;
- the pixel section follows, with the same sub-header: a u32 `bnum`, x, y, a stored width in
  16-bit units and a height, then `bnum - 12` bytes of packed indices.

The image width is four times the stored width for 4-bit images and twice it for 8-bit ones.
Besides its two payloads a file holds 32 fixed bytes: 4 + 4 for the magic and tag, plus two
12-byte sub-headers.

Modules, one per file:

- `Results` (results.dfy): `Option` and `Result`. They stand in for the exceptions the
  Python code raises.
- `Bytes` (bytes.dfy): bytes, and the `<H` / `<I` fields of `struct`.
- `Colors` (colors.dfy): RGB and RGBA pixels.
- `TimCodec` (tim_codec.dfy): `read_tim` as `Parse`, a function over the bytes of a file, and
  `write_tim_file` as `Serialize`. It also holds both round trips.
- `TimDecode` (tim_decode.dfy): the `Tim_Object` class.
  - The constructor copies the parsed fields.
  - `Decode` expands the CLUT, then fills a fresh width × height pixel array row by row.
  - On success it sets `pilImage`.
- `Loader` (loader.dfy): two operations.
  - `load_tim_files`: which directory entries load, under which key, and when loading stops with
    an error.
  - `group_by_clut_coords`: the partition into palette groups, kept in insertion order.
- `Encoder` (encoder.dfy): the encode body of `convert_png_tim`, in six steps.
  - Nearest palette index: squared RGB distance, ties to the lowest index.
  - The alpha mask.
  - 4-bit and 8-bit packing.
  - The 5-5-5 CLUT, padded with its last entry or cut to the declared slot count.
  - The output record.
  - Decoding an encoded image back, pixel by pixel.
- `GroupPalette` (group_palette.dfy): the integer part of `compute_group_palette`.
  - Thumbnails are tiled greedily into rows of at most 1024 pixels.
  - The mosaic's size is computed, and every thumbnail is placed inside it.
  - The palette PIL returns is cut, or padded with black, to exactly `palette_size` entries.

Behaviour at the edges follows the code.

- A short read at the end of the file returns what is left.
- A `bnum` of exactly 11 makes `read(bnum - 12)`, that is `read(-1)`, read to the end of the
  file; `Read` models this. A CLUT `bnum` of 11 therefore leaves nothing for the pixel
  sub-header, and the file is `Truncated`.
- A `bnum` below 11, in either section, asks the buffered reader for a length below -1, which
  raises `ValueError`; this is the `NegativeReadLength` error.
- A fixed-size field read past the end is the `Truncated` error. In Python this is
  `struct.error` from `struct.unpack`.
- An odd-length CLUT is the `OddClutLength` decode error. numpy raises for it.
- An index past the pixel data or the CLUT is `IndexOutOfRange`. Python raises `IndexError`.
- A field `struct.pack` cannot hold makes `Serialize` fail with `FieldOutOfRange`.

These are error results, not preconditions. Modelling them costs nothing, and it keeps every
input in scope.

## Model

| member | source | states |
|---|---|---|
| Bytes.ReadU16 | tim_operations.py:21-24 | a `<H` field is below 2^16 |
| Bytes.ReadU32 | tim_operations.py:20 | a `<I` field is below 2^32 |
| Bytes.U16Bytes | tim_operations.py:78-84 | `struct.pack('<H', v)` is two bytes that read back as v |
| Bytes.U32Bytes | tim_operations.py:77 | `struct.pack('<I', v)` is four bytes that read back as v |
| Bytes.U16BytesOfRead | tim_operations.py:21-24 | reading two bytes as a u16 and packing the value again gives the same two bytes |
| Bytes.U32BytesOfRead | tim_operations.py:20 | reading four bytes as a u32 and packing the value again gives the same four bytes |
| Colors.ToRgb | ui_actions.py:307-308 | dropping alpha and making the pixel opaque again gives back the pixel exactly when it was fully opaque |
| TimCodec.FormatTag | tim_operations.py:18 | each supported format tag is a 4-byte field |
| TimCodec.WidthFactor | tim_operations.py:32-35 | pixels per stored width unit are 4 or 2 |
| TimCodec.Read | tim_operations.py:26-37 | for n >= -1, the only lengths the reader accepts: `read(n)` returns the next n bytes, fewer at the end of the file, and the rest of the file for n = -1 |
| TimCodec.Parse | tim_operations.py:9-37 | "Invalid TIM header" exactly when the first 4 bytes are not the magic (checked after the tag is read); "Unsupported TIM format" exactly when the magic is right and the tag is neither 08 nor 09; a truncation error exactly when the magic and tag are right but a fixed field runs past the end before a read length below -1 is asked for; the negative-read-length error exactly when a bnum below 11 is reached, the CLUT bnum or, with both sub-headers present, the pixel bnum; success otherwise, and then both bnums are at least 11 |
| TimCodec.ParseFields | tim_operations.py:20-37 | an accepted file's record holds the fields at their offsets: the CLUT payload is exactly bnum - 12 bytes, the pixel section follows it, the width is the stored width times 4 (tag 08) or 2 (tag 09), the height is passed through, and the pixel payload is bnum - 12 bytes or whatever is left of the file |
| TimCodec.ParsedAsUnique | tim_operations.py:20-37 | the field layout pins the record: one file holds the fields of at most one record |
| TimCodec.Serialize | tim_operations.py:57-85 | writing succeeds exactly when every numeric field fits its `struct` width; the output is header + tag + both payloads + 24 sub-header bytes long; bnums are written as given, never checked |
| TimCodec.SerializeFields | tim_operations.py:74-85 | every field of the record is at its place in the written bytes, in the order header, tag, CLUT sub-header, CLUT bytes, pixel sub-header, pixel bytes |
| TimCodec.WrittenIsSerialized | tim_operations.py:74-85 | bytes that hold every field of a record at its place are exactly what `write_tim_file` writes for it |
| TimCodec.SectionHeader | tim_operations.py:77-79 | a 12-byte sub-header, u32 then four u16, reads back as its five fields |
| TimCodec.RecordOf | tim_operations.py:32-35 | the stored width a parsed record writes back never exceeds its pixel width once scaled |
| TimCodec.ParseSerialize | tim_operations.py:9-85 | serialise then parse gives back every field when each bnum is its payload length + 12 and the tag is supported; the width comes back as stored width × factor; the file is 32 + both payload lengths long |
| TimCodec.SerializeParse | tim_operations.py:9-85 | parse then serialise writes the file back byte for byte when its payloads are as long as the bnums say and it ends after the pixel payload |
| TimDecode.ExpandEntry | tim_operations.py:118-119 | every expanded channel is a multiple of 8 and at most 248 |
| TimDecode.ExpandIgnoresBit15 | tim_operations.py:118 | bit 15 of a CLUT entry plays no part in its colour |
| TimDecode.ExpandClut | tim_operations.py:117-120 | the expanded CLUT has one colour per 16-bit little-endian entry, entry k from bytes 2k and 2k + 1; every channel of every decoded colour is a multiple of 8 |
| TimDecode.ExpandClutEntry | tim_operations.py:117-120 | the two bytes of one packed entry decode to exactly that entry's colour |
| TimDecode.ExpandClutAppend | tim_operations.py:117-120 | decoding two whole-entry CLUTs one after the other gives the two decoded CLUTs joined |
| TimDecode.PixelColor | tim_operations.py:127-137 | a pixel's colour, when it has one, is a CLUT entry; with a CLUT of at least 16 (4-bit) or 256 (8-bit) entries a pixel has a colour exactly when its byte is inside the data |
| TimDecode.PixelIndex | tim_operations.py:123-137 | a pixel's index is below 16 (4-bit) or 256 (8-bit) |
| TimDecode.NibbleColors | tim_operations.py:126-132 | in 4-bit data, pixel x (even) takes the low nibble and pixel x + 1 the high nibble of the byte at y * (w / 2) + x / 2 |
| TimDecode.TimObject.constructor | tim_operations.py:92-111 | the object holds exactly the parsed fields, with both payload lengths, and no image yet |
| TimDecode.TimObject.Decode | tim_operations.py:113-139 | success exactly when the CLUT is whole entries and every pixel's index is inside the data and the CLUT; the image is then a fresh width × height array whose every pixel is the opaque CLUT colour of its index; on failure the image field is unchanged |
| TimDecode.TimObject.DecodeRow4 | tim_operations.py:124-132 | one 4-bit row: every pixel of row y is set to its colour, or the row has a pixel with no colour; other rows are untouched |
| TimDecode.TimObject.DecodePair | tim_operations.py:126-132 | one byte of a 4-bit row sets pixel x and, when x + 1 is inside the row, pixel x + 1; a failure means the row has a pixel with no colour |
| TimDecode.TimObject.DecodeRow8 | tim_operations.py:134-137 | one 8-bit row: pixel x of row y takes `clut[data[y * w + x]]`, or the row has a pixel with no colour; other rows are untouched |
| Loader.Lower | ui_actions.py:33 | lowering keeps the length |
| Loader.TimSuffixCases | ui_actions.py:33 | an entry is kept exactly when its suffix is `.tim` in any mix of upper and lower case |
| Loader.TimEntries | ui_actions.py:32-34 | the entries kept are the .tim ones, in directory order |
| Loader.TimEntriesAppend | ui_actions.py:32-34 | filtering distributes over concatenation |
| Loader.LoadTimFiles | ui_actions.py:19-48 | success exactly when there is a .tim entry and every .tim entry parses with a stem not seen before; the result maps each stem, in order, to its parsed file, with distinct keys; "no .tim files" exactly when there are none; otherwise the error is the first entry that fails: its parse error, or its repeated stem |
| Loader.LoadedDistinct | ui_actions.py:39-43 | entries that all load have distinct stems |
| Loader.GroupByClutCoords | ui_actions.py:99-116 | the keys appear in first-seen order, each exactly once, and each key's list holds the names of exactly the images with that key, in input order |
| Loader.SameGroupKey | ui_actions.py:113 | two images share a group key exactly when their format and both CLUT coordinates agree; CLUT size, pixel fields and payloads play no part |
| Loader.KeysInOrderSpec | ui_actions.py:110-114 | the group keys are distinct and are exactly the keys of the images |
| Loader.GroupMembership | ui_actions.py:112-114 | a name is in key k's group exactly when an image of that name has key k |
| Loader.ExactlyOneGroup | ui_actions.py:112-114 | with distinct names, every image is in exactly one group: the group of its own (format, CLUT x, CLUT y) |
| Loader.GroupKeepsOrder | ui_actions.py:112-114 | a group lists its names as a subsequence of the input order |
| Encoder.Nearest | ui_actions.py:312-323 | the nearest entry is an index of the palette |
| Encoder.NearestIsNearest | ui_actions.py:312-323 | the chosen entry is at minimal squared distance, and no lower index is as close |
| Encoder.NearestUnique | ui_actions.py:312-323 | only one index has that property, so the choice is determined |
| Encoder.NearestIndex | ui_actions.py:312-323 | the scan with a strict `<` returns the minimal-distance index with ties to the lowest |
| Encoder.NearestOfPaletteColour | ui_actions.py:312-323 | a pixel of exactly entry i's colour maps to an entry of that same colour, no entry before it has that colour, and so it is i itself when no earlier entry repeats it |
| Encoder.MaskTransparent | ui_actions.py:327-331 | in place: indices under alpha below 128 become 0, all others are unchanged |
| Encoder.IndexOf | ui_actions.py:325-331 | a pixel's index fits a byte; it is 0 under alpha below 128, and the nearest palette entry otherwise (the palette has at most 256 entries) |
| Encoder.Indexes | ui_actions.py:325-331 | one index per pixel, each below 256 |
| Encoder.IndexPixels | ui_actions.py:325-331 | one index per pixel: 0 under alpha below 128 whatever the colour, otherwise the low byte of the nearest entry |
| Encoder.Pack8 | ui_actions.py:335 | the 8-bit payload has one byte per pixel |
| Encoder.Packed4 | ui_actions.py:342-349 | the 4-bit payload has one byte per two pixels |
| Encoder.Pack4 | ui_actions.py:338-350 | an odd width fails before any byte is built; otherwise the bytes are the row-major pairs, `(i2 << 4) \| i1` with both nibbles masked |
| Encoder.PackRow | ui_actions.py:343-348 | one row's pairs extend the packed prefix by w / 2 bytes |
| Encoder.StoredWidth | ui_actions.py:336-350 | the stored width is the pixel width in whole 16-bit units, rounded down: 2 pixels per unit (8-bit), 4 (4-bit) |
| Encoder.Pack555 | ui_actions.py:358 | a packed entry fits 15 bits |
| Encoder.ExpandPack555 | ui_actions.py:358 | decoding a packed entry gives the colour with the low three bits of each channel cleared |
| Encoder.QuantizeIdempotent | ui_actions.py:358 | a colour already cut to five bits per channel packs and decodes to itself |
| Encoder.ClutExpected | ui_actions.py:353-355 | the slot count is never zero: the declared size_x * size_y, or the palette size when that product is 0 |
| Encoder.ClutWord | ui_actions.py:357-364 | every CLUT word fits 15 bits |
| Encoder.ClutBytes | ui_actions.py:356-366 | the CLUT is exactly 2 * clut_expected bytes |
| Encoder.ClutBytesEntry | ui_actions.py:357-364 | CLUT entry j reads back as palette entry j packed, then the last entry repeated, then 0 for an empty palette |
| Encoder.ClutBytesPrefix | ui_actions.py:365-366 | cutting the CLUT keeps its prefix |
| Encoder.ClutDecodesToPalette | ui_actions.py:356-366 | a re-encoded CLUT decodes, entry by entry, to the palette cut to five bits per channel, padded with its last colour |
| Encoder.PackClut | ui_actions.py:356-366 | the append, pad and trim loops build exactly that CLUT |
| Encoder.Assemble | ui_actions.py:368-386 | the output record's bnums count the payloads plus their 12-byte sub-headers, its tag is the one of the image's format, and its stored width is the width in 16-bit units |
| Encoder.Encoded | ui_actions.py:296-386 | failure exactly on a size mismatch or an odd 4-bit width, with that error; on success the CLUT is 2 * clut_expected bytes and both bnums are payload + 12 |
| Encoder.EncodeTim | ui_actions.py:296-386 | the method builds exactly the record `Encoded` describes |
| Encoder.PixelBytesLength | ui_actions.py:334-350 | the pixel payload is h * (w / 2) bytes (4-bit) or h * w bytes (8-bit) |
| Encoder.EncodedLayout | ui_actions.py:334-369 | an encoded record's pixel payload has that length and its stored width never exceeds the width once scaled |
| Encoder.Unpack8Pack8 | ui_actions.py:335 | the 8-bit decoder reads pixel (x, y) of packed indices as the low byte of index y * w + x |
| Encoder.Unpack4Pack4 | ui_actions.py:342-349 | the 4-bit decoder's nibble rule reads pixel (x, y) of packed indices as index y * w + x masked to four bits |
| Encoder.AssembledFileParses | ui_actions.py:368-386 | the record written and read back gives the original's header, tag, coordinates, CLUT sizes, height and both payloads, with bnums of payload + 12; the width comes back whenever it is a whole number of 16-bit units |
| Encoder.EncodedPixelColour | ui_actions.py:306-386 | decoding an encoded image gives each pixel the CLUT colour of the index the encoder chose for it |
| Encoder.UnchangedColourSurvives | ui_actions.py:306-366 | a visible pixel whose colour is a 5-bit palette entry that fits the depth and the CLUT comes back as that colour |
| Encoder.TransparentPixelTakesEntryZero | ui_actions.py:327-331 | a pixel with alpha below 128 decodes to palette entry 0, cut to five bits, whatever its colour |
| GroupPalette.MaxHeightIsMax | ui_actions.py:236 | `cur_h` is at least every thumbnail's height and equals one of them |
| GroupPalette.TileStep | ui_actions.py:227-236 | one thumbnail keeps the loop state: closed rows form a greedy tiling, the open row fits, and `cur_w` / `cur_h` are its width and height |
| GroupPalette.StartRow | ui_actions.py:228-232 | a thumbnail that does not fit closes the row and opens the next |
| GroupPalette.JoinRow | ui_actions.py:233-236 | a thumbnail that fits, or meets an empty row, joins it |
| GroupPalette.TileRows | ui_actions.py:221-238 | the rows hold the thumbnails in order; each row is non-empty, as tall as its tallest thumbnail and at most 1024 wide unless it is one thumbnail; each later row starts with a thumbnail that did not fit the row before; there are rows exactly when there are thumbnails |
| GroupPalette.GreedyTilingUnique | ui_actions.py:221-238 | two tilings with those properties are the same rows, so the loop's contract fixes its output |
| GroupPalette.MosaicWidth | ui_actions.py:240 | the mosaic is as wide as its widest row: no row is wider, and one row is that wide |
| GroupPalette.MosaicWidthBound | ui_actions.py:228-240 | the mosaic is at most 1024 wide, or as wide as one of the thumbnails |
| GroupPalette.MosaicHeight | ui_actions.py:241 | the mosaic is at least as tall as every row |
| GroupPalette.ThumbsOf | ui_actions.py:243-249 | one placement per pasted thumbnail |
| GroupPalette.PlaceThumbs | ui_actions.py:241-249 | every thumbnail is pasted once, in order, wholly inside the mosaic_w × mosaic_h mosaic; thumbnail k of row i is pasted at y = the total height of rows 0 .. i - 1 and x = the total width of the thumbnails before it in its row |
| GroupPalette.PlaceRow | ui_actions.py:245-248 | one row's thumbnails are appended side by side: thumbnail k at x = the total width of thumbnails 0 .. k - 1, at the row's y, all inside the mosaic; earlier placements are kept |
| GroupPalette.PlacedRowExtend | ui_actions.py:243-249 | appending placements keeps a row's recorded positions |
| GroupPalette.PlacedRowsStep | ui_actions.py:243-249 | placements that extend those of rows 0 .. i - 1 and add row i at y = the height of the rows before it hold rows 0 .. i at their positions |
| GroupPalette.ExtractPalette | ui_actions.py:252-257 | exactly `palette_size` colours: the j-th triple PIL returned while there is one, black after that |

## Left out

- main.py and the GUI, the config file, and the QImage / QPixmap construction at the end of
  `decode`: user interface and Qt.
- Opening, listing and writing files: `Path.iterdir`, `is_dir`, `open`, `mkdir`, and the
  existence and size checks of `match_png_files`. File contents and directory entries are
  inputs.
- `Loader.LoadTimFiles`: each directory entry carries the result of `read_tim` on its bytes,
  that is `Parse`. The missing-folder `RuntimeError` is file-system work and is left out. A
  loaded item holds the parsed record rather than a `Tim_Object`.
- Lower: only ASCII letters are folded. Python's `str.lower` also folds other letters, which
  cannot turn a suffix into `.tim`.
- PIL is left out: `Image.open`, `convert`, `resize` with LANCZOS, `quantize` with MEDIANCUT,
  `getpalette` and `paste`.
  - The raster, its alpha channel and the group palette are inputs to the encoder.
  - Thumbnail sizes are inputs to the tiling, with no float scale factor (lines 214-216).
  - PIL's flat palette list is an input to the extraction. `getpalette() or []` makes a
    missing palette empty.
  - `PlaceThumbs` models where each thumbnail is pasted, not the pixels pasted.
- The `file_name` and `file_path` entries of the `read_tim` dictionary are the file-system path
  and are not part of the parsed record; a loaded item is keyed by stem instead.
- `validate_group_palettes` only prints. The save loop of `convert_tim_png`, and the exception
  wrapping in `convert_png_tim`, are left out too.
- `encode_from_pil` does not exist on `Tim_Object`, so line 303 always falls through to the
  `AttributeError` branch. Only that branch is modelled.
- The group loop of `convert_png_tim` (lines 280-299) is not modelled. It consists of
  collecting paths, calling `compute_group_palette` and writing the file.
  - The palette size of line 282 is `Encoder.PaletteSize`.
  - The size re-check of lines 298-299 is the `SizeMismatch` error.
- numpy's native byte order: CLUT entries are read little-endian.
- `Encoder.EncodeTim` requires a non-empty palette. The palette always has `palette_size`
  (16 or 256) entries.
- `Encoder.EncodeTim` also requires a raster of width × height pixels, as PIL gives it.
- `GroupPalette.MosaicWidth` requires at least one row. Python's `max` raises `ValueError` on an
  empty sequence, and every group has at least one image.
- `GroupPalette.ExtractPalette` requires whole RGB triples, which `getpalette` always returns.
