/**
 * The re-encode step of `convert_png_tim` (ui_actions.py): one edited RGBA raster, the palette
 * shared by its group and the metadata of the original TIM become the record `write_tim_file`
 * writes. Pixels map to the nearest palette entry, transparent pixels to index 0; indices are
 * packed two per byte (4-bit) or one per byte (8-bit); the palette becomes 16-bit 5-5-5 entries,
 * padded or cut to the slot count the original CLUT declares.
 */
module Encoder {
  import opened Results
  import opened Bytes
  import opened Colors
  import opened TimCodec
  import TimDecode

  /** `palette_size`: 16 entries for the 4-bit tag, 256 otherwise. */
  function PaletteSize(f: Format): nat {
    if f == Indexed4 then 16 else 256
  }

  /** Pixels whose alpha is below this are forced to index 0. */
  const AlphaThreshold: nat := 128

  // ---------------------------------------------------------------------------------------
  // Nearest palette entry
  // ---------------------------------------------------------------------------------------

  function Sq(d: int): int {
    d * d
  }

  /** Squared Euclidean distance over (R, G, B). */
  function Dist(p: Rgb, q: Rgb): int {
    Sq(p.r - q.r) + Sq(p.g - q.g) + Sq(p.b - q.b)
  }

  lemma SqFacts(d: int)
    ensures Sq(d) >= 0
    ensures Sq(d) == 0 <==> d == 0
  {
    if d < 0 {
      assert Sq(d) == (-d) * (-d);
    }
    if d != 0 {
      assert d * d >= 1 by {
        if d > 0 {
          assert d * d >= d * 1;
        } else {
          assert (-d) * (-d) >= (-d) * 1;
        }
      }
    }
  }

  /** The distance is never negative and is zero exactly between equal colours. */
  lemma DistFacts(p: Rgb, q: Rgb)
    ensures Dist(p, q) >= 0
    ensures Dist(p, q) == 0 <==> p == q
  {
    SqFacts(p.r - q.r);
    SqFacts(p.g - q.g);
    SqFacts(p.b - q.b);
  }

  /** `i` is at minimal distance from `px`, and no lower index is as close. */
  predicate IsNearest(pal: seq<Rgb>, px: Rgb, i: nat) {
    && i < |pal|
    && (forall j | 0 <= j < |pal| :: Dist(px, pal[i]) <= Dist(px, pal[j]))
    && (forall j | 0 <= j < i :: Dist(px, pal[j]) > Dist(px, pal[i]))
  }

  /** The entry `nearest_index` picks, as a definition over palette prefixes. */
  function Nearest(pal: seq<Rgb>, px: Rgb): (i: nat)
    requires |pal| > 0
    ensures i < |pal|
    decreases |pal|
  {
    if |pal| == 1 then 0
    else
      var front := pal[..|pal| - 1];
      var j := Nearest(front, px);
      if Dist(px, pal[|pal| - 1]) < Dist(px, pal[j]) then |pal| - 1 else j
  }

  /** `Nearest` is at minimal distance, and no lower index is as close. */
  lemma {:induction false} NearestIsNearest(pal: seq<Rgb>, px: Rgb)
    requires |pal| > 0
    ensures IsNearest(pal, px, Nearest(pal, px))
    decreases |pal|
  {
    if |pal| > 1 {
      var front := pal[..|pal| - 1];
      NearestIsNearest(front, px);
      assert forall j | 0 <= j < |front| :: front[j] == pal[j];
    }
  }

  /** Only one index is nearest in this sense, so `Nearest` is the answer and not just one. */
  lemma NearestUnique(pal: seq<Rgb>, px: Rgb, i: nat, j: nat)
    requires IsNearest(pal, px, i) && IsNearest(pal, px, j)
    ensures i == j
  {
    assert Dist(px, pal[i]) <= Dist(px, pal[j]);
    assert Dist(px, pal[j]) <= Dist(px, pal[i]);
  }

  /**
   * `nearest_index`: a scan from entry 0 that moves only on a strictly smaller distance,
   * so ties go to the lowest index. The palette is never empty (it always has
   * `palette_size` entries).
   */
  method NearestIndex(pal: seq<Rgb>, px: Rgb) returns (bestI: nat)
    requires |pal| > 0
    ensures IsNearest(pal, px, bestI)
    ensures bestI == Nearest(pal, px)
  {
    bestI := 0;
    var bestD := Dist(px, pal[0]);
    var i := 1;
    while i < |pal|
      invariant 1 <= i <= |pal|
      invariant bestI == Nearest(pal[..i], px)
      invariant bestD == Dist(px, pal[bestI])
    {
      assert pal[..i + 1][..i] == pal[..i];
      var d := Dist(px, pal[i]);
      if d < bestD {
        bestD := d;
        bestI := i;
      }
      i := i + 1;
    }
    assert pal[..i] == pal;
    NearestIsNearest(pal, px);
  }

  /**
   * A pixel that has exactly the colour of entry i maps to the first entry of that colour;
   * when no earlier entry repeats the colour, that is i itself.
   */
  lemma {:induction false} NearestOfPaletteColour(pal: seq<Rgb>, i: nat)
    requires i < |pal|
    ensures pal[Nearest(pal, pal[i])] == pal[i]
    ensures Nearest(pal, pal[i]) <= i
    ensures forall j | 0 <= j < Nearest(pal, pal[i]) :: pal[j] != pal[i]
    ensures (forall j | 0 <= j < i :: pal[j] != pal[i]) ==> Nearest(pal, pal[i]) == i
  {
    var n := Nearest(pal, pal[i]);
    NearestIsNearest(pal, pal[i]);
    DistFacts(pal[i], pal[i]);
    DistFacts(pal[i], pal[n]);
    assert Dist(pal[i], pal[n]) <= Dist(pal[i], pal[i]);
    assert pal[n] == pal[i];
    forall j | 0 <= j < n ensures pal[j] != pal[i] {
      DistFacts(pal[i], pal[j]);
    }
  }

  // ---------------------------------------------------------------------------------------
  // Indices with the transparency pass
  // ---------------------------------------------------------------------------------------

  /** The index one pixel ends up with: 0 when mostly transparent, else its nearest entry's low byte. */
  function IndexOf(pal: seq<Rgb>, p: Rgba): (i: nat)
    requires |pal| > 0
    ensures i < 256
    ensures p.a < AlphaThreshold ==> i == 0
    // with at most 256 entries (always the case) the low-byte mask keeps the nearest entry
    ensures p.a >= AlphaThreshold && |pal| <= 256 ==> i == Nearest(pal, ToRgb(p))
  {
    if p.a < AlphaThreshold then 0 else Nearest(pal, ToRgb(p)) % 256
  }

  /** The `indexes` list after the transparency pass. */
  function Indexes(pal: seq<Rgb>, pixels: seq<Rgba>): (idx: seq<nat>)
    requires |pal| > 0
    ensures |idx| == |pixels|
    ensures forall k | 0 <= k < |idx| :: idx[k] < 256
  {
    seq(|pixels|, k requires 0 <= k < |pixels| => IndexOf(pal, pixels[k]))
  }

  /** The `for i, m in enumerate(mask): if m: indexes[i] = 0` loop, in place. */
  method MaskTransparent(indexes: array<nat>, alpha: seq<byte>)
    requires indexes.Length == |alpha|
    modifies indexes
    ensures forall k | 0 <= k < indexes.Length ::
      indexes[k] == if alpha[k] < AlphaThreshold then 0 else old(indexes[k])
  {
    var i := 0;
    while i < indexes.Length
      invariant 0 <= i <= indexes.Length
      invariant forall k | 0 <= k < i :: indexes[k] == if alpha[k] < AlphaThreshold then 0 else old(indexes[k])
      invariant forall k | i <= k < indexes.Length :: indexes[k] == old(indexes[k])
    {
      if alpha[i] < AlphaThreshold {
        indexes[i] := 0;
      }
      i := i + 1;
    }
  }

  /**
   * `indexes = [nearest_index(px) & 0xFF for px in pixels]` followed by the transparency pass:
   * a pixel with alpha below 128 gets index 0 whatever its colour, every other pixel the low
   * byte of its nearest entry.
   */
  method IndexPixels(pal: seq<Rgb>, pixels: seq<Rgba>) returns (idx: seq<nat>)
    requires |pal| > 0
    ensures |idx| == |pixels|
    ensures forall k | 0 <= k < |pixels| && pixels[k].a < AlphaThreshold :: idx[k] == 0
    ensures forall k | 0 <= k < |pixels| && pixels[k].a >= AlphaThreshold ::
      idx[k] == Nearest(pal, ToRgb(pixels[k])) % 256
    ensures idx == Indexes(pal, pixels)
  {
    var indexes := new nat[|pixels|];
    var i := 0;
    while i < |pixels|
      invariant 0 <= i <= |pixels|
      invariant forall k | 0 <= k < i :: indexes[k] == Nearest(pal, ToRgb(pixels[k])) % 256
    {
      var n := NearestIndex(pal, ToRgb(pixels[i]));
      indexes[i] := n % 256;
      i := i + 1;
    }
    var alpha := seq(|pixels|, k requires 0 <= k < |pixels| => pixels[k].a);
    MaskTransparent(indexes, alpha);
    idx := indexes[..];
  }

  // ---------------------------------------------------------------------------------------
  // Pixel packing
  // ---------------------------------------------------------------------------------------

  datatype EncodeError =
    | SizeMismatch  // RuntimeError("Size of PNG ... != TIM ...")
    | OddWidth      // RuntimeError("Width must be even for 4bpp ...")

  /** The 8bpp bytes: `bytes([int(v) & 0xFF for v in indexes])`. */
  function Pack8(idx: seq<nat>): (bytes: seq<byte>)
    ensures |bytes| == |idx|
  {
    seq(|idx|, k requires 0 <= k < |idx| => idx[k] % 256)
  }

  /** The 4bpp bytes: byte k holds pixel 2k in its low nibble and pixel 2k + 1 in its high nibble. */
  function Packed4(idx: seq<nat>): (bytes: seq<byte>)
    ensures |bytes| == |idx| / 2
  {
    seq(|idx| / 2, k requires 0 <= k < |idx| / 2 => (idx[2 * k + 1] % 16) * 16 + idx[2 * k] % 16)
  }

  /**
   * The 4bpp branch: odd widths are refused before any byte is built; otherwise each row's
   * pixel pairs are appended, `(i2 << 4) | i1` with both nibbles masked.
   */
  method Pack4(idx: seq<nat>, w: nat, h: nat) returns (r: Result<seq<byte>, EncodeError>)
    requires |idx| == w * h
    ensures r.Err? <==> w % 2 != 0
    ensures r.Err? ==> r.error == OddWidth
    ensures r.Ok? ==> r.value == Packed4(idx)
  {
    if w % 2 != 0 {
      return Err(OddWidth);
    }
    var outb: seq<byte> := [];
    var y := 0;
    while y < h
      invariant 0 <= y <= h
      invariant outb == Packed4(idx[..y * w])
    {
      RowFits(w, h, y);
      EvenRowStart(w, y);
      outb := PackRow(idx, y * w, w, outb);
      y := y + 1;
    }
    assert idx[..h * w] == idx by {
      assert h * w == w * h;
    }
    r := Ok(outb);
  }

  /** The inner loop over one row: the pairs (x, x + 1) for x = 0, 2, ..., w - 2. */
  method PackRow(idx: seq<nat>, start: nat, w: nat, outb: seq<byte>) returns (row: seq<byte>)
    requires w % 2 == 0 && start % 2 == 0 && start + w <= |idx|
    requires outb == Packed4(idx[..start])
    ensures row == Packed4(idx[..start + w])
  {
    row := outb;
    var x := 0;
    while x < w
      invariant 0 <= x <= w && x % 2 == 0
      invariant row == Packed4(idx[..start + x])
    {
      Packed4Snoc(idx, start + x);
      var i1 := idx[start + x] % 16;
      var i2 := idx[start + x + 1] % 16;
      row := row + [i2 * 16 + i1];
      x := x + 2;
    }
  }

  /** Row y of a w-wide raster with h rows ends at (y + 1) * w, inside the pixels. */
  lemma RowFits(w: nat, h: nat, y: nat)
    requires y < h
    ensures y * w + w == (y + 1) * w <= w * h
  {
    MulMono(y + 1, h, w);
  }

  /** Rows of an even width start at even positions. */
  lemma EvenRowStart(w: nat, y: nat)
    requires w % 2 == 0
    ensures (y * w) % 2 == 0
  {
    assert y * w == 2 * (y * (w / 2));
  }

  /** Packing two more pixels appends one byte. */
  lemma Packed4Snoc(s: seq<nat>, p: nat)
    requires p % 2 == 0 && p + 2 <= |s|
    ensures Packed4(s[..p + 2]) == Packed4(s[..p]) + [(s[p + 1] % 16) * 16 + s[p] % 16]
  {
    var lhs, rhs := Packed4(s[..p + 2]), Packed4(s[..p]) + [(s[p + 1] % 16) * 16 + s[p] % 16];
    assert |lhs| == |rhs|;
    forall k | 0 <= k < |lhs|
      ensures lhs[k] == rhs[k]
    {
    }
  }

  lemma MulMono(a: nat, b: nat, c: nat)
    requires a <= b
    ensures a * c <= b * c
  {
  }

  /** The stored width field: pixels per 16-bit unit are 2 (8bpp) or 4 (4bpp). */
  function StoredWidth(f: Format, w: nat): (units: nat)
    ensures f == Indexed8 ==> 2 * units <= w < 2 * units + 2
    ensures f == Indexed4 ==> 4 * units <= w < 4 * units + 4
  {
    w / WidthFactor(f)
  }

  // ---------------------------------------------------------------------------------------
  // CLUT packing
  // ---------------------------------------------------------------------------------------

  /** `((r >> 3) & 0x1F) | (((g >> 3) & 0x1F) << 5) | (((b >> 3) & 0x1F) << 10)`. */
  function Pack555(c: Rgb): (v: nat)
    ensures v < 0x8000
  {
    (c.r / 8) % 32 + ((c.g / 8) % 32) * 32 + ((c.b / 8) % 32) * 1024
  }

  /** Each channel cut to five bits, as the hardware keeps it. */
  function Quantize(c: Rgb): Rgb {
    Rgb((c.r / 8) * 8, (c.g / 8) * 8, (c.b / 8) * 8)
  }

  /** Decoding a packed entry gives the colour with the low three bits of each channel cleared. */
  lemma {:induction false} ExpandPack555(c: Rgb)
    ensures TimDecode.ExpandEntry(Pack555(c)) == Quantize(c)
  {
    var r, g, b := c.r / 8, c.g / 8, c.b / 8;
    assert r < 32 && g < 32 && b < 32;
    var v := Pack555(c);
    assert v == r + g * 32 + b * 1024;
    assert v % 32 == r;
    assert v / 32 == g + b * 32;
    assert (v / 32) % 32 == g;
    assert v / 1024 == b;
  }

  /** Each channel has its low three bits clear, as in every decoded CLUT entry. */
  predicate FiveBit(c: Rgb) {
    c.r % 8 == 0 && c.g % 8 == 0 && c.b % 8 == 0
  }

  /** A colour that is already a decoded CLUT entry comes back unchanged. */
  lemma {:induction false} QuantizeIdempotent(c: Rgb)
    requires FiveBit(c)
    ensures Quantize(c) == c
  {
  }

  /** `clut_expected`: the declared slot count, or the palette size when it is zero. */
  function ClutExpected(t: TimInfo): (n: nat)
    ensures n > 0
  {
    if t.clutSizeX * t.clutSizeY == 0 then PaletteSize(t.format) else t.clutSizeX * t.clutSizeY
  }

  /** Entry j of the written CLUT: palette entry j, else the last one repeated, else 0. */
  function ClutWord(pal: seq<Rgb>, j: nat): (v: nat)
    ensures v < 0x8000
  {
    if j < |pal| then Pack555(pal[j])
    else if |pal| > 0 then Pack555(pal[|pal| - 1])
    else 0
  }

  /** The CLUT bytes: exactly n little-endian entries. */
  function ClutBytes(pal: seq<Rgb>, n: nat): (clut: seq<byte>)
    ensures |clut| == 2 * n
  {
    seq(2 * n, k requires 0 <= k < 2 * n => U16Bytes(ClutWord(pal, k / 2))[k % 2])
  }

  /** Entry j of the written CLUT reads back as `ClutWord(pal, j)`. */
  lemma ClutBytesEntry(pal: seq<Rgb>, n: nat, j: nat)
    requires j < n
    ensures ReadU16(ClutBytes(pal, n), 2 * j) == ClutWord(pal, j)
  {
    var clut := ClutBytes(pal, n);
    var word := U16Bytes(ClutWord(pal, j));
    assert clut[2 * j] == word[0] && clut[2 * j + 1] == word[1];
  }

  /**
   * The CLUT a re-encoded file carries decodes, entry by entry, to the shared palette cut to
   * five bits per channel: the palette prefix when it is long enough, then the last colour
   * repeated, or black for an empty palette.
   */
  lemma ClutDecodesToPalette(pal: seq<Rgb>, n: nat, j: nat)
    requires j < n
    ensures |TimDecode.ExpandClut(ClutBytes(pal, n))| == n
    ensures TimDecode.ExpandClut(ClutBytes(pal, n))[j] ==
      if j < |pal| then Quantize(pal[j])
      else if |pal| > 0 then Quantize(pal[|pal| - 1])
      else Black
  {
    ClutBytesEntry(pal, n, j);
    if j < |pal| {
      ExpandPack555(pal[j]);
    } else if |pal| > 0 {
      ExpandPack555(pal[|pal| - 1]);
    }
  }

  lemma ClutBytesSnoc(pal: seq<Rgb>, m: nat)
    ensures ClutBytes(pal, m + 1) == ClutBytes(pal, m) + U16Bytes(ClutWord(pal, m))
  {
    var lhs, rhs := ClutBytes(pal, m + 1), ClutBytes(pal, m) + U16Bytes(ClutWord(pal, m));
    forall k | 0 <= k < 2 * m + 2
      ensures lhs[k] == rhs[k]
    {
      if k >= 2 * m {
        assert k / 2 == m;
      }
    }
  }

  lemma ClutBytesPrefix(pal: seq<Rgb>, n: nat, m: nat)
    requires n <= m
    ensures ClutBytes(pal, m)[..2 * n] == ClutBytes(pal, n)
  {
  }

  /**
   * The CLUT loop: every palette entry appended as a `<H` value, then the last two bytes
   * (or `00 00`) repeated until n entries are there, or the excess cut off.
   */
  method PackClut(pal: seq<Rgb>, n: nat) returns (clut: seq<byte>)
    ensures clut == ClutBytes(pal, n)
  {
    clut := [];
    var i := 0;
    while i < |pal|
      invariant 0 <= i <= |pal|
      invariant clut == ClutBytes(pal, i)
    {
      ClutBytesSnoc(pal, i);
      clut := clut + U16Bytes(Pack555(pal[i]));
      i := i + 1;
    }
    if i < n {
      var last := if |clut| >= 2 then clut[|clut| - 2..] else U16Bytes(0);
      assert last == U16Bytes(ClutWord(pal, i)) by {
        if i > 0 {
          ClutBytesSnoc(pal, i - 1);
        }
      }
      while i < n
        invariant |pal| <= i <= n
        invariant clut == ClutBytes(pal, i)
        invariant last == U16Bytes(ClutWord(pal, i))
      {
        ClutBytesSnoc(pal, i);
        clut := clut + last;
        i := i + 1;
      }
    } else if i > n {
      ClutBytesPrefix(pal, n, i);
      clut := clut[..2 * n];
    }
  }

  // ---------------------------------------------------------------------------------------
  // The output record
  // ---------------------------------------------------------------------------------------

  /** An RGBA raster as PIL gives it: row-major, `width * height` pixels. */
  datatype Raster = Raster(width: nat, height: nat, pixels: seq<Rgba>)

  predicate WellFormed(src: Raster) {
    |src.pixels| == src.width * src.height
  }

  /** The pixel bytes of the chosen depth. */
  function PixelBytes(f: Format, idx: seq<nat>): seq<byte> {
    match f
    case Indexed8 => Pack8(idx)
    case Indexed4 => Packed4(idx)
  }

  /** The dictionary the fallback branch builds from the packed payloads. */
  function Assemble(t: TimInfo, pixelBytes: seq<byte>, clutBytes: seq<byte>): (w: TimRecord)
    // each bnum counts its payload and the 12-byte sub-header, as `read_tim` reads it back
    ensures w.newClutBnum == |w.commonClut| + SectionHeaderSize
    ensures w.newPixelBnum == |w.newPixelData| + SectionHeaderSize
    ensures w.timFormat == FormatTag(t.format)
    ensures w.storedWidthValue == StoredWidth(t.format, t.pixelDataWidth)
  {
    TimRecord(
      t.headerId, FormatTag(t.format),
      |clutBytes| + SectionHeaderSize,
      t.clutCoordX, t.clutCoordY, t.clutSizeX, t.clutSizeY, clutBytes,
      |pixelBytes| + SectionHeaderSize,
      t.pixelCoordX, t.pixelCoordY,
      StoredWidth(t.format, t.pixelDataWidth), t.pixelDataHeight, pixelBytes)
  }

  /** The whole encode of one image, as a definition. */
  function Encoded(t: TimInfo, src: Raster, pal: seq<Rgb>): (r: Result<TimRecord, EncodeError>)
    requires |pal| > 0
    ensures r.Err? <==>
      src.width != t.pixelDataWidth || src.height != t.pixelDataHeight
      || (t.format == Indexed4 && t.pixelDataWidth % 2 != 0)
    ensures r.Err? ==>
      r.error == if src.width != t.pixelDataWidth || src.height != t.pixelDataHeight then SizeMismatch else OddWidth
    ensures r.Ok? ==>
      && |r.value.commonClut| == 2 * ClutExpected(t)
      && r.value.newClutBnum == |r.value.commonClut| + SectionHeaderSize
      && r.value.newPixelBnum == |r.value.newPixelData| + SectionHeaderSize
  {
    if src.width != t.pixelDataWidth || src.height != t.pixelDataHeight then Err(SizeMismatch)
    else if t.format == Indexed4 && t.pixelDataWidth % 2 != 0 then Err(OddWidth)
    else Ok(Assemble(t, PixelBytes(t.format, Indexes(pal, src.pixels)), ClutBytes(pal, ClutExpected(t))))
  }

  /** The payloads of a successful encode, named. */
  lemma EncodedPayloads(t: TimInfo, src: Raster, pal: seq<Rgb>)
    requires |pal| > 0 && Encoded(t, src, pal).Ok?
    ensures src.width == t.pixelDataWidth && src.height == t.pixelDataHeight
    ensures t.format == Indexed4 ==> t.pixelDataWidth % 2 == 0
    ensures Encoded(t, src, pal).value.newPixelData == PixelBytes(t.format, Indexes(pal, src.pixels))
    ensures Encoded(t, src, pal).value.commonClut == ClutBytes(pal, ClutExpected(t))
  {
  }

  /**
   * Lines 296-386 of `convert_png_tim` for one image: the size double-check, the nearest-colour
   * mapping, the transparency pass, packing for the TIM's depth, the CLUT, and the record.
   */
  method EncodeTim(t: TimInfo, src: Raster, pal: seq<Rgb>) returns (r: Result<TimRecord, EncodeError>)
    requires |pal| > 0 && WellFormed(src)
    ensures r == Encoded(t, src, pal)
  {
    if src.width != t.pixelDataWidth || src.height != t.pixelDataHeight {
      return Err(SizeMismatch);
    }
    var indexes := IndexPixels(pal, src.pixels);
    var pixelBytes: seq<byte>;
    var storedWidthValue: nat;
    if t.format == Indexed8 {
      pixelBytes := Pack8(indexes);
      storedWidthValue := t.pixelDataWidth / 2;
    } else {
      var packed := Pack4(indexes, t.pixelDataWidth, t.pixelDataHeight);
      if packed.Err? {
        return Err(packed.error);
      }
      pixelBytes := packed.value;
      storedWidthValue := t.pixelDataWidth / 4;
    }
    var clutExpected := t.clutSizeX * t.clutSizeY;
    if clutExpected == 0 {
      clutExpected := PaletteSize(t.format);
    }
    var clutBytes := PackClut(pal, clutExpected);
    var newClutBnum := |clutBytes| + SectionHeaderSize;
    var newPixelBnum := |pixelBytes| + SectionHeaderSize;
    r := Ok(TimRecord(
      t.headerId, FormatTag(t.format), newClutBnum,
      t.clutCoordX, t.clutCoordY, t.clutSizeX, t.clutSizeY, clutBytes,
      newPixelBnum, t.pixelCoordX, t.pixelCoordY,
      storedWidthValue, t.pixelDataHeight, pixelBytes));
  }

  /** The pixel bytes hold h * (w / 2) (4-bit, even w) or h * w (8-bit) bytes. */
  lemma PixelBytesLength(f: Format, idx: seq<nat>, w: nat, h: nat)
    requires |idx| == w * h && (f == Indexed4 ==> w % 2 == 0)
    ensures |PixelBytes(f, idx)| == if f == Indexed4 then h * (w / 2) else h * w
  {
    if f == Indexed4 {
      assert w * h == 2 * (h * (w / 2));
    }
  }

  /**
   * The pixel data of a successful encode holds h * (w / 2) bytes (4-bit) or h * w bytes
   * (8-bit), and the stored width times the pixels per unit never exceeds the width.
   */
  lemma EncodedLayout(t: TimInfo, src: Raster, pal: seq<Rgb>)
    requires |pal| > 0 && WellFormed(src) && Encoded(t, src, pal).Ok?
    ensures
      var w := Encoded(t, src, pal).value;
      && |w.newPixelData| == (if t.format == Indexed4 then t.pixelDataHeight * (t.pixelDataWidth / 2)
                              else t.pixelDataHeight * t.pixelDataWidth)
      && w.storedWidthValue * WidthFactor(t.format) <= t.pixelDataWidth
  {
    EncodedPayloads(t, src, pal);
    PixelBytesLength(t.format, Indexes(pal, src.pixels), t.pixelDataWidth, t.pixelDataHeight);
  }

  /**
   * The 8-bit decoder reading back packed indices: pixel (x, y) gets the low byte of index
   * y * w + x.
   */
  lemma Unpack8Pack8(idx: seq<nat>, w: nat, h: nat, x: nat, y: nat)
    requires |idx| == w * h && x < w && y < h
    ensures y * w + x < |idx|
    ensures TimDecode.PixelIndex(Indexed8, Pack8(idx), w, x, y) == Some(idx[y * w + x] % 256)
  {
    RowMajorBound(w, h, x, y);
  }

  /**
   * The 4-bit decoder reading back packed indices (low nibble for even x, high nibble for
   * odd x, row stride w / 2): pixel (x, y) gets index y * w + x masked to four bits.
   */
  lemma Unpack4Pack4(idx: seq<nat>, w: nat, h: nat, x: nat, y: nat)
    requires |idx| == w * h && w % 2 == 0 && x < w && y < h
    ensures y * w + x < |idx|
    ensures TimDecode.PixelIndex(Indexed4, Packed4(idx), w, x, y) == Some(idx[y * w + x] % 16)
  {
    RowMajorBound(w, h, x, y);
    HalfRowOffset(w, x, y);
    RowMajorBound(w, h, x / 2 * 2 + 1, y);
    Unpack4At(idx, w, x, y, y * (w / 2) + x / 2, y * w + x);
  }

  lemma Unpack4At(idx: seq<nat>, w: nat, x: nat, y: nat, off: nat, k: nat)
    requires off == y * (w / 2) + x / 2 && k == 2 * off + x % 2 && 2 * off + 1 < |idx|
    ensures TimDecode.PixelIndex(Indexed4, Packed4(idx), w, x, y) == Some(idx[k] % 16)
  {
    Packed4Nibbles(idx, off);
  }

  lemma HalfRowOffset(w: nat, x: nat, y: nat)
    requires w % 2 == 0
    ensures 2 * (y * (w / 2) + x / 2) + x % 2 == y * w + x
  {
    assert y * w == 2 * (y * (w / 2));
  }

  lemma Packed4Nibbles(idx: seq<nat>, k: nat)
    requires 2 * k + 1 < |idx|
    ensures k < |Packed4(idx)|
    ensures Packed4(idx)[k] % 16 == idx[2 * k] % 16
    ensures (Packed4(idx)[k] / 16) % 16 == idx[2 * k + 1] % 16
  {
    var lo, hi := idx[2 * k] % 16, idx[2 * k + 1] % 16;
    assert Packed4(idx)[k] == hi * 16 + lo;
  }

  /**
   * The record the encoder assembles, written and read back: the header and tag, the
   * coordinates, CLUT sizes, height and both payloads come back with bnums of payload + 12,
   * and the width is the original's whenever it is a whole number of 16-bit units.
   */
  lemma AssembledFileParses(t: TimInfo, pixelBytes: seq<byte>, clutBytes: seq<byte>)
    requires t.headerId == Magic && FieldsFit(Assemble(t, pixelBytes, clutBytes))
    ensures Serialize(Assemble(t, pixelBytes, clutBytes)).Ok?
    ensures Parse(Serialize(Assemble(t, pixelBytes, clutBytes)).value) == Ok(TimInfo(
      t.headerId, t.format, |clutBytes| + SectionHeaderSize,
      t.clutCoordX, t.clutCoordY, t.clutSizeX, t.clutSizeY, clutBytes,
      |pixelBytes| + SectionHeaderSize, t.pixelCoordX, t.pixelCoordY,
      t.pixelDataWidth / WidthFactor(t.format) * WidthFactor(t.format), t.pixelDataHeight,
      pixelBytes))
    ensures t.pixelDataWidth % WidthFactor(t.format) == 0 ==>
      Parse(Serialize(Assemble(t, pixelBytes, clutBytes)).value).value.pixelDataWidth == t.pixelDataWidth
  {
    var w := Assemble(t, pixelBytes, clutBytes);
    ParseSerialize(w, t.format);
    assert Parse(Serialize(w).value).value.pixelDataWidth == w.storedWidthValue * WidthFactor(t.format);
    if t.pixelDataWidth % WidthFactor(t.format) == 0 {
      WholeUnits(t.pixelDataWidth, WidthFactor(t.format));
    }
  }

  lemma WholeUnits(v: nat, f: nat)
    requires f > 0 && v % f == 0
    ensures v / f * f == v
  {
  }

  /** The index the decoder reads back for pixel (x, y) of packed indices. */
  lemma DecodedIndex(f: Format, idx: seq<nat>, w: nat, h: nat, x: nat, y: nat)
    requires |idx| == w * h && (f == Indexed4 ==> w % 2 == 0)
    requires x < w && y < h
    ensures y * w + x < |idx|
    ensures TimDecode.PixelIndex(f, PixelBytes(f, idx), w, x, y)
      == Some(if f == Indexed4 then idx[y * w + x] % 16 else idx[y * w + x] % 256)
  {
    if f == Indexed4 {
      Unpack4Pack4(idx, w, h, x, y);
    } else {
      Unpack8Pack8(idx, w, h, x, y);
    }
  }

  /**
   * The colour the decoder gives a pixel that was encoded with index q: q masked to the
   * depth picks a CLUT slot; a slot past the end of the CLUT has no colour, one past the
   * palette repeats its last entry, and every colour comes back cut to five bits per channel.
   */
  function ReadBack(f: Format, pal: seq<Rgb>, n: nat, q: nat): Option<Rgb>
    requires |pal| > 0
  {
    var d := if f == Indexed4 then q % 16 else q % 256;
    if d >= n then None
    else if d < |pal| then Some(Quantize(pal[d]))
    else Some(Quantize(pal[|pal| - 1]))
  }

  /** Pixel (x, y) holding index q decodes to `ReadBack` of q. */
  lemma PackedColour(f: Format, pal: seq<Rgb>, idx: seq<nat>, w: nat, h: nat, n: nat, x: nat, y: nat)
    requires |pal| > 0
    requires |idx| == w * h && (f == Indexed4 ==> w % 2 == 0) && x < w && y < h
    ensures y * w + x < |idx|
    ensures TimDecode.PixelColor(f, TimDecode.ExpandClut(ClutBytes(pal, n)), PixelBytes(f, idx), w, x, y)
      == ReadBack(f, pal, n, idx[y * w + x])
  {
    DecodedIndex(f, idx, w, h, x, y);
    var d := if f == Indexed4 then idx[y * w + x] % 16 else idx[y * w + x] % 256;
    assert TimDecode.PixelIndex(f, PixelBytes(f, idx), w, x, y) == Some(d);
    if d < n {
      ClutDecodesToPalette(pal, n, d);
    }
  }

  /** Pixel (x, y) of a raster is its element k, in row-major order. */
  predicate PixelAt(src: Raster, x: nat, y: nat, k: nat) {
    x < src.width && y < src.height && k == y * src.width + x && k < |src.pixels|
  }

  /** The colour `decode` gives pixel (x, y) of the record the encoder produced. */
  function EncodedColour(t: TimInfo, src: Raster, pal: seq<Rgb>, x: nat, y: nat): Option<Rgb>
    requires |pal| > 0 && Encoded(t, src, pal).Ok?
  {
    RecordColour(t.format, Encoded(t, src, pal).value, src.width, x, y)
  }

  /** The colour `decode` gives pixel (x, y) of a record whose CLUT has whole entries. */
  function RecordColour(f: Format, w: TimRecord, width: nat, x: nat, y: nat): Option<Rgb>
    requires |w.commonClut| % 2 == 0
  {
    TimDecode.PixelColor(f, TimDecode.ExpandClut(w.commonClut), w.newPixelData, width, x, y)
  }

  /**
   * Decoding an encoded image: pixel (x, y), element k = y * w + x of the raster, comes back
   * as `ReadBack` of the index the encoder chose for it, 0 for a pixel with alpha below 128,
   * otherwise its nearest palette entry.
   */
  lemma EncodedPixelColour(t: TimInfo, src: Raster, pal: seq<Rgb>, x: nat, y: nat, k: nat)
    requires |pal| > 0 && WellFormed(src) && Encoded(t, src, pal).Ok?
    requires PixelAt(src, x, y, k)
    ensures EncodedColour(t, src, pal, x, y) == ReadBack(t.format, pal, ClutExpected(t), IndexOf(pal, src.pixels[k]))
  {
    EncodedPayloads(t, src, pal);
    PayloadColour(t.format, pal, ClutExpected(t), src, x, y, k);
  }

  /** The same for the payloads themselves, before they are put in a record. */
  lemma PayloadColour(f: Format, pal: seq<Rgb>, n: nat, src: Raster, x: nat, y: nat, k: nat)
    requires |pal| > 0 && WellFormed(src) && (f == Indexed4 ==> src.width % 2 == 0)
    requires PixelAt(src, x, y, k)
    ensures TimDecode.PixelColor(f, TimDecode.ExpandClut(ClutBytes(pal, n)), PixelBytes(f, Indexes(pal, src.pixels)), src.width, x, y)
      == ReadBack(f, pal, n, IndexOf(pal, src.pixels[k]))
  {
    var idx := Indexes(pal, src.pixels);
    assert |idx| == src.width * src.height && idx[k] == IndexOf(pal, src.pixels[k]);
    PackedColour(f, pal, idx, src.width, src.height, n, x, y);
  }

  /**
   * Re-encoding keeps an unchanged picture: a visible pixel (alpha 128 or more) whose colour
   * is palette entry i decodes to that same colour, provided the palette is already 5-bit per
   * channel (as every decoded CLUT is) and i fits both the depth and the CLUT slot count.
   */
  lemma UnchangedColourSurvives(t: TimInfo, src: Raster, pal: seq<Rgb>, x: nat, y: nat, k: nat, i: nat)
    requires |pal| > 0 && WellFormed(src) && Encoded(t, src, pal).Ok?
    requires PixelAt(src, x, y, k)
    requires src.pixels[k].a >= AlphaThreshold
    requires i < |pal| && ToRgb(src.pixels[k]) == pal[i]
    requires i < PaletteSize(t.format) && i < ClutExpected(t) && FiveBit(pal[i])
    ensures EncodedColour(t, src, pal, x, y) == Some(pal[i])
  {
    EncodedPixelColour(t, src, pal, x, y, k);
    ReadBackOfPaletteColour(t.format, pal, ClutExpected(t), src.pixels[k], i);
  }

  /** The step of the above that concerns one pixel: its index reads back as its own colour. */
  lemma ReadBackOfPaletteColour(f: Format, pal: seq<Rgb>, n: nat, p: Rgba, i: nat)
    requires |pal| > 0 && p.a >= AlphaThreshold && i < |pal| && ToRgb(p) == pal[i]
    requires i < PaletteSize(f) && i < n && FiveBit(pal[i])
    ensures ReadBack(f, pal, n, IndexOf(pal, p)) == Some(pal[i])
  {
    var m := IndexOf(pal, p);
    IndexOfPaletteColour(f, pal, p, i);
    DepthKeepsIndex(f, m);
    QuantizeIdempotent(pal[i]);
    assert ReadBack(f, pal, n, m) == Some(Quantize(pal[m]));
  }

  /** An index below the palette size survives the mask to the depth. */
  lemma DepthKeepsIndex(f: Format, m: nat)
    requires m < PaletteSize(f)
    ensures (if f == Indexed4 then m % 16 else m % 256) == m
  {
  }

  /** A visible pixel of palette colour i takes an index no later than i that holds the same colour. */
  lemma IndexOfPaletteColour(f: Format, pal: seq<Rgb>, p: Rgba, i: nat)
    requires |pal| > 0 && p.a >= AlphaThreshold && i < |pal| && ToRgb(p) == pal[i] && i < PaletteSize(f)
    ensures IndexOf(pal, p) <= i && pal[IndexOf(pal, p)] == pal[i]
  {
    NearestOfPaletteColour(pal, i);
  }

  /**
   * A pixel with alpha below 128 decodes to the first CLUT entry, the palette's entry 0 cut
   * to five bits per channel, whatever colour it had.
   */
  lemma TransparentPixelTakesEntryZero(t: TimInfo, src: Raster, pal: seq<Rgb>, x: nat, y: nat, k: nat)
    requires |pal| > 0 && WellFormed(src) && Encoded(t, src, pal).Ok?
    requires PixelAt(src, x, y, k)
    requires src.pixels[k].a < AlphaThreshold
    ensures EncodedColour(t, src, pal, x, y) == Some(Quantize(pal[0]))
  {
    EncodedPixelColour(t, src, pal, x, y, k);
  }

  lemma RowMajorBound(w: nat, h: nat, x: nat, y: nat)
    requires x < w && y < h
    ensures y * w + x < w * h
  {
    MulMono(y + 1, h, w);
    assert (y + 1) * w == y * w + w;
  }
}
