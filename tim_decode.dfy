/**
 * `Tim_Object` (tim_operations.py): the fields its constructor copies out of a parsed file and
 * `decode`, which expands the CLUT to RGB and writes every pixel of a width x height image.
 */
module TimDecode {
  import opened Results
  import opened Bytes
  import opened Colors
  import opened TimCodec

  /**
   * One 16-bit CLUT entry to RGB: five bits per channel, red lowest, each shifted up by three
   * (`(c & 0x1F) << 3`, `((c >> 5) & 0x1F) << 3`, `((c >> 10) & 0x1F) << 3`).
   */
  function ExpandEntry(c: nat): (rgb: Rgb)
    ensures rgb.r % 8 == 0 && rgb.g % 8 == 0 && rgb.b % 8 == 0
    ensures rgb.r <= 248 && rgb.g <= 248 && rgb.b <= 248
  {
    Rgb((c % 32) * 8, ((c / 32) % 32) * 8, ((c / 1024) % 32) * 8)
  }

  /** Bit 15 of an entry (the PlayStation's semi-transparency bit) plays no part in the colour. */
  lemma ExpandIgnoresBit15(c: nat)
    requires c < U16Limit
    ensures ExpandEntry(c) == ExpandEntry(c % 0x8000)
  {
    var low := c % 0x8000;
    if c >= 0x8000 {
      assert c == low + 0x8000;
      assert c % 32 == low % 32;
      assert c / 32 == low / 32 + 1024;
      assert (c / 32) % 32 == (low / 32) % 32;
      assert c / 1024 == low / 1024 + 32;
      assert (c / 1024) % 32 == (low / 1024) % 32;
    }
  }

  /** The CLUT bytes read as little-endian u16 entries and expanded (`np.frombuffer` and the list comprehension). */
  function ExpandClut(data: seq<byte>): (clut: seq<Rgb>)
    requires |data| % 2 == 0
    ensures |clut| == |data| / 2
    ensures forall k | 0 <= k < |clut| :: clut[k] == ExpandEntry(ReadU16(data, 2 * k))
    // every decoded colour has five significant bits per channel
    ensures forall k | 0 <= k < |clut| :: clut[k].r % 8 == 0 && clut[k].g % 8 == 0 && clut[k].b % 8 == 0
  {
    seq(|data| / 2, k requires 0 <= k < |data| / 2 => ExpandEntry(ReadU16(data, 2 * k)))
  }

  /** One packed entry expands to exactly its colour. */
  lemma ExpandClutEntry(c: nat)
    requires c < U16Limit
    ensures ExpandClut(U16Bytes(c)) == [ExpandEntry(c)]
  {
    assert ExpandClut(U16Bytes(c))[0] == ExpandEntry(ReadU16(U16Bytes(c), 0));
  }

  /** Expanding a CLUT goes entry by entry: it distributes over concatenation of whole entries. */
  lemma ExpandClutAppend(a: seq<byte>, b: seq<byte>)
    requires |a| % 2 == 0 && |b| % 2 == 0
    ensures ExpandClut(a + b) == ExpandClut(a) + ExpandClut(b)
  {
    var l, r := ExpandClut(a + b), ExpandClut(a) + ExpandClut(b);
    forall k | 0 <= k < |l| ensures l[k] == r[k] {
      if k < |a| / 2 {
        assert ReadU16(a + b, 2 * k) == ReadU16(a, 2 * k);
      } else {
        var j := k - |a| / 2;
        assert (a + b)[2 * k] == b[2 * j] && (a + b)[2 * k + 1] == b[2 * j + 1];
        assert ReadU16(a + b, 2 * k) == ReadU16(b, 2 * j);
      }
    }
  }

  /**
   * The palette index `decode` reads for pixel (x, y), or None where it reads past the pixel data.
   * 4-bit: the byte at y * (w / 2) + x / 2, low nibble for even x, high nibble for odd x.
   * 8-bit: the byte at y * w + x.
   */
  function PixelIndex(format: Format, data: seq<byte>, w: nat, x: nat, y: nat): (i: Option<nat>)
    ensures i.Some? ==> i.value < (if format == Indexed4 then 16 else 256)
  {
    match format
    case Indexed4 =>
      var off := y * (w / 2) + x / 2;
      if off < |data| then Some(if x % 2 == 0 then data[off] % 16 else (data[off] / 16) % 16) else None
    case Indexed8 =>
      var off := y * w + x;
      if off < |data| then Some(data[off]) else None
  }

  /** The colour `decode` gives pixel (x, y), or None where the index or the CLUT lookup is out of range. */
  function PixelColor(format: Format, clut: seq<Rgb>, data: seq<byte>, w: nat, x: nat, y: nat): (c: Option<Rgb>)
    ensures c.Some? ==> c.value in clut
    // with a full-size CLUT only the pixel data can run out
    ensures |clut| >= (if format == Indexed4 then 16 else 256) ==> (c.Some? <==> PixelIndex(format, data, w, x, y).Some?)
  {
    match PixelIndex(format, data, w, x, y)
    case Some(i) => if i < |clut| then Some(clut[i]) else None
    case None => None
  }

  /** The two pixels of a 4-bit byte: even x takes the low nibble, x + 1 the high nibble. */
  lemma NibbleColors(clut: seq<Rgb>, data: seq<byte>, w: nat, x: nat, y: nat)
    requires x % 2 == 0
    ensures var off := y * (w / 2) + x / 2;
      && PixelColor(Indexed4, clut, data, w, x, y) ==
        (if off < |data| && data[off] % 16 < |clut| then Some(clut[data[off] % 16]) else None)
      && PixelColor(Indexed4, clut, data, w, x + 1, y) ==
        (if off < |data| && (data[off] / 16) % 16 < |clut| then Some(clut[(data[off] / 16) % 16]) else None)
  {
    assert (x + 1) / 2 == x / 2 && (x + 1) % 2 == 1;
  }

  /** `decode` runs to the end: the CLUT has whole entries and every pixel's index is in range. */
  predicate Decodable(format: Format, clutData: seq<byte>, data: seq<byte>, w: nat, h: nat) {
    && |clutData| % 2 == 0
    && forall x: nat, y: nat | x < w && y < h :: PixelColor(format, ExpandClut(clutData), data, w, x, y).Some?
  }

  datatype DecodeError =
    | OddClutLength    // np.frombuffer rejects a buffer that is not a whole number of u16 entries
    | IndexOutOfRange  // IndexError from the pixel data or from the CLUT array

  class TimObject {
    const headerId: seq<byte>
    const formatFlag: Format
    const clutBnum: nat
    const clutData: seq<byte>
    const clutCoordX: nat
    const clutCoordY: nat
    const clutSizeX: nat
    const clutSizeY: nat
    const clutDataLength: nat
    const pixelBnum: nat
    const pixelCoordX: nat
    const pixelCoordY: nat
    const pixelDataWidth: nat
    const pixelDataHeight: nat
    const pixelDataLength: nat
    const pixelData: seq<byte>
    /** The decoded RGBA image, indexed [x, y]; null until `Decode` succeeds. */
    var pilImage: array2?<Rgba>

    /** The parsed fields this object holds. */
    function Info(): TimInfo {
      TimInfo(
        headerId, formatFlag, clutBnum, clutCoordX, clutCoordY, clutSizeX, clutSizeY, clutData,
        pixelBnum, pixelCoordX, pixelCoordY, pixelDataWidth, pixelDataHeight, pixelData)
    }

    constructor (t: TimInfo)
      ensures Info() == t
      ensures clutDataLength == |t.clutData| && pixelDataLength == |t.pixelData|
      ensures pilImage == null
    {
      headerId := t.headerId;
      formatFlag := t.format;
      clutBnum := t.clutBnum;
      clutData := t.clutData;
      clutCoordX := t.clutCoordX;
      clutCoordY := t.clutCoordY;
      clutSizeX := t.clutSizeX;
      clutSizeY := t.clutSizeY;
      clutDataLength := |t.clutData|;
      pixelBnum := t.pixelBnum;
      pixelCoordX := t.pixelCoordX;
      pixelCoordY := t.pixelCoordY;
      pixelDataWidth := t.pixelDataWidth;
      pixelDataHeight := t.pixelDataHeight;
      pixelDataLength := |t.pixelData|;
      pixelData := t.pixelData;
      pilImage := null;
    }

    /** The colour `decode` gives pixel (x, y) of this image, given the expanded CLUT. */
    function Color(clut: seq<Rgb>, x: nat, y: nat): Option<Rgb> {
      PixelColor(formatFlag, clut, pixelData, pixelDataWidth, x, y)
    }

    /**
     * `decode`: on success `pilImage` is a fresh width x height image whose every pixel is the
     * CLUT colour of its index, made opaque; on failure nothing changes.
     */
    method Decode() returns (r: Result<(), DecodeError>)
      modifies this
      ensures r.Ok? <==> Decodable(formatFlag, clutData, pixelData, pixelDataWidth, pixelDataHeight)
      ensures r.Ok? ==>
        && pilImage != null && fresh(pilImage)
        && pilImage.Length0 == pixelDataWidth && pilImage.Length1 == pixelDataHeight
      ensures r.Ok? ==>
        forall x: nat, y: nat | x < pixelDataWidth && y < pixelDataHeight ::
          PixelColor(formatFlag, ExpandClut(clutData), pixelData, pixelDataWidth, x, y).Some?
          && pilImage[x, y] == Opaque(PixelColor(formatFlag, ExpandClut(clutData), pixelData, pixelDataWidth, x, y).value)
      ensures r.Err? ==> pilImage == old(pilImage)
    {
      if |clutData| % 2 != 0 {
        return Err(OddClutLength);
      }
      var clut := ExpandClut(clutData);
      var w, h := pixelDataWidth, pixelDataHeight;
      var img := new Rgba[w, h]((x, y) => Opaque(Black));
      var y := 0;
      while y < h
        invariant 0 <= y <= h
        invariant forall xx: nat, yy: nat | xx < w && yy < y :: Done(img[xx, yy], clut, xx, yy)
        invariant pilImage == old(pilImage)
      {
        var ok;
        if formatFlag == Indexed4 {
          ok := DecodeRow4(img, clut, y);
        } else {
          ok := DecodeRow8(img, clut, y);
        }
        if !ok {
          return Err(IndexOutOfRange);
        }
        y := y + 1;
      }
      forall xx: nat, yy: nat | xx < w && yy < h
        ensures PixelColor(formatFlag, clut, pixelData, w, xx, yy).Some?
        ensures img[xx, yy] == Opaque(PixelColor(formatFlag, clut, pixelData, w, xx, yy).value)
      {
        assert Done(img[xx, yy], clut, xx, yy);
      }
      pilImage := img;
      r := Ok(());
    }

    /** `v` is the opaque CLUT colour `decode` gives pixel (x, y). */
    predicate Done(v: Rgba, clut: seq<Rgb>, x: nat, y: nat) {
      Color(clut, x, y).Some? && v == Opaque(Color(clut, x, y).value)
    }

    /** Every pixel of row y has a colour. */
    ghost predicate RowDecodable(clut: seq<Rgb>, y: nat) {
      forall x: nat | x < pixelDataWidth :: PixelColor(formatFlag, clut, pixelData, pixelDataWidth, x, y).Some?
    }

    /** The `for x in range(0, width, 2)` loop of the 4-bit branch, for one row. */
    method DecodeRow4(img: array2<Rgba>, clut: seq<Rgb>, y: nat) returns (ok: bool)
      requires formatFlag == Indexed4
      requires img.Length0 == pixelDataWidth && y < img.Length1
      modifies img
      ensures ok ==> forall x: nat | x < pixelDataWidth :: Done(img[x, y], clut, x, y)
      ensures !ok ==> !RowDecodable(clut, y)
      ensures forall x: nat, yy: nat | x < img.Length0 && yy < img.Length1 && yy != y :: img[x, yy] == old(img[x, yy])
    {
      var w := pixelDataWidth;
      var x := 0;
      while x < w
        invariant 0 <= x <= w + 1 && x % 2 == 0
        invariant forall xx: nat | xx < x && xx < w :: Done(img[xx, y], clut, xx, y)
        invariant forall xx: nat, yy: nat | xx < img.Length0 && yy < img.Length1 && yy != y :: img[xx, yy] == old(img[xx, yy])
      {
        ok := DecodePair(img, clut, y, x);
        if !ok {
          return false;
        }
        x := x + 2;
      }
      ok := true;
    }

    /** One pass of the 4-bit loop: the byte at y * (w / 2) + x / 2 gives pixels x and x + 1 of row y. */
    method DecodePair(img: array2<Rgba>, clut: seq<Rgb>, y: nat, x: nat) returns (ok: bool)
      requires formatFlag == Indexed4 && x % 2 == 0 && x < pixelDataWidth
      requires img.Length0 == pixelDataWidth && y < img.Length1
      modifies img
      ensures ok ==> Done(img[x, y], clut, x, y)
      ensures ok && x + 1 < pixelDataWidth ==> Done(img[x + 1, y], clut, x + 1, y)
      ensures !ok ==> !RowDecodable(clut, y)
      ensures forall xx: nat, yy: nat | xx < img.Length0 && yy < img.Length1 && (yy != y || (xx != x && xx != x + 1)) ::
        img[xx, yy] == old(img[xx, yy])
    {
      var w := pixelDataWidth;
      var rowSize := w / 2;
      var off := y * rowSize + x / 2;
      NibbleColors(clut, pixelData, w, x, y);
      if off >= |pixelData| {
        return false;
      }
      var byte := pixelData[off];
      var index1 := byte % 16;
      var index2 := (byte / 16) % 16;
      if index1 >= |clut| {
        return false;
      }
      img[x, y] := Opaque(clut[index1]);
      if x + 1 < w {
        if index2 >= |clut| {
          return false;
        }
        img[x + 1, y] := Opaque(clut[index2]);
      }
      ok := true;
    }

    /** The `for x in range(width)` loop of the 8-bit branch, for one row. */
    method DecodeRow8(img: array2<Rgba>, clut: seq<Rgb>, y: nat) returns (ok: bool)
      requires formatFlag == Indexed8
      requires img.Length0 == pixelDataWidth && y < img.Length1
      modifies img
      ensures ok ==> forall x: nat | x < pixelDataWidth :: Done(img[x, y], clut, x, y)
      ensures !ok ==> !RowDecodable(clut, y)
      ensures forall x: nat, yy: nat | x < img.Length0 && yy < img.Length1 && yy != y :: img[x, yy] == old(img[x, yy])
    {
      var w := pixelDataWidth;
      var x := 0;
      while x < w
        invariant 0 <= x <= w
        invariant forall xx: nat | xx < x :: Done(img[xx, y], clut, xx, y)
        invariant forall xx: nat, yy: nat | xx < img.Length0 && yy < img.Length1 && yy != y :: img[xx, yy] == old(img[xx, yy])
      {
        var off := y * w + x;
        if off >= |pixelData| {
          assert PixelColor(formatFlag, clut, pixelData, w, x, y).None?;
          return false;
        }
        var colorIndex := pixelData[off];
        if colorIndex >= |clut| {
          assert PixelColor(formatFlag, clut, pixelData, w, x, y).None?;
          return false;
        }
        img[x, y] := Opaque(clut[colorIndex]);
        x := x + 1;
      }
      ok := true;
    }
  }
}
