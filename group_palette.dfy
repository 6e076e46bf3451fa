/**
 * The integer part of `compute_group_palette` (ui_actions.py): thumbnails laid out in rows
 * at most 1024 pixels wide, the mosaic that holds them, and the palette PIL's quantizer hands
 * back, cut or padded with black to exactly `palette_size` colours. Thumbnail sizes are
 * inputs; resampling and quantization are PIL's.
 */
module GroupPalette {
  import opened Bytes
  import opened Colors

  /** `max_row_w`: a row is never extended past this width. */
  const MaxRowWidth: nat := 1024

  datatype Thumb = Thumb(width: nat, height: nat)

  /** One entry of `rows`: the thumbnails of the row and its `cur_h`. */
  datatype Row = Row(thumbs: seq<Thumb>, height: nat)

  function Max(a: nat, b: nat): nat {
    if a >= b then a else b
  }

  /** The sum of the widths. */
  function RowWidth(ts: seq<Thumb>): nat
    decreases |ts|
  {
    if |ts| == 0 then 0 else RowWidth(ts[..|ts| - 1]) + ts[|ts| - 1].width
  }

  /** The tallest height, 0 for no thumbnails. */
  function MaxHeight(ts: seq<Thumb>): nat
    decreases |ts|
  {
    if |ts| == 0 then 0 else Max(MaxHeight(ts[..|ts| - 1]), ts[|ts| - 1].height)
  }

  /** `cur_h` is the height of the tallest thumbnail of the row. */
  lemma {:induction false} MaxHeightIsMax(ts: seq<Thumb>)
    ensures forall j | 0 <= j < |ts| :: ts[j].height <= MaxHeight(ts)
    ensures |ts| > 0 ==> exists j | 0 <= j < |ts| :: ts[j].height == MaxHeight(ts)
    decreases |ts|
  {
    if |ts| > 0 {
      var front, last := ts[..|ts| - 1], |ts| - 1;
      MaxHeightIsMax(front);
      assert forall j | 0 <= j < |front| :: front[j] == ts[j];
      if ts[last].height >= MaxHeight(front) {
        assert ts[last].height == MaxHeight(ts);
      } else {
        var j :| 0 <= j < |front| && front[j].height == MaxHeight(front);
        assert ts[j].height == MaxHeight(ts);
      }
    }
  }

  /** The thumbnails of all rows, in row order. */
  function Flatten(rows: seq<Row>): seq<Thumb>
    decreases |rows|
  {
    if |rows| == 0 then [] else Flatten(rows[..|rows| - 1]) + rows[|rows| - 1].thumbs
  }

  lemma RowWidthAppend(ts: seq<Thumb>, t: Thumb)
    ensures RowWidth(ts + [t]) == RowWidth(ts) + t.width
  {
    assert (ts + [t])[..|ts|] == ts;
  }

  lemma MaxHeightAppend(ts: seq<Thumb>, t: Thumb)
    ensures MaxHeight(ts + [t]) == Max(MaxHeight(ts), t.height)
  {
    assert (ts + [t])[..|ts|] == ts;
  }

  lemma FlattenAppend(rows: seq<Row>, r: Row)
    ensures Flatten(rows + [r]) == Flatten(rows) + r.thumbs
  {
    assert (rows + [r])[..|rows|] == rows;
  }

  /** A row as the loop closes it: not empty, as tall as its tallest thumbnail, and within the
   *  width cap unless it holds a single thumbnail. */
  predicate RowOk(r: Row) {
    && |r.thumbs| > 0
    && r.height == MaxHeight(r.thumbs)
    && (|r.thumbs| > 1 ==> RowWidth(r.thumbs) <= MaxRowWidth)
  }

  /** Each row after the first was started because its first thumbnail did not fit the row before. */
  predicate Breaks(rows: seq<Row>) {
    forall i | 0 < i < |rows| ::
      |rows[i].thumbs| > 0 && RowWidth(rows[i - 1].thumbs) + rows[i].thumbs[0].width > MaxRowWidth
  }

  /** `rows` is the greedy tiling of `thumbs`. */
  predicate GreedyTiling(rows: seq<Row>, thumbs: seq<Thumb>) {
    && Flatten(rows) == thumbs
    && (forall i | 0 <= i < |rows| :: RowOk(rows[i]))
    && Breaks(rows)
  }

  /** The loop's state after the thumbnails `done`: closed rows, then the open row `cur`. */
  predicate Partial(rows: seq<Row>, cur: seq<Thumb>, done: seq<Thumb>) {
    && Flatten(rows) + cur == done
    && (forall i | 0 <= i < |rows| :: RowOk(rows[i]))
    && Breaks(rows)
    && (|cur| > 1 ==> RowWidth(cur) <= MaxRowWidth)
    && (|done| > 0 ==> |cur| > 0)
    && (|rows| > 0 ==> RowWidth(rows[|rows| - 1].thumbs) + cur[0].width > MaxRowWidth)
  }

  lemma PrefixSnoc<T>(s: seq<T>, i: nat)
    requires i < |s|
    ensures s[..i + 1] == s[..i] + [s[i]]
  {
  }

  /** Closing a non-empty open row leaves a greedy tiling of what has been read so far. */
  lemma PushRow(rows: seq<Row>, cur: seq<Thumb>, done: seq<Thumb>)
    requires Partial(rows, cur, done) && |cur| > 0
    ensures GreedyTiling(rows + [Row(cur, MaxHeight(cur))], done)
  {
    FlattenAppend(rows, Row(cur, MaxHeight(cur)));
    PushRowOk(rows, Row(cur, MaxHeight(cur)));
    PushRowBreaks(rows, Row(cur, MaxHeight(cur)));
  }

  lemma PushRowOk(rows: seq<Row>, r: Row)
    requires forall i | 0 <= i < |rows| :: RowOk(rows[i])
    requires RowOk(r)
    ensures forall i | 0 <= i < |rows| + 1 :: RowOk((rows + [r])[i])
  {
    forall i | 0 <= i < |rows| + 1
      ensures RowOk((rows + [r])[i])
    {
      if i < |rows| {
        assert (rows + [r])[i] == rows[i];
      }
    }
  }

  lemma PushRowBreaks(rows: seq<Row>, r: Row)
    requires Breaks(rows) && |r.thumbs| > 0
    requires |rows| > 0 ==> RowWidth(rows[|rows| - 1].thumbs) + r.thumbs[0].width > MaxRowWidth
    ensures Breaks(rows + [r])
  {
    var rows' := rows + [r];
    forall i | 0 < i < |rows'|
      ensures |rows'[i].thumbs| > 0 && RowWidth(rows'[i - 1].thumbs) + rows'[i].thumbs[0].width > MaxRowWidth
    {
      assert rows'[i - 1] == rows[i - 1];
      if i < |rows| {
        assert rows'[i] == rows[i];
      }
    }
  }

  /** Closing the open row because `t` does not fit keeps the state. */
  lemma OpenRow(rows: seq<Row>, cur: seq<Thumb>, done: seq<Thumb>, t: Thumb)
    requires Partial(rows, cur, done) && |cur| > 0 && RowWidth(cur) + t.width > MaxRowWidth
    ensures Partial(rows + [Row(cur, MaxHeight(cur))], [t], done + [t])
  {
    PushRow(rows, cur, done);
  }

  /** Adding `t` to the open row when it fits, or when the row is empty, keeps the state. */
  lemma ExtendRow(rows: seq<Row>, cur: seq<Thumb>, done: seq<Thumb>, t: Thumb)
    requires Partial(rows, cur, done) && !(|cur| > 0 && RowWidth(cur) + t.width > MaxRowWidth)
    ensures Partial(rows, cur + [t], done + [t])
  {
    RowWidthAppend(cur, t);
    assert Flatten(rows) + (cur + [t]) == (Flatten(rows) + cur) + [t];
    assert |rows| > 0 ==> |cur| > 0 && (cur + [t])[0] == cur[0];
  }

  /** After the last thumbnail the open row, if any, is the last row. */
  lemma CloseRow(rows: seq<Row>, cur: seq<Thumb>, done: seq<Thumb>)
    requires Partial(rows, cur, done)
    ensures |cur| > 0 ==> GreedyTiling(rows + [Row(cur, MaxHeight(cur))], done)
    ensures |cur| == 0 ==> GreedyTiling(rows, done)
  {
    if |cur| > 0 {
      PushRow(rows, cur, done);
    } else {
      assert Flatten(rows) + cur == Flatten(rows);
    }
  }

  /** A row of one thumbnail is as wide and as tall as that thumbnail. */
  lemma SingleRow(t: Thumb)
    ensures RowWidth([t]) == t.width && MaxHeight([t]) == t.height
  {
    assert [t][..0] == [];
  }

  /** The loop body for one thumbnail `t`, after the thumbnails `done`. */
  method TileStep(rows: seq<Row>, curRow: seq<Thumb>, curW: nat, curH: nat, t: Thumb, ghost done: seq<Thumb>)
    returns (rows': seq<Row>, curRow': seq<Thumb>, curW': nat, curH': nat)
    requires Partial(rows, curRow, done) && curW == RowWidth(curRow) && curH == MaxHeight(curRow)
    ensures Partial(rows', curRow', done + [t]) && curW' == RowWidth(curRow') && curH' == MaxHeight(curRow')
  {
    if |curRow| > 0 && curW + t.width > MaxRowWidth {
      rows', curRow', curW', curH' := StartRow(rows, curRow, curH, t, done);
    } else {
      rows', curRow', curW', curH' := JoinRow(rows, curRow, curW, curH, t, done);
    }
  }

  /** `t` does not fit: the open row is closed and `t` opens the next one. */
  method StartRow(rows: seq<Row>, curRow: seq<Thumb>, curH: nat, t: Thumb, ghost done: seq<Thumb>)
    returns (rows': seq<Row>, curRow': seq<Thumb>, curW': nat, curH': nat)
    requires Partial(rows, curRow, done) && curH == MaxHeight(curRow)
    requires |curRow| > 0 && RowWidth(curRow) + t.width > MaxRowWidth
    ensures Partial(rows', curRow', done + [t]) && curW' == RowWidth(curRow') && curH' == MaxHeight(curRow')
  {
    OpenRow(rows, curRow, done, t);
    SingleRow(t);
    rows' := rows + [Row(curRow, curH)];
    curRow' := [t];
    curW' := t.width;
    curH' := t.height;
  }

  /** `t` fits, or the row is empty: `t` joins the open row. */
  method JoinRow(rows: seq<Row>, curRow: seq<Thumb>, curW: nat, curH: nat, t: Thumb, ghost done: seq<Thumb>)
    returns (rows': seq<Row>, curRow': seq<Thumb>, curW': nat, curH': nat)
    requires Partial(rows, curRow, done) && curW == RowWidth(curRow) && curH == MaxHeight(curRow)
    requires !(|curRow| > 0 && curW + t.width > MaxRowWidth)
    ensures Partial(rows', curRow', done + [t]) && curW' == RowWidth(curRow') && curH' == MaxHeight(curRow')
  {
    ExtendRow(rows, curRow, done, t);
    RowWidthAppend(curRow, t);
    MaxHeightAppend(curRow, t);
    rows' := rows;
    curRow' := curRow + [t];
    curW' := curW + t.width;
    curH' := Max(curH, t.height);
  }

  /**
   * The row loop: a thumbnail opens a new row exactly when the current row is non-empty and
   * the thumbnail would take it past 1024 pixels; otherwise it joins the current row. Order is
   * kept, and there are rows exactly when there are thumbnails.
   */
  method TileRows(thumbs: seq<Thumb>) returns (rows: seq<Row>)
    ensures GreedyTiling(rows, thumbs)
    ensures |rows| == 0 <==> |thumbs| == 0
  {
    rows := [];
    var curRow: seq<Thumb> := [];
    var curW: nat := 0;
    var curH: nat := 0;
    for i := 0 to |thumbs|
      invariant Partial(rows, curRow, thumbs[..i])
      invariant curW == RowWidth(curRow) && curH == MaxHeight(curRow)
    {
      PrefixSnoc(thumbs, i);
      rows, curRow, curW, curH := TileStep(rows, curRow, curW, curH, thumbs[i], thumbs[..i]);
    }
    TakeAll(thumbs);
    CloseRow(rows, curRow, thumbs);
    if |curRow| > 0 {
      rows := rows + [Row(curRow, curH)];
    }
    FlattenNonEmpty(rows);
  }

  lemma {:induction false} FlattenCons(r: Row, rest: seq<Row>)
    ensures Flatten([r] + rest) == r.thumbs + Flatten(rest)
    decreases |rest|
  {
    if |rest| == 0 {
      ConsEmpty(r, rest);
      FlattenAppend([], r);
    } else {
      var front, last := rest[..|rest| - 1], rest[|rest| - 1];
      ConsSnoc(r, rest);
      FlattenAppend([r] + front, last);
      FlattenAppend(front, last);
      FlattenCons(r, front);
      ConcatAssoc(r.thumbs, Flatten(front), last.thumbs);
    }
  }

  lemma ConsEmpty<T>(x: T, s: seq<T>)
    requires |s| == 0
    ensures [x] + s == [] + [x]
  {
  }

  lemma ConsSnoc<T>(x: T, s: seq<T>)
    requires |s| > 0
    ensures s == s[..|s| - 1] + [s[|s| - 1]]
    ensures [x] + s == ([x] + s[..|s| - 1]) + [s[|s| - 1]]
  {
  }

  lemma TakeAll<T>(s: seq<T>)
    ensures s[..|s|] == s
  {
  }

  lemma ConcatAssoc<T>(a: seq<T>, b: seq<T>, c: seq<T>)
    ensures (a + b) + c == a + (b + c)
  {
  }

  /** Dropping the first row of a greedy tiling leaves a greedy tiling of the thumbnails after it. */
  lemma TailTiling(rows: seq<Row>, thumbs: seq<Thumb>)
    requires GreedyTiling(rows, thumbs) && |rows| > 0
    ensures |rows[0].thumbs| <= |thumbs| && GreedyTiling(rows[1..], thumbs[|rows[0].thumbs|..])
  {
    assert rows == [rows[0]] + rows[1..];
    FlattenCons(rows[0], rows[1..]);
    var tail := rows[1..];
    assert forall i | 0 <= i < |tail| :: tail[i] == rows[i + 1];
  }

  /** A greedy tiling's first row cannot stop short of another's: the next thumbnail would have fit. */
  lemma FirstRowNotShorter(r1: seq<Row>, r2: seq<Row>, thumbs: seq<Thumb>)
    requires GreedyTiling(r1, thumbs) && GreedyTiling(r2, thumbs) && |r1| > 0 && |r2| > 0
    ensures |r1[0].thumbs| >= |r2[0].thumbs|
  {
    var a, b := r1[0].thumbs, r2[0].thumbs;
    assert r1 == [r1[0]] + r1[1..];
    assert r2 == [r2[0]] + r2[1..];
    FlattenCons(r1[0], r1[1..]);
    FlattenCons(r2[0], r2[1..]);
    assert RowOk(r1[0]) && RowOk(r2[0]);
    assert a == thumbs[..|a|] && b == thumbs[..|b|];
    if |r1| == 1 {
      assert Flatten(r1[1..]) == [];
    } else {
      var next := r1[1];
      assert r1[1..] == [next] + r1[2..];
      FlattenCons(next, r1[2..]);
      assert RowOk(next);
      assert next.thumbs[0] == thumbs[|a|];
      assert RowWidth(a) + next.thumbs[0].width > MaxRowWidth;
      if |a| < |b| {
        assert a == b[..|a|] && b[|a|] == next.thumbs[0];
        PrefixSnoc(b, |a|);
        RowWidthAppend(a, b[|a|]);
        RowWidthPrefix(b, |a| + 1);
        assert false;
      }
    }
  }

  /**
   * The loop's contract pins its result down: two greedy tilings of the same thumbnails are
   * the same rows.
   */
  lemma {:induction false} GreedyTilingUnique(r1: seq<Row>, r2: seq<Row>, thumbs: seq<Thumb>)
    requires GreedyTiling(r1, thumbs) && GreedyTiling(r2, thumbs)
    ensures r1 == r2
    decreases |thumbs|
  {
    if |r1| == 0 || |r2| == 0 {
      FlattenNonEmpty(r1);
      FlattenNonEmpty(r2);
    } else {
      FirstRowNotShorter(r1, r2, thumbs);
      FirstRowNotShorter(r2, r1, thumbs);
      assert r1 == [r1[0]] + r1[1..];
      assert r2 == [r2[0]] + r2[1..];
      FlattenCons(r1[0], r1[1..]);
      FlattenCons(r2[0], r2[1..]);
      assert RowOk(r1[0]) && RowOk(r2[0]);
      var n := |r1[0].thumbs|;
      assert r1[0].thumbs == thumbs[..n] == r2[0].thumbs;
      TailTiling(r1, thumbs);
      TailTiling(r2, thumbs);
      GreedyTilingUnique(r1[1..], r2[1..], thumbs[n..]);
    }
  }

  lemma FlattenNonEmpty(rows: seq<Row>)
    requires forall i | 0 <= i < |rows| :: RowOk(rows[i])
    ensures |rows| > 0 <==> |Flatten(rows)| > 0
  {
    if |rows| > 0 {
      assert rows == [rows[0]] + rows[1..];
      FlattenCons(rows[0], rows[1..]);
      assert RowOk(rows[0]);
    }
  }

  // ---------------------------------------------------------------------------------------
  // Mosaic dimensions
  // ---------------------------------------------------------------------------------------

  /** `mosaic_w`: the widest row. Python's `max` has no value for a group without thumbnails. */
  function MosaicWidth(rows: seq<Row>): (w: nat)
    requires |rows| > 0
    ensures forall i | 0 <= i < |rows| :: RowWidth(rows[i].thumbs) <= w
    ensures exists i | 0 <= i < |rows| :: RowWidth(rows[i].thumbs) == w
    decreases |rows|
  {
    if |rows| == 1 then RowWidth(rows[0].thumbs)
    else
      var front := rows[..|rows| - 1];
      var m := MosaicWidth(front);
      assert forall i | 0 <= i < |front| :: front[i] == rows[i];
      Max(m, RowWidth(rows[|rows| - 1].thumbs))
  }

  /** `mosaic_h`: the rows stacked. */
  function MosaicHeight(rows: seq<Row>): (h: nat)
    ensures forall i | 0 <= i < |rows| :: rows[i].height <= h
    decreases |rows|
  {
    if |rows| == 0 then 0
    else
      var front := rows[..|rows| - 1];
      assert forall i | 0 <= i < |front| :: front[i] == rows[i];
      MosaicHeight(front) + rows[|rows| - 1].height
  }

  /**
   * Every row of a greedy tiling is at most 1024 wide or is one thumbnail, so the mosaic is
   * no wider than 1024 or its widest thumbnail.
   */
  lemma MosaicWidthBound(rows: seq<Row>, thumbs: seq<Thumb>)
    requires GreedyTiling(rows, thumbs) && |rows| > 0
    ensures MosaicWidth(rows) <= MaxRowWidth || exists j | 0 <= j < |thumbs| :: MosaicWidth(rows) == thumbs[j].width
  {
    forall i | 0 <= i < |rows| && RowWidth(rows[i].thumbs) == MosaicWidth(rows)
      ensures MosaicWidth(rows) <= MaxRowWidth || exists j | 0 <= j < |thumbs| :: MosaicWidth(rows) == thumbs[j].width
    {
      RowWidthBound(rows, thumbs, i);
    }
  }

  /** A row of a greedy tiling is at most 1024 wide or as wide as its single thumbnail. */
  lemma RowWidthBound(rows: seq<Row>, thumbs: seq<Thumb>, i: nat)
    requires GreedyTiling(rows, thumbs) && i < |rows|
    ensures RowWidth(rows[i].thumbs) <= MaxRowWidth || exists j | 0 <= j < |thumbs| :: RowWidth(rows[i].thumbs) == thumbs[j].width
  {
    assert RowOk(rows[i]);
    if |rows[i].thumbs| == 1 {
      var t := rows[i].thumbs[0];
      assert rows[i].thumbs == [t];
      SingleRow(t);
      FlattenHas(rows, i, 0);
    }
  }

  /** Row i's thumbnail j is a thumbnail of the flattened sequence. */
  lemma {:induction false} FlattenHas(rows: seq<Row>, i: nat, j: nat)
    requires i < |rows| && j < |rows[i].thumbs|
    ensures rows[i].thumbs[j] in Flatten(rows)
    decreases |rows|
  {
    var front := rows[..|rows| - 1];
    if i < |rows| - 1 {
      assert front[i] == rows[i];
      FlattenHas(front, i, j);
    }
  }

  lemma {:induction false} RowWidthPrefix(ts: seq<Thumb>, j: nat)
    requires j <= |ts|
    ensures RowWidth(ts[..j]) <= RowWidth(ts)
    decreases |ts|
  {
    if j < |ts| {
      var front := ts[..|ts| - 1];
      assert ts[..j] == front[..j];
      RowWidthPrefix(front, j);
    } else {
      assert ts[..j] == ts;
    }
  }

  lemma MosaicHeightAppend(rows: seq<Row>, r: Row)
    ensures MosaicHeight(rows + [r]) == MosaicHeight(rows) + r.height
  {
    assert (rows + [r])[..|rows|] == rows;
  }

  lemma {:induction false} MosaicHeightPrefix(rows: seq<Row>, i: nat)
    requires i < |rows|
    ensures MosaicHeight(rows[..i]) + rows[i].height <= MosaicHeight(rows)
    decreases |rows|
  {
    var front := rows[..|rows| - 1];
    if i < |rows| - 1 {
      assert rows[..i] == front[..i] && front[i] == rows[i];
      MosaicHeightPrefix(front, i);
    } else {
      assert rows[..i] == front;
    }
  }

  /** Where `mosaic.paste` puts one thumbnail. */
  datatype Placement = Placement(x: nat, y: nat, thumb: Thumb)

  function ThumbsOf(places: seq<Placement>): (ts: seq<Thumb>)
    ensures |ts| == |places|
    decreases |places|
  {
    if |places| == 0 then [] else ThumbsOf(places[..|places| - 1]) + [places[|places| - 1].thumb]
  }

  lemma ThumbsOfAppend(places: seq<Placement>, p: Placement)
    ensures ThumbsOf(places + [p]) == ThumbsOf(places) + [p.thumb]
  {
    assert (places + [p])[..|places|] == places;
  }

  /**
   * Row `row` is pasted at height `y` from index `start` on: its k-th thumbnail sits at
   * x = the width of the k thumbnails before it in the row.
   */
  predicate PlacedRow(places: seq<Placement>, start: nat, row: Row, y: nat) {
    start + |row.thumbs| <= |places|
    && forall k | 0 <= k < |row.thumbs| :: places[start + k] == Placement(RowWidth(row.thumbs[..k]), y, row.thumbs[k])
  }

  /** Appending placements keeps the rows already placed where they are. */
  lemma PlacedRowExtend(places: seq<Placement>, places': seq<Placement>, start: nat, row: Row, y: nat)
    requires PlacedRow(places, start, row, y)
    requires |places| <= |places'| && places'[..|places|] == places
    ensures PlacedRow(places', start, row, y)
  {
    forall k | 0 <= k < |row.thumbs|
      ensures places'[start + k] == Placement(RowWidth(row.thumbs[..k]), y, row.thumbs[k])
    {
      assert places'[..|places|][start + k] == places'[start + k];
    }
  }

  /** Rows 0 .. n - 1 are placed: each after the rows above it, at the sum of their heights. */
  predicate PlacedRows(places: seq<Placement>, rows: seq<Row>, n: nat)
    requires n <= |rows|
  {
    forall i | 0 <= i < n :: PlacedRow(places, |Flatten(rows[..i])|, rows[i], MosaicHeight(rows[..i]))
  }

  /** Placing row i after rows 0 .. i - 1 keeps them placed and places it too. */
  lemma PlacedRowsStep(before: seq<Placement>, places: seq<Placement>, rows: seq<Row>, i: nat)
    requires i < |rows| && PlacedRows(before, rows, i)
    requires |before| <= |places| && places[..|before|] == before
    requires PlacedRow(places, |Flatten(rows[..i])|, rows[i], MosaicHeight(rows[..i]))
    ensures PlacedRows(places, rows, i + 1)
  {
    forall i' | 0 <= i' < i
      ensures PlacedRow(places, |Flatten(rows[..i'])|, rows[i'], MosaicHeight(rows[..i']))
    {
      PlacedRowExtend(before, places, |Flatten(rows[..i'])|, rows[i'], MosaicHeight(rows[..i']));
    }
  }

  /** The thumbnails lie inside a `w` by `h` mosaic. */
  predicate InsideMosaic(places: seq<Placement>, w: nat, h: nat) {
    forall k | 0 <= k < |places| :: places[k].x + places[k].thumb.width <= w && places[k].y + places[k].thumb.height <= h
  }

  /**
   * The paste loop: x runs along each row, y down by each row's height. Every thumbnail is
   * placed once, in order, and lies wholly inside the mosaic: a row's height is that of its
   * tallest thumbnail and the mosaic is as wide as its widest row.
   */
  method PlaceThumbs(rows: seq<Row>) returns (places: seq<Placement>)
    requires |rows| > 0 && forall i | 0 <= i < |rows| :: RowOk(rows[i])
    ensures ThumbsOf(places) == Flatten(rows)
    // row i starts after the thumbnails of the rows above it, at the sum of their heights
    ensures PlacedRows(places, rows, |rows|)
    ensures InsideMosaic(places, MosaicWidth(rows), MosaicHeight(rows))
  {
    var mw, mh := MosaicWidth(rows), MosaicHeight(rows);
    places := [];
    var y := 0;
    for i := 0 to |rows|
      invariant y == MosaicHeight(rows[..i])
      invariant ThumbsOf(places) == Flatten(rows[..i])
      invariant PlacedRows(places, rows, i)
      invariant InsideMosaic(places, mw, mh)
    {
      var row := rows[i];
      MosaicHeightPrefix(rows, i);
      MaxHeightIsMax(row.thumbs);
      ghost var before := places;
      places := PlaceRow(places, row, y, mw, mh);
      PlacedRowsStep(before, places, rows, i);
      PrefixSnoc(rows, i);
      FlattenAppend(rows[..i], row);
      MosaicHeightAppend(rows[..i], row);
      y := y + row.height;
    }
    TakeAll(rows);
  }

  /** One row of the paste loop, at height `y`: its thumbnails side by side from x = 0. */
  method PlaceRow(places: seq<Placement>, row: Row, y: nat, ghost mw: nat, ghost mh: nat)
    returns (places': seq<Placement>)
    requires InsideMosaic(places, mw, mh)
    requires RowWidth(row.thumbs) <= mw && y + row.height <= mh
    requires forall j | 0 <= j < |row.thumbs| :: row.thumbs[j].height <= row.height
    ensures |places'| == |places| + |row.thumbs| && places'[..|places|] == places
    ensures PlacedRow(places', |places|, row, y)
    ensures ThumbsOf(places') == ThumbsOf(places) + row.thumbs
    ensures InsideMosaic(places', mw, mh)
  {
    places' := places;
    var x := 0;
    for j := 0 to |row.thumbs|
      invariant x == RowWidth(row.thumbs[..j])
      invariant |places'| == |places| + j && places'[..|places|] == places
      invariant forall k | 0 <= k < j :: places'[|places| + k] == Placement(RowWidth(row.thumbs[..k]), y, row.thumbs[k])
      invariant ThumbsOf(places') == ThumbsOf(places) + row.thumbs[..j]
      invariant InsideMosaic(places', mw, mh)
    {
      var t := row.thumbs[j];
      PrefixSnoc(row.thumbs, j);
      RowWidthAppend(row.thumbs[..j], t);
      RowWidthPrefix(row.thumbs, j + 1);
      ThumbsOfAppend(places', Placement(x, y, t));
      ConcatAssoc(ThumbsOf(places), row.thumbs[..j], [t]);
      places' := places' + [Placement(x, y, t)];
      x := x + t.width;
    }
    TakeAll(row.thumbs);
  }

  // ---------------------------------------------------------------------------------------
  // Palette extraction
  // ---------------------------------------------------------------------------------------

  /** Entry j of the group palette: the j-th triple PIL returned, or black past its end. */
  function PaletteEntry(flat: seq<byte>, j: nat): Rgb {
    if 3 * j + 2 < |flat| then Rgb(flat[3 * j], flat[3 * j + 1], flat[3 * j + 2]) else Black
  }

  /**
   * The extraction loop after `quantize`: triples from `getpalette()` (a flat list, whole
   * triples) up to `palette_size` of them, then black entries until there are exactly
   * `palette_size`.
   */
  method ExtractPalette(flat: seq<byte>, paletteSize: nat) returns (palette: seq<Rgb>)
    requires |flat| % 3 == 0
    ensures |palette| == paletteSize
    ensures forall j | 0 <= j < paletteSize :: palette[j] == PaletteEntry(flat, j)
  {
    palette := [];
    var stop := if |flat| < paletteSize * 3 then |flat| else paletteSize * 3;
    var i := 0;
    while i < stop
      invariant 0 <= i <= stop + 2 && i % 3 == 0
      invariant |palette| == i / 3
      invariant forall j | 0 <= j < |palette| :: palette[j] == PaletteEntry(flat, j)
      decreases stop - i
    {
      palette := palette + [Rgb(flat[i], flat[i + 1], flat[i + 2])];
      i := i + 3;
    }
    assert |palette| <= paletteSize;
    assert |palette| < paletteSize ==> 3 * |palette| >= |flat|;
    if |palette| < paletteSize {
      palette := palette + seq(paletteSize - |palette|, _ => Black);
    }
  }
}
