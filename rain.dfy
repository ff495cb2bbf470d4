/**
 * The value-level rules of the digital rain: what a drop is, which drops a
 * resize keeps, how one tick moves an existing drop, and which cells a
 * tick paints for a drop's trail.
 */
module Rain {
  import Palette

  /** The program's `u16`: columns, rows and the terminal size. */
  type u16 = x: int | 0 <= x < 0x1_0000

  const U16_MAX: int := 0xFFFF

  /** Number of trail offsets looked at behind each head (`N`). */
  const N: nat := 8

  /** A drop is recycled once its head is more than `height + N2` (`N2 = 2 * N`). */
  const N2: nat := 2 * N

  /** A resize keeps drops whose head is above `height + PruneMargin`. */
  const PruneMargin: nat := 10

  /** One falling column: its column `x` and the row `y` of its head. */
  datatype Drop = Drop(x: u16, y: u16)

  /** A painted cell: terminal column and row, and the trail offset that picks its shade. */
  datatype Cell = Cell(col: u16, row: u16, shade: nat)

  /** One terminal write: a cursor move to `cell` and a styled glyph in `color`. */
  datatype Draw = Draw(cell: Cell, color: Palette.Rgb, glyph: char)

  /**
   * The bounds every live drop keeps: its column is on the screen and its
   * head is at most `height + N2 + 1`.
   */
  predicate Fits(ds: seq<Drop>, width: u16, height: u16)
  {
    forall i :: 0 <= i < |ds| ==> ds[i].x < width && ds[i].y <= height + N2 + 1
  }

  // ---------------------------------------------------------------------
  // Resize
  // ---------------------------------------------------------------------

  /** The resize filter's test: the column still exists and the head is within the margin. */
  predicate Keep(d: Drop, width: u16, height: u16)
  {
    d.x < width && d.y < height + PruneMargin
  }

  /** The drops a resize keeps, in their original order. */
  function Prune(ds: seq<Drop>, width: u16, height: u16): (r: seq<Drop>)
    ensures |r| <= |ds|
    ensures forall d :: d in r <==> d in ds && Keep(d, width, height)
    ensures forall i :: 0 <= i < |r| ==> r[i].x < width && r[i].y < height + PruneMargin
  {
    if ds == [] then []
    else (if Keep(ds[0], width, height) then [ds[0]] else []) + Prune(ds[1..], width, height)
  }

  /** Pruning works drop by drop: the filter of a concatenation is the concatenation of filters. */
  lemma {:induction false} PruneAppend(a: seq<Drop>, b: seq<Drop>, width: u16, height: u16)
    ensures Prune(a + b, width, height) == Prune(a, width, height) + Prune(b, width, height)
  {
    if a == [] {
      assert a + b == b;
    } else {
      assert (a + b)[1..] == a[1..] + b;
      PruneAppend(a[1..], b, width, height);
    }
  }

  /** A drop list that already fits the new size passes through a resize untouched. */
  lemma {:induction false} PruneKeepsFitting(ds: seq<Drop>, width: u16, height: u16)
    requires forall i :: 0 <= i < |ds| ==> Keep(ds[i], width, height)
    ensures Prune(ds, width, height) == ds
  {
    if ds != [] {
      PruneKeepsFitting(ds[1..], width, height);
    }
  }

  /** Resizing twice to the same size prunes nothing the second time. */
  lemma PruneIdempotent(ds: seq<Drop>, width: u16, height: u16)
    ensures Prune(Prune(ds, width, height), width, height) == Prune(ds, width, height)
  {
    PruneKeepsFitting(Prune(ds, width, height), width, height);
  }

  /**
   * Pruning only removes drops whose column is gone: a resize that narrows
   * the terminal can leave more than `2 * width` drops. Twenty drops in
   * column 0 all survive a resize to width 5.
   */
  lemma NarrowingKeepsExcess(height: u16)
    ensures |Prune(seq(20, _ => Drop(0, 0)), 5, height)| == 20 > 2 * 5
  {
    PruneKeepsFitting(seq(20, _ => Drop(0, 0)), 5, height);
  }

  // ---------------------------------------------------------------------
  // Tick: moving an existing drop
  // ---------------------------------------------------------------------

  /**
   * How one tick moves an existing drop. A drop whose head is more than
   * `height + N2` below the top restarts at row 0 in a freshly chosen
   * column of the screen and then falls one row; any other drop keeps its
   * column and falls one row.
   */
  predicate Advanced(before: Drop, after: Drop, width: u16, height: u16)
  {
    if before.y > height + N2 then after.y == 1 && after.x < width
    else after.x == before.x && after.y == before.y + 1
  }

  /**
   * After a tick every moved drop is on the screen's columns (given it was
   * before) and its head is at most `height + N2 + 1`, and at least 1.
   */
  lemma AdvancedBounds(before: Drop, after: Drop, width: u16, height: u16)
    requires Advanced(before, after, width, height)
    requires before.x < width
    ensures after.x < width
    ensures 1 <= after.y <= height + N2 + 1
  {
  }

  /**
   * The drop loop of a tick keeps the bounds every live drop keeps: if the
   * drops fit before and each one moved by `Advanced`, they fit after.
   */
  lemma AdvancedFits(before: seq<Drop>, after: seq<Drop>, width: u16, height: u16)
    requires Fits(before, width, height) && |after| == |before|
    requires forall i :: 0 <= i < |before| ==> Advanced(before[i], after[i], width, height)
    ensures Fits(after, width, height)
  {
  }

  /** The head of a drop that was not recycled moves down by exactly one row. */
  lemma AdvancedFalls(before: Drop, after: Drop, width: u16, height: u16)
    requires Advanced(before, after, width, height)
    requires before.y <= height + N2
    ensures after == Drop(before.x, before.y + 1)
  {
  }

  // ---------------------------------------------------------------------
  // Tick: what gets drawn
  // ---------------------------------------------------------------------

  /**
   * Trail offset `k` of a head at row `y` is drawn when `y - 2k` neither
   * underflows nor lies below row `height`.
   */
  predicate Visible(y: int, height: int, k: nat)
  {
    2 * k <= y && y - 2 * k <= height
  }

  /**
   * The cells painted for trail offsets `0 .. k-1` of a head at `(x, y)`, in
   * increasing offset; offset `j` paints row `y - 2j` in shade `j`.
   */
  function TrailCells(x: u16, y: u16, height: u16, k: nat): seq<Cell>
    decreases k
  {
    if k == 0 then []
    else
      TrailCells(x, y, height, k - 1)
      + (if Visible(y, height, k - 1) then [Cell(x, y - 2 * (k - 1), k - 1)] else [])
  }

  /**
   * Every painted trail cell is in the head's column, at row `y - 2j` for a
   * visible offset `j < k`, in shade `j`; offsets come out strictly increasing,
   * so at most `k` cells are painted.
   */
  lemma {:induction false} TrailSound(x: u16, y: u16, height: u16, k: nat)
    ensures |TrailCells(x, y, height, k)| <= k
    ensures forall i :: 0 <= i < |TrailCells(x, y, height, k)| ==>
      var c := TrailCells(x, y, height, k)[i];
      c.col == x && c.shade < k && Visible(y, height, c.shade) && c.row == y - 2 * c.shade
    ensures forall i, j :: 0 <= i < j < |TrailCells(x, y, height, k)| ==>
      TrailCells(x, y, height, k)[i].shade < TrailCells(x, y, height, k)[j].shade
  {
    if k > 0 {
      TrailSound(x, y, height, k - 1);
    }
  }

  /** Every visible offset below `k` is painted: nothing in the trail is skipped. */
  lemma {:induction false} TrailComplete(x: u16, y: u16, height: u16, k: nat, j: nat)
    requires j < k && Visible(y, height, j)
    ensures Cell(x, y - 2 * j, j) in TrailCells(x, y, height, k)
  {
    if j < k - 1 {
      TrailComplete(x, y, height, k - 1, j);
    }
  }

  /**
   * A head at row 5 on a screen of at least 5 rows paints offsets 0, 1 and
   * 2 only (rows 5, 3 and 1); offsets 3 to 7 would go above row 0.
   */
  lemma TrailOfRowFive(x: u16, height: u16)
    requires height >= 5
    ensures TrailCells(x, 5, height, N) == [Cell(x, 5, 0), Cell(x, 3, 1), Cell(x, 1, 2)]
  {
  }

  /** The cells one tick paints for the drops `ds` (already moved), drop after drop. */
  function FrameCells(ds: seq<Drop>, height: u16): seq<Cell>
    decreases |ds|
  {
    if ds == [] then []
    else
      var last := ds[|ds| - 1];
      FrameCells(ds[..|ds| - 1], height) + TrailCells(last.x, last.y, height, N)
  }

  /**
   * Every cell a frame paints lies on the screen's rows, uses one of the
   * first `N` palette shades (so the palette lookup is in bounds), and is
   * the visible trail offset of one of the drops.
   */
  lemma {:induction false} FrameSound(ds: seq<Drop>, height: u16)
    ensures forall i :: 0 <= i < |FrameCells(ds, height)| ==>
      var c := FrameCells(ds, height)[i];
      c.shade < N < |Palette.Colors| && c.row <= height &&
      exists d :: d in ds && d.x == c.col && Visible(d.y, height, c.shade) && c.row == d.y - 2 * c.shade
    decreases |ds|
  {
    if ds != [] {
      var init, last := ds[..|ds| - 1], ds[|ds| - 1];
      FrameSound(init, height);
      TrailSound(last.x, last.y, height, N);
      var r := FrameCells(ds, height);
      assert r == FrameCells(init, height) + TrailCells(last.x, last.y, height, N);
      forall i | 0 <= i < |r|
        ensures r[i].shade < N < |Palette.Colors| && r[i].row <= height
        ensures exists d :: d in ds && d.x == r[i].col && Visible(d.y, height, r[i].shade) && r[i].row == d.y - 2 * r[i].shade
      {
        if i < |FrameCells(init, height)| {
          var d :| d in init && d.x == r[i].col && Visible(d.y, height, r[i].shade) && r[i].row == d.y - 2 * r[i].shade;
          assert d in ds;
        } else {
          assert r[i] == TrailCells(last.x, last.y, height, N)[i - |FrameCells(init, height)|];
          assert last in ds;
        }
      }
    }
  }

  /** Painting one more drop appends exactly that drop's trail to the frame. */
  lemma FrameCellsSnoc(ds: seq<Drop>, d: Drop, height: u16)
    ensures FrameCells(ds + [d], height) == FrameCells(ds, height) + TrailCells(d.x, d.y, height, N)
  {
  }

  /** Painting a frame so far and then one more drop's trail paints the longer frame. */
  lemma RendersNextDrop(painted: seq<Draw>, trail: seq<Draw>, done: seq<Drop>, d: Drop, height: u16)
    requires Renders(painted, FrameCells(done, height))
    requires Renders(trail, TrailCells(d.x, d.y, height, N))
    ensures Renders(painted + trail, FrameCells(done + [d], height))
  {
    FrameCellsSnoc(done, d, height);
    RendersAppend(painted, trail, FrameCells(done, height), TrailCells(d.x, d.y, height, N));
  }

  /**
   * A tick that sees only a drop just created (head at row 1) paints one
   * cell: the head itself, in the brightest shade.
   */
  lemma FirstFrame(x: u16, height: u16)
    requires height >= 1
    ensures FrameCells([Drop(x, 1)], height) == [Cell(x, 1, 0)]
  {
  }

  /** A binary-rain glyph. */
  predicate IsGlyph(c: char)
  {
    c == '0' || c == '1'
  }

  /**
   * `draws` paints exactly `cells`, in order, each in the palette shade
   * its trail offset selects and with a glyph `'0'` or `'1'`.
   */
  predicate Renders(draws: seq<Draw>, cells: seq<Cell>)
  {
    |draws| == |cells| &&
    forall i :: 0 <= i < |draws| ==>
      draws[i].cell == cells[i] && cells[i].shade < |Palette.Colors| &&
      draws[i].color == Palette.Colors[cells[i].shade] && IsGlyph(draws[i].glyph)
  }

  /**
   * Concatenation is associative. A generic sequence fact, not a rule of the
   * rain: `FallAll` calls it to regroup the log, because without the hint the
   * solver runs out of resource on that loop.
   */
  lemma AppendAssoc<T>(a: seq<T>, b: seq<T>, c: seq<T>)
    ensures (a + b) + c == a + (b + c)
  {
  }

  /** Painting two runs of cells one after the other paints their concatenation. */
  lemma RendersAppend(a: seq<Draw>, b: seq<Draw>, c: seq<Cell>, e: seq<Cell>)
    requires Renders(a, c) && Renders(b, e)
    ensures Renders(a + b, c + e)
  {
  }
}
