/**
 * The terminal session: the live drops, the last known terminal size, and
 * the record of what each tick writes to the screen.
 */
module Buffer {
  import Palette
  import opened Rain

  class AlternateBuffer {
    /** The live drops, in the order they were created. */
    var points: seq<Drop>
    /** Terminal columns. */
    var width: u16
    /** Terminal rows. */
    var height: u16
    /** Every cursor-move-and-print the session has issued, oldest first. */
    ghost var log: seq<Draw>

    /**
     * Every drop is in a column of the screen, and its head is at most
     * `height + N2 + 1`. In particular a session with width 0 holds no
     * drops, so a tick never draws a column from the empty range.
     */
    ghost predicate Valid()
      reads this
    {
      Fits(points, width, height)
    }

    /** A fresh session for a terminal of the given size: no drops, nothing drawn. */
    constructor (width: u16, height: u16)
      ensures Valid()
      ensures this.width == width && this.height == height
      ensures points == [] && log == []
    {
      this.width := width;
      this.height := height;
      points := [];
      log := [];
    }

    /**
     * Takes the new terminal size and drops, in order, every drop whose
     * column is gone or whose head is `height + PruneMargin` or lower.
     */
    method Resize(newWidth: u16, newHeight: u16)
      requires forall i :: 0 <= i < |points| && points[i].x < newWidth ==> newHeight + PruneMargin <= U16_MAX
      modifies this
      ensures Valid()
      ensures width == newWidth && height == newHeight
      ensures points == Prune(old(points), newWidth, newHeight)
      ensures log == old(log)
    {
      width := newWidth;
      height := newHeight;
      points := Prune(points, width, height);
    }

    /**
     * Paints the trail of a head at `(x, y)`: for each offset `k` in `0 .. N-1`
     * whose row `y - 2k` exists and is not below `height`, one binary glyph in
     * shade `k`.
     */
    method DrawTrail(x: u16, y: u16) returns (ghost trail: seq<Draw>)
      modifies this`log
      ensures log == old(log) + trail
      ensures Renders(trail, TrailCells(x, y, height, N))
    {
      trail := [];
      for k := 0 to N
        invariant log == old(log) + trail
        invariant Renders(trail, TrailCells(x, y, height, k))
      {
        if y < 2 * k {
          continue;
        }
        var realY := y - 2 * k;
        if realY > height {
          continue;
        }
        var heads: bool :| true;
        var glyph := if heads then '1' else '0';
        var draw := Draw(Cell(x, realY, k), Palette.Colors[k], glyph);
        RendersAppend(trail, [draw], TrailCells(x, y, height, k), [Cell(x, realY, k)]);
        trail := trail + [draw];
        log := log + [draw];
      }
    }

    /**
     * The loop body of a tick for drop `i`: recycle it if its head is more
     * than `height + N2` down, let it fall one row, and paint its trail.
     */
    method Fall(i: nat) returns (ghost trail: seq<Draw>)
      requires i < |points| && points[i].x < width
      requires height + N2 < U16_MAX
      modifies this`points, this`log
      ensures |points| == |old(points)| && points == old(points)[i := points[i]]
      ensures Advanced(old(points)[i], points[i], width, height)
      ensures log == old(log) + trail
      ensures Renders(trail, TrailCells(points[i].x, points[i].y, height, N))
    {
      var x, y := points[i].x, points[i].y;
      if y > height + N2 {
        y := 0;
        x :| 0 <= x < width;
      }
      y := y + 1;
      points := points[i := Drop(x, y)];
      trail := DrawTrail(x, y);
    }

    /**
     * The drop loop of a tick: every existing drop, in list order, is moved
     * by the rule `Advanced` and its trail painted.
     */
    method FallAll() returns (ghost frame: seq<Draw>)
      requires Valid()
      requires points == [] || height + N2 < U16_MAX
      modifies this`points, this`log
      ensures Valid()
      ensures |points| == |old(points)|
      ensures forall i :: 0 <= i < |points| ==> Advanced(old(points)[i], points[i], width, height)
      ensures log == old(log) + frame
      ensures Renders(frame, FrameCells(points, height))
    {
      ghost var before := points;
      frame := [];
      var i := 0;
      while i < |points|
        invariant |points| == |before| && 0 <= i <= |points|
        invariant forall k :: 0 <= k < i ==> Advanced(before[k], points[k], width, height)
        invariant forall k :: i <= k < |points| ==> points[k] == before[k]
        invariant log == old(log) + frame
        invariant Renders(frame, FrameCells(points[..i], height))
      {
        ghost var done := points[..i];
        ghost var trail := Fall(i);
        AppendAssoc(old(log), frame, trail);
        assert points[..i + 1] == done + [points[i]];
        RendersNextDrop(frame, trail, done, points[i], height);
        frame := frame + trail;
        i := i + 1;
      }
      assert points[..|before|] == points;
      AdvancedFits(before, points, width, height);
    }

    /**
     * One animation frame. Every existing drop is moved by the rule
     * `Advanced` and its trail painted, in list order; then, while there
     * are fewer than `2 * width` drops, one new drop is appended at row 0
     * of a freshly chosen column. The new drop is not painted this frame.
     */
    method Tick() returns (ghost frame: seq<Draw>)
      requires Valid()
      requires points == [] || height + N2 < U16_MAX
      modifies this`points, this`log
      ensures Valid()
      ensures |points| == if |old(points)| < 2 * width then |old(points)| + 1 else |old(points)|
      ensures |old(points)| <= 2 * width ==> |points| <= 2 * width
      ensures forall i :: 0 <= i < |old(points)| ==> Advanced(old(points)[i], points[i], width, height)
      ensures |old(points)| < 2 * width ==> points[|old(points)|].x < width && points[|old(points)|].y == 0
      ensures log == old(log) + frame
      ensures Renders(frame, FrameCells(points[..|old(points)|], height))
    {
      frame := FallAll();
      ghost var moved := points;
      if |points| < 2 * width {
        var x: u16 :| 0 <= x < width;
        points := points + [Drop(x, 0)];
      }
      assert points[..|moved|] == moved;
    }
  }
}
