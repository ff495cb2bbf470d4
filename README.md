# matrix-rain: a verified model of the drop animation

matrix-rain draws a "digital rain" of falling `0`/`1` columns in the
terminal's alternate screen. All of its logic is in the `AlternateBuffer`
session type. The session holds a list of drops `(x, y)` (column, head
row, both `u16`) and the terminal size `(width, height)`. Two operations
change that state:

- `resize` takes the new terminal size. It then keeps, in order, only the
  drops whose column still exists and whose head is above `height + 10`.
- `tick` walks the drop list in place. A drop whose head is more than
  `height + 16` (`2 * N`, with trail length `N = 8`) below the top restarts
  at row 0 in a random column. Every drop then falls one row. Its trail is
  painted at rows `y - 2k` for `k` in `0..8`, skipping rows that would be
  above row 0 or below row `height`. The glyph is a random `0`/`1` in
  palette shade `k`. Finally one new drop is appended at row 0, but only
  while there are fewer than `2 * width` drops.

The model is split into three files:

- `palette.dfy`, module `Palette`: the ten-entry RGB table (`COLORS`) and
  its fading green channel.
- `rain.dfy`, module `Rain`: the value-level rules.
  - `Prune` is the resize filter.
  - `Advanced` is the per-drop tick rule.
  - `TrailCells` and `FrameCells` give the cells a tick paints.
  - `Renders` says that a run of terminal writes paints given cells.
  - `Fits` is the bounds invariant on drops.
- `alternate_buffer.dfy`, module `Buffer`: the class `AlternateBuffer`.
  - Its fields are `points: seq<Drop>`, `width` and `height`.
  - A ghost `log` records every cursor-move-and-print as `Draw(cell, color, glyph)`.
  - The methods `Resize`, `Tick` and the loop bodies `FallAll`, `Fall` and
    `DrawTrail` update the fields in place. Each is proved against the
    `Rain` functions.

Random choices (`gen_range(0..width)`, `gen_bool(0.5)`) are modelled as
nondeterministic choices (`:|`) restricted to their ranges: a column in
`[0, width)` and a `bool` for the glyph. The terminal size is a parameter
of the constructor and of `Resize`.

Some behaviour of the code is easy to misread:

- The resize margin is `height + 10`, not `height + 2 * N`.
- `resize` keeps the surviving drops in their original order.
- The `2 * width` cap only limits growth during a tick. A resize that
  narrows the terminal removes only drops whose column is gone, so it can
  leave more than `2 * width` drops (`Rain.NarrowingKeepsExcess`). The
  model therefore proves the per-tick property: a tick never takes the
  count from at most `2 * width` to more.
- `gen_range(0..0)` panics, but the session invariant `Valid` (every drop
  has `x < width`) means that at width 0 there are no drops. Neither random
  column draw can then run with an empty range, so `Tick` needs no
  `width > 0` precondition.
- A trail cell is drawn when `real_y > height` is false. This includes row
  `height` itself, one past the last row of a `height`-row terminal. The
  model keeps this (`Visible`).

## Model

| member | source | states |
|---|---|---|
| `Palette.ShadeAt` | src/utils.rs:24-75 | the palette has 10 entries; entry `i` is `(100 - 10i, 250 - 25i, 100 - 10i)`, so red equals blue at every index |
| `Palette.GreenEnds` | src/utils.rs:24-75 | green is 250 at the head shade and 25 at the tail shade |
| `Palette.GreenStrictlyDecreasing` | src/utils.rs:24-75 | a later shade has strictly less green, by exactly 25 per step |
| `Rain.Prune` | src/utils.rs:102-105 | the resize filter returns no more drops than it was given; a drop is in the result iff it was in the input and has `x < width` and `y < height + 10` |
| `Rain.PruneAppend` | src/utils.rs:102-105 | the filter is order-preserving and works drop by drop: `Prune(a + b) == Prune(a) + Prune(b)` |
| `Rain.PruneKeepsFitting` | src/utils.rs:104 | a list whose drops all pass the test comes back unchanged |
| `Rain.PruneIdempotent` | src/utils.rs:100-107 | resizing twice to the same size removes nothing the second time |
| `Rain.NarrowingKeepsExcess` | src/utils.rs:104 | pruning does not enforce the `2 * width` cap: twenty drops in column 0 all survive a resize to width 5 |
| `Rain.AdvancedBounds` | src/utils.rs:111-116 | after a tick a drop that was on screen is still in a column `< width`, with `1 <= y <= height + 17` |
| `Rain.AdvancedFalls` | src/utils.rs:112-116 | a drop not recycled keeps its column and its head moves down exactly one row |
| `Rain.AdvancedFits` | src/utils.rs:111-116 | the drop loop preserves the bounds invariant `Fits` (`x < width`, `y <= height + 17`) for the whole list |
| `Rain.TrailSound` | src/utils.rs:117-121 | each painted trail cell is in the head's column, at row `y - 2j` for an offset `j < k` with no underflow and `y - 2j <= height`, in shade `j`; offsets strictly increase |
| `Rain.TrailComplete` | src/utils.rs:117-121 | every offset `j < k` whose row is on screen is painted |
| `Rain.TrailOfRowFive` | src/utils.rs:117-121 | a head at row 5 paints offsets 0, 1 and 2 only, at rows 5, 3 and 1 |
| `Rain.FrameSound` | src/utils.rs:111-134 | every cell a frame paints has shade `< 8 < 10` (palette lookup in bounds) and row `<= height`, and is a visible trail offset of one of the drops |
| `Rain.FirstFrame` | src/utils.rs:116-121 | a frame with one drop whose head is at row 1 paints exactly one cell, the head, in the brightest shade |
| `Buffer.AlternateBuffer.constructor` | src/utils.rs:88-98 | a new session has the given size, no drops and nothing drawn |
| `Buffer.AlternateBuffer.Resize` | src/utils.rs:100-107 | the new size replaces the old; `points` becomes `Prune` of the old list; nothing is drawn; the bounds invariant holds; only a drop that passes the column test makes the call need `height + 10` to fit in a `u16` |
| `Buffer.AlternateBuffer.DrawTrail` | src/utils.rs:117-134 | the writes appended to the log paint exactly `TrailCells(x, y, height, 8)`, in order, each in `COLORS[k]` with glyph `'0'` or `'1'` |
| `Buffer.AlternateBuffer.Fall` | src/utils.rs:111-134 | drop `i` alone is changed, as `Advanced` says, and its trail is painted |
| `Buffer.AlternateBuffer.FallAll` | src/utils.rs:111-135 | the list keeps its length and order, each drop moves as `Advanced` says, the log grows by exactly the frame's cells `FrameCells(points, height)`, and the bounds invariant is kept |
| `Buffer.AlternateBuffer.Tick` | src/utils.rs:110-141 | each existing drop moves as `Advanced` says, with none removed or reordered; one drop `(x, 0)` with `x < width` is appended iff there were fewer than `2 * width` drops; the count never goes from at most `2 * width` to more; the log grows by the trails of the existing drops only, so the new drop is not painted; the bounds invariant is kept |

## Left out

- Terminal I/O is not modelled as real I/O. This covers the size query, entering and leaving the alternate screen, raw mode, `MoveTo` and `PrintStyledContent`. The size is a parameter, and each cursor-move-and-print pair is one entry of the ghost `log`.
- I/O errors are not modelled. A failing size query or write makes `resize`, `tick` and `new` return early, and the caller then ends the process. The model's writes never fail, so it does not describe the partly updated drop list that a write failing mid-tick would leave.
- Random numbers are modelled only as values inside the right range. `gen_range` and `gen_bool(0.5)` become nondeterministic choices, and their probability distributions are not modelled.
- The `ExecutableCommand` forwarding impl (src/utils.rs:80-85) is a thin wrapper over the terminal library and is not modelled.
- The `Drop` teardown (src/utils.rs:144-149) only restores the terminal mode, which is pure I/O, so it is not modelled.
- src/main.rs is not part of this model. It is a polling event loop that calls `tick`, quits on Escape and calls `resize` on a resize event.
- `u16` arithmetic follows a debug build, where an overflowing `+` panics. The preconditions exclude overflow, and wrap-around (a release build) is not modelled.
- Buffer.AlternateBuffer.Tick: when drops exist it requires `height + 16 < 65535`. That is slightly more than the code needs: at `height = 65519` an overflow happens only for a drop exactly at row 65535.
- `Resize` requires `height + 10 <= 65535` for the new height only when some drop has `x < width`. The filter computes the `u16` sum `height + 10` only after `x < width` holds, because `&&` short-circuits.
