# A Dafny model of the gv tunnel game's integer core

This project models the integer-only path of the game from level data to pixels, and proves properties of it. The parts are:

- **The Q16.16 fixed-point scalar `fx`** (module `Fixed`, on top of `Ints`). The model spells out the machine arithmetic:
  - 32-bit two's-complement narrowing;
  - the arithmetic `>>`, which rounds toward minus infinity;
  - C++ `/`, which truncates toward zero.
- **The level binary format**:
  - the game's decoder of the 16-byte `LevelHeaderV1` and the 7-byte `Column56` columns (`LevelFormat`);
  - the level editor's data model: bounds, the locked six-column endcap, start clamping, resizing, cell editing and the undo transaction's no-op skip (`LevelEditor`);
  - the editor's `write_bin` encoder (`LevelExport`);
  - the round trip between the encoder and the decoder (`LevelRoundTrip`).
- **Dirty-rectangle bookkeeping and rasterisation on the ILI9488 panel**:
  - the bounding box (`DirtyRect`);
  - clamping to the screen, the scratch block, `plot565` and Bresenham's `drawLine565` (`Raster`);
  - the RGB565 byte swap, row packing, the 16-row slab split and the address-window encoding (`SpiFlush`);
  - the frame cycle `beginFrame` / `drawLines` / `endFrame` (`Ili9488`).
- **Projection and scene assembly**:
  - `projectPoint` (`Project`);
  - the append-only draw list (`DrawList`);
  - `buildTunnel` (`Renderer`).
- **Two small state machines**:
  - `Game::reset` / `Game::update` (`Game`);
  - the Pico keyboard's event decoder (`PicoInput`).

The project also uses `Wrappers`, a module that supplies `Option` and `Result`.

Design choices:

- Machine integers are unbounded `int`s with range predicates. Every narrowing is written out: `Wrap32`, `Wrap16`, `LowByte` and `AsInt8`.
- A `FILE*` is the byte sequence that reading it would deliver, and a null handle is `None`.
- The keyboard FIFO is a sequence of 16-bit event words.
- Whether a `realloc` succeeds is a parameter.
- A signed 32-bit `+` or `-` on `fx` raw values that overflows is undefined behaviour in C++. The model gives it the two's-complement wrap that `Wrap32` writes out. The `(int32_t)` conversion after `*` and `/` is that same wrap (C++20, and GCC before it).
- The SPI/DMA transfer is the sequence of words handed to the bus, together with the row count of each slab.

Points where the source is easy to misread:

- `projectPoint` adds `cam.yOffset` (src/render/Project.cpp:13), although `Camera` in src/render/Project.hpp:7-21 has no such field. It is modelled as a fourth camera field.
- `fx` declares neither a comparison nor a unary minus or plus, yet `Game::update` uses `>=` and `-speedY`, and `Renderer::buildTunnel` (src/render/Renderer.cpp:14-17) applies unary `-` and `+` to `halfW` and `halfH`. These are modelled as the comparison and the negation of the raw values, and unary `+` as the value itself.
- `toInt` floors: it is a shift, not a truncation.
- The `(int16_t)` casts in `projectPoint` never change the value, because `toInt` of a 32-bit value already fits 16 bits. A coordinate out of range comes from the 32-bit `fx` sum one step earlier, whose overflow the model wraps (`Project.ProjectWrapsAround`).

## Model

| member | source | states |
|---|---|---|
| Ints.Wrap32 | src/render/Fixed.hpp:21-22 | the 32-bit result of a sum or difference lies in the int32 range and is the exact value whenever that value fits |
| Ints.Wrap32Congruent | src/render/Fixed.hpp:21-22 | the wrapped value differs from the exact one by a multiple of 2^32 |
| Ints.Wrap16Congruent | src/render/Project.cpp:15-16 | the `(int16_t)` cast keeps the value modulo 2^16 |
| Ints.Shr16 | src/render/Fixed.hpp:18 | `>> 16` on a signed value is the floor of the value divided by 65536 |
| Ints.TruncDivRounds | src/render/Fixed.hpp:26-28 | C++ `/` truncates: the quotient times the divisor is within one divisor of the dividend on the side of zero, with the sign of the exact quotient |
| Ints.TruncDivExact | src/render/Fixed.hpp:26-28 | when the divisor divides the dividend, the truncating division returns the exact quotient |
| Ints.LeValueOfLeBytes | tools/level_editor/level_editor.py:305 | `to_bytes(n, "little")` followed by reading the bytes back as a little-endian value returns the original number, for numbers below 256^n |
| Fixed.FromInt | src/render/Fixed.hpp:14 | `fromInt(i)` is `i` whole units with no fractional part, valid for every 16-bit `i` |
| Fixed.ToInt | src/render/Fixed.hpp:18 | `toInt` is the greatest whole number not above the real value, and fits 16 bits |
| Fixed.Add | src/render/Fixed.hpp:21 | the sum is a valid int32 raw value, exact when it does not overflow |
| Fixed.Sub | src/render/Fixed.hpp:22 | the difference is a valid int32 raw value, exact when it does not overflow |
| Fixed.Neg | src/game/Game.cpp:16 | the negation of a raw value is a valid int32 raw value, exact except for the most negative one |
| Fixed.Mul | src/render/Fixed.hpp:23-25 | the product is a valid int32 raw value; its rounding is stated by `Fixed.MulRoundsDown` and its exact cases by `Fixed.MulOne`, `Fixed.MulZero` and `Fixed.MulFromInt` |
| Fixed.Div | src/render/Fixed.hpp:26-28 | the quotient is a valid int32 raw value; its rounding is stated by `Fixed.DivRoundsTowardZero` and its exact cases by `Fixed.DivOne` and `Fixed.DivFromIntExact` |
| Fixed.AddSubWrap | src/render/Fixed.hpp:21-22 | in the model, sums and differences are exact modulo 2^32; the source leaves their overflow undefined |
| Fixed.MulRoundsDown | src/render/Fixed.hpp:23-25 | the product's real value is rounded down to a multiple of 1/65536 when the shifted 64-bit product fits 32 bits |
| Fixed.DivRoundsTowardZero | src/render/Fixed.hpp:26-28 | when it fits 32 bits, the quotient is the real quotient rounded toward zero to a multiple of 1/65536: below it in magnitude by less than one divisor, with the sign of the real quotient |
| Fixed.ToIntFromInt | src/render/Fixed.hpp:14-18 | `toInt(fromInt(i)) == i` for every 16-bit `i` |
| Fixed.ToIntRoundsDown | src/render/Fixed.hpp:18 | `toInt` rounds toward minus infinity: -1/65536 reads as -1 and -1.5 as -2 |
| Fixed.FromIntAdd | src/render/Fixed.hpp:14-21 | `fromInt(a) + fromInt(b) == fromInt(a + b)` when `a + b` fits 16 bits |
| Fixed.AddSubCancel | src/render/Fixed.hpp:21-22 | `(a + b) - b == a` when the sum does not overflow |
| Fixed.MulOne | src/render/Fixed.hpp:23-25 | `a * fromInt(1) == a` |
| Fixed.MulZero | src/render/Fixed.hpp:23-25 | multiplying by `fromInt(0)` on either side gives zero |
| Fixed.DivOne | src/render/Fixed.hpp:26-28 | `a / fromInt(1) == a` |
| Fixed.MulFromInt | src/render/Fixed.hpp:23-25 | on whole numbers whose product fits, the fixed-point product is the whole product |
| Fixed.DivFromIntExact | src/render/Fixed.hpp:26-28 | on whole numbers with an exact positive divisor, the fixed-point quotient is the whole quotient |
| Fixed.DivTruncatesTowardZero | src/render/Fixed.hpp:26-28 | the quotient truncates toward zero for negative operands: -1/65536 divided by 2 is 0 |
| LevelFormat.ToU64 | src/game/Level.hpp:49-59 | `to_u64` is the little-endian value of the seven bytes, below 2^56 |
| LevelFormat.Cell6 | src/game/Level.hpp:62-65 | `cell6(y)` is the y-th base-64 digit of the column value, below 64 |
| LevelFormat.Shape | src/game/Level.hpp:67-69 | `shape(y)` is below 16 and is the low four bits of the cell, the modifier supplying the rest |
| LevelFormat.Mod | src/game/Level.hpp:71-73 | `mod(y)` is below 4 |
| LevelFormat.CellSplits | src/game/Level.hpp:62-73 | shape and modifier together recover the whole 6-bit cell |
| LevelFormat.ParseHeader | src/game/Level.hpp:28-42 | the packed header's width is the little-endian value of bytes 5 and 6, and the portal offset is a signed byte |
| LevelFormat.HeaderWidthIsLittleEndian | src/game/Level.hpp:31 | width is `b[5] + 256 * b[6]` |
| LevelFormat.ReadHeader | src/game/Level.hpp:76-83 | `read_header` succeeds exactly for a non-null handle with 16 bytes whose magic is "GVL1", version 1 and height 9 |
| LevelFormat.ColumnOffset | src/game/Level.hpp:85-88 | column offsets start at the header's end for column 0 and lie seven bytes apart, so the column index is recovered from the offset |
| LevelFormat.ReadColumn | src/game/Level.hpp:85-91 | `read_column(i)` succeeds exactly when seven bytes exist at offset 16 + 7i, and returns those bytes |
| LevelFormat.PortalAbsX | src/game/Level.hpp:93-96 | the portal column is `portalDx` columns from the last column, `width - 1` |
| LevelEditor.ToObj | tools/level_editor/level_editor.py:119-123 | the JSON object always has the shape, and has a "mod" member exactly when the modifier is not "none" |
| LevelEditor.FromObj | tools/level_editor/level_editor.py:126-135 | the result is normalised; a known shape and modifier are kept; an unknown or missing shape becomes "square", an unknown or missing modifier becomes "none", and shapes without modifiers get "none" |
| LevelEditor.NewLevel | tools/level_editor/level_editor.py:138-148 | a new level has the requested width, the start (0, 4) and no obstacles |
| LevelEditor.InBounds | tools/level_editor/level_editor.py:153-154 | the definition of `in_bounds`: a column of the level and a row of the grid (a predicate, used by the contracts of the editing operations) |
| LevelEditor.EndcapX0 | tools/level_editor/level_editor.py:156-157 | the endcap is the last six columns, or the whole level when it is narrower |
| LevelEditor.InEndcap | tools/level_editor/level_editor.py:159-160 | the definition of `in_endcap`: at or right of the endcap's first column (a predicate, used by the contracts of the editing operations) |
| LevelEditor.ClampStart | tools/level_editor/level_editor.py:162-169 | after clamping, 0 <= sx < max(1, width), 0 <= sy <= 8, sx is left of the endcap when width > 6; a selectable start is kept and nothing else changes; case by case: a row inside the grid is kept, a negative row becomes 0 and a row past the grid 8; a level of width <= 6 starts in column 0; in a wider level a negative column becomes 0, a column left of the endcap is kept, and a column in or past the endcap becomes width - 7 |
| LevelEditor.ClampStartPastEndcap | tools/level_editor/level_editor.py:162-169 | in a 332-column level, start (400, 2) is clamped to (325, 2) |
| LevelEditor.ClampStartIdempotent | tools/level_editor/level_editor.py:162-169 | clamping twice is clamping once |
| LevelEditor.ResizeWidth | tools/level_editor/level_editor.py:171-188 | width becomes max(1, n), exactly the obstacles left of it are kept unchanged, and the start is the old start clamped against the new width (kept when still selectable) |
| LevelEditor.SetStart | tools/level_editor/level_editor.py:190-192 | the start moves exactly when the cell is inside the level and left of the endcap |
| LevelEditor.SetObstacle | tools/level_editor/level_editor.py:194-203 | a no-op outside the level or inside the endcap; otherwise the cell holds `obs` (none removes it) and every other cell is unchanged |
| LevelEditor.ClearCell | tools/level_editor/level_editor.py:223-228 | a no-op outside the level or inside the endcap; otherwise the cell is emptied and every other cell is unchanged |
| LevelEditor.ClearCellIsSetNone | tools/level_editor/level_editor.py:194-228 | clearing a cell is setting it to no obstacle |
| LevelEditor.StripEndcapFromAuthored | tools/level_editor/level_editor.py:230-240 | exactly the authored obstacles left of the endcap survive, unchanged; the start is the one `clamp_start` gives for the level, so a selectable start is kept |
| LevelEditor.StripEndcapIdempotent | tools/level_editor/level_editor.py:230-240 | stripping twice is stripping once |
| LevelEditor.GetObstacle | tools/level_editor/level_editor.py:205-206 | the definition of `get_obstacle`: the authored obstacle at the cell, if any (used by the transaction and editing contracts) |
| LevelEditor.FindEndcap | tools/level_editor/level_editor.py:214-220 | finds nothing exactly when no table entry is at (dx, y); otherwise the normalised obstacle of an entry at (dx, y) |
| LevelEditor.EffectiveObstacleAt | tools/level_editor/level_editor.py:208-221 | the authored obstacle if any; otherwise an endcap-table entry at dx = x - (width - 1) in the endcap, and nothing left of it |
| LevelEditor.EndcapLastColumnIsSquare | tools/level_editor/level_editor.py:39-89 | every row of the last column shows a plain square wall unless an obstacle is authored there |
| LevelEditor.NoEndcapRightOfLevel | tools/level_editor/level_editor.py:208-221 | columns right of the level get no endcap obstacle |
| LevelEditor.PortalAbs | tools/level_editor/level_editor.py:254-256 | the portal is three columns left of the last column, on row 4 |
| LevelEditor.BeginTxn | tools/level_editor/level_editor.py:581-588 | a nested begin changes nothing; otherwise an open transaction with empty cell records and the current start and width |
| LevelEditor.TouchCellBefore | tools/level_editor/level_editor.py:598-602 | the first recorded before-state of a cell wins; earlier records are kept; the cell is the only key added, and the after-states, the flag and the recorded start and width are untouched |
| LevelEditor.TouchCellAfter | tools/level_editor/level_editor.py:604-606 | the latest after-state of a cell wins; the cell is the only key added and other after-states keep their values; the before-cells, the flag and the recorded start and width are untouched |
| LevelEditor.CompletedAfter | tools/level_editor/level_editor.py:612-615 | the after-state covers every touched cell, reading cells touched only before from the level as it is now |
| LevelEditor.CommitTxn | tools/level_editor/level_editor.py:608-634 | without a transaction nothing happens; otherwise the transaction is closed, and one action is pushed exactly when the before-cells differ from the completed after-cells or the start or width changed; the pushed action holds the before-cells, the completed after-cells and both starts and widths |
| LevelEditor.UnchangedStrokeIsSkipped | tools/level_editor/level_editor.py:626-631 | a stroke that touches a cell without changing it leaves the undo stack as it was |
| LevelEditor.WidthChangeIsRecorded | tools/level_editor/level_editor.py:558-577 | a transaction over which the width changed is always pushed, with both widths and starts |
| LevelExport.ShapeId | tools/level_editor/level_editor.py:94-100 | the id is 1..4 for the four shapes and 0 for anything else |
| LevelExport.ModId | tools/level_editor/level_editor.py:103-108 | the id of a known modifier is its position in the modifier list, at most 3 |
| LevelExport.CellIds | tools/level_editor/level_editor.py:290-299 | zeros for an empty cell; the shape id, and the modifier id only for shapes that take one |
| LevelExport.Cell6Of | tools/level_editor/level_editor.py:301 | `shape_id \| mod_id << 4` is below 64 and splits back into the two ids |
| LevelExport.PackRows | tools/level_editor/level_editor.py:288-302 | the packed rows y..8 of a column fit 6 bits per row |
| LevelExport.PackColumn | tools/level_editor/level_editor.py:287-305 | the column value is below 2^54 |
| LevelExport.HeaderBytes | tools/level_editor/level_editor.py:262-281 | the 16-byte header: magic, version, width little-endian, height 9, the start's low bytes, portal offset as a signed byte, portal row, endcap width, three zero bytes |
| LevelExport.TwoLeBytes | tools/level_editor/level_editor.py:275 | the two little-endian width bytes recombine to the width |
| LevelExport.EncodeColumns | tools/level_editor/level_editor.py:286-305 | seven bytes per column; where each column sits is stated by `LevelRoundTrip.EncodeColumnsSlice` |
| LevelExport.WriteBinAsWritten | tools/level_editor/level_editor.py:258-305 | strips the endcap first; succeeds exactly when the width fits 16 bits, writing 16 + 7 * width bytes |
| LevelExport.WriteBin | tools/level_editor/level_editor.py:258-305 | as written, but refuses a start column above 255; when it succeeds it writes the same bytes |
| LevelRoundTrip.PackedRowDigit | tools/level_editor/level_editor.py:288-302 | row y of a packed column is its y-th base-64 digit, the cell of the effective obstacle |
| LevelRoundTrip.ColumnCellDecodes | src/game/Level.hpp:49-73 | the seven bytes written for a column decode through `to_u64`, `shape` and `mod` to the ids packed for each row |
| LevelRoundTrip.EncodeColumnsSlice | tools/level_editor/level_editor.py:304-305 | column x sits at bytes 7x..7x+6 of the column area |
| LevelRoundTrip.HeaderFieldsReadBack | src/game/Level.hpp:76-83 | a header built by the editor is accepted by `read_header`, with width, the start's low bytes, portal and endcap width read back |
| LevelRoundTrip.HeaderRoundTrip | tools/level_editor/level_editor.py:262-281 | the corrected export's header is accepted and reads back the width, the exact start, the portal column and row and the endcap width |
| LevelRoundTrip.ReadColumnOfEncoded | src/game/Level.hpp:85-91 | behind a 16-byte header, `read_column(x)` returns column x's seven bytes |
| LevelRoundTrip.ColumnRoundTrip | src/game/Level.hpp:85-91 | every column written is found at 16 + 7x and decodes cell by cell to the shape and modifier ids packed for the effective obstacle |
| LevelRoundTrip.ObstacleRoundTrip | tools/level_editor/level_editor.py:286-305 | for obstacles in normal form, the game decodes exactly the obstacle the editor shows, and an empty cell as empty |
| LevelRoundTrip.DecodesNormalised | tools/level_editor/level_editor.py:94-108 | the ids of a normalised obstacle name it again through `ID_SHAPE` and the modifier list |
| LevelRoundTrip.StartColumnTruncatedAsWritten | tools/level_editor/level_editor.py:277 | as written, the start column reads back modulo 256, wrong for every start column from 256 on |
| LevelRoundTrip.DefaultWidthStartBeyondByte | tools/level_editor/level_editor.py:14 | at the default width 332, start column 300 is kept by the clamping and reads back as 44 |
| DirtyRect.Clear | src/render/DirtyRect.hpp:4-8 | a cleared rect is empty and contains no point |
| DirtyRect.Empty | src/render/DirtyRect.hpp:8 | the definition of `empty()`: no column or no row between the bounds (a predicate, used by every rect contract) |
| DirtyRect.AddPoint | src/render/DirtyRect.hpp:10-15 | the rect becomes non-empty, contains the point and the old rect, and is exactly the point when starting cleared |
| DirtyRect.AddLine | src/render/DirtyRect.hpp:16-18 | the rect contains both endpoints and the old rect |
| DirtyRect.Unite | src/render/DirtyRect.hpp:19-28 | an empty operand is the identity; otherwise the result contains both |
| DirtyRect.AddPointSmallest | src/render/DirtyRect.hpp:10-15 | any rect holding the old rect and the point holds the result |
| DirtyRect.UniteSmallest | src/render/DirtyRect.hpp:22-28 | for non-empty operands the union is inside every rect containing both |
| DirtyRect.UniteCommutes | src/render/DirtyRect.hpp:22-28 | for non-empty operands the union does not depend on their order |
| DirtyRect.UniteIsAddingCorners | src/render/DirtyRect.hpp:10-28 | for non-empty operands, uniting is adding the other rect's two corners |
| DrawList.Clear | src/render/DrawList.hpp:15 | the cleared list is empty |
| DrawList.AddLine | src/render/DrawList.hpp:16-18 | exactly one segment with the given fields is appended, the earlier ones kept in order |
| DrawList.Get | src/render/DrawList.hpp:19 | the definition of `get()`: the stored segments (used by the contracts of `AddLine`, `AddAll` and `DrawLines`) |
| DrawList.AddAllAppends | src/render/DrawList.hpp:16-19 | lines already in the list stay in front and the added ones follow in order |
| DrawList.GetAfterClear | src/render/DrawList.hpp:15-19 | `get()` after `clear()` and some `addLine`s is exactly the added segments in insertion order |
| Project.ScreenCoord | src/render/Project.cpp:15-16 | the int16 cast of `toInt` returns the floor of the coordinate unchanged |
| Project.ProjectPoint | src/render/Project.cpp:5-18 | accepts exactly the points beyond the near limit 1/8; a rejected point leaves `out` unchanged |
| Project.ProjectCentre | src/render/Project.cpp:12-16 | a point with x == 0 lands on column `toInt(cx)`, and one with y + yOffset == 0 on row `toInt(cy)` |
| Project.ProjectWholeNumbers | src/render/Project.cpp:11-16 | on whole numbers with no overflow, the result is `cx + x * (focal / z)` and `cy + (y + yOffset) * (focal / z)` |
| Project.ProjectWrapsAround | src/render/Project.cpp:12 | in the model, a screen column whose 32-bit sum overflows wraps around to the far left instead of saturating; the source leaves that overflow undefined |
| Renderer.Corner | src/render/Renderer.cpp:14-19 | every corner is a valid point at the ring's depth |
| Renderer.RingDepth | src/render/Renderer.cpp:12 | every ring lies beyond the near limit |
| Renderer.RingLines | src/render/Renderer.cpp:24-27 | a ring has four white edges |
| Renderer.AppendEdge | src/render/Renderer.cpp:24-27 | an edge is appended exactly when both corners projected; otherwise the list is unchanged |
| Renderer.AddRing | src/render/Renderer.cpp:12-27 | one iteration appends the ring's four edges after the existing lines |
| Renderer.TunnelLayout | src/render/Renderer.cpp:11-28 | the tunnel has four lines per ring, edge e of ring k at 4k + e, all white |
| Renderer.RingsAt | src/render/Renderer.cpp:11-12 | ring k of the series is the ring at depth 10(k + 1) |
| Renderer.BuildTunnel | src/render/Renderer.cpp:5-29 | the old lines are kept in front and rings 1..depthLines follow, four edges each; nothing is added when depthLines <= 0 |
| Renderer.ExtendTunnel | src/render/Renderer.cpp:11-28 | after rings 1..i-1, one iteration gives rings 1..i |
| Renderer.BuildTunnelLayout | src/render/Renderer.cpp:11-28 | the list grows by exactly 4 * depthLines lines, the old ones unchanged, all new ones white, edge e of ring i at its position |
| Raster.ClampToScreen | src/platform/pico/Ili9488Display.cpp:176-186 | an empty rect is returned as is; otherwise the result is on screen and holds exactly the on-screen points of the input |
| Raster.EnsureScratch | src/platform/pico/Ili9488Display.cpp:188-202 | unchanged when already of the size, or when the allocation fails; otherwise a w x h block keeping the old pixels as a prefix |
| Raster.ClearScratchToBlack | src/platform/pico/Ili9488Display.cpp:204-207 | every pixel of an allocated block becomes 0, its size kept |
| Raster.Plot565 | src/platform/pico/Ili9488Display.cpp:209-221 | a point outside the clip rect or the block changes nothing |
| Raster.PlotWritesOnePixel | src/platform/pico/Ili9488Display.cpp:209-221 | a visible point changes exactly the pixel at its offset from the clip origin |
| Raster.PlotAllOnlyTouchesPoints | src/platform/pico/Ili9488Display.cpp:209-221 | after plotting a series of points each pixel is untouched or holds the colour at one of the points |
| Raster.PlotAllPixel | src/platform/pico/Ili9488Display.cpp:209-221 | after plotting a series of points a pixel holds the colour exactly when one of the points, inside the clip, lands on it, and keeps its old value otherwise |
| Raster.IndexInjective | src/platform/pico/Ili9488Display.cpp:220 | distinct cells of the row-major block have distinct indices |
| Raster.BresenhamStep | src/platform/pico/Ili9488Display.cpp:229-235 | one iteration keeps the error term within half the longer extent, never overshoots an axis, and always advances the longer axis |
| Raster.AdvanceKeeps | src/platform/pico/Ili9488Display.cpp:229-235 | a step away from the end moves to an 8-neighbour inside the endpoints' box |
| Raster.WalkAtEnd | src/platform/pico/Ili9488Display.cpp:231 | the loop exits exactly when both axes have taken all their steps |
| Raster.DrawLine565 | src/platform/pico/Ili9488Display.cpp:223-236 | terminates after exactly max(abs dx, abs dy) + 1 plots, from one endpoint to the other, through 8-neighbours inside the endpoints' box, and the block is those points plotted |
| Raster.LineStep | src/platform/pico/Ili9488Display.cpp:229-235 | one iteration appends and plots the next point and shrinks the remaining distance |
| Raster.HorizontalLineHasElevenPoints | src/platform/pico/Ili9488Display.cpp:223-236 | (0,0) to (10,0) plots eleven pixels |
| SpiFlush.Swap16 | src/platform/pico/Ili9488Display.cpp:265-270 | the swapped word's high byte is the colour's low byte and vice versa |
| SpiFlush.Swap16Involution | src/platform/pico/Ili9488Display.cpp:265-270 | swapping twice gives the colour back |
| SpiFlush.SwappedWordsAreBigEndian | src/platform/pico/Ili9488Display.cpp:293 | the swapped words leave memory high byte first |
| SpiFlush.PairRead | src/platform/pico/Ili9488Display.cpp:262-264 | two adjacent pixels read as one 32-bit word split back into the two pixels |
| SpiFlush.PackRow | src/platform/pico/Ili9488Display.cpp:257-271 | every pixel of the row is swapped into the same position, including an odd last pixel |
| SpiFlush.PackRows | src/platform/pico/Ili9488Display.cpp:255-275 | `rows` rows from row `yStart` become the swapped pixels from `yStart * w` on, in order |
| SpiFlush.CoordBytes | src/platform/pico/Ili9488Display.cpp:158-161 | `(v >> 8, v & 0xFF)` recombines to v for 0 <= v < 65536 |
| SpiFlush.CoordBytesWrap | src/platform/pico/Ili9488Display.cpp:158-161 | for any coordinate, the two bytes are its value modulo 2^16, high byte first |
| SpiFlush.AddrWindow | src/platform/pico/Ili9488Display.cpp:155-174 | commands 0x2A, 0x2B, 0x2C with four data bytes after each of the first two |
| SpiFlush.AddrWindowDecodes | src/platform/pico/Ili9488Display.cpp:155-170 | on screen coordinates the data bytes decode back to the corners |
| SpiFlush.Slabs | src/platform/pico/Ili9488Display.cpp:289-317 | slabs of 1..16 rows, all full but the last, add up to h and number ceil(h / 16) |
| SpiFlush.PackSlabs | src/platform/pico/Ili9488Display.cpp:289-317 | the slabs' words are the swapped pixels of the first rows, in order |
| SpiFlush.FlushScratch | src/platform/pico/Ili9488Display.cpp:238-326 | nothing without a block; otherwise the address window, then the first w * h pixels swapped, in slabs of 1..16 rows adding up to h |
| Ili9488.NewDisplay | src/platform/pico/Ili9488Display.cpp:16-20 | a new display has empty rects and no block |
| Ili9488.InitScratch | src/platform/pico/Ili9488Display.cpp:102-105 | the first initialisation leaves a black 320x320 block when the allocation succeeds |
| Ili9488.InitIfNeeded | src/platform/pico/Ili9488Display.cpp:75-108 | the first call sends a black full screen and marks the display initialised; later calls do nothing |
| Ili9488.BlackBlockSendsZeros | src/platform/pico/Ili9488Display.cpp:102-106 | a black block puts only zero words on the wire |
| Ili9488.BeginFrame | src/platform/pico/Ili9488Display.cpp:26-29 | initialises if needed and clears this frame's rect |
| Ili9488.NowAfter | src/platform/pico/Ili9488Display.cpp:34-35 | the frame's rect holds the old rect and is non-empty once a line was added; that it is the lines' bounding box is stated by the next two lemmas |
| Ili9488.NowAfterContainsEndpoints | src/platform/pico/Ili9488Display.cpp:34-35 | both endpoints of every line lie inside the frame's rect |
| Ili9488.NowAfterSmallest | src/platform/pico/Ili9488Display.cpp:28-35 | from a cleared (or non-empty) rect, the frame's rect lies inside every rect that holds the starting rect and all endpoints: it is their bounding box |
| Ili9488.DrawLines | src/platform/pico/Ili9488Display.cpp:31-50 | the redrawn region is the clamped union of last frame's rect and this frame's bounding box; when it is not empty the block is sized to it, every line is traced from endpoint to endpoint, and each pixel shows the last line through it, black where none passes |
| Ili9488.Redraw | src/platform/pico/Ili9488Display.cpp:45-49 | the block is sized to the union and cleared, then every line is traced and each pixel shows the last line through it, black where none passes |
| Ili9488.DrawAll | src/platform/pico/Ili9488Display.cpp:48-49 | every line is traced from endpoint to endpoint through 8-neighbours, and afterwards each pixel of the block holds the colour of the last line passing through it inside the clip, black where none passes |
| Ili9488.LastColourIsLastHit | src/platform/pico/Ili9488Display.cpp:48-49 | a pixel shows line k when line k passes through it and no later line does, and black when no line does |
| Ili9488.EndFrameAsWritten | src/platform/pico/Ili9488Display.cpp:52-73 | sets prev := now; reads w * h pixels of the union from whatever block exists, past its end exactly when the block is smaller |
| Ili9488.EndFrame | src/platform/pico/Ili9488Display.cpp:52-73 | sets prev := now; sends the block exactly when it has the union's size, never reading beyond it |
| Ili9488.TwoFramesWithFailedRealloc | src/platform/pico/Ili9488Display.cpp:188-196 | after a 1x1 frame and a failed allocation for a 10x10 union, the block is still 1x1 |
| Ili9488.FailedReallocOverreadsAsWritten | src/platform/pico/Ili9488Display.cpp:238-275 | as written, that frame's flush reads 100 pixels from a block of one |
| Ili9488.FailedReallocSkipsFrame | src/platform/pico/Ili9488Display.cpp:52-56 | with the size check the same frame is not sent |
| Game.TestLength | src/game/Game.cpp:25 | the level length is 3320 whole units |
| Game.Reset | src/game/Game.cpp:5-11 | height, speed and scroll are 0 and the pass is not finished |
| Game.Update | src/game/Game.cpp:13-31 | vy is +80 with thrust and -80 without; y advances by vy * dt; a finished pass keeps its scroll; otherwise the pass finishes exactly when the new scroll reaches the length, the scroll then being the length, and else is the old scroll plus 90 * dt; the scroll invariant is preserved |
| Game.FinishedIsSticky | src/game/Game.cpp:20-30 | once finished, no update moves the scroll or clears the flag |
| Game.RunKeepsInvariant | src/game/Game.cpp:26-29 | the scroll never exceeds the length, and a finished pass is exactly at it, along any run |
| Game.ScrollMonotonic | src/game/Game.cpp:22 | with a non-negative step that does not overflow, the scroll does not move backwards |
| Game.LargeStepWrapsScroll | src/game/Game.cpp:22 | a step whose product leaves 32 bits is narrowed by the `(int32_t)` conversion to a negative value, so the scroll goes negative and the pass continues |
| PicoInput.KeyBitsDistinct | src/platform/pico/PicoInput.hpp:15 | two keys in the same word have disjoint bits |
| PicoInput.Down | src/platform/pico/PicoInput.hpp:14 | the definition of `down(key)`: the key's byte is non-zero (a predicate, used by the update contracts) |
| PicoInput.Pressed | src/platform/pico/PicoInput.hpp:15 | the definition of `pressed(key)`: bit `key & 31` of word `key >> 5` (a predicate, used by the update contracts) |
| PicoInput.ClearPressedBits | src/platform/pico/PicoInput.cpp:14-16 | no key is pressed and the down state is untouched |
| PicoInput.MarkPressed | src/platform/pico/PicoInput.cpp:18-20 | a key reads as pressed afterwards exactly when it did before or is the marked key |
| PicoInput.Init | src/platform/pico/PicoInput.cpp:22-26 | no key is down and none is pressed |
| PicoInput.ApplyEvent | src/platform/pico/PicoInput.cpp:41-57 | each key's down state follows its own events, and a key becomes pressed only through a PRESSED event for it |
| PicoInput.Update | src/platform/pico/PicoInput.cpp:28-59 | at most 64 words are read, stopping at the first status-0 word; a key is pressed exactly when a PRESSED event for it was read, and its down state follows its events in order |
| PicoInput.PressedEventSetsBoth | src/platform/pico/PicoInput.cpp:42-45 | a PRESSED event makes the key down and pressed |
| PicoInput.HoldEventSetsDownOnly | src/platform/pico/PicoInput.cpp:47-49 | a HOLD event makes the key down and leaves every pressed bit alone |
| PicoInput.ReleasedEventClearsDown | src/platform/pico/PicoInput.cpp:51-53 | a RELEASED event clears the key's down state and keeps its pressed bit |
| PicoInput.PressThenReleaseInOneFrame | src/platform/pico/PicoInput.cpp:28-53 | a key pressed and released in one frame reads as pressed but not down |

## Left out

- Hardware I/O of the display driver is not modelled. This covers SPI, GPIO and DMA configuration, `lcdReset`, `lcdInit`, `writeCmd`, `writeData`, the SSPSR busy spin and the FPS logging with `time_us_64`. These are foreign calls.
- The ping-pong DMA overlap in `flushScratch` is not modelled. Packing a slab while the previous one is sent is concurrency. The model keeps the order in which the words go out and the slab sizes.
- The part of a reallocated block beyond the old pixels is uninitialised in the source. It is modelled as zeros, and the next step clears it anyway.
- `buildCameraBasis`, `buildScene`, `addBoxWire`, `addDiamondWire` and `addTriWire` are not modelled. They are only declared, so no definition exists to model.
- `fx::fromFloat`, the `dt` computation, `App` and `main` are not modelled. They are float-driven glue and the infinite frame loop.
- The editor's tkinter UI, canvas drawing, clipboard, file dialogs and JSON file I/O are not modelled. The same goes for `to_json_obj`, `from_json_obj`, `apply_endcap_to_export_list` and `undo` itself. The undo transaction is modelled up to the action `commit_txn` pushes.
- The southbridge keyboard driver calls are not modelled. `sb_init`, `sb_available` and `sb_read_keyboard` become the input sequence of event words, and running out of words stands for `sb_available` returning false.
- Renderer.BuildTunnel: requires `depthLines <= 3276`. Beyond that the shifted depth `(i * 10) << 16` no longer fits 32 bits and wraps: C++20 defines the shift as modular, while earlier standards leave it implementation-defined or undefined. That gives wrapped, mostly negative depths that the model does not follow. The unused `w` and `h` parameters are dropped.
- Fixed.Div: requires a non-zero divisor. Division by zero is undefined in the source.
- Fixed.FromInt: requires a 16-bit argument. A larger one overflows the shift.
- Fixed.MulRoundsDown: states the rounding only when the shifted product fits 32 bits. Beyond that the product is only known to be a wrapped 32-bit value.
- Fixed.DivRoundsTowardZero: states the rounding only when the quotient fits 32 bits. Beyond that the quotient is only known to be a wrapped 32-bit value.
- Fixed.Add, Fixed.Sub, Fixed.Neg: an overflowing `+`, `-` or unary minus is undefined behaviour in C++. The model wraps it to 32 bits, and every result that depends on such an overflow (`Fixed.AddSubWrap`, `Project.ProjectWrapsAround`) describes the model, not a behaviour the source guarantees.
- SpiFlush.PairRead: models `*(const uint32_t*)(src + i)` in `pack_rows` as a plain little-endian load of two adjacent pixels. When the width is odd, every other row starts two bytes off a word boundary, so the load is unaligned. A Cortex-M0+ core (RP2040) faults on such a load, while the RP2350's Cortex-M33 permits it. The cast also breaks C++ strict aliasing. The model assumes a core that permits the load and a compiler that does not exploit the aliasing. SpiFlush.PackRow, SpiFlush.PackRows, SpiFlush.PackSlabs and SpiFlush.FlushScratch rest on the same assumption.
- SpiFlush.FlushScratch: requires a non-empty rect no wider than the screen and a block holding w * h pixels. The source reads that many without checking; `Ili9488.EndFrameAsWritten` models the case where it does not hold.
- LevelRoundTrip.HeaderFieldsReadBack: requires a width below 65536. A wider level makes `int.to_bytes` raise, which `LevelExport.WriteBinAsWritten` models as a failure.
- LevelRoundTrip.ObstacleRoundTrip: requires obstacles in the editor's normal form. An obstacle that was never normalised keeps its ids but not its spelling.
- The editor's level height is the constant 9. The constructor refuses any other height.

## Findings

| source | as written | input that shows it | evidently intended | confidence | as-written member | corrected member |
|---|---|---|---|---|---|---|
| tools/level_editor/level_editor.py:277 | `write_bin` stores the start column as `sx & 0xFF`, but a clamped start column can be as large as width - 7 | a level of the default width 332 with its start at column 300 is exported with start column 44 | the start column comes back unchanged, or a start column that does not fit one byte is refused | not executed | LevelRoundTrip.StartColumnTruncatedAsWritten | LevelRoundTrip.HeaderRoundTrip |
| src/platform/pico/Ili9488Display.cpp:52-56 | when `ensureScratch`'s `realloc` fails, the old, smaller block is kept, and `endFrame` still flushes `w * h` pixels of the grown union from it | frame 1 draws the point (5,5), so the block becomes 1x1; frame 2 draws (0,0)-(9,9) and the 10x10 allocation fails; the flush reads 100 pixels from a block of 1 | only a block of the union's size is sent | not executed | Ili9488.FailedReallocOverreadsAsWritten | Ili9488.FailedReallocSkipsFrame |
