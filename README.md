# GlfwTmpl Game of Life, modelled in Dafny

GlfwTmpl is a small C++ template for pixel games. It has a software pixel
surface with blend-strategy blits, a bitmap font of glyphs up to 6 by 8 pixels, outlines and
filled bars. On top of it runs Conway's Game of Life on a grid the size of
the 100 by 100 screen. This project models three parts of it and proves
properties of the model:

- the blend functions of `blend_funcs.hpp`;
- the `surface` of `surface.hpp` and `surface.cpp`;
- the grid and the game handlers of `game.cpp`.

Modules, in dependency order:

- `Blend` (blend.dfy). A pixel is an unsigned 32-bit word `0xAARRGGBB`,
  modelled as an integer in [0, 2^32). Masks are divisions and remainders
  by powers of 256, and every 32-bit addition and multiplication is wrapped
  explicitly. The module holds `blend_min`, `blend_max`, `blend_none`,
  `blend_add` and `blend_alpha`, plus the `BlendFunc` strategy datatype.
- `Raster` (raster.dfy). Index arithmetic `x + y * pitch`, and reference
  functions for the buffers that `clear`, `bar`, `box`, `plot` and
  `draw_blend` produce. It also holds the lemmas that let the loops build
  those buffers one row or one pixel at a time, and the as-written box and
  bar bounds (see Findings).
- `Font` (font.dfy). The 95-entry glyph table, the glyph selection for a
  byte, and the 4-bit header fields bottom, width and height.
- `Text` (text.dfy). Where each inked glyph pixel lands, the buffer after
  printing a string (`Printed`), and the imperative `print_helper` with
  its row and glyph loops.
- `Surfaces` (surface.dfy). `class Surface` with fields `buffer`, `width`,
  `height` and `pitch`:
  - constructors, copy and move, and `operator bool`;
  - `clear`, `plot`, `print`, `draw` / `draw_blend`, `box` and `bar`.

  Each state-changing method ties the new buffer to a Raster or Text
  function of the old one.
- `Life` (life.dfy). The board as a row-major `seq<bool>` and the
  neighbour count of the eight cells around a cell, with no wrap-around.
  The module also has the birth/survival rule, the next generation, and
  the clipped 3x3 window that `alive_neighbours` scans.
- `Grids` (grid.dfy). `class Grid`: one allocation `memory` of
  `2 * width * height` cells, with the offsets `cells` and `back` of the
  two boards. It holds `grid_init`, `grid_free`, `get_cell`, `write_cell`,
  `write_cell_cells_buffer`, `alive_neighbours` and `grid_next_generation`.
- `Game` (game.dfy). `grid_print`, and `class Game` with the handlers
  `tick`, `mouse_down`, `mouse_move` and `key_down`.

`blend_add` caps blue, green and red at 255 but adds the alpha lanes in
32 bits, so alpha wraps: `blend_add(0xFFFFFFFF, 0x01010101) == 0x00FFFFFF`.
`Blend.BlendAddChannels` and `Blend.BlendAddWrapsAlpha` state the wrap.

## Model

| member | source | states |
|---|---|---|
| Blend.BlendMin | GlfwTmpl/include/tmpl8/blend_funcs.hpp:7 | the result is one of the two arguments and no larger than either |
| Blend.BlendMax | GlfwTmpl/include/tmpl8/blend_funcs.hpp:8 | the result is one of the two arguments and no smaller than either |
| Blend.BlendNone | GlfwTmpl/include/tmpl8/blend_funcs.hpp:10-16 | the result is the source pixel whatever the destination |
| Blend.PackChannels | GlfwTmpl/include/tmpl8/blend_funcs.hpp:21-24 | packing four channels and reading them back gives the same channels |
| Blend.UnpackChannels | GlfwTmpl/include/tmpl8/blend_funcs.hpp:21-24 | a pixel is the packing of its own four channels |
| Blend.SameChannels | GlfwTmpl/include/tmpl8/blend_funcs.hpp:21-24 | two pixels with equal channels are equal |
| Blend.CappedLane | GlfwTmpl/include/tmpl8/blend_funcs.hpp:21-23 | a colour lane's 32-bit sum does not wrap, and capping it at the full lane is min(x + y, 255) in that lane |
| Blend.WrappedAlphaLane | GlfwTmpl/include/tmpl8/blend_funcs.hpp:24 | the capped alpha lane is (a_d + a_s) mod 256 in the top byte, because the 32-bit sum wraps before the cap |
| Blend.BlendAddPacks | GlfwTmpl/include/tmpl8/blend_funcs.hpp:21-24 | blend_add is the packing of saturated blue, green and red sums and the alpha sum modulo 256 |
| Blend.BlendAddChannels | GlfwTmpl/include/tmpl8/blend_funcs.hpp:21-24 | each colour channel of the result is min(d + s, 255), with no carry into the next channel; alpha is (a_d + a_s) mod 256 |
| Blend.BlendAddCommutes | GlfwTmpl/include/tmpl8/blend_funcs.hpp:21-24 | blend_add(dst, src) == blend_add(src, dst) |
| Blend.BlendAddZero | GlfwTmpl/include/tmpl8/blend_funcs.hpp:21-24 | adding the zero pixel leaves the destination unchanged |
| Blend.BlendAddWrapsAlpha | GlfwTmpl/include/tmpl8/blend_funcs.hpp:24 | blend_add(0xFFFFFFFF, 0x01010101) == 0x00FFFFFF: alpha wraps instead of saturating |
| Blend.MixProperties | GlfwTmpl/include/tmpl8/blend_funcs.hpp:34-36 | a mixed channel lies between source and destination; alpha 255 gives the source, alpha 0 the destination |
| Blend.MixedLane | GlfwTmpl/include/tmpl8/blend_funcs.hpp:34-36 | the channels moved into their lane fit in 32 bits, and so does the in-place sum of products s*scale*a + d*scale*(255-a); the in-place mix equals (s*a + d*(255-a))*scale div 255, and read back from its lane it is (s*a + d*(255-a)) div 255 |
| Blend.BlendAlphaPacks | GlfwTmpl/include/tmpl8/blend_funcs.hpp:29-38 | blend_alpha is the packing of the three mixed colour channels under alpha 0 |
| Blend.BlendAlphaChannels | GlfwTmpl/include/tmpl8/blend_funcs.hpp:31-37 | each colour channel is (s*a + d*(255-a)) div 255 with a the source alpha, and the result's alpha is always 0 |
| Blend.BlendAlphaExtremes | GlfwTmpl/include/tmpl8/blend_funcs.hpp:31-37 | with alpha 255 the result is src & 0x00ffffff, with alpha 0 it is dst & 0x00ffffff |
| Raster.Decode | GlfwTmpl/src/tmpl8/surface.cpp:218-223 | for 0 <= x < pitch the index x + y*pitch has column x and row y |
| Raster.Encode | GlfwTmpl/src/tmpl8/surface.cpp:218-223 | every index is its column plus its row times the pitch, with the column below the pitch |
| Raster.IndexInBuffer | GlfwTmpl/src/tmpl8/surface.cpp:218-223 | a pixel on the surface has an index inside the pitch*height buffer |
| Raster.StrideIsProduct | GlfwTmpl/src/tmpl8/surface.cpp:238-247 | advancing k rows of a given stride moves k*stride cells |
| Raster.UniformIsRepeatedByte | GlfwTmpl/src/tmpl8/surface.cpp:201-208 | the four bytes of a colour are equal exactly when it is its low byte repeated, which is what the memset writes |
| Raster.ClearedAt | GlfwTmpl/src/tmpl8/surface.cpp:197-216 | after clear every visible pixel has the colour; a padding pixel has it only for a uniform colour and otherwise keeps its value |
| Raster.ClearedIdempotent | GlfwTmpl/src/tmpl8/surface.cpp:197-216 | clearing twice with one colour is clearing once |
| Raster.ClearedByRows | GlfwTmpl/src/tmpl8/surface.cpp:210-215 | for a non-uniform colour, clear is the fill of the visible columns of every row |
| Raster.Normalised | GlfwTmpl/src/tmpl8/surface.cpp:306-307 | the swapped corners are ordered and are the same two values per axis |
| Raster.BarArea | GlfwTmpl/src/tmpl8/surface.cpp:349-354 | the clamped rectangle lies on the surface and holds exactly the surface points of the normalised rectangle |
| Raster.FilledAt | GlfwTmpl/src/tmpl8/surface.cpp:345-363 | after bar a surface pixel has the colour iff it lies between the corners, and otherwise keeps its value |
| Raster.FilledKeepsPadding | GlfwTmpl/src/tmpl8/surface.cpp:345-363 | a fill that ends inside the visible width never touches the padding |
| Raster.FilledEmpty | GlfwTmpl/src/tmpl8/surface.cpp:358-362 | an empty rectangle fills nothing |
| Raster.FilledSameArea | GlfwTmpl/src/tmpl8/surface.cpp:358-362 | fills of rectangles covering the same points are equal |
| Raster.FilledUnion | GlfwTmpl/src/tmpl8/surface.cpp:358-362 | filling two rectangles in turn is filling their union |
| Raster.FilledPoint | GlfwTmpl/src/tmpl8/surface.cpp:360-361 | filling one pixel is a single write of its index |
| Raster.OutlinedAt | GlfwTmpl/src/tmpl8/surface.cpp:302-343 | after box a visible pixel has the colour iff it is on the outline of the normalised rectangle, and otherwise keeps its value |
| Raster.OutlineWithinBar | GlfwTmpl/src/tmpl8/surface.cpp:302-363 | every outline point on the surface lies in the bar of the same corners |
| Raster.BoxEdgesCover | GlfwTmpl/src/tmpl8/surface.cpp:309-342 | a surface point lies on one of the four drawn edges iff it is on the outline and inside the visible width |
| Raster.BoxOutline | GlfwTmpl/src/tmpl8/surface.cpp:309-342 | filling the four clipped edges in turn produces the outlined buffer |
| Raster.SizeT | GlfwTmpl/src/tmpl8/surface.cpp:312-313 | conversion to size_t keeps every value in [0, 2^64) |
| Raster.BoxAgreesWhenOverlapping | GlfwTmpl/src/tmpl8/surface.cpp:309-342 | when x1 < width, x2 >= 0, y1 < height and y2 >= 0, box as written draws the corrected edges |
| Raster.BoxWritesPastBuffer | GlfwTmpl/src/tmpl8/surface.cpp:309-318 | box(0,200,10,300) on a 100x100 surface draws row 200 as written, past the buffer; the corrected box draws nothing |
| Raster.BarBoundsAsWritten | GlfwTmpl/src/tmpl8/surface.cpp:351-362 | the size_t loop bounds equal the clamped corners when those are non-negative and are at least 2^64 plus the corner when negative |
| Raster.BarAgreesWhenReaching | GlfwTmpl/src/tmpl8/surface.cpp:349-362 | when the far corner is not left of or below the surface, bar as written loops over exactly the clamped rectangle |
| Raster.BarWritesPastBuffer | GlfwTmpl/src/tmpl8/surface.cpp:351-362 | bar(0,-20,10,-10) on a 100x100 surface reaches row 100 as written, past the buffer; the corrected area is empty |
| Raster.ClipTo | GlfwTmpl/include/tmpl8/surface.hpp:80-85 | clipping moves the block's edges to the surface edges, and the source corner moves by the same amount as the destination corner |
| Raster.SourceIndexInBuffer | GlfwTmpl/include/tmpl8/surface.hpp:88-89 | when the clipped source block lies in the image, every pixel of the block reads inside the source buffer |
| Raster.BlittedAt | GlfwTmpl/include/tmpl8/surface.hpp:93-101 | a destination pixel in the clipped block becomes blend(old, src) from the same offset of the source corner; every other pixel keeps its value |
| Raster.ClipInside | GlfwTmpl/include/tmpl8/surface.hpp:80-85 | the clipped block lies inside both the surface and the unclipped block |
| Raster.BlitEmpty | GlfwTmpl/include/tmpl8/surface.hpp:91 | a block with no columns or no rows changes nothing |
| Raster.SourceCoversRows | GlfwTmpl/include/tmpl8/surface.hpp:97-101 | a source covering a block covers its first rows and each single row |
| Raster.BlitGrow | GlfwTmpl/include/tmpl8/surface.hpp:99-100 | blending one more pixel of a row is one write at the walk's destination index |
| Raster.BlitNextRow | GlfwTmpl/include/tmpl8/surface.hpp:97-101 | blending row k after the first k rows blends the first k + 1 rows |
| Raster.PlotAt | GlfwTmpl/src/tmpl8/surface.cpp:218-223 | a plot changes exactly the addressed pixel |
| Font.BuiltInFont | GlfwTmpl/src/tmpl8/surface.cpp:38-64 | the table has one glyph for each byte 0x21 to 0x7f |
| Font.GlyphSelection | GlfwTmpl/src/tmpl8/surface.cpp:229-233 | the table index c - 0x21 lies in [0, 95); bytes above 0x7f show glyph 0x7f; bytes 0x21 to 0x7f have distinct entries |
| Font.ExampleGlyph | GlfwTmpl/src/tmpl8/surface.cpp:22-35 | 0x2d324 decodes to bottom 4, width 2, height 3, with the documented pixel bits |
| Text.PixelPlacement | GlfwTmpl/src/tmpl8/surface.cpp:238-247 | glyph cell (cx, cy) is bit cy*width + cx and lands at x + cx + (y + bottom + cy)*pitch |
| Text.DrawRowAt | GlfwTmpl/src/tmpl8/surface.cpp:242-246 | drawing a glyph row paints exactly the cells its inked pixels land on; the rest keep their value |
| Text.DrawRowsAt | GlfwTmpl/src/tmpl8/surface.cpp:240-247 | drawing a glyph paints exactly the cells its inked pixels land on; the rest keep their value |
| Text.TextWidthSnoc | GlfwTmpl/src/tmpl8/surface.cpp:229-249 | the cursor after one more byte has moved by that byte's advance: 4 for c < 0x21, width + 1 otherwise |
| Text.PrintedSnoc | GlfwTmpl/src/tmpl8/surface.cpp:227-250 | printing one more byte draws its glyph where the text so far ends |
| Text.BlankText | GlfwTmpl/src/tmpl8/surface.cpp:230 | spaces and control bytes draw nothing and advance the cursor 4 each |
| Text.PrintedColours | GlfwTmpl/src/tmpl8/surface.cpp:244 | printing only ever writes the text colour |
| Text.PrintRow | GlfwTmpl/src/tmpl8/surface.cpp:242-246 | the inner glyph loop draws one glyph row, consumes width bits and moves the destination width cells on |
| Text.PrintWord | GlfwTmpl/src/tmpl8/surface.cpp:233-249 | decoding the header and drawing all rows gives the drawn glyph, and returns its width |
| Text.PrintHelper | GlfwTmpl/src/tmpl8/surface.cpp:225-251 | print_helper leaves the buffer that printing the whole string describes |
| Text.CStringLength | GlfwTmpl/src/tmpl8/surface.cpp:264 | strlen: the bytes before the first zero, all non-zero, followed by a zero or the end |
| Surfaces.Surface.Pixels | GlfwTmpl/include/tmpl8/surface.hpp:29-33 | the pixels of a surface number pitch*height |
| Surfaces.Surface.IsSet | GlfwTmpl/src/tmpl8/surface.cpp:176-179 | operator bool is true iff there is a buffer; without one the size is 0 |
| Surfaces.Surface.constructor | GlfwTmpl/src/tmpl8/surface.cpp:73-77 | the default surface has no buffer and width, height and pitch 0 |
| Surfaces.Surface.Sized | GlfwTmpl/src/tmpl8/surface.cpp:156 | the two-argument surface has pitch == width and width*height zeroed pixels |
| Surfaces.Surface.Pitched | GlfwTmpl/src/tmpl8/surface.cpp:157-164 | width > 0, height > 0 and pitch >= width are demanded, and pitch*height zeroed pixels allocated |
| Surfaces.Surface.Adopt | GlfwTmpl/src/tmpl8/surface.cpp:166-174 | the surface takes over the given buffer and size |
| Surfaces.Surface.Copy | GlfwTmpl/src/tmpl8/surface.cpp:79-86 | an equal-size copy in a fresh buffer holding all pitch*height pixels, padding included |
| Surfaces.Surface.Move | GlfwTmpl/src/tmpl8/surface.cpp:108-117 | the buffer and size pass to the new surface; the old one is left empty |
| Surfaces.Surface.CopyAssign | GlfwTmpl/src/tmpl8/surface.cpp:88-106 | self-assignment is a no-op; the buffer is replaced only when a dimension differs; the result equals the other surface's size and pixels, and the source is not modified |
| Surfaces.Surface.MoveAssign | GlfwTmpl/src/tmpl8/surface.cpp:119-131 | the buffer and size pass over; the other surface is left empty |
| Surfaces.Surface.Clear | GlfwTmpl/src/tmpl8/surface.cpp:197-216 | the new buffer is the cleared one: visible pixels get the colour, and the padding gets it only for a uniform colour |
| Surfaces.Surface.FillBytes | GlfwTmpl/src/tmpl8/surface.cpp:207 | memset fills every pixel of the buffer with the byte repeated four times |
| Surfaces.Surface.ClearRows | GlfwTmpl/src/tmpl8/surface.cpp:210-215 | the row loop of clear gives the cleared buffer |
| Surfaces.Surface.FillRow | GlfwTmpl/src/tmpl8/surface.cpp:316-317 | one row segment gets the colour and nothing else changes |
| Surfaces.Surface.FillColumn | GlfwTmpl/src/tmpl8/surface.cpp:333-334 | one column segment gets the colour and nothing else changes |
| Surfaces.Surface.Plot | GlfwTmpl/src/tmpl8/surface.cpp:218-223 | plot writes buffer[x + y*pitch] and nothing else, and operator() then reads the colour |
| Surfaces.Surface.Print | GlfwTmpl/src/tmpl8/surface.cpp:253-258 | print leaves the buffer of the printed string |
| Surfaces.Surface.PrintCString | GlfwTmpl/src/tmpl8/surface.cpp:260-266 | print of a C string prints the bytes before its first zero |
| Surfaces.Surface.DrawBlend | GlfwTmpl/include/tmpl8/surface.hpp:74-102 | the new buffer is the old one with the clipped block blended in; the source surface is only read |
| Surfaces.Surface.BlendBlock | GlfwTmpl/include/tmpl8/surface.hpp:93-101 | the row walk with pitch advances blends exactly the clipped block |
| Surfaces.Surface.BlendRow | GlfwTmpl/include/tmpl8/surface.hpp:99-100 | the inner walk blends one row and advances both pointers by its width |
| Surfaces.Surface.DrawBlendImage | GlfwTmpl/include/tmpl8/surface.hpp:67-72 | the whole-image blit blends the block (0, 0, image width, image height), with blend_add by default |
| Surfaces.Surface.Draw | GlfwTmpl/src/tmpl8/surface.cpp:274-279 | draw is draw_blend with blend_none: the block is copied |
| Surfaces.Surface.DrawImage | GlfwTmpl/src/tmpl8/surface.cpp:268-272 | draw of a whole image copies the block (0, 0, image width, image height) |
| Surfaces.Surface.Box | GlfwTmpl/src/tmpl8/surface.cpp:302-343 | the new buffer has the visible outline of the normalised rectangle in the colour and nothing else changed (corrected guards) |
| Surfaces.Surface.BoxAcross | GlfwTmpl/src/tmpl8/surface.cpp:309-325 | the bottom and top edges are the first two clipped edges |
| Surfaces.Surface.BoxUpward | GlfwTmpl/src/tmpl8/surface.cpp:326-342 | the left and right edges are the last two clipped edges |
| Surfaces.Surface.Bar | GlfwTmpl/src/tmpl8/surface.cpp:345-363 | the new buffer has the clamped rectangle filled and nothing else changed (corrected loop bounds) |
| Life.Neighbours | GlfwTmpl/src/game.cpp:65-82 | the neighbour count is at most 8 |
| Life.NeighboursSum | GlfwTmpl/src/game.cpp:65-82 | the count is the sum of the eight cells around, off-board cells counting 0 |
| Life.NextCell | GlfwTmpl/src/game.cpp:96-98 | a cell lives next iff it is alive with 2 or 3 neighbours or dead with exactly 3 |
| Life.NextBoardAt | GlfwTmpl/src/game.cpp:93-101 | cell (x, y) of the next generation follows the rule on this generation alone |
| Life.NeighboursByWindow | GlfwTmpl/src/game.cpp:66-77 | the clipped 3x3 window alive_neighbours scans holds the neighbours plus the cell itself |
| Life.WindowLessSelf | GlfwTmpl/src/game.cpp:66-81 | the window count less the cell itself, when it is alive, is the neighbour count, and never underflows |
| Life.NeighboursLocal | GlfwTmpl/src/game.cpp:65-82 | boards agreeing on the 3x3 window give the same count |
| Life.NoWrapAround | GlfwTmpl/src/game.cpp:66-69 | on a 3x1 board the live far-end cell is not a neighbour of the first |
| Life.DeadBoardStaysDead | GlfwTmpl/src/game.cpp:93-101 | the next generation of a dead board is dead |
| Life.StillLifeObeys | GlfwTmpl/src/game.cpp:93-101 | a board that is its own next generation has every cell obeying the rule |
| Life.ObeyingIsStill | GlfwTmpl/src/game.cpp:93-101 | a board whose every cell obeys the rule is its own next generation |
| Life.StillLife | GlfwTmpl/src/game.cpp:93-101 | a board is its own next generation iff every cell obeys the rule |
| Grids.Grid.Cells | GlfwTmpl/src/game.cpp:31-36 | the current board has width*height cells |
| Grids.Grid.Back | GlfwTmpl/src/game.cpp:31-36 | the back board has width*height cells |
| Grids.Boards | GlfwTmpl/src/game.cpp:45-46 | calloc of 2*n cells gives a fresh allocation of 2*n false cells |
| Grids.Grid.Init | GlfwTmpl/src/game.cpp:44-55 | both boards are dead; the back board starts right after the current one in one fresh 2*w*h allocation |
| Grids.Grid.FreedBlock | GlfwTmpl/src/game.cpp:56-58 | the lower of the two boards is always the base of the allocation |
| Grids.Grid.GetCell | GlfwTmpl/src/game.cpp:59-63 | get_cell reads cell (x, y) of the current board |
| Grids.Grid.WriteCell | GlfwTmpl/src/game.cpp:83-87 | write_cell changes exactly cell y*width + x of the current board and leaves the back board alone |
| Grids.Grid.WriteBack | GlfwTmpl/src/game.cpp:88-92 | write_cell_cells_buffer changes exactly cell y*width + x of the back board and leaves the current board alone |
| Grids.Grid.AliveNeighbours | GlfwTmpl/src/game.cpp:65-82 | alive_neighbours returns the neighbour count of the board, at most 8 |
| Grids.Grid.CountWindow | GlfwTmpl/src/game.cpp:71-77 | the two loops count the live cells of the window |
| Grids.Grid.StepCell | GlfwTmpl/src/game.cpp:96-99 | the loop body writes the rule's value for (x, y) into the back board and nothing else |
| Grids.Grid.FillBackRow | GlfwTmpl/src/game.cpp:95-100 | after row y the back board agrees with the next generation on the first y + 1 rows |
| Grids.Grid.FillBack | GlfwTmpl/src/game.cpp:94-101 | the back board becomes the next generation of the current board, which is only read |
| Grids.Grid.NextGeneration | GlfwTmpl/src/game.cpp:93-105 | the current board becomes the next generation, the back board holds the previous one, and the two boards stay the halves of the allocation |
| Game.ShownAt | GlfwTmpl/src/game.cpp:107-117 | grid_print makes exactly the live cells white and leaves every other pixel as it was |
| Game.ShownNone | GlfwTmpl/src/game.cpp:109-110 | before the first cell is visited the screen is unchanged |
| Game.ShownStep | GlfwTmpl/src/game.cpp:111-114 | visiting one cell plots it iff it is alive |
| Game.ShownNextRow | GlfwTmpl/src/game.cpp:109-115 | finishing a row is starting the next one |
| Game.GridPrint | GlfwTmpl/src/game.cpp:107-117 | the screen after grid_print has white at every live cell and the old pixels elsewhere |
| Game.GridPrintRow | GlfwTmpl/src/game.cpp:111-115 | one row of grid_print plots the live cells of that row |
| Game.FrameAt | GlfwTmpl/src/game.cpp:139-140 | pixel (x, y) of the frame is 0xffffffff iff cell (x, y) is alive, and 0 otherwise, padding included |
| Game.ClearAndPrint | GlfwTmpl/src/game.cpp:139-140 | clear(0) then grid_print on a screen the size of the grid shows exactly the frame |
| Game.Game.constructor | GlfwTmpl/src/game.cpp:120-123 | the game starts stopped, with a fresh dead grid the size of the screen |
| Game.Game.Tick | GlfwTmpl/src/game.cpp:131-142 | a running game steps the grid when a generation is due and then shows the frame of the grid; a stopped game changes nothing |
| Game.Game.MouseDown | GlfwTmpl/src/game.cpp:145-149 | with the mouse on the grid, exactly the cell under it is toggled, then the grid is printed over the screen |
| Game.Game.MouseMove | GlfwTmpl/src/game.cpp:157-161 | the mouse position is remembered and the game stays valid |
| Game.MouseCellAsWritten | GlfwTmpl/src/tmpl8/renderer/renderer.cpp:198-206 | the callback's rounded cell lies in [0, 100] on each axis, one more than the last grid column and row |
| Game.MouseCell | GlfwTmpl/src/tmpl8/renderer/renderer.cpp:198-206 | the corrected cell is on the 100 by 100 grid, and the window position lies inside that cell's 16 by 16 square |
| Game.MouseLeavesGrid | GlfwTmpl/src/tmpl8/renderer/renderer.cpp:203-205 | window position (1599, 800) gives column 100 and (800, 0) gives row 100, both off the grid, where the squares under the pointer are column 99 and row 99 |
| Game.MouseRowAbove | GlfwTmpl/src/tmpl8/renderer/renderer.cpp:203-205 | in the left and upper half of a square the callback keeps the column but picks the row above the pointer |
| Game.Game.MovePointer | GlfwTmpl/src/tmpl8/renderer/renderer.cpp:198-206 | with the corrected mapping every window position stores a mouse position on the grid, so mouse_down may follow |
| Game.Game.KeyDown | GlfwTmpl/src/game.cpp:164-179 | w toggles start; a prints the grid while stopped; nothing else changes |

## Left out

- GL and window glue is not part of this model. That covers the renderer,
  the shader loader and the GLFW callbacks, except the mouse-move mapping
  under Findings. That mapping is modelled only for integer positions
  inside the 1600 by 1600 window, with the fraction of GLFW's `double`
  already dropped.
- Game.Game.MouseDown demands the mouse on the grid, as get_cell asserts
  at game.cpp:60-61. glfw_move_callback (renderer.cpp:202-205) does not
  keep it there. A position in the right 8 columns of the window gives
  mouse_x == 100, and one in the top 8 rows gives mouse_y == 100. Without
  the asserts, game.cpp:147 then reads and writes cells_[y*width + x] at
  another cell, the back board or past the allocation. The model's
  MouseDown does not describe those calls. Game.Game.MovePointer, with the
  corrected mapping, always meets the demand.
- `surface::line` is left out: it steps with floating point.
- The PNG file constructor and `save_to_file` are left out: they call the
  lodepng library and read or write files.
- `resize` and `resize_from` are left out: they are unimplemented and only
  assert.
- The float timer of `game::tick` and the `sleep` helpers are left out.
  Tick takes a boolean `due` saying whether a generation is due.
- The header-only declarations are left out: `game.hpp`, `config.hpp`,
  `integers.hpp`, `enum_class_flags.hpp`, `modifiers.hpp` and
  `mouse_button.hpp`. The screen size 100 by 100 from `config.hpp`
  appears as the constants `Game.ScreenWidth` and `Game.ScreenHeight`.
- The empty handlers `mouse_up`, `key_up`, `key_repeat` and `key_char` are
  left out. The game destructor is left out too: it only frees the grid,
  and `Grids.Grid.FreedBlock` states which pointer it frees.
- Pixels and channels are integers with an explicit 32-bit wrap, not
  `uint32_t` bit-vectors. Surface and grid sizes, positions and indices
  are unbounded integers. The model does not capture `int32_t` or `size_t`
  overflow of `x + y * pitch` or of `width * height`, except in the
  as-written box and bar bounds under Findings.
- Surfaces.Surface.DrawBlend demands that the image is a different surface
  from this one. A blit of a surface onto itself aliases its buffer in
  ways the code does not define.
- Surfaces.Surface.DrawBlend demands non-negative source corners once
  clipped, which the code leaves unchecked.
- Surfaces.Surface.Print demands that every inked pixel lands inside the
  buffer, because print_helper does not clip.
- Surfaces.Surface.MoveAssign demands two distinct surfaces. A self-move
  in surface.cpp:119-131 keeps the buffer, because the `unique_ptr`
  self-move hands the pointer back to itself, and then zeroes width,
  height and pitch. That leaves a buffer of the old pitch*height pixels
  on a surface of size 0, a state `Surface.Valid()` excludes, so the model
  does not describe it.
- Surfaces.Surface.CopyAssign demands that two distinct surfaces do not
  share one buffer, which unique ownership guarantees in the code.
- Surfaces.Surface.Box and Surfaces.Surface.Bar model the corrected bounds
  checks, not the code as written. The Findings lemmas relate the two and
  exhibit the inputs where they differ.
- Game.GridPrint demands that the whole grid lies on the screen. The code
  only needs the live cells to, since only they are plotted. In the game,
  grid and screen have the same size.
- The `operator()` accessor of surface.cpp:181-184 has no contract of its
  own. Surfaces.Surface.Plot states that it reads back a plotted colour.
- The source's `font_data` table is copied into the model as input data.
  No lemma ranges over all 95 glyphs.

## Findings

| source | as written | input that shows it | evidently intended | confidence | as-written member | corrected member |
|---|---|---|---|---|---|---|
| GlfwTmpl/src/tmpl8/surface.cpp:314-324 | the bottom edge is drawn when `y1 >= 0` and the top edge when `y2 < height`; each check covers one side only, and the left/right edges likewise check `x1 >= 0` / `x2 < width` only | `box(0, 200, 10, 300)` on a 100x100 surface writes row 200, past the end of the buffer | each edge is drawn only when its row or column lies on the surface | high (not executed) | Raster.BoxWritesPastBuffer | Surfaces.Surface.Box |
| GlfwTmpl/src/tmpl8/surface.cpp:356-362 | the `size_t` loop counters are compared with the clamped `int32_t` corners, so a negative far corner becomes a bound near 2^64 | `bar(0, -20, 10, -10)` on a 100x100 surface runs the row counter from 0 past row 99 | a bar wholly off the surface paints nothing | high (not executed) | Raster.BarWritesPastBuffer | Surfaces.Surface.Bar |
| GlfwTmpl/src/tmpl8/renderer/renderer.cpp:203-205 | the window position plus half a square (`offset`) is divided by the square size 16, and the row is `screen_height` minus that | window position (1599, 800) gives mouse_x == 100, and (800, 0) gives mouse_y == 100; both are off the 100 by 100 grid, and mouse_down then fails get_cell's assert | the cell whose 16 by 16 square holds the pointer: x / 16 and 99 - y / 16 | medium (not executed) | Game.MouseLeavesGrid | Game.Game.MovePointer |
