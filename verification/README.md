# windowed-tictactoe core in Dafny

A model of the verifiable logic of the `windowed-tictactoe` program (`src/main.rs`):

- the board cell tag `Cell` (`Empty`, `X`, `O`) and the game state `World`
  (`size`, `dimension` and a flat vector of cells);
- `World::new`, which builds a board of `size.pow(dimension as u32)` empty cells,
  including the square-and-multiply loop by which `usize::pow` computes the power
  (a 64-bit `usize` is assumed);
- the free function `rect`, which fills the rectangle `[x, x+width) × [y, y+height)`
  of a row-major RGBA frame of `WIDTH × HEIGHT = 1280 × 720` pixels with one colour,
  clamping the right and bottom edges to the surface;
- `World::draw`, which clears the whole surface to white and then paints a cyan
  test square of side 100 at (200, 200).

Modules: `Ints` (the `u32`, `usize` and `u8` ranges), `Power` (the power and
`usize::pow`), `Canvas` (frame geometry, `rect` and its reference definition
`Painted`) and `Game` (`Cell`, `World`, `new`, `draw`).

The frame `&mut [u8]` is an exclusive borrow, so `rect` and `draw` are modelled as
methods that take the byte sequence and return the updated one. `rect` is written
as the same nested loops as the source (columns outer, rows inner, a four-byte
copy per pixel) and proved equal to `Painted`, a per-byte definition of the fill.

`rect` asks of its caller only what keeps it from panicking: `x + width` must not
overflow `u32`; `y + height` must not either, but only when the column range is
non-empty, since the row range is evaluated only inside the outer loop; and the
last pixel written must lie inside the buffer (`Fits`). `FullFrameFits` shows that
a whole `WIDTH × HEIGHT × 4` frame meets the last condition for every rectangle.
`World::new` asks that the power fit `usize` and that the vector of one-byte cells
stay within `isize::MAX` bytes, beyond which `vec!` panics with a capacity
overflow. The cast `dimension as u32` is modelled as written: it keeps the low 32
bits of `dimension`, so the board has `size^(dimension mod 2^32)` cells, which is
`size^dimension` whenever `dimension` fits in `u32`.

## Model

| member | source | states |
|---|---|---|
| Power.PowUsize | src/main.rs:103 | `size.pow(..)` computed by repeated squaring equals the mathematical power, and no intermediate product overflows `usize` when the result fits |
| Game.New | src/main.rs:99-105 | for a board below `isize::MAX` cells, the new world keeps `size` and `dimension` unchanged, has `size^(dimension mod 2^32)` cells (exactly `size^dimension` when `dimension` fits `u32`), and every cell is `Empty` |
| Canvas.WritePixel | src/main.rs:85-86 | copying the colour into the four bytes at an offset sets exactly those bytes to the colour's channels and leaves every other byte unchanged |
| Canvas.ByteOfPixel | src/main.rs:85 | byte k belongs to pixel (i, j) exactly when it lies in `[(j*WIDTH+i)*4, (j*WIDTH+i)*4+4)`, and its offset there is its channel |
| Canvas.Rect | src/main.rs:82-88 | the nested loops produce exactly the reference fill: every pixel of the clamped rectangle gets the colour, every other pixel and byte keeps its value |
| Canvas.PaintedPixel | src/main.rs:83-86 | pixel (i, j) of the filled frame is the colour if `x ≤ i < min(WIDTH, x+width)` and `y ≤ j < min(HEIGHT, y+height)`, and its old four bytes otherwise |
| Canvas.FitsCoversRect | src/main.rs:83-85 | when the last pixel fits the buffer, every pixel the loops write lies inside the buffer |
| Canvas.FullFrameFits | src/main.rs:83-85 | a full `WIDTH*HEIGHT*4` frame holds every written pixel, even when `x+width > WIDTH` or `y+height > HEIGHT`, and no offset leaves `u32` |
| Canvas.PaintedNoOp | src/main.rs:83-84 | a rectangle with zero width or height, or starting at or beyond the right or bottom edge, leaves the frame unchanged |
| Canvas.PaintedIdempotent | src/main.rs:82-88 | filling the same rectangle with the same colour twice gives the same frame as filling it once |
| Canvas.PaintedClearsSurface | src/main.rs:116 | a fill of the whole surface gives the same frame whatever the frame held before |
| Game.Draw | src/main.rs:115-117 | after drawing, pixels in `[200,300)×[200,300)` are `[0x00,0xff,0xff,0xff]`, every other surface pixel is `[0xff,0xff,0xff,0xff]`, bytes past the surface are unchanged, and the world is only passed in, never read or returned |

## Left out

- `main` (src/main.rs:16-73): window creation, the `pixels` surface, the `winit` event loop, input handling, logging, resizing and render errors are I/O and foreign-library code.
- `World::update` (src/main.rs:108-110): its body is empty, so there is nothing to state.
- The commented-out "inside box" loop (src/main.rs:119-135): dead code working on floating point.
- Overflow of `x + width` and `y + height` in `u32` and of `size.pow(..)` in `usize`: stated as preconditions of `Canvas.Rect` and `Game.New` rather than modelled as panics or wrap-around.
- Game.New: does not model the "capacity overflow" panic of `vec!` for `2^63` or more cells; it is a precondition instead.
- Target width: `usize` is taken to be 64 bits wide (and `isize::MAX` to be `2^63 - 1`); 32-bit targets are not modelled.
- Coordinate-vector indexing with get/set, click-to-cell mapping, grid geometry, grid lines and marker variants: the program does not contain them; the only board operation it has is construction.
