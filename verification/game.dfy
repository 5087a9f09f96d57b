/**
 * The game state `World` of the tic-tac-toe window: an N-dimensional board
 * stored as a flat vector of cells, and the frame it draws.
 */
module Game {
  import opened Ints
  import opened Power
  import opened Canvas

  /** The contents of one board cell. */
  datatype Cell = Empty | X | O

  /** `size` cells along each of `dimension` axes, stored flat in `board`. */
  datatype World = World(size: usize, dimension: usize, board: seq<Cell>)

  /** The board holds one cell per point of the size^dimension grid. */
  predicate Valid(w: World)
  {
    |w.board| == Pow(w.size, w.dimension)
  }

  /**
   * `World::new`: a board of `size.pow(dimension as u32)` empty cells. The
   * cast keeps the low 32 bits of `dimension`; the power must fit `usize`, and
   * the vector of one-byte cells must not exceed `isize::MAX` bytes.
   */
  method New(size: usize, dimension: usize) returns (w: World)
    requires Pow(size, dimension % U32_LIMIT) < ISIZE_LIMIT
    ensures w.size == size && w.dimension == dimension
    ensures |w.board| == Pow(size, dimension % U32_LIMIT)
    ensures dimension < U32_LIMIT ==> Valid(w)
    ensures forall c :: 0 <= c < |w.board| ==> w.board[c] == Empty
  {
    var cells := PowUsize(size, dimension % U32_LIMIT);
    w := World(size, dimension, seq(cells, _ => Empty));
  }

  const WHITE: Color := [0xff, 0xff, 0xff, 0xff]
  const CYAN: Color := [0x00, 0xff, 0xff, 0xff]

  /** The fixed test square drawn over the cleared screen. */
  predicate InTestSquare(i: nat, j: nat)
  {
    200 <= i < 300 && 200 <= j < 300
  }

  /**
   * `World::draw`: clear the whole surface to white, then fill the test
   * square at (200, 200) of side 100 with cyan. The world is not consulted,
   * and bytes past the last pixel of the surface are left alone.
   */
  method Draw(world: World, frame: seq<byte>) returns (out: seq<byte>)
    requires |frame| >= FRAME_LEN
    ensures |out| == |frame|
    ensures forall i, j :: 0 <= i < WIDTH && 0 <= j < HEIGHT ==>
      PixelAt(out, i, j) == if InTestSquare(i, j) then CYAN else WHITE
    ensures forall k :: FRAME_LEN <= k < |out| ==> out[k] == frame[k]
  {
    var cleared := Rect(0, 0, WIDTH, HEIGHT, WHITE, frame);
    out := Rect(200, 200, 100, 100, CYAN, cleared);
    forall i, j | 0 <= i < WIDTH && 0 <= j < HEIGHT
      ensures PixelAt(out, i, j) == if InTestSquare(i, j) then CYAN else WHITE
    {
      PaintedPixel(frame, 0, 0, WIDTH, HEIGHT, WHITE, i, j);
      PaintedPixel(cleared, 200, 200, 100, 100, CYAN, i, j);
    }
    forall k | FRAME_LEN <= k < |out|
      ensures out[k] == frame[k]
    {
      assert Row(k) >= HEIGHT;
    }
  }
}
