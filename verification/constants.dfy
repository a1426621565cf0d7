/** Configuration of the simulation: window size, tile size, frame-rate limits and history depth. */
module Constants {
  /** Window height and width in pixels. */
  const HEIGHT: int := 720
  const WIDTH: int := 1280

  /** Side of one cell in pixels. */
  const TILE_SIZE: int := 16

  /** Frame-rate limits and the initial frame rate. */
  const MIN_FRAME_RATE: int := 1
  const MAX_FRAME_RATE: int := 100
  const FRAME_RATE: int := 20

  /** Maximum number of stored snapshots; -1 would mean unbounded. */
  const GENERATION_STACK_SIZE: int := 1000

  /** The viewport in cells: HEIGHT / TILE_SIZE rows of WIDTH / TILE_SIZE columns. */
  const ROWS: int := HEIGHT / TILE_SIZE
  const COLS: int := WIDTH / TILE_SIZE

  /** Number of viewport cells, the length of one row-major sweep. */
  const CELLS: int := ROWS * COLS
}
