/** Declarations used by the asset, character and player modules. */
module Shared {

  datatype Option<+T> = None | Some(value: T)

  /** Permanent story flags held by the player (`Tag` in src/player.rs). */
  datatype Tag = OpenedDoor | ClosedDoor | LightFire

  /**
   * A two-dimensional vector. The game uses floating-point vectors, but every
   * value the modelled code compares or stores is either a whole number of
   * pixels (a cell times 16) or a unit axis, so integers suffice.
   */
  datatype Vec2 = Vec2(x: int, y: int)

  const ZERO := Vec2(0, 0)

  /** Width and height of one grid cell in pixels. */
  const TILE_SIZE: int := 16

  /** `usize::MAX + 1` on a 64-bit target. */
  const USIZE_LIMIT: int := 0x1_0000_0000_0000_0000

  /** `u32::MAX + 1`. */
  const U32_LIMIT: int := 0x1_0000_0000

  type u8 = x: int | 0 <= x < 256
  type u32 = x: int | 0 <= x < U32_LIMIT
  type usize = x: int | 0 <= x < USIZE_LIMIT

  function Add(a: Vec2, b: Vec2): Vec2 { Vec2(a.x + b.x, a.y + b.y) }

  function Sub(a: Vec2, b: Vec2): Vec2 { Vec2(a.x - b.x, a.y - b.y) }

  function Dot(a: Vec2, b: Vec2): int { a.x * b.x + a.y * b.y }

  /** `vec2(x as f32, y as f32) * 16.0`: the pixel position of a grid cell. */
  function CellToPixel(x: int, y: int): (p: Vec2)
    ensures p.x % TILE_SIZE == 0 && p.y % TILE_SIZE == 0
    ensures p.x / TILE_SIZE == x && p.y / TILE_SIZE == y
  {
    Vec2(x * TILE_SIZE, y * TILE_SIZE)
  }
}
