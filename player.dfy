/**
 * The player (src/player.rs): facing directions and their resolution from
 * the input axis, and the grid-step state machine of `Player::update`.
 */
module Player {
  import opened Shared
  import opened Assets
  import opened Characters

  // ===========================================================================
  // Direction
  // ===========================================================================

  datatype Direction = Left | Right | Up | Down

  /** `Direction::name`: the name of the animation tag for a direction. */
  function Name(d: Direction): (s: string)
    ensures |s| > 0
  {
    match d
    case Left => "left"
    case Right => "right"
    case Up => "up"
    case Down => "down"
  }

  /** Different directions have different names. */
  lemma NameInjective(a: Direction, b: Direction)
    ensures Name(a) == Name(b) <==> a == b
  {
  }

  /** `Direction::to_vec2`: a unit step along one axis, y pointing down. */
  function ToVec2(d: Direction): (v: Vec2)
    ensures (v.x == 0) != (v.y == 0)
    ensures v.x * v.x + v.y * v.y == 1
  {
    match d
    case Up => Vec2(0, -1)
    case Down => Vec2(0, 1)
    case Right => Vec2(1, 0)
    case Left => Vec2(-1, 0)
  }

  function Sign(n: int): int
  {
    if n < 0 then -1 else if n > 0 then 1 else 0
  }

  /**
   * The component signs of a vector. `normalize` keeps signs, and signs are
   * all that FromVec2 looks at (FromVec2SignsOnly), so this stands for it.
   */
  function SignOf(v: Vec2): (s: Vec2)
    ensures -1 <= s.x <= 1 && -1 <= s.y <= 1
    ensures s.x * v.x >= 0 && s.y * v.y >= 0
    ensures (s.x == 0 <==> v.x == 0) && (s.y == 0 <==> v.y == 0)
  {
    Vec2(Sign(v.x), Sign(v.y))
  }

  /**
   * `Direction::from_vec2`: the direction of a straight (or zero) vector,
   * Left for zero; a diagonal resolves to its vertical part when the
   * previous direction `last` was horizontal, else to its horizontal part.
   * The result always points along the input.
   */
  function FromVec2(v: Vec2, last: Vec2): (d: Direction)
    ensures v != ZERO ==> Dot(ToVec2(d), v) > 0
    ensures v == ZERO ==> d == Left
    decreases if v.x != 0 && v.y != 0 then 1 else 0
  {
    if !(v.x != 0 && v.y != 0) then
      if v.x < 0 then Left
      else if v.x > 0 then Right
      else if v.y < 0 then Up
      else if v.y > 0 then Down
      else Left
    else
      var xDir := FromVec2(Vec2(v.x, 0), ZERO);
      var yDir := FromVec2(Vec2(0, v.y), ZERO);
      if last.x != 0 then yDir else xDir
  }

  /** A straight, nonzero input gives the direction whose unit vector is its sign. */
  lemma FromVec2Straight(v: Vec2, last: Vec2)
    requires v != ZERO && (v.x == 0 || v.y == 0)
    ensures ToVec2(FromVec2(v, last)) == SignOf(v)
  {
  }

  /**
   * A diagonal input turns: after a horizontal direction it resolves to its
   * vertical part, otherwise to its horizontal part.
   */
  lemma FromVec2Diagonal(v: Vec2, last: Vec2)
    requires v.x != 0 && v.y != 0
    ensures last.x != 0 ==> ToVec2(FromVec2(v, last)) == Vec2(0, Sign(v.y))
    ensures last.x == 0 ==> ToVec2(FromVec2(v, last)) == Vec2(Sign(v.x), 0)
  {
    FromVec2Straight(Vec2(v.x, 0), ZERO);
    FromVec2Straight(Vec2(0, v.y), ZERO);
  }

  /** FromVec2 looks only at the signs of its input and whether `last` has a horizontal part. */
  lemma FromVec2SignsOnly(v: Vec2, w: Vec2, last: Vec2, last': Vec2)
    requires SignOf(v) == SignOf(w) && (last.x == 0 <==> last'.x == 0)
    ensures FromVec2(v, last) == FromVec2(w, last')
  {
    assert Sign(v.x) == Sign(w.x) && Sign(v.y) == Sign(w.y);
  }

  /** Resolving a direction's own unit vector gives the direction back, whatever came before. */
  lemma FromVec2RoundTrip(d: Direction, last: Vec2)
    ensures FromVec2(ToVec2(d), last) == d
  {
  }

  // ===========================================================================
  // Grid steps
  // ===========================================================================

  /** `usize::saturating_add_signed`: the sum clamped into `0..=usize::MAX`. */
  function SaturatingAddSigned(a: usize, delta: int): (r: usize)
    ensures 0 <= a + delta < USIZE_LIMIT ==> r == a + delta
    ensures a + delta < 0 ==> r == 0
    ensures a + delta >= USIZE_LIMIT ==> r == USIZE_LIMIT - 1
  {
    if a + delta < 0 then 0
    else if a + delta >= USIZE_LIMIT then USIZE_LIMIT - 1
    else a + delta
  }

  /** The cell one step from (x, y) in direction d, staying on the usize grid. */
  function Target(x: usize, y: usize, d: Direction): (r: (usize, usize))
    ensures r.0 == x || r.1 == y
    ensures -1 <= r.0 - x <= 1 && -1 <= r.1 - y <= 1
  {
    (SaturatingAddSigned(x, ToVec2(d).x), SaturatingAddSigned(y, ToVec2(d).y))
  }

  /**
   * The target is the neighbouring cell in direction d unless that lies
   * off the grid, in which case the player's own cell is the target.
   */
  lemma TargetIsNeighbourOrSelf(x: usize, y: usize, d: Direction)
    ensures var (nx, ny) := Target(x, y, d);
            var next := Add(Vec2(x, y), ToVec2(d));
            if 0 <= next.x < USIZE_LIMIT && 0 <= next.y < USIZE_LIMIT then Vec2(nx, ny) == next
            else nx == x && ny == y
  {
  }

  /** At the left or top edge, stepping outwards stays in the edge cell. */
  lemma EdgeStepStays(x: usize, y: usize)
    ensures Target(0, y, Left) == (0, y)
    ensures Target(x, 0, Up) == (x, 0)
  {
  }

  /** The vector index of a cell that the wall check reads. */
  function WallIndex(nx: nat, ny: nat, width: nat): nat
  {
    nx + ny * width
  }

  /**
   * The wall tile the update checks for cell (nx, ny) is the one `Map::draw`
   * draws at that cell's pixel position.
   */
  lemma WallCheckSeesDrawnTile(walls: TileMap, nx: nat, ny: nat, sheetWidth: nat)
    requires nx < walls.width && sheetWidth > 0
    requires WallIndex(nx, ny, walls.width) < |walls.tiles| && walls.tiles[WallIndex(nx, ny, walls.width)] != 0
    ensures var i := WallIndex(nx, ny, walls.width);
            CellDraw(i, walls.tiles[i], walls.width, sheetWidth).screen == CellToPixel(nx, ny)
  {
    ModUnique(WallIndex(nx, ny, walls.width), ny, nx, walls.width);
  }

  // ===========================================================================
  // Colliding characters
  // ===========================================================================

  predicate Collides(c: Character, nx: nat, ny: nat)
  {
    c.hasCollision && c.x == nx && c.y == ny
  }

  /** The first character that blocks cell (nx, ny), if any. */
  function FirstCollider(cs: seq<Character>, nx: nat, ny: nat): (r: Option<nat>)
    ensures r.Some? ==> r.value < |cs| && Collides(cs[r.value], nx, ny)
    ensures r.Some? ==> forall j :: 0 <= j < r.value ==> !Collides(cs[j], nx, ny)
    ensures r.None? <==> forall j :: 0 <= j < |cs| ==> !Collides(cs[j], nx, ny)
  {
    if |cs| == 0 then None
    else
      match FirstCollider(cs[..|cs| - 1], nx, ny)
      case Some(i) => Some(i)
      case None => if Collides(cs[|cs| - 1], nx, ny) then Some(|cs| - 1) else None
  }

  /** `characters.iter_mut().find(...)`: the index of the first blocking character. */
  method FindCollider(characters: array<Character>, nx: nat, ny: nat) returns (r: Option<nat>)
    ensures r == FirstCollider(characters[..], nx, ny)
  {
    var i := 0;
    while i < characters.Length
      invariant 0 <= i <= characters.Length
      invariant forall j :: 0 <= j < i ==> !Collides(characters[j], nx, ny)
    {
      if Collides(characters[i], nx, ny) {
        return Some(i);
      }
      i := i + 1;
    }
    return None;
  }

  /**
   * The direction from a character at `character` towards the player at
   * `player`, as `from_vec2` resolves the normalized difference.
   */
  function FacingDirection(player: Vec2, character: Vec2): (d: Direction)
    ensures player != character ==> Dot(ToVec2(d), Sub(player, character)) > 0
    ensures player != character && (player.x == character.x || player.y == character.y) ==>
              ToVec2(d) == SignOf(Sub(player, character))
    ensures player == character ==> d == Left
  {
    var v := Sub(player, character);
    FacingAlong(v);
    FromVec2(SignOf(v), ZERO)
  }

  /** `from_vec2` of the signs of `v` points along `v`, and is their sign when `v` is straight. */
  lemma FacingAlong(v: Vec2)
    ensures v != ZERO ==> Dot(ToVec2(FromVec2(SignOf(v), ZERO)), v) > 0
    ensures v != ZERO && (v.x == 0 || v.y == 0) ==> ToVec2(FromVec2(SignOf(v), ZERO)) == SignOf(v)
    ensures v == ZERO ==> FromVec2(SignOf(v), ZERO) == Left
  {
    var s := SignOf(v);
    if v != ZERO {
      assert s != ZERO;
      SignPointsAlong(FromVec2(s, ZERO), v);
      if v.x == 0 || v.y == 0 {
        FromVec2Straight(s, ZERO);
      }
    }
  }

  /** A direction pointing along the signs of `v` points along `v`. */
  lemma SignPointsAlong(d: Direction, v: Vec2)
    requires Dot(ToVec2(d), SignOf(v)) > 0
    ensures Dot(ToVec2(d), v) > 0
  {
    match d
    case Left => assert v.x < 0;
    case Right => assert v.x > 0;
    case Up => assert v.y < 0;
    case Down => assert v.y > 0;
  }

  /**
   * The animation tag a character turns to when the player at `player`
   * bumps it at `character`: the name of a direction pointing from the
   * character towards the player.
   */
  function FacingName(player: Vec2, character: Vec2): (s: string)
    ensures player != character ==> exists d :: s == Name(d) && Dot(ToVec2(d), Sub(player, character)) > 0
    ensures player != character && (player.x == character.x || player.y == character.y) ==>
              exists d :: s == Name(d) && ToVec2(d) == SignOf(Sub(player, character))
    ensures player == character ==> s == "left"
  {
    var d := FacingDirection(player, character);
    Name(d)
  }

  /**
   * At the right edge the wall check wraps: stepping Right from the last
   * column reads the tile that `Map::draw` draws at the start of the next
   * row, not a tile at the target cell.
   */
  lemma WallCheckWrapsAtRightEdge(walls: TileMap, ny: nat, sheetWidth: nat)
    requires walls.width > 0 && sheetWidth > 0
    requires WallIndex(walls.width, ny, walls.width) < |walls.tiles| && walls.tiles[WallIndex(walls.width, ny, walls.width)] != 0
    ensures var i := WallIndex(walls.width, ny, walls.width);
            i == WallIndex(0, ny + 1, walls.width)
            && CellDraw(i, walls.tiles[i], walls.width, sheetWidth).screen == CellToPixel(0, ny + 1)
            && CellToPixel(0, ny + 1) != CellToPixel(walls.width, ny)
  {
    var w := walls.width;
    assert WallIndex(w, ny, w) == (ny + 1) * w + 0;
    ModUnique(WallIndex(w, ny, w), ny + 1, 0, w);
  }

  /**
   * A player standing on a door's interaction anchor, one cell below it,
   * reaches the door's cell by stepping Up, and the door turns to "down".
   */
  lemma DoorAnchorBelow(x: usize, y: usize, anim: AnimationsHandle)
    requires y + 1 < USIZE_LIMIT
    ensures var door := Door(x, y, anim).value;
            var anchor := GetAction(door).0.anchor;
            anchor == CellToPixel(x, y + 1)
            && Target(x, y + 1, Up) == (x, y)
            && FacingName(anchor, door.drawPos) == "down"
  {
  }

  // ===========================================================================
  // Player
  // ===========================================================================

  datatype PlayerState = Moving | Idle

  class Player {
    var tags: seq<Tag>
    var drawPos: Vec2
    var x: usize
    var y: usize
    var direction: Direction
    var time: real
    var state: PlayerState

    /** While idle the player is drawn exactly on its cell. */
    ghost predicate Valid()
      reads this
    {
      state == Idle ==> drawPos == CellToPixel(x, y)
    }

    /** `Player::new`: no tags, on cell (x, y), facing left, idle, at time 0. */
    constructor (x0: usize, y0: usize)
      ensures Valid()
      ensures tags == [] && x == x0 && y == y0 && drawPos == CellToPixel(x0, y0)
      ensures direction == Left && time == 0.0 && state == Idle
    {
      tags := [];
      drawPos := CellToPixel(x0, y0);
      x, y := x0, y0;
      direction := Left;
      time := 0.0;
      state := Idle;
    }

    /**
     * `Player::update` for one frame. The input axis (as component signs),
     * whether any character is interacting, and the outcome of the
     * floating-point approach to the target cell (`arrived`, else the new
     * position `towards`) are inputs. Returns false where the source panics:
     * a wall index that overflows or is out of bounds, a missing animation
     * group or a missing direction tag.
     */
    method Update(deltaTime: real, walls: TileMap, characters: array<Character>, axis: Vec2,
                  interactingWithAny: bool, arrived: bool, towards: Vec2) returns (ok: bool)
      requires Valid()
      modifies this, characters
      ensures Valid()
      ensures time == old(time) + deltaTime && tags == old(tags)
      // Moving: only the position changes, until arrival snaps it to the cell
      ensures old(state) == Moving ==>
                ok && x == old(x) && y == old(y) && direction == old(direction)
                && characters[..] == old(characters[..])
                && (if arrived then state == Idle && drawPos == CellToPixel(x, y)
                    else state == Moving && drawPos == towards)
      // Idle without input: nothing but the clock changes
      ensures old(state) == Idle && axis == ZERO ==>
                ok && state == Idle && x == old(x) && y == old(y) && direction == old(direction)
                && drawPos == old(drawPos) && characters[..] == old(characters[..])
      // Idle with input: turn, then try to step
      ensures old(state) == Idle && axis != ZERO ==>
                direction == FromVec2(axis, ToVec2(old(direction))) && drawPos == old(drawPos)
      ensures old(state) == Idle && axis != ZERO ==>
                var (nx, ny) := Target(old(x), old(y), FromVec2(axis, ToVec2(old(direction))));
                var i := WallIndex(nx, ny, walls.width);
                (ok <==> i < |walls.tiles| && i < USIZE_LIMIT && ColliderResolves(walls.tiles[i], old(characters[..]), nx, ny, old(drawPos), interactingWithAny))
                && (ok && walls.tiles[i] != 0 ==>
                      state == Idle && x == old(x) && y == old(y) && characters[..] == old(characters[..]))
                && (ok && walls.tiles[i] == 0 && FirstCollider(old(characters[..]), nx, ny).None? ==>
                      state == Moving && x == nx && y == ny && characters[..] == old(characters[..]))
                && (ok && walls.tiles[i] == 0 && FirstCollider(old(characters[..]), nx, ny).Some? ==>
                      state == Idle && x == old(x) && y == old(y)
                      && characters[..] == Bumped(old(characters[..]), FirstCollider(old(characters[..]), nx, ny).value,
                                                  old(drawPos), interactingWithAny))
    {
      time := time + deltaTime;
      if state == Moving {
        if arrived {
          drawPos := CellToPixel(x, y);
          state := Idle;
        } else {
          drawPos := towards;
        }
        return true;
      }
      if axis == ZERO {
        return true;
      }
      direction := FromVec2(axis, ToVec2(direction));
      var (nx, ny) := Target(x, y, direction);
      var i := WallIndex(nx, ny, walls.width);
      if i >= USIZE_LIMIT || i >= |walls.tiles| {
        // `new_x + new_y * width` overflows, or indexes past the layer
        return false;
      }
      if walls.tiles[i] != 0 {
        return true;
      }
      var found := FindCollider(characters, nx, ny);
      if found.None? {
        x, y := nx, ny;
        state := Moving;
        return true;
      }
      var k := found.value;
      var c := characters[k];
      if interactingWithAny || c.interactMessage.None? {
        assert Bumped(old(characters[..]), k, old(drawPos), interactingWithAny) == old(characters[..]);
        return true;
      }
      var key := FacingName(drawPos, c.drawPos);
      if c.animation.None? || key !in c.animation.value.tagNames {
        // `animation.unwrap()` or `tag_names[dir]` panics
        return false;
      }
      characters[k] := c.(interacting := true, animationIndex := c.animation.value.tagNames[key]);
      assert characters[..] == old(characters[..])[k := characters[k]];
      return true;
    }
  }

  /**
   * Whether an unblocked step into (nx, ny) completes without a panic: a
   * wall, a free cell or a character that cannot start interacting is fine;
   * one that can must have an animation group with the facing tag.
   */
  predicate ColliderResolves(wall: u8, cs: seq<Character>, nx: nat, ny: nat, player: Vec2, interactingWithAny: bool)
    ensures wall != 0 || FirstCollider(cs, nx, ny).None? ==> ColliderResolves(wall, cs, nx, ny, player, interactingWithAny)
    ensures interactingWithAny ==> ColliderResolves(wall, cs, nx, ny, player, interactingWithAny)
  {
    wall != 0
    || match FirstCollider(cs, nx, ny)
       case None => true
       case Some(k) =>
         Interacts(cs[k], interactingWithAny) ==>
           cs[k].animation.Some? && FacingName(player, cs[k].drawPos) in cs[k].animation.value.tagNames
  }

  predicate Interacts(c: Character, interactingWithAny: bool)
  {
    !interactingWithAny && c.interactMessage.Some?
  }

  /**
   * The characters after the player bumps character k: if nobody is
   * interacting and k has something to say, k starts interacting and turns
   * towards the player; otherwise nothing changes.
   */
  function Bumped(cs: seq<Character>, k: nat, player: Vec2, interactingWithAny: bool): (r: seq<Character>)
    requires k < |cs|
    ensures |r| == |cs| && forall j :: 0 <= j < |cs| && j != k ==> r[j] == cs[j]
    ensures r[k] == cs[k]
            || (Interacts(cs[k], interactingWithAny) && r[k] == cs[k].(interacting := true, animationIndex := r[k].animationIndex)
                && cs[k].animation.Some? && FacingName(player, cs[k].drawPos) in cs[k].animation.value.tagNames
                && r[k].animationIndex == cs[k].animation.value.tagNames[FacingName(player, cs[k].drawPos)])
    ensures Interacts(cs[k], interactingWithAny) && cs[k].animation.Some?
            && FacingName(player, cs[k].drawPos) in cs[k].animation.value.tagNames ==>
              r[k] == cs[k].(interacting := true,
                             animationIndex := cs[k].animation.value.tagNames[FacingName(player, cs[k].drawPos)])
  {
    var c := cs[k];
    var key := FacingName(player, c.drawPos);
    if Interacts(c, interactingWithAny) && c.animation.Some? && key in c.animation.value.tagNames then
      cs[k := c.(interacting := true, animationIndex := c.animation.value.tagNames[key])]
    else cs
  }
}
