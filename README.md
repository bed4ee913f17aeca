# winternight — a Dafny model of the game's grid logic

winternight is a small top-down game. The player walks on a 16-pixel grid, bumps into scripted characters (a door, a ferret in a raincoat) and collects story tags. This project models three deterministic pieces of it and proves properties of them:

- **Assets** (`assets.dfy`, with the Rust string operations it relies on in `text.dfy`):
  - `parse_tilemap_layer` reads one CSV layer of a Tiled map document. The result is a leading `0`, then one tile per comma-separated field. The width comes from the first `width="…"` of the whole document.
  - `Map::new` reads the floor, walls and detail layers.
  - `Map::draw` is modelled as the list of draw records it produces: screen cell and sprite-sheet cell.
  - The frame-duration bookkeeping of `Animation::from_file` and `AnimationsGroup::from_file`.
  - `Animation::get_at_time`.
- **Characters** (`characters.dfy`):
  - The script step type `(ActionCondition, Action)` and the cursor read `get_action`, which yields `NOOP_ACTION` past the end.
  - The two authored characters, the ferret and the door, and how their scripts depend on each other through the `OpenedDoor` tag.
- **Player** (`player.dfy`):
  - Facing directions: `name`, `to_vec2`, and `from_vec2` with its diagonal tie-break.
  - `Player::new`.
  - `Player::update` as a class method. It covers the Idle step in full: turning, the saturating target cell, the wall check, the first colliding character, and starting an interaction or moving. The Moving step is covered only as "arrive, snap to the cell, go Idle".

`shared.dfy` holds what the modules share: `Option`, the story `Tag`, integer vectors, the cell-to-pixel conversion, and the integer widths.

Conventions:
- Every place where the Rust code panics yields `None`, or `false` from `Player.Update`. This covers an `unwrap` of nothing, an index out of bounds, `% 0`, `usize` underflow, and `u32` overflow with debug assertions on.
- The tile vector starts with the prepended `0`, so CSV field `k` sits at index `k + 1`. Both `Map::draw` and the player's wall check read that same vector with index `x + y·width`. For a cell inside the map's width they therefore agree: the wall checked is the tile drawn there (`WallCheckSeesDrawnTile`). Stepping Right off the last column the check wraps instead, and reads the tile drawn at the start of the next row (`WallCheckWrapsAtRightEdge`).

## Model

| member | source | states |
|---|---|---|
| Shared.CellToPixel | src/player.rs:80 | a cell's pixel position is a multiple of 16 on each axis and divides back to the cell |
| Text.SplitOnce | src/assets.rs:64-82 | `split_once` fails exactly when the pattern never occurs; otherwise before + pattern + after is the input and no occurrence starts before the cut |
| Text.SplitOnceAt | src/assets.rs:64-82 | on `a + pat + b` where `pat` does not start before the end of `a`, `split_once` returns `(a, b)` |
| Text.SplitShape | src/assets.rs:83 | `split(',')` yields one more piece than there are commas, and no piece contains a comma |
| Text.JoinSplit | src/assets.rs:83-87 | the pieces of `split`, joined with the separator, give back the text |
| Text.SplitJoin | src/assets.rs:83-87 | splitting separator-free pieces joined by the separator gives the pieces back |
| Text.TrimIgnoresPadding | src/assets.rs:86 | white space (line breaks included) around a field does not change what `trim` leaves |
| Text.ParseUnsigned | src/assets.rs:86 | an accepted number is below the type's limit and is one or more decimal digits after an optional `+` |
| Text.ParseDecimal | src/assets.rs:71 | parsing the decimal notation of any value below the limit gives that value back |
| Assets.DocWidth | src/assets.rs:64-72 | a width read is below the `usize` limit, and a document without `width="` has none; DocWidthFirst states which number it is |
| Assets.DocWidthFirst | src/assets.rs:64-72 | the width is the number in the first `width="…"` of the document, whatever element it belongs to |
| Assets.LayerCsv | src/assets.rs:73-82 | the CSV text read for a layer never contains `</data>` |
| Assets.LayerCsvBetweenMarkers | src/assets.rs:62-82 | the CSV text is exactly what lies between the first `<data encoding="csv">` after the layer's `name="…" ` and the next `</data>` |
| Assets.ParseTile | src/assets.rs:86 | a field is read as a tile only when, trimmed, it is one or more decimal digits after an optional `+` (the `u8` type bounds it); PaddedFieldsParseAlike states that padding does not change it |
| Assets.CollectSpec | src/assets.rs:85-87 | collecting per-field results fails exactly when one fails, and otherwise keeps every value in place |
| Assets.ParseTilesElementwise | src/assets.rs:83-87 | the fields parse exactly when each one does, giving one tile per field in order |
| Assets.ParseLayer | src/assets.rs:61-89 | a layer read carries the document width and starts with the prepended 0; ParseLayerSpec states it field by field |
| Assets.ParseLayerSpec | src/assets.rs:61-89 | a layer is read exactly when width, markers and every field are readable; then it is the document width, a leading 0 and one tile per field |
| Assets.ParseTilemapLayer | src/assets.rs:61-89 | the imperative reader returns the specified layer: present iff readable, width from the document, a leading 0, field k at index k + 1 |
| Assets.ReadTiles | src/assets.rs:83-87 | the `while let` loop yields `[0]` followed by the parsed fields, or fails when one field fails |
| Assets.MapNew | src/assets.rs:29-35 | the map exists iff all three layers are readable; each layer is the one parsed under its name, and all share the document width |
| Assets.PaddedFieldsParseAlike | src/assets.rs:86 | padding every CSV field with white space, line breaks included, reads the same tiles |
| Assets.CellDraw | src/assets.rs:43-51 | one nonzero tile is drawn at a multiple of 16 on each axis, in a column below the width, from a sheet column below the sheet width; CellDrawInverse states that it determines index and tile |
| Assets.CellDrawInverse | src/assets.rs:43-51 | a draw record gives back the vector index (column below the width) and the tile value |
| Assets.NonZeroIndicesSpec | src/assets.rs:39-42 | the drawn indices are exactly the nonzero tiles, strictly increasing |
| Assets.LayerDraws | src/assets.rs:39-54 | a layer gives at most one draw per tile; LayerDrawsFails and LayerDrawsSpec state when it fails and what it draws |
| Assets.LayersDraws | src/assets.rs:38-55 | drawing the layers one after another fails exactly when one layer fails; MapDraw is proved equal to it |
| Assets.LayerDrawsFails | src/assets.rs:39-51 | drawing a layer panics exactly when some nonzero tile meets a zero layer width or a zero sheet width |
| Assets.LayerDrawsSpec | src/assets.rs:39-53 | the j-th draw is the j-th nonzero tile, at ((i mod w)·16, (i div w)·16) from sheet cell ((v−1) mod sheet_w, (v−1) div sheet_w) |
| Assets.MapDraw | src/assets.rs:36-56 | the nested loops produce the layers' draws in floor, walls, detail order, or fail as the first failing layer does |
| Assets.DrawLayer | src/assets.rs:39-54 | the inner loop produces the layer's specified draws |
| Assets.LayerDrawsNoneExtends | src/assets.rs:39-54 | once a prefix of a layer fails to draw, the whole layer fails |
| Assets.LayersDrawsNoneExtends | src/assets.rs:38-55 | once some layers fail to draw, the whole map fails |
| Assets.Sum | src/assets.rs:173-175 | the summed duration of a frame list is at least each frame's duration |
| Assets.SumDurations | src/assets.rs:173-175 | the summed duration is returned exactly when it fits in a `u32` |
| Assets.AnimationFromFrames | src/assets.rs:193-215 | the animation keeps every frame in order and its total length is their summed duration; overflow fails |
| Assets.ExtractTag | src/assets.rs:168-180 | one tag removes frames (start − offset)..(end − offset + 1), sums them and advances the offset by |end − start| + 1; underflow, a bad range or overflow fails |
| Assets.ExtractAscending | src/assets.rs:170-176 | on ascending tags the removed range is the tag's own frames and the remaining list stays aligned |
| Assets.TagLoopStep | src/assets.rs:166-181 | a successful tag extends the loop's facts: frame count, summed length and, on ascending tags, the tag's own frames |
| Assets.TagLoopFails | src/assets.rs:170-174 | on ascending tags a failing tag is one whose durations overflow `u32` |
| Assets.TagLoopDone | src/assets.rs:166-181 | after all tags, every tag's sum fits and contiguous tags partition the frames |
| Assets.AnimationsFromTags | src/assets.rs:163-181 | one animation per tag with end − start + 1 frames and total length their sum; on ascending tags it fails iff a tag overflows and holds each tag's frames; contiguous tags partition the frame list in order |
| Assets.ContiguousTagsPartition | src/assets.rs:166-181 | animations cut by contiguous tags, concatenated, are the whole frame list |
| Assets.PartitionPrefix | src/assets.rs:166-181 | the first m animations cover exactly the frames before the m-th tag's start |
| Assets.FrameIndex | src/assets.rs:218-225 | the duration walk of `get_at_time` finds an index of an existing frame; FrameIndexSpec states which frame it finds |
| Assets.FrameAtTime | src/assets.rs:216-225 | `get_at_time` yields a frame only for a clip of nonzero total length, and that frame exists; FrameAtTimePeriodic and WellFormedNeverPanics state its properties |
| Assets.FrameIndexSpec | src/assets.rs:218-225 | the duration walk finds a frame iff the time is below the summed duration, and then prefix(i) ≤ t < prefix(i+1) |
| Assets.FrameAtTimePeriodic | src/assets.rs:217 | `t` and `t + total_length` show the same frame |
| Assets.WellFormedNeverPanics | src/assets.rs:216-225 | when total_length is the nonzero summed duration, the `panic!()` is unreachable |
| Assets.GetAtTime | src/assets.rs:216-226 | the loop returns the frame whose slot holds `t mod total_length`; total_length 0 fails |
| Characters.GetAction | src/characters.rs:21-26 | past the end of the script it is NOOP_ACTION; otherwise exactly the step under the cursor |
| Characters.FinishedIffNeverChange | src/characters.rs:21-26 | for a script without NeverChange steps, the current condition is NeverChange iff the cursor is at or past the end |
| Characters.FerretScript | src/characters.rs:52-68 | six steps, none NeverChange; the first waits for OpenedDoor, the last two show and hide screen 1 |
| Characters.DoorScript | src/characters.rs:82-99 | four steps, none NeverChange; the first is the interaction anchored at (x, y+1)·16; step 2 grants OpenedDoor, step 3 shows screen 0 |
| Characters.RaincoatFerret | src/characters.rs:49-78 | the ferret starts on its cell (drawn at cell·16), with the cursor, animation and timers at 0, with six steps none of which is NeverChange, and first waits for OpenedDoor |
| Characters.Door | src/characters.rs:79-109 | the door starts like the ferret with four steps; its first step is the interaction anchored one cell below and starts the animation; `y + 1` overflow fails |
| Characters.DoorOpensForFerret | src/characters.rs:53-97 | the door grants OpenedDoor at step 2 and nothing else, the ferret grants nothing, and the ferret's step 0 waits for OpenedDoor |
| Player.Name | src/player.rs:24-31 | every direction has a nonempty name |
| Player.NameInjective | src/player.rs:24-31 | different directions have different names |
| Player.ToVec2 | src/player.rs:51-58 | a direction's vector is a unit step along exactly one axis |
| Player.SignOf | src/player.rs:108 | the stand-in for `normalize` keeps each component's sign and zeroness |
| Player.FromVec2 | src/player.rs:32-50 | the chosen direction points along any nonzero input; the zero vector gives Left |
| Player.FromVec2Straight | src/player.rs:33-44 | a straight nonzero input gives the direction whose unit vector is its sign |
| Player.FromVec2Diagonal | src/player.rs:45-49 | a diagonal gives its vertical part when `last.x` is nonzero, else its horizontal part |
| Player.FromVec2SignsOnly | src/player.rs:32-50 | only the input's signs and whether `last.x` is zero matter |
| Player.FromVec2RoundTrip | src/player.rs:32-58 | `from_vec2(d.to_vec2(), any)` is `d` for every direction |
| Player.SaturatingAddSigned | src/player.rs:97-98 | the sum clamped to 0..=usize::MAX |
| Player.Target | src/player.rs:95-98 | the target cell differs from the own cell by at most one along one axis; TargetIsNeighbourOrSelf states which cell it is |
| Player.TargetIsNeighbourOrSelf | src/player.rs:95-98 | the target is the neighbouring cell, or the own cell when the neighbour lies outside 0..=usize::MAX (a neighbour past the map's right edge is still the target) |
| Player.EdgeStepStays | src/player.rs:97-98 | stepping Left at x = 0 or Up at y = 0 stays on the edge cell |
| Player.WallCheckSeesDrawnTile | src/player.rs:100 | for a cell inside the map's width, the wall tile checked is the one `Map::draw` draws at that cell's pixel position |
| Player.WallCheckWrapsAtRightEdge | src/player.rs:97-100 | stepping Right from the last column checks index (y+1)·width, the tile drawn at the start of the next row, not at the target cell |
| Player.FirstCollider | src/player.rs:101-104 | the first character with collision on the target cell, and none before it; None iff there is none |
| Player.FindCollider | src/player.rs:101-104 | the search returns that first colliding character |
| Player.FacingDirection | src/player.rs:107-110 | the direction a bumped character turns to points from it towards the player; for a straight offset it is the offset's sign; equal positions give Left |
| Player.FacingAlong | src/player.rs:107-110 | `from_vec2` of the signs of a nonzero offset points along the offset, and equals those signs when the offset is straight; the zero offset gives Left |
| Player.FacingName | src/player.rs:107-111 | the tag a bumped character turns to names a direction pointing from it towards the player (the offset's sign when straight); equal positions give "left" |
| Player.Bumped | src/player.rs:105-113 | bumping changes only the bumped character; when it can interact and has the facing tag, it starts interacting and takes that tag's animation index, otherwise it is unchanged |
| Player.ColliderResolves | src/player.rs:100-113 | the condition under which an Idle step does not panic: a wall, no collider, or an interaction already running never panics |
| Player.DoorAnchorBelow | src/characters.rs:84-87 | a player on the door's anchor stands one cell below it, reaches the door by stepping Up, and the door turns to "down" |
| Player.Player.constructor | src/player.rs:77-87 | no tags, on the cell and drawn at cell·16, facing Left, Idle, time 0 |
| Player.Player.Update | src/player.rs:88-142 | see below |

`Player.Player.Update` has this contract:
- Always: it advances the clock, keeps the tags, and keeps "idle ⇒ drawn on the cell".
- Moving: on arrival it snaps to the cell and goes Idle; otherwise it takes the approached position.
- Idle with a zero axis: nothing but the clock changes.
- Idle with input, the turn: it turns to `from_vec2(axis, last)`.
- Idle with input, failure: it fails iff the wall index overflows or is out of bounds, or a bumped character that can interact has no animation group or no tag for the facing.
- Idle with input, a wall: it stays put.
- Idle with input, a free cell: it moves onto the target and goes Moving.
- Idle with input, a colliding character: it stays Idle. Only that first character changes: it starts interacting and takes the facing animation, and only if nobody was interacting and it has a message.

## Left out

- Rendering and windowing are not modelled:
  - `Assets::load`, `Spritesheet::draw_tile` and `draw_sprite`, `load_ase_texture`, `Player::draw`, `draw_dialogue`, `draw_tooltip` and the frame loop in src/main.rs.
  - `Map::draw` is modelled by the draw records it would issue.
- Decoding Aseprite files (`asefile`) and creating textures are not modelled. Frames are given as (texture handle, duration) and tags as (from, to) frame ranges.
- `Assets.GetAtTime` returns the index of the chosen frame rather than a reference to its texture.
- Floating point is not modelled:
  - `distance` and `move_towards` in the Moving step are the inputs `arrived` and `towards`. The LeftShift speed override of debug builds is not modelled.
  - The `f32` accumulation of the player's `time` is exact `real` addition, with no rounding. `anim_time` and `timer` of a character are only initialised here; nothing in these files advances them.
  - `Player.SignOf`: stands for `normalize` only as far as signs go. The zero vector's NaN result of `normalize` is not modelled; on it `from_vec2` also yields Left.
  - Pixel coordinates are exact integers. The `usize` to `f32` casts of very large cells would round.
- `Map::draw` takes the sprite sheet's width in tiles as a `u8` input. The float division and cast that compute it are not modelled.
- `Assets.LayerDraws`: does not model a `usize` overflow of `x * 16` or `y * 16`. It needs a map more than 2^60 cells wide or more than 2^60 rows tall.
- `any_interacting` is not defined in these files. Whether any character is interacting is an input of `Update`.
- The `Character` fields read by src/player.rs but missing from its struct are plain fields:
  - The fields are `has_collision`, `interact_message`, `interacting`, and `animation` as an optional group with `tag_names`.
  - `Characters.RaincoatFerret` and `Characters.Door` give them no collision, no message, not interacting. Their struct literals do not set these fields, so the values are a choice, not source behaviour.
  - The animation group is reduced to its direction-name table.
- The per-frame script interpreter that advances `action_index` is not part of these files and is not modelled.
- Player.WallCheckSeesDrawnTile: holds only for a target cell inside the map's width. At the right edge the source reads the next row's first tile, which `Player.Update` reproduces and `WallCheckWrapsAtRightEdge` states.
- `Player.Player.Update`: after a panic (`ok == false`) the state is left unspecified, since the program aborts.
- `Assets.SumDurations`, `Assets.AnimationFromFrames` and `Assets.ExtractTag`: model debug builds, where a `u32` overflow of the summed durations panics. A release build would wrap.
- `Characters.Door`: likewise treats `y + 1` overflowing `usize` as a panic, as in a debug build.
- `usize` is taken to be 64 bits wide.
- src/main.rs does not declare the `characters` and `player` modules. The model treats them as part of the program regardless.
