/**
 * Scripted characters (src/characters.rs): the condition/action enums, the
 * script cursor `get_action`, and the two authored characters.
 */
module Characters {
  import opened Shared

  /** When a script step is finished and the cursor may advance. */
  datatype ActionCondition =
    | AlwaysChange
    | NeverChange
    | PlayerInteract(prompt: string, anchor: Vec2)
    | PlayerHasTag(tag: Tag)
    | AnimationFinish
    | Dialogue(text: string, speaker: string)
    | Time(seconds: real)

  /** What a script step does. */
  datatype Action =
    | GiveTag(given: Tag)
    | ChangeAnimation(animation: nat)
    | SetPlayingAnimation(playing: bool)
    | ShowScreen(screen: nat)
    | HideScreen
    | Noop

  type Step = (ActionCondition, Action)

  /** The step reported once a script has run out: it never finishes and does nothing. */
  const NOOP_ACTION: Step := (NeverChange, Noop)

  /**
   * The part of a character's animation group that the player reads: the
   * animation index for each direction name.
   */
  datatype AnimationsHandle = AnimationsHandle(tagNames: map<string, nat>)

  /**
   * `Character`. `hasCollision`, `interactMessage`, `interacting` and the
   * optional `animation` are read or written by src/player.rs but are not
   * declared in the struct; they are kept here as plain fields.
   */
  datatype Character = Character(
    drawPos: Vec2,
    actions: seq<Step>,
    animation: Option<AnimationsHandle>,
    x: usize,
    y: usize,
    actionIndex: nat,
    animationPlaying: bool,
    animationIndex: nat,
    animTime: real,
    timer: real,
    hasCollision: bool,
    interactMessage: Option<string>,
    interacting: bool)

  /**
   * `Character::get_action`: the step under the cursor, or NOOP_ACTION once
   * the cursor is at or past the end of the script. It never indexes out of
   * bounds.
   */
  function GetAction(c: Character): (r: Step)
    ensures c.actionIndex >= |c.actions| ==> r == NOOP_ACTION
    ensures c.actionIndex < |c.actions| ==> r == c.actions[c.actionIndex]
  {
    if c.actionIndex >= |c.actions| then NOOP_ACTION else c.actions[c.actionIndex]
  }

  /** A script whose only never-finishing step is the one reported past its end. */
  predicate EndsOnlyAtEnd(actions: seq<Step>)
  {
    forall k :: 0 <= k < |actions| ==> actions[k].0 != NeverChange
  }

  /**
   * For a script with no NeverChange step, the current condition is
   * NeverChange exactly when the cursor has reached the end.
   */
  lemma FinishedIffNeverChange(c: Character)
    requires EndsOnlyAtEnd(c.actions)
    ensures GetAction(c).0 == NeverChange <==> c.actionIndex >= |c.actions|
  {
  }

  /** A character as both constructors leave it, before any script step has run. */
  predicate Fresh(c: Character, x: usize, y: usize, anim: AnimationsHandle)
  {
    c.x == x && c.y == y && c.drawPos == CellToPixel(x, y)
    && c.animation == Some(anim)
    && c.actionIndex == 0 && c.animationIndex == 0 && !c.animationPlaying
    && c.animTime == 0.0 && c.timer == 0.0
    && !c.hasCollision && c.interactMessage.None? && !c.interacting
  }

  /** The ferret's script: wait for the door, pause, speak twice, show and hide screen 1. */
  function FerretScript(): (r: seq<Step>)
    ensures |r| == 6 && EndsOnlyAtEnd(r)
    ensures r[0] == (PlayerHasTag(OpenedDoor), Noop) && r[4].1 == ShowScreen(1) && r[5].1 == HideScreen
  {
    [
    (PlayerHasTag(OpenedDoor), Noop),
    (Time(0.8), Noop),
    (Dialogue("Hello kind stranger! I have lost my way\nin the snowstorm. It is cold and dark.", "Ferret in a raincoat"), Noop),
    (Dialogue("Can I please come inside?", "Ferret in a raincoat"), Noop),
    (Time(0.5), ShowScreen(1)),
    (Time(1.0), HideScreen)
    ]
  }

  /**
   * `raincoat_ferret`: waits for the door to be opened, pauses, speaks two
   * lines, then shows and hides screen 1.
   */
  function RaincoatFerret(x: usize, y: usize, anim: AnimationsHandle): (c: Character)
    ensures Fresh(c, x, y, anim)
    ensures |c.actions| == 6 && EndsOnlyAtEnd(c.actions)
    ensures GetAction(c) == (PlayerHasTag(OpenedDoor), Noop)
  {
    Character(CellToPixel(x, y), FerretScript(), Some(anim), x, y, 0, false, 0, 0.0, 0.0, false, None, false)
  }

  /** The door's script, for a door in cell (x, y). */
  function DoorScript(x: usize, y: nat): (r: seq<Step>)
    ensures |r| == 4 && EndsOnlyAtEnd(r)
    ensures r[0].0.PlayerInteract? && r[0].0.anchor == CellToPixel(x, y + 1)
    ensures r[2].1 == GiveTag(OpenedDoor) && r[3].1 == ShowScreen(0)
  {
    [
      (PlayerInteract("E: open door", CellToPixel(x, y + 1)), SetPlayingAnimation(true)),
      (AnimationFinish, SetPlayingAnimation(false)),
      (AlwaysChange, GiveTag(OpenedDoor)),
      (AlwaysChange, ShowScreen(0))
    ]
  }

  /**
   * `door`: asks the player, from the cell below, to open it; plays its
   * animation to the end; grants OpenedDoor; shows screen 0. None where
   * `y + 1` overflows `usize`.
   */
  function Door(x: usize, y: usize, anim: AnimationsHandle): (r: Option<Character>)
    ensures r.None? <==> y + 1 == USIZE_LIMIT
    ensures r.Some? ==> Fresh(r.value, x, y, anim)
    ensures r.Some? ==> |r.value.actions| == 4 && EndsOnlyAtEnd(r.value.actions)
    ensures r.Some? ==> GetAction(r.value).0.PlayerInteract?
                        && GetAction(r.value).0.anchor == Add(r.value.drawPos, Vec2(0, TILE_SIZE))
                        && GetAction(r.value).1 == SetPlayingAnimation(true)
  {
    if y + 1 == USIZE_LIMIT then None
    else Some(Character(CellToPixel(x, y), DoorScript(x, y), Some(anim), x, y, 0, false, 0, 0.0, 0.0, false, None, false))
  }

  /** The tags a script grants, in order. */
  function Granted(actions: seq<Step>): (r: seq<Tag>)
    ensures |r| <= |actions|
  {
    if |actions| == 0 then []
    else
      var init := Granted(actions[..|actions| - 1]);
      match actions[|actions| - 1].1
      case GiveTag(t) => init + [t]
      case _ => init
  }

  /**
   * The two scripts depend on each other through one tag: the door grants
   * OpenedDoor at step 2 and nothing else, the ferret grants nothing, and
   * the ferret's first step waits for OpenedDoor.
   */
  lemma {:induction false} DoorOpensForFerret(x: usize, y: usize, dx: usize, dy: usize, anim: AnimationsHandle, doorAnim: AnimationsHandle)
    requires dy + 1 < USIZE_LIMIT
    ensures var door := Door(dx, dy, doorAnim).value;
            door.actions[2].1 == GiveTag(OpenedDoor) && Granted(door.actions) == [OpenedDoor]
    ensures var ferret := RaincoatFerret(x, y, anim);
            ferret.actions[0].0 == PlayerHasTag(OpenedDoor) && Granted(ferret.actions) == []
  {
    var door := DoorScript(dx, dy);
    assert door[..1][..0] == [] && door[..2][..1] == door[..1];
    assert door[..3][..2] == door[..2] && door[..4][..3] == door[..3] && door[..4] == door;
    assert Granted(door[..1]) == [];
    assert Granted(door[..2]) == [];
    assert Granted(door[..3]) == [OpenedDoor];
    var f := FerretScript();
    assert f[..1][..0] == [] && f[..2][..1] == f[..1] && f[..3][..2] == f[..2];
    assert f[..4][..3] == f[..3] && f[..5][..4] == f[..4] && f[..6][..5] == f[..5] && f[..6] == f;
    assert Granted(f[..1]) == [];
    assert Granted(f[..2]) == [];
    assert Granted(f[..3]) == [];
    assert Granted(f[..4]) == [];
    assert Granted(f[..5]) == [];
    assert Granted(f[..6]) == [];
  }
}
