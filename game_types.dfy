/** Values shared by every part of the match-orchestration model. */
module GameTypes {

  /** A nullable reference: `None` stands for C#'s `null`. */
  datatype Option<T> = None | Some(value: T)

  /** The phases of a match, in declaration order (`mainMenu` is the enum's default value). */
  datatype GameState = MainMenu | CharSelect | CharacterSpawning | InGame | VictoryScreen

  /** A playable character is known to the core only by its identity. */
  type CharId = nat

  /** A world or screen position. Coordinates are exact reals standing for the engine's floats. */
  datatype Vec3 = Vec3(x: real, y: real, z: real) {
    function Plus(o: Vec3): Vec3 {
      Vec3(x + o.x, y + o.y, z + o.z)
    }
  }

  /** What the core reads of one player's selector: whether its game object is active
      (the player joined), whether the player pressed ready, and the chosen character. */
  datatype Selector = Selector(active: bool, ready: bool, chosen: Option<CharId>)

  /** Number of selectors, roster slots, HUD slots and spawn locations. */
  const Capacity: nat := 4

  predicate IsSome<T>(o: Option<T>) {
    o.Some?
  }
}
