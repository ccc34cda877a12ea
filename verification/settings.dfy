/**
 The numeric and key-code constants of the game. `X_CELLS_COUNT`, `Y_CELLS_COUNT` and
 `LINE_KILL_SCORE` have values in the configuration (30, 30 and 10); the score rates,
 the movement cadence and the second player's key codes are used but never defined
 there, so every constant is a field of one configuration record.
 */
module Settings {

  /** A number of ticks per cell step; the game takes it modulo, so it is never zero. */
  type Cadence = t: int | t >= 1 witness 1

  /** The four key codes a player steers with. */
  datatype KeyMap = KeyMap(up: int, down: int, left: int, right: int)
  {
    /** No two commands share a key code. */
    predicate Distinct()
    {
      && up != down && up != left && up != right
      && down != left && down != right
      && left != right
    }
  }

  datatype Config = Config(
    xCells: int,           // X_CELLS_COUNT
    yCells: int,           // Y_CELLS_COUNT
    lineKillScore: int,    // LINE_KILL_SCORE
    neutralScore: int,     // NEUTRAL_TERRITORY_SCORE
    enemyScore: int,       // ENEMY_TERRITORY_SCORE
    moveableTicks: Cadence, // MOVEABLE_TICKS
    arrows: KeyMap,        // UP, DOWN, LEFT, RIGHT
    wasd: KeyMap,          // W, S, A, D
    nitro1: int,           // NITRO1
    nitro2: int            // NITRO2
  )
  {
    /** The score rates under which no tick lowers a score. */
    predicate MonotoneScores()
    {
      0 <= lineKillScore && 0 <= neutralScore <= enemyScore
    }
  }

}
