/** The value types of the game: directions, tile kinds, positions, the
    entity record shared by Pac-Man and the ghosts, and the game state. */
module Types {

  /** Direction of travel; NoDirection stands for "no intent / no movement". */
  datatype Direction = Up | Down | Left | Right | NoDirection

  /** One maze cell. The source stores these as the numbers 0..7 in this order. */
  datatype Tile = Empty | Wall | Dot | PowerPellet | PacmanSpawn | GhostSpawn | Door | Fruit

  datatype Position = Position(x: int, y: int)

  /** A mover. For Pac-Man isScared and isDead stay false (the source leaves them
      undefined); its id, colour and isGhost tag only serve the renderer. */
  datatype Entity = Entity(
    x: int,
    y: int,
    direction: Direction,
    nextDirection: Direction,
    isScared: bool,
    isDead: bool)
  {
    function Pos(): Position { Position(x, y) }
  }

  datatype Status = Idle | Playing | GameOver | Won

  /** The game state as the tick sees it; `grid` is the source's `map`, a row-major grid
      (map[y][x]). */
  datatype GameState = GameState(
    grid: seq<seq<Tile>>,
    pacman: Entity,
    ghosts: seq<Entity>,
    score: int,
    lives: int,
    status: Status,
    powerModeTime: int)

  /** A search result that may be missing (the source returns null). */
  datatype Option<T> = Nothing | Some(value: T)
}
