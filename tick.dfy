/** The game rules of App.tsx as functions on game-state values: initGame,
    the six steps of updateGame (move Pac-Man, eat, power-mode countdown,
    move the ghosts, collisions, win check), the 150 ms gate, and the key
    handlers; together with the invariant every reachable state keeps and
    the properties of a tick. The class in engine.dfy performs the same
    updates in place and is proved to compute these functions. */
module Tick {
  import opened Types
  import opened Maze
  import opened Ghosts

  const TickInterval := 150
  const StartLives := 3
  const PowerModeTicks := 50
  const DotPoints := 10
  const PelletPoints := 50
  const GhostPoints := 200

  /** The keys handleKeyDown distinguishes. */
  datatype Key = Enter | Space | ArrowUp | ArrowDown | ArrowLeft | ArrowRight | OtherKey

  // ---------------------------------------------------------------------
  // initGame
  // ---------------------------------------------------------------------

  /** Pac-Man's start as initGame computes it, `pacmanStart?.x || 1`: a missing
      spawn, and also a spawn coordinate of 0, become 1. */
  function InitialPacmanPos(initial: Grid): (r: Position)
    ensures r.x >= 1 && r.y >= 1
    ensures FirstPosition(initial, PacmanSpawn).Nothing? ==> r == Position(1, 1)
    ensures var f := FirstPosition(initial, PacmanSpawn);
      f.Some? && f.value.x >= 1 && f.value.y >= 1 ==> r == f.value
    ensures var f := FirstPosition(initial, PacmanSpawn);
      f.Some? ==> r.x == (if f.value.x == 0 then 1 else f.value.x) && r.y == (if f.value.y == 0 then 1 else f.value.y)
  {
    match FirstPosition(initial, PacmanSpawn)
    case Nothing => Position(1, 1)
    case Some(p) => Position(if p.x != 0 then p.x else 1, if p.y != 0 then p.y else 1)
  }

  /** The maze the game is built on: a rectangular grid on which Pac-Man's
      start lies inside the grid. */
  predicate Playable(initial: Grid) {
    IsGrid(initial) && InBounds(initial, InitialPacmanPos(initial).x, InitialPacmanPos(initial).y)
  }

  function InitialGhostDirection(i: nat): Direction {
    [Up, Left, Right][i % 3]
  }

  /** The fresh state initGame builds: a copy of the maze, Pac-Man facing
      right, one ghost per ghost spawn in scan order, score 0, 3 lives. */
  function Init(initial: Grid): (r: GameState)
    ensures r.grid == initial && r.score == 0 && r.lives == StartLives && r.status == Idle && r.powerModeTime == 0
    ensures r.pacman.Pos() == InitialPacmanPos(initial) && r.pacman.direction == Right && r.pacman.nextDirection == Right
    ensures !r.pacman.isScared && !r.pacman.isDead
    ensures r.ghosts == InitialGhosts(AllPositions(initial, GhostSpawn))
  {
    var start := InitialPacmanPos(initial);
    var spawns := AllPositions(initial, GhostSpawn);
    GameState(
      initial,
      Entity(start.x, start.y, Right, Right, false, false),
      InitialGhosts(spawns),
      0, StartLives, Idle, 0)
  }

  /** One ghost on each spawn, headings cycling UP, LEFT, RIGHT. */
  function InitialGhosts(spawns: seq<Position>): (r: seq<Entity>)
    ensures |r| == |spawns|
    ensures forall i :: 0 <= i < |spawns| ==> r[i].Pos() == spawns[i] && !r[i].isScared && !r[i].isDead
    ensures forall i :: 0 <= i < |spawns| ==> r[i].direction == InitialGhostDirection(i) && r[i].nextDirection == NoDirection
  {
    seq(|spawns|, i requires 0 <= i < |spawns| =>
      Entity(spawns[i].x, spawns[i].y, InitialGhostDirection(i), NoDirection, false, false))
  }

  // ---------------------------------------------------------------------
  // The invariant of every state the game reaches
  // ---------------------------------------------------------------------

  /** g is `initial` with some of its dots and power pellets eaten. */
  ghost predicate EatenFrom(initial: Grid, g: Grid) {
    && |g| == |initial|
    && (forall y :: 0 <= y < |g| ==> |g[y]| == |initial[y]|)
    && forall y, x :: 0 <= y < |g| && 0 <= x < |g[y]| ==>
         || g[y][x] == initial[y][x]
         || (g[y][x] == Empty && (initial[y][x] == Dot || initial[y][x] == PowerPellet))
  }

  /** Walls, doors and spawns never change, every ghost stands on a cell open
      to ghosts (never on a wall), Pac-Man stands on a cell open to him unless
      he has not left his initGame start, ghosts are scared only while power
      mode runs, and a game in play has a life left. */
  ghost predicate Inv(initial: Grid, s: GameState) {
    && Playable(initial)
    && MazeOk(initial, s.grid)
    && PacmanOk(initial, s.pacman)
    && GhostsOk(initial, s.ghosts, s.powerModeTime)
    && CountersOk(s)
  }

  ghost predicate MazeOk(initial: Grid, g: Grid) {
    IsGrid(g) && EatenFrom(initial, g)
  }

  predicate PacmanOk(initial: Grid, p: Entity)
    requires Playable(initial)
  {
    && InBounds(initial, p.x, p.y)
    && (IsValidMove(initial, p.x, p.y, false) || p.Pos() == InitialPacmanPos(initial))
  }

  predicate GhostsOk(initial: Grid, ghosts: seq<Entity>, powerModeTime: int)
    requires IsGrid(initial)
  {
    && |ghosts| == |AllPositions(initial, GhostSpawn)|
    && (forall i :: 0 <= i < |ghosts| ==> IsValidMove(initial, ghosts[i].x, ghosts[i].y, true))
    && 0 <= powerModeTime <= PowerModeTicks
    && (powerModeTime == 0 ==> forall i :: 0 <= i < |ghosts| ==> !ghosts[i].isScared)
  }

  predicate CountersOk(s: GameState) {
    && 0 <= s.lives
    && (s.status == Playing ==> 1 <= s.lives)
    && 0 <= s.score
  }

  /** Eating never opens or closes a cell: validity on the live map is
      validity on the initial maze. */
  lemma ValidMoveAgrees(initial: Grid, g: Grid, x: int, y: int, isGhost: bool)
    requires IsGrid(initial) && IsGrid(g) && EatenFrom(initial, g)
    ensures IsValidMove(g, x, y, isGhost) == IsValidMove(initial, x, y, isGhost)
  {
  }

  /** A fresh game satisfies the invariant. */
  lemma InitSatisfiesInv(initial: Grid)
    requires Playable(initial)
    ensures Inv(initial, Init(initial))
  {
    var s := Init(initial);
    var spawns := AllPositions(initial, GhostSpawn);
    forall i | 0 <= i < |s.ghosts|
      ensures IsValidMove(initial, s.ghosts[i].x, s.ghosts[i].y, true)
    {
      assert spawns[i] in spawns;
    }
  }

  /** Walls are impermeable: no ghost stands on a wall of the live maze, and
      neither does Pac-Man once he has left his initGame start (which the
      `|| 1` rule may put on a wall). */
  lemma NoMoverOnWall(initial: Grid, s: GameState)
    requires Inv(initial, s)
    ensures forall i :: 0 <= i < |s.ghosts| ==>
      InBounds(s.grid, s.ghosts[i].x, s.ghosts[i].y) && s.grid[s.ghosts[i].y][s.ghosts[i].x] != Wall
    ensures InBounds(s.grid, s.pacman.x, s.pacman.y)
    ensures s.grid[s.pacman.y][s.pacman.x] != Wall || s.pacman.Pos() == InitialPacmanPos(initial)
  {
    forall i | 0 <= i < |s.ghosts|
      ensures InBounds(s.grid, s.ghosts[i].x, s.ghosts[i].y) && s.grid[s.ghosts[i].y][s.ghosts[i].x] != Wall
    {
      ValidMoveAgrees(initial, s.grid, s.ghosts[i].x, s.ghosts[i].y, true);
    }
    ValidMoveAgrees(initial, s.grid, s.pacman.x, s.pacman.y, false);
  }

  // ---------------------------------------------------------------------
  // Step 1: Pac-Man moves
  // ---------------------------------------------------------------------

  /** The cell one step from p in direction d is open to Pac-Man. */
  predicate PacmanCanStep(g: Grid, w: int, p: Entity, d: Direction)
    requires IsGrid(g)
  {
    var q := GetNextPosition(w, p.x, p.y, d);
    IsValidMove(g, q.x, q.y, false)
  }

  /** Pac-Man turns to nextDirection and steps when that cell is open, else
      keeps going in his direction when that cell is open, else stays. */
  function MovePacman(g: Grid, w: int, p: Entity): (r: Entity)
    requires IsGrid(g)
    ensures r.nextDirection == p.nextDirection && r.isScared == p.isScared && r.isDead == p.isDead
    ensures PacmanCanStep(g, w, p, p.nextDirection) ==>
              r.direction == p.nextDirection && r.Pos() == GetNextPosition(w, p.x, p.y, p.nextDirection)
    ensures !PacmanCanStep(g, w, p, p.nextDirection) ==> r.direction == p.direction
    ensures !PacmanCanStep(g, w, p, p.nextDirection) && PacmanCanStep(g, w, p, p.direction) ==>
              r.Pos() == GetNextPosition(w, p.x, p.y, p.direction)
    ensures !PacmanCanStep(g, w, p, p.nextDirection) && !PacmanCanStep(g, w, p, p.direction) ==> r == p
    ensures r.Pos() == p.Pos() || (IsValidMove(g, r.x, r.y, false) && r.Pos() == GetNextPosition(w, p.x, p.y, r.direction))
    ensures IsValidMove(g, p.x, p.y, false) ==> IsValidMove(g, r.x, r.y, false)
  {
    var nextPos := GetNextPosition(w, p.x, p.y, p.nextDirection);
    if IsValidMove(g, nextPos.x, nextPos.y, false) then
      p.(direction := p.nextDirection, x := nextPos.x, y := nextPos.y)
    else
      var fallback := GetNextPosition(w, p.x, p.y, p.direction);
      if IsValidMove(g, fallback.x, fallback.y, false) then p.(x := fallback.x, y := fallback.y)
      else p
  }

  lemma MovePacmanKeepsInv(initial: Grid, s: GameState)
    requires Inv(initial, s)
    ensures Inv(initial, s.(pacman := MovePacman(s.grid, Width(initial), s.pacman)))
  {
    var p := MovePacman(s.grid, Width(initial), s.pacman);
    ValidMoveAgrees(initial, s.grid, p.x, p.y, false);
  }

  // ---------------------------------------------------------------------
  // Step 2: eating, and the power-mode countdown
  // ---------------------------------------------------------------------

  /** The points the dots and power pellets still on g are worth. */
  function PelletValue(g: Grid): int {
    DotPoints * Count(g, Dot) + PelletPoints * Count(g, PowerPellet)
  }

  function SetScared(ghosts: seq<Entity>, scared: bool): seq<Entity> {
    seq(|ghosts|, i requires 0 <= i < |ghosts| => ghosts[i].(isScared := scared))
  }

  /** Eating the tile under Pac-Man: a dot is worth 10, a power pellet 50
      and starts power mode, scaring every ghost; either leaves the cell empty. */
  function Eat(s: GameState): (r: GameState)
    requires 0 <= s.pacman.y < |s.grid| && 0 <= s.pacman.x < |s.grid[s.pacman.y]|
    ensures r.pacman == s.pacman && r.lives == s.lives && r.status == s.status
    ensures r.score >= s.score
  {
    var x, y := s.pacman.x, s.pacman.y;
    var tile := s.grid[y][x];
    if tile == Dot then
      s.(score := s.score + DotPoints, grid := SetTile(s.grid, x, y, Empty))
    else if tile == PowerPellet then
      s.(score := s.score + PelletPoints, grid := SetTile(s.grid, x, y, Empty),
         powerModeTime := PowerModeTicks, ghosts := SetScared(s.ghosts, true))
    else s
  }

  /** What eating does. Points only move from the maze to the score: score
      plus the value left on the maze is unchanged. */
  lemma EatSpec(s: GameState)
    requires 0 <= s.pacman.y < |s.grid| && 0 <= s.pacman.x < |s.grid[s.pacman.y]|
    ensures var r := Eat(s);
      && r.pacman == s.pacman && r.lives == s.lives && r.status == s.status
      && |r.ghosts| == |s.ghosts|
      && (forall i :: 0 <= i < |s.ghosts| ==> r.ghosts[i] == s.ghosts[i].(isScared := r.ghosts[i].isScared))
      && r.score + PelletValue(r.grid) == s.score + PelletValue(s.grid)
    ensures var r, t := Eat(s), s.grid[s.pacman.y][s.pacman.x];
      && (t == Dot ==> r.score == s.score + DotPoints)
      && (t == PowerPellet ==> r.score == s.score + PelletPoints)
      && (t == Dot || t == PowerPellet ==> r.grid == SetTile(s.grid, s.pacman.x, s.pacman.y, Empty))
      && (t == PowerPellet ==> r.powerModeTime == PowerModeTicks && forall i :: 0 <= i < |r.ghosts| ==> r.ghosts[i].isScared)
      && (t != PowerPellet ==> r.powerModeTime == s.powerModeTime && r.ghosts == s.ghosts)
      && (t != Dot && t != PowerPellet ==> r == s)
  {
    var x, y := s.pacman.x, s.pacman.y;
    CountAfterSet(s.grid, Dot, x, y, Empty);
    CountAfterSet(s.grid, PowerPellet, x, y, Empty);
  }

  lemma EatKeepsInv(initial: Grid, s: GameState)
    requires Inv(initial, s)
    ensures Inv(initial, Eat(s))
  {
    var r := Eat(s);
    var x, y := s.pacman.x, s.pacman.y;
    EatSpec(s);
    if s.grid[y][x] == Dot || s.grid[y][x] == PowerPellet {
      assert r.grid == SetTile(s.grid, x, y, Empty);
      forall yy, xx | 0 <= yy < |r.grid| && 0 <= xx < |r.grid[yy]|
        ensures || r.grid[yy][xx] == initial[yy][xx]
                || (r.grid[yy][xx] == Empty && (initial[yy][xx] == Dot || initial[yy][xx] == PowerPellet))
      {
        if yy == y && xx == x {
          assert s.grid[y][x] == initial[y][x];
        } else {
          assert r.grid[yy][xx] == s.grid[yy][xx];
        }
      }
    }
  }

  /** The power-mode countdown: one tick off while it runs; when it runs out
      no ghost is scared any more. */
  function CountDown(s: GameState): (r: GameState)
    ensures r.grid == s.grid && r.pacman == s.pacman && r.score == s.score
    ensures r.lives == s.lives && r.status == s.status
    ensures r.powerModeTime == if s.powerModeTime > 0 then s.powerModeTime - 1 else s.powerModeTime
    ensures |r.ghosts| == |s.ghosts|
    ensures forall i :: 0 <= i < |s.ghosts| ==> r.ghosts[i] == s.ghosts[i].(isScared := r.ghosts[i].isScared)
    ensures s.powerModeTime > 0 && r.powerModeTime == 0 ==> forall i :: 0 <= i < |r.ghosts| ==> !r.ghosts[i].isScared
    ensures !(s.powerModeTime > 0 && r.powerModeTime == 0) ==> r.ghosts == s.ghosts
  {
    if s.powerModeTime > 0 then
      var time := s.powerModeTime - 1;
      if time == 0 then s.(powerModeTime := time, ghosts := SetScared(s.ghosts, false))
      else s.(powerModeTime := time)
    else s
  }

  lemma CountDownKeepsInv(initial: Grid, s: GameState)
    requires Inv(initial, s)
    ensures Inv(initial, CountDown(s))
  {
  }

  // ---------------------------------------------------------------------
  // Step 3: the ghosts move
  // ---------------------------------------------------------------------

  /** Every ghost takes its GhostStep, each with its own injected draws. */
  function MoveGhosts(s: GameState, w: int, center: Option<Position>, choices: seq<GhostChoice>): (r: GameState)
    requires IsGrid(s.grid) && |choices| == |s.ghosts|
    ensures r == s.(ghosts := r.ghosts) && |r.ghosts| == |s.ghosts|
  {
    s.(ghosts := seq(|s.ghosts|, i requires 0 <= i < |s.ghosts| =>
      GhostStep(s.grid, w, center, s.ghosts[i], choices[i])))
  }

  lemma MoveGhostsKeepsInv(initial: Grid, s: GameState, choices: seq<GhostChoice>)
    requires Inv(initial, s) && |choices| == |s.ghosts|
    ensures Inv(initial, MoveGhosts(s, Width(initial), FirstPosition(initial, GhostSpawn), choices))
    ensures var r := MoveGhosts(s, Width(initial), FirstPosition(initial, GhostSpawn), choices);
      forall i :: 0 <= i < |s.ghosts| ==> (r.ghosts[i].isScared ==> s.ghosts[i].isScared)
  {
    var w, center := Width(initial), FirstPosition(initial, GhostSpawn);
    var r := MoveGhosts(s, w, center, choices);
    forall i | 0 <= i < |r.ghosts|
      ensures IsValidMove(initial, r.ghosts[i].x, r.ghosts[i].y, true)
      ensures r.ghosts[i].isScared ==> s.ghosts[i].isScared
    {
      var gh := s.ghosts[i];
      GhostStepSpec(s.grid, w, center, gh, choices[i]);
      ValidMoveAgrees(initial, s.grid, gh.x, gh.y, true);
      ValidMoveAgrees(initial, s.grid, r.ghosts[i].x, r.ghosts[i].y, true);
    }
  }

  // ---------------------------------------------------------------------
  // Step 4: collisions
  // ---------------------------------------------------------------------

  /** `ghosts.find(...)`: the index of the first ghost on cell p. */
  function FirstHit(ghosts: seq<Entity>, p: Position): (r: Option<nat>)
    ensures r.Nothing? <==> forall i :: 0 <= i < |ghosts| ==> ghosts[i].Pos() != p
    ensures r.Some? ==> && r.value < |ghosts| && ghosts[r.value].Pos() == p
                        && forall i :: 0 <= i < r.value ==> ghosts[i].Pos() != p
    decreases |ghosts|
  {
    if ghosts == [] then Nothing
    else if ghosts[0].x == p.x && ghosts[0].y == p.y then Some(0)
    else
      match FirstHit(ghosts[1..], p)
      case Nothing => Nothing
      case Some(i) => Some(i + 1)
  }

  /** Pac-Man meets a scared ghost that is alive: he eats it. */
  predicate EatsGhost(s: GameState) {
    var hit := FirstHit(s.ghosts, s.pacman.Pos());
    hit.Some? && s.ghosts[hit.value].isScared && !s.ghosts[hit.value].isDead
  }

  /** Pac-Man meets a ghost that is alive and not scared: he loses a life. */
  predicate LosesLife(s: GameState) {
    var hit := FirstHit(s.ghosts, s.pacman.Pos());
    hit.Some? && !s.ghosts[hit.value].isScared && !s.ghosts[hit.value].isDead
  }

  /** After a lost life, ghost i goes back to ghost spawn i mod n, unscared. */
  function ResetGhosts(ghosts: seq<Entity>, starts: seq<Position>): (r: seq<Entity>)
    requires |starts| > 0 || |ghosts| == 0
    ensures |r| == |ghosts|
    ensures forall i :: 0 <= i < |ghosts| ==>
      && r[i].Pos() == starts[i % |starts|] && !r[i].isScared
      && r[i].direction == ghosts[i].direction && r[i].nextDirection == ghosts[i].nextDirection
      && r[i].isDead == ghosts[i].isDead
  {
    seq(|ghosts|, i requires 0 <= i < |ghosts| =>
      ghosts[i].(x := starts[i % |starts|].x, y := starts[i % |starts|].y, isScared := false))
  }

  /** Pac-Man eats ghost i: 200 points, the ghost dies, stops being scared
      and is sent to the first ghost spawn (if the maze has one). */
  function EatGhost(initial: Grid, s: GameState, i: nat): (r: GameState)
    requires i < |s.ghosts|
    ensures r.score == s.score + GhostPoints && |r.ghosts| == |s.ghosts|
    ensures r == s.(score := r.score, ghosts := r.ghosts)
    ensures && r.ghosts[i].isDead && !r.ghosts[i].isScared
            && r.ghosts[i].direction == s.ghosts[i].direction
            && r.ghosts[i].nextDirection == s.ghosts[i].nextDirection
    ensures match FirstPosition(initial, GhostSpawn)
            case Some(home) => r.ghosts[i].Pos() == home
            case Nothing => r.ghosts[i].Pos() == s.ghosts[i].Pos()
    ensures forall j :: 0 <= j < |s.ghosts| && j != i ==> r.ghosts[j] == s.ghosts[j]
  {
    var eaten := s.ghosts[i].(isDead := true, isScared := false);
    var home :=
      match FirstPosition(initial, GhostSpawn)
      case Some(spawn) => eaten.(x := spawn.x, y := spawn.y)
      case Nothing => eaten;
    s.(score := s.score + GhostPoints, ghosts := s.ghosts[i := home])
  }

  /** Pac-Man loses a life. On the last one the game is over and nothing else
      changes; otherwise he goes back to his spawn facing right, and ghost j
      to ghost spawn j mod n, unscared (isDead and power mode are kept). */
  function LoseLife(initial: Grid, s: GameState): (r: GameState)
    requires |s.ghosts| == |AllPositions(initial, GhostSpawn)|
    ensures r.score == s.score && r.lives == s.lives - 1
    ensures r.grid == s.grid && r.powerModeTime == s.powerModeTime && |r.ghosts| == |s.ghosts|
    ensures r.lives <= 0 ==> r == s.(lives := r.lives, status := GameOver)
    ensures r.lives > 0 ==>
      && r.status == s.status
      && r.pacman == s.pacman.(x := r.pacman.x, y := r.pacman.y, direction := Right, nextDirection := Right)
      && (match FirstPosition(initial, PacmanSpawn)
          case Some(start) => r.pacman.Pos() == start
          case Nothing => r.pacman.Pos() == s.pacman.Pos())
      && r.ghosts == ResetGhosts(s.ghosts, AllPositions(initial, GhostSpawn))
  {
    var lives := s.lives - 1;
    if lives <= 0 then s.(lives := lives, status := GameOver)
    else
      var p :=
        match FirstPosition(initial, PacmanSpawn)
        case Some(start) => s.pacman.(x := start.x, y := start.y)
        case Nothing => s.pacman;
      s.(lives := lives,
         pacman := p.(direction := Right, nextDirection := Right),
         ghosts := ResetGhosts(s.ghosts, AllPositions(initial, GhostSpawn)))
  }

  /** The collision step: only the first ghost on Pac-Man's cell counts; a
      scared live ghost is eaten, a live unscared one costs a life, a dead
      one is passed through. */
  function Collide(initial: Grid, s: GameState): (r: GameState)
    requires |s.ghosts| == |AllPositions(initial, GhostSpawn)|
    ensures !EatsGhost(s) && !LosesLife(s) ==> r == s
    ensures EatsGhost(s) ==> r == EatGhost(initial, s, FirstHit(s.ghosts, s.pacman.Pos()).value)
    ensures LosesLife(s) ==> r == LoseLife(initial, s)
  {
    match FirstHit(s.ghosts, s.pacman.Pos())
    case Nothing => s
    case Some(i) =>
      var hit := s.ghosts[i];
      if hit.isScared && !hit.isDead then EatGhost(initial, s, i)
      else if !hit.isDead then LoseLife(initial, s)
      else s
  }

  lemma CollideKeepsInv(initial: Grid, s: GameState)
    requires Inv(initial, s) && s.status == Playing
    ensures Inv(initial, Collide(initial, s))
  {
    if EatsGhost(s) {
      EatGhostKeepsInv(initial, s, FirstHit(s.ghosts, s.pacman.Pos()).value);
    } else if LosesLife(s) {
      LoseLifeKeepsInv(initial, s);
    }
  }

  /** An eaten ghost lands on the ghost spawn, where ghosts may stand. */
  lemma EatGhostKeepsInv(initial: Grid, s: GameState, i: nat)
    requires Inv(initial, s) && i < |s.ghosts|
    ensures Inv(initial, EatGhost(initial, s, i))
  {
    var r := EatGhost(initial, s, i);
    forall j | 0 <= j < |r.ghosts|
      ensures IsValidMove(initial, r.ghosts[j].x, r.ghosts[j].y, true)
      ensures r.ghosts[j].isScared ==> s.ghosts[j].isScared
    {
      if j != i {
        assert r.ghosts[j] == s.ghosts[j];
      }
    }
  }

  /** Losing a life from a game in play leaves either GAME_OVER or a game in
      play with Pac-Man and the ghosts back on spawn cells. */
  lemma LoseLifeKeepsInv(initial: Grid, s: GameState)
    requires Inv(initial, s) && s.status == Playing
    ensures Inv(initial, LoseLife(initial, s))
  {
    var r := LoseLife(initial, s);
    if r.lives > 0 {
      var starts := AllPositions(initial, GhostSpawn);
      forall j | 0 <= j < |r.ghosts|
        ensures IsValidMove(initial, r.ghosts[j].x, r.ghosts[j].y, true) && !r.ghosts[j].isScared
      {
        assert starts[j % |starts|] in starts;
      }
    }
  }

  // ---------------------------------------------------------------------
  // Step 5: the win check
  // ---------------------------------------------------------------------

  /** No dot and no power pellet is left anywhere on g. */
  ghost predicate NoPelletsLeft(g: Grid) {
    forall p :: InGrid(g, p) ==> g[p.y][p.x] != Dot && g[p.y][p.x] != PowerPellet
  }

  /** `map.flat().filter(c => c === DOT || c === POWER_PELLET).length` */
  function PelletsRemaining(g: Grid): (n: nat)
    ensures n == 0 <==> NoPelletsLeft(g)
  {
    var dots, pellets := AllPositions(g, Dot), AllPositions(g, PowerPellet);
    assert dots != [] ==> dots[0] in dots;
    assert pellets != [] ==> pellets[0] in pellets;
    Count(g, Dot) + Count(g, PowerPellet)
  }

  /** The status becomes WON exactly when the maze holds no dot or pellet;
      nothing else changes. */
  function CheckWin(s: GameState): (r: GameState)
    ensures r == s.(status := r.status)
    ensures r.status == Won <==> s.status == Won || NoPelletsLeft(s.grid)
    ensures !NoPelletsLeft(s.grid) ==> r == s
  {
    if PelletsRemaining(s.grid) == 0 then s.(status := Won) else s
  }

  // ---------------------------------------------------------------------
  // One tick, and the 150 ms gate
  // ---------------------------------------------------------------------

  /** What a tick needs in order to be defined: both mazes well formed,
      Pac-Man on the live maze, one draw per ghost and one ghost per ghost
      spawn. Every state that keeps the invariant satisfies it (StepKeepsInv). */
  predicate Fits(initial: Grid, s: GameState, choices: seq<GhostChoice>) {
    && IsGrid(initial) && IsGrid(s.grid)
    && InBounds(s.grid, s.pacman.x, s.pacman.y)
    && |choices| == |s.ghosts| == |AllPositions(initial, GhostSpawn)|
  }

  /** Steps 1 and 2 of a tick: Pac-Man moves, then eats what he lands on.
      Points only move from the maze to the score. */
  function Feed(initial: Grid, s: GameState): (r: GameState)
    requires IsGrid(initial) && IsGrid(s.grid) && InBounds(s.grid, s.pacman.x, s.pacman.y)
    ensures IsGrid(r.grid) && InBounds(r.grid, r.pacman.x, r.pacman.y)
    ensures r.status == s.status && r.lives == s.lives && |r.ghosts| == |s.ghosts|
    ensures r.score >= s.score && r.score + PelletValue(r.grid) == s.score + PelletValue(s.grid)
  {
    var moved := s.(pacman := MovePacman(s.grid, Width(initial), s.pacman));
    EatSpec(moved);
    Eat(moved)
  }

  lemma FeedKeepsInv(initial: Grid, s: GameState)
    requires Inv(initial, s)
    ensures Inv(initial, Feed(initial, s))
  {
    MovePacmanKeepsInv(initial, s);
    EatKeepsInv(initial, s.(pacman := MovePacman(s.grid, Width(initial), s.pacman)));
  }

  /** The power-mode countdown, then step 3: the ghosts move. Nothing but the
      ghosts and the countdown changes. */
  function Chase(initial: Grid, s: GameState, choices: seq<GhostChoice>): (r: GameState)
    requires IsGrid(initial) && IsGrid(s.grid) && |choices| == |s.ghosts|
    ensures r == s.(ghosts := r.ghosts, powerModeTime := r.powerModeTime)
    ensures |r.ghosts| == |s.ghosts|
  {
    MoveGhosts(CountDown(s), Width(initial), FirstPosition(initial, GhostSpawn), choices)
  }

  lemma ChaseKeepsInv(initial: Grid, s: GameState, choices: seq<GhostChoice>)
    requires Inv(initial, s) && |choices| == |s.ghosts|
    ensures Inv(initial, Chase(initial, s, choices))
  {
    CountDownKeepsInv(initial, s);
    MoveGhostsKeepsInv(initial, CountDown(s), choices);
  }

  /** The body of updateGame for a game in play: the five steps in order. The
      score never drops and at most one life is lost. */
  function Step(initial: Grid, s: GameState, choices: seq<GhostChoice>): (r: GameState)
    requires Fits(initial, s, choices)
    ensures |r.ghosts| == |s.ghosts| && r.score >= s.score
    ensures r.lives == s.lives || r.lives == s.lives - 1
  {
    CheckWin(Collide(initial, Chase(initial, Feed(initial, s), choices)))
  }

  /** A tick of a game in play keeps the invariant. */
  lemma StepKeepsInv(initial: Grid, s: GameState, choices: seq<GhostChoice>)
    requires Inv(initial, s) && s.status == Playing && |choices| == |s.ghosts|
    ensures Fits(initial, s, choices) && Inv(initial, Step(initial, s, choices))
  {
    var fed := Feed(initial, s);
    FeedKeepsInv(initial, s);
    ChaseKeepsInv(initial, fed, choices);
    CollideKeepsInv(initial, Chase(initial, fed, choices));
  }

  /** How a tick ends: WON exactly when the maze is cleared (even if the last
      life went in the same tick), GAME_OVER exactly when the last life went
      and pellets remain, otherwise still in play. */
  lemma StepOutcome(initial: Grid, s: GameState, choices: seq<GhostChoice>)
    requires Fits(initial, s, choices) && s.status == Playing && s.lives >= 1
    ensures var r := Step(initial, s, choices);
      && (r.status == Won <==> NoPelletsLeft(r.grid))
      && (r.status == GameOver <==> !NoPelletsLeft(r.grid) && r.lives == 0)
      && (r.status == Playing <==> !NoPelletsLeft(r.grid) && r.lives > 0)
  {
    var chased := Chase(initial, Feed(initial, s), choices);
    var collided := Collide(initial, chased);
    assert chased.status == Playing && chased.lives == s.lives;
    assert collided.status == GameOver <==> collided.lives <= 0;
    assert collided.status == GameOver || collided.status == Playing;
  }

  /** Score accounting for a tick: score plus the value left on the maze
      grows by nothing, or by exactly one eaten ghost. */
  lemma StepScore(initial: Grid, s: GameState, choices: seq<GhostChoice>)
    requires Fits(initial, s, choices)
    ensures var r := Step(initial, s, choices);
      || r.score + PelletValue(r.grid) == s.score + PelletValue(s.grid)
      || r.score + PelletValue(r.grid) == s.score + PelletValue(s.grid) + GhostPoints
  {
    var chased := Chase(initial, Feed(initial, s), choices);
    var collided := Collide(initial, chased);
    assert collided.grid == chased.grid;
    assert collided.score == chased.score || collided.score == chased.score + GhostPoints;
  }

  /** Eating the last dot wins: when the cell in Pac-Man's intended direction
      holds the only dot or pellet left, in a maze with no ghost spawn (so the
      ghost list is empty), one tick moves
      him there, scores exactly 10 and ends the game WON. */
  lemma LastDotWins(initial: Grid, s: GameState, choices: seq<GhostChoice>)
    requires Fits(initial, s, choices) && s.status == Playing && s.ghosts == []
    requires var q := GetNextPosition(Width(initial), s.pacman.x, s.pacman.y, s.pacman.nextDirection);
      InBounds(s.grid, q.x, q.y) && s.grid[q.y][q.x] == Dot
    requires PelletsRemaining(s.grid) == 1
    ensures var r, q := Step(initial, s, choices), GetNextPosition(Width(initial), s.pacman.x, s.pacman.y, s.pacman.nextDirection);
      r.pacman.Pos() == q && r.score == s.score + DotPoints && r.status == Won
  {
    var q := GetNextPosition(Width(initial), s.pacman.x, s.pacman.y, s.pacman.nextDirection);
    var moved := s.(pacman := MovePacman(s.grid, Width(initial), s.pacman));
    assert moved.pacman.Pos() == q;
    EatSpec(moved);
    CountAfterSet(s.grid, Dot, q.x, q.y, Empty);
    CountAfterSet(s.grid, PowerPellet, q.x, q.y, Empty);
    var fed := Eat(moved);
    assert PelletsRemaining(fed.grid) == 0;
    var chased := Chase(initial, fed, choices);
    assert Collide(initial, chased) == chased;
  }

  /** updateGame(timestamp): nothing happens unless the game is in play and
      150 ms have passed since the last tick; then lastTime := timestamp and
      one tick runs. Returns the new state and the new lastTime. */
  function Update(initial: Grid, s: GameState, lastTime: int, timestamp: int, choices: seq<GhostChoice>): (r: (GameState, int))
    requires Inv(initial, s) && |choices| == |s.ghosts|
    ensures Inv(initial, r.0) && |r.0.ghosts| == |s.ghosts|
    ensures r.0.score >= s.score && r.0.lives <= s.lives
    ensures r.1 == (if s.status == Playing && timestamp - lastTime >= TickInterval then timestamp else lastTime)
    ensures s.status != Playing || timestamp - lastTime < TickInterval ==> r.0 == s
    ensures s.status == Playing && timestamp - lastTime >= TickInterval ==> r.0 == Step(initial, s, choices)
  {
    if s.status != Playing then (s, lastTime)
    else if timestamp - lastTime < TickInterval then (s, lastTime)
    else
      StepKeepsInv(initial, s, choices);
      (Step(initial, s, choices), timestamp)
  }

  /** One call of updateGame: the animation-frame timestamp and the draws. */
  datatype Frame = Frame(timestamp: int, choices: seq<GhostChoice>)

  /** A run of updateGame calls. Along any run the invariant holds, the score
      never decreases and lives never increase. */
  function Run(initial: Grid, s: GameState, lastTime: int, frames: seq<Frame>): (r: (GameState, int))
    requires Inv(initial, s)
    requires forall k :: 0 <= k < |frames| ==> |frames[k].choices| == |s.ghosts|
    ensures Inv(initial, r.0) && |r.0.ghosts| == |s.ghosts|
    ensures r.0.score >= s.score && r.0.lives <= s.lives
    decreases |frames|
  {
    if frames == [] then (s, lastTime)
    else
      var next := Update(initial, s, lastTime, frames[0].timestamp, frames[0].choices);
      Run(initial, next.0, next.1, frames[1..])
  }

  /** Once the game is over (or won, or not yet started), updateGame changes
      nothing, however often it is called. */
  lemma {:induction false} NotPlayingIsFrozen(initial: Grid, s: GameState, lastTime: int, frames: seq<Frame>)
    requires Inv(initial, s) && s.status != Playing
    requires forall k :: 0 <= k < |frames| ==> |frames[k].choices| == |s.ghosts|
    ensures Run(initial, s, lastTime, frames) == (s, lastTime)
    decreases |frames|
  {
    if frames != [] {
      NotPlayingIsFrozen(initial, s, lastTime, frames[1..]);
    }
  }

  // ---------------------------------------------------------------------
  // Input: handleKeyDown, handleDirection, toggleGame
  // ---------------------------------------------------------------------

  function KeyDirection(key: Key): (r: Direction)
    ensures r == NoDirection <==> key == Enter || key == Space || key == OtherKey
    ensures key == ArrowUp ==> r == Up
    ensures key == ArrowDown ==> r == Down
    ensures key == ArrowLeft ==> r == Left
    ensures key == ArrowRight ==> r == Right
  {
    match key
    case ArrowUp => Up
    case ArrowDown => Down
    case ArrowLeft => Left
    case ArrowRight => Right
    case _ => NoDirection
  }

  /** handleKeyDown: outside play, Enter or Space starts a fresh game and any
      other key does nothing; in play, only the arrow keys act, and they only
      set Pac-Man's nextDirection. */
  function KeyDown(initial: Grid, s: GameState, key: Key): (r: GameState)
    ensures s.status != Playing ==> r == s || r == Init(initial).(status := Playing)
    ensures s.status != Playing ==> (r != s <==> key == Enter || key == Space)
    ensures s.status == Playing ==> r == s.(pacman := s.pacman.(nextDirection := r.pacman.nextDirection))
    ensures s.status == Playing && r != s ==> r.pacman.nextDirection == KeyDirection(key) != NoDirection
    ensures s.status == Playing && KeyDirection(key) != NoDirection ==> r.pacman.nextDirection == KeyDirection(key)
  {
    if s.status != Playing then
      if key == Enter || key == Space then Init(initial).(status := Playing) else s
    else
      var newDir := KeyDirection(key);
      if newDir != NoDirection then s.(pacman := s.pacman.(nextDirection := newDir)) else s
  }

  /** handleDirection (the on-screen arrows): sets nextDirection in play only. */
  function SetDirection(s: GameState, d: Direction): (r: GameState)
    ensures r == s.(pacman := s.pacman.(nextDirection := r.pacman.nextDirection))
    ensures r.pacman.nextDirection == if s.status == Playing then d else s.pacman.nextDirection
  {
    if s.status == Playing then s.(pacman := s.pacman.(nextDirection := d)) else s
  }

  /** toggleGame (the start button): outside play, a fresh game in play. */
  function ToggleGame(initial: Grid, s: GameState): (r: GameState)
    ensures s.status == Playing ==> r == s
    ensures s.status != Playing ==> r == Init(initial).(status := Playing)
  {
    if s.status != Playing then
      Init(initial).(status := Playing)
    else s
  }

  /** Starting a game resets score, lives and power mode, restores the maze,
      and keeps the invariant. */
  lemma StartResets(initial: Grid, s: GameState)
    requires Inv(initial, s) && s.status != Playing
    ensures var r := ToggleGame(initial, s);
      && r == KeyDown(initial, s, Enter) && r == KeyDown(initial, s, Space)
      && Inv(initial, r) && r.status == Playing
      && r.score == 0 && r.lives == StartLives && r.powerModeTime == 0 && r.grid == initial
      && forall i :: 0 <= i < |r.ghosts| ==> !r.ghosts[i].isScared && !r.ghosts[i].isDead
  {
    InitSatisfiesInv(initial);
  }

  /** Every input keeps the invariant. */
  lemma InputKeepsInv(initial: Grid, s: GameState, key: Key, d: Direction)
    requires Inv(initial, s)
    ensures Inv(initial, KeyDown(initial, s, key))
    ensures Inv(initial, SetDirection(s, d))
    ensures Inv(initial, ToggleGame(initial, s))
  {
    InitSatisfiesInv(initial);
  }
}
