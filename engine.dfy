/** The game object of App.tsx: the state held in stateRef together with
    lastTimeRef, updated in place by initGame, updateGame and the input
    handlers. The maze is a two-dimensional array written cell by cell;
    Pac-Man and the ghost list are reassigned as the source reassigns them.
    Each method is proved to leave exactly the state the matching function
    of module Tick computes. */
module Engine {
  import opened Types
  import opened Maze
  import opened Ghosts
  import Tick

  /** The rows of a maze array, indexed [y][x] like the source's map. */
  function Cells(a: array2<Tile>): (g: Grid)
    reads a
    ensures |g| == a.Length0
    ensures forall y :: 0 <= y < a.Length0 ==> |g[y]| == a.Length1
    ensures forall y, x :: 0 <= y < a.Length0 && 0 <= x < a.Length1 ==> g[y][x] == a[y, x]
  {
    seq(a.Length0, y requires 0 <= y < a.Length0 reads a =>
      seq(a.Length1, x requires 0 <= x < a.Length1 reads a => a[y, x]))
  }

  class Game {
    /** INITIAL_MAP, the maze every game starts from. */
    const initial: Grid
    /** The live maze (the source's `map`), of the same shape as `initial`. */
    const tiles: array2<Tile>
    var pacman: Entity
    var ghosts: seq<Entity>
    var score: int
    var lives: int
    var status: Status
    var powerModeTime: int
    /** lastTimeRef: the timestamp of the last tick that ran. */
    var lastTime: int

    function State(): GameState
      reads this, tiles
    {
      GameState(Cells(tiles), pacman, ghosts, score, lives, status, powerModeTime)
    }

    /** The array has the shape of the maze, and the state keeps the game's
        invariant. */
    ghost predicate Valid()
      reads this, tiles
    {
      && Tick.Playable(initial)
      && tiles.Length0 == |initial| && tiles.Length1 == Width(initial)
      && Tick.Inv(initial, State())
    }

    /** Mounting the component: lastTimeRef starts at 0 and initGame runs. */
    constructor(initial: Grid)
      requires Tick.Playable(initial)
      ensures Valid() && this.initial == initial
      ensures State() == Tick.Init(initial) && lastTime == 0
    {
      this.initial := initial;
      tiles := new Tile[|initial|, |initial[0]|];
      pacman := Entity(1, 1, Right, Right, false, false);
      ghosts := [];
      score, lives, status, powerModeTime := 0, Tick.StartLives, Idle, 0;
      lastTime := 0;
      new;
      InitGame();
      Tick.InitSatisfiesInv(initial);
    }

    /** initGame: the maze copied from INITIAL_MAP, Pac-Man at his spawn, one
        ghost per ghost spawn, score 0, 3 lives, IDLE. lastTime is kept. */
    method InitGame()
      requires IsGrid(initial) && tiles.Length0 == |initial| && tiles.Length1 == Width(initial)
      modifies tiles, this`pacman, this`ghosts, this`score, this`lives, this`status, this`powerModeTime
      ensures State() == Tick.Init(initial)
    {
      CopyMaze();
      var start, created := Spawn(initial);
      pacman := start;
      ghosts := created;
      score, lives, status, powerModeTime := 0, Tick.StartLives, Idle, 0;
    }

    /** Pac-Man and the ghosts of a fresh game, placed by scanning the maze. */
    static method Spawn(initial: Grid) returns (p: Entity, created: seq<Entity>)
      ensures GameState(initial, p, created, 0, Tick.StartLives, Idle, 0) == Tick.Init(initial)
    {
      var pacmanStart := FindPosition(initial, PacmanSpawn);
      var ghostStarts := FindAllPositions(initial, GhostSpawn);
      created := SpawnGhosts(ghostStarts);
      var start := Position(1, 1);
      if pacmanStart.Some? {
        start := Position(if pacmanStart.value.x != 0 then pacmanStart.value.x else 1,
                          if pacmanStart.value.y != 0 then pacmanStart.value.y else 1);
      }
      p := Entity(start.x, start.y, Right, Right, false, false);
    }

    /** The ghosts of a fresh game, one per spawn (`ghostStarts.map`). */
    static method SpawnGhosts(ghostStarts: seq<Position>) returns (created: seq<Entity>)
      ensures created == Tick.InitialGhosts(ghostStarts)
    {
      created := [];
      var i := 0;
      while i < |ghostStarts|
        invariant 0 <= i <= |ghostStarts| && |created| == i
        invariant forall j :: 0 <= j < i ==>
          created[j] == Entity(ghostStarts[j].x, ghostStarts[j].y, Tick.InitialGhostDirection(j), NoDirection, false, false)
      {
        created := created + [Entity(ghostStarts[i].x, ghostStarts[i].y, [Up, Left, Right][i % 3], NoDirection, false, false)];
        i := i + 1;
      }
    }

    /** `INITIAL_MAP.map(row => [...row])`, written into the maze array. */
    method CopyMaze()
      requires IsGrid(initial) && tiles.Length0 == |initial| && tiles.Length1 == Width(initial)
      modifies tiles
      ensures Cells(tiles) == initial
    {
      for y := 0 to tiles.Length0
        invariant forall yy, xx :: 0 <= yy < y && 0 <= xx < tiles.Length1 ==> tiles[yy, xx] == initial[yy][xx]
      {
        for x := 0 to tiles.Length1
          invariant forall yy, xx :: 0 <= yy < y && 0 <= xx < tiles.Length1 ==> tiles[yy, xx] == initial[yy][xx]
          invariant forall xx :: 0 <= xx < x ==> tiles[y, xx] == initial[y][xx]
        {
          tiles[y, x] := initial[y][x];
        }
      }
      var g := Cells(tiles);
      forall y | 0 <= y < |g| ensures g[y] == initial[y] {
        assert |g[y]| == |initial[y]|;
      }
    }

    /** isValidMove on the live maze array. */
    method CanEnter(x: int, y: int, isGhost: bool) returns (r: bool)
      requires tiles.Length0 >= 1 && tiles.Length1 >= 1
      ensures r <==> 0 <= y < tiles.Length0 && 0 <= x < tiles.Length1
                     && tiles[y, x] != Wall && (isGhost || tiles[y, x] != Door)
      ensures r == IsValidMove(Cells(tiles), x, y, isGhost)
    {
      if y < 0 || y >= tiles.Length0 || x < 0 || x >= tiles.Length1 {
        return false;
      }
      var tile := tiles[y, x];
      if tile == Wall {
        r := false;
      } else if isGhost && tile == GhostSpawn {
        r := true;
      } else if !isGhost && tile == Door {
        r := false;
      } else {
        r := true;
      }
    }

    /** updateGame(timestamp): the 150 ms gate, then the five steps of a tick. */
    method UpdateGame(timestamp: int, choices: seq<GhostChoice>)
      requires Valid() && |choices| == |ghosts|
      modifies this, tiles
      ensures Valid()
      ensures (State(), lastTime) == Tick.Update(initial, old(State()), old(lastTime), timestamp, choices)
    {
      if status != Playing {
        return;
      }
      if timestamp - lastTime < Tick.TickInterval {
        return;
      }
      lastTime := timestamp;
      Tick.StepKeepsInv(initial, State(), choices);
      Step(choices);
    }

    /** The five steps of a tick, in the source's order. */
    method Step(choices: seq<GhostChoice>)
      requires Tick.Fits(initial, State(), choices)
      requires tiles.Length0 == |initial| && tiles.Length1 == Width(initial)
      modifies tiles, this`pacman, this`ghosts, this`score, this`lives, this`status, this`powerModeTime
      ensures State() == Tick.Step(initial, old(State()), choices)
    {
      MovePacman();
      Eat();
      assert State() == Tick.Feed(initial, old(State()));
      CountDown();
      MoveGhosts(choices);
      assert State() == Tick.Chase(initial, Tick.Feed(initial, old(State())), choices);
      Collide();
      CheckWin();
    }

    /** Step 1: turn to nextDirection if that cell is open, else try to keep
        going; move if the chosen cell is open. */
    method MovePacman()
      requires IsGrid(initial) && tiles.Length0 == |initial| && tiles.Length1 == Width(initial)
      modifies this`pacman
      ensures State() == old(State()).(pacman := Tick.MovePacman(Cells(tiles), Width(initial), old(pacman)))
    {
      var w := tiles.Length1;
      var nextPos := GetNextPosition(w, pacman.x, pacman.y, pacman.nextDirection);
      var open := CanEnter(nextPos.x, nextPos.y, false);
      if open {
        pacman := pacman.(direction := pacman.nextDirection);
      } else {
        nextPos := GetNextPosition(w, pacman.x, pacman.y, pacman.direction);
      }
      open := CanEnter(nextPos.x, nextPos.y, false);
      if open {
        pacman := pacman.(x := nextPos.x, y := nextPos.y);
      }
    }

    /** Every ghost's isScared set to `scared` (`ghosts.forEach`). */
    method SetAllScared(scared: bool)
      modifies this`ghosts
      ensures ghosts == Tick.SetScared(old(ghosts), scared)
    {
      var i := 0;
      while i < |ghosts|
        invariant 0 <= i <= |ghosts| == |old(ghosts)|
        invariant forall j :: 0 <= j < i ==> ghosts[j] == old(ghosts)[j].(isScared := scared)
        invariant forall j :: i <= j < |ghosts| ==> ghosts[j] == old(ghosts)[j]
      {
        ghosts := ghosts[i := ghosts[i].(isScared := scared)];
        i := i + 1;
      }
    }

    /** Step 2: eat the dot or power pellet under Pac-Man. */
    method Eat()
      requires 0 <= pacman.y < tiles.Length0 && 0 <= pacman.x < tiles.Length1
      modifies tiles, this`score, this`powerModeTime, this`ghosts
      ensures State() == Tick.Eat(old(State()))
    {
      var x, y := pacman.x, pacman.y;
      var tile := tiles[y, x];
      if tile == Dot {
        score := score + Tick.DotPoints;
        ClearCell(x, y);
      } else if tile == PowerPellet {
        score := score + Tick.PelletPoints;
        ClearCell(x, y);
        powerModeTime := Tick.PowerModeTicks;
        SetAllScared(true);
      }
    }

    /** `map[y][x] = EMPTY` */
    method ClearCell(x: int, y: int)
      requires 0 <= y < tiles.Length0 && 0 <= x < tiles.Length1
      modifies tiles
      ensures Cells(tiles) == SetTile(old(Cells(tiles)), x, y, Empty)
    {
      ghost var before := Cells(tiles);
      tiles[y, x] := Empty;
      var g := Cells(tiles);
      forall yy | 0 <= yy < |g| ensures g[yy] == SetTile(before, x, y, Empty)[yy] {
        assert |g[yy]| == |before[yy]|;
      }
    }

    /** The power-mode countdown. */
    method CountDown()
      modifies this`powerModeTime, this`ghosts
      ensures State() == Tick.CountDown(old(State()))
    {
      if powerModeTime > 0 {
        powerModeTime := powerModeTime - 1;
        if powerModeTime == 0 {
          SetAllScared(false);
        }
      }
    }

    /** Step 3: `ghosts.map(...)`, each ghost with its own draws, on the live maze. */
    method MoveGhosts(choices: seq<GhostChoice>)
      requires IsGrid(initial) && IsGrid(Cells(tiles)) && tiles.Length1 == Width(initial) && |choices| == |ghosts|
      modifies this`ghosts
      ensures State() == Tick.MoveGhosts(old(State()), Width(initial), FirstPosition(initial, GhostSpawn), choices)
    {
      var center := FindPosition(initial, GhostSpawn);
      ghost var s := State();
      var moved := StepEach(Cells(tiles), tiles.Length1, center, ghosts, choices);
      ghosts := moved;
      assert ghosts == Tick.MoveGhosts(s, Width(initial), center, choices).ghosts;
    }

    /** The callback of `ghosts.map`, applied to each ghost in turn. */
    static method StepEach(g: Grid, w: int, center: Option<Position>, gs: seq<Entity>, choices: seq<GhostChoice>)
      returns (moved: seq<Entity>)
      requires IsGrid(g) && |choices| == |gs|
      ensures |moved| == |gs|
      ensures forall j :: 0 <= j < |gs| ==> moved[j] == GhostStep(g, w, center, gs[j], choices[j])
    {
      moved := [];
      for i := 0 to |gs|
        invariant |moved| == i
        invariant forall j :: 0 <= j < i ==> moved[j] == GhostStep(g, w, center, gs[j], choices[j])
      {
        moved := moved + [GhostStep(g, w, center, gs[i], choices[i])];
      }
    }

    /** Step 4: the first ghost on Pac-Man's cell is eaten or costs a life. */
    method Collide()
      requires |ghosts| == |AllPositions(initial, GhostSpawn)|
      modifies this`score, this`lives, this`status, this`pacman, this`ghosts
      ensures State() == Tick.Collide(initial, old(State()))
    {
      var hit := Tick.FirstHit(ghosts, pacman.Pos());
      if hit.Some? {
        var hitGhost := ghosts[hit.value];
        if hitGhost.isScared && !hitGhost.isDead {
          EatGhost(hit.value);
        } else if !hitGhost.isDead {
          LoseLife();
        }
      }
    }

    /** A scared ghost is eaten: 200 points, back to the spawn, dead. */
    method EatGhost(k: nat)
      requires k < |ghosts|
      modifies this`score, this`ghosts
      ensures State() == Tick.EatGhost(initial, old(State()), k)
    {
      score := score + Tick.GhostPoints;
      var hitGhost := ghosts[k].(isDead := true, isScared := false);
      var spawn := FindPosition(initial, GhostSpawn);
      if spawn.Some? {
        hitGhost := hitGhost.(x := spawn.value.x, y := spawn.value.y);
      }
      ghosts := ghosts[k := hitGhost];
    }

    /** Pac-Man dies: a life less, and either GAME_OVER or the reset. */
    method LoseLife()
      requires |ghosts| == |AllPositions(initial, GhostSpawn)|
      modifies this`lives, this`status, this`pacman, this`ghosts
      ensures State() == Tick.LoseLife(initial, old(State()))
    {
      lives := lives - 1;
      if lives <= 0 {
        status := GameOver;
      } else {
        var pStart := FindPosition(initial, PacmanSpawn);
        if pStart.Some? {
          pacman := pacman.(x := pStart.value.x, y := pStart.value.y);
        }
        pacman := pacman.(direction := Right, nextDirection := Right);
        var gStarts := FindAllPositions(initial, GhostSpawn);
        ResetGhosts(gStarts);
      }
    }

    /** The reset after a lost life: ghost i to start i mod n, unscared. */
    method ResetGhosts(starts: seq<Position>)
      requires |starts| > 0 || |ghosts| == 0
      modifies this`ghosts
      ensures ghosts == Tick.ResetGhosts(old(ghosts), starts)
    {
      var i := 0;
      while i < |ghosts|
        invariant 0 <= i <= |ghosts| == |old(ghosts)|
        invariant forall j :: 0 <= j < i ==>
          ghosts[j] == old(ghosts)[j].(x := starts[j % |starts|].x, y := starts[j % |starts|].y, isScared := false)
        invariant forall j :: i <= j < |ghosts| ==> ghosts[j] == old(ghosts)[j]
      {
        var s := starts[i % |starts|];
        ghosts := ghosts[i := ghosts[i].(x := s.x, y := s.y, isScared := false)];
        i := i + 1;
      }
    }

    /** `map.flat().filter(c => c === DOT || c === POWER_PELLET).length`. */
    method DotsRemaining() returns (n: nat)
      ensures n == Tick.PelletsRemaining(Cells(tiles))
      ensures n == 0 <==> Tick.NoPelletsLeft(Cells(tiles))
    {
      ghost var g := Cells(tiles);
      n := 0;
      for y := 0 to tiles.Length0
        invariant n == |Matches(g, Dot, y)| + |Matches(g, PowerPellet, y)|
      {
        for x := 0 to tiles.Length1
          invariant n == |Matches(g, Dot, y)| + |Matches(g, PowerPellet, y)|
                         + |RowMatches(g[y], y, Dot, x)| + |RowMatches(g[y], y, PowerPellet, x)|
        {
          if tiles[y, x] == Dot || tiles[y, x] == PowerPellet {
            n := n + 1;
          }
        }
      }
    }

    /** Step 5: WON when no dot or power pellet is left. */
    method CheckWin()
      modifies this`status
      ensures State() == Tick.CheckWin(old(State()))
    {
      var dotsRemaining := DotsRemaining();
      if dotsRemaining == 0 {
        status := Won;
      }
    }

    /** handleKeyDown. */
    method HandleKeyDown(key: Tick.Key)
      requires Valid()
      modifies this, tiles
      ensures Valid() && lastTime == old(lastTime)
      ensures State() == Tick.KeyDown(initial, old(State()), key)
    {
      if status != Playing {
        if key == Tick.Enter || key == Tick.Space {
          Tick.StartResets(initial, State());
          StartGame();
        }
        return;
      }
      Tick.InputKeepsInv(initial, State(), key, NoDirection);
      var newDir := Tick.KeyDirection(key);
      if newDir != NoDirection {
        pacman := pacman.(nextDirection := newDir);
      }
    }

    /** handleDirection, the on-screen arrows. */
    method HandleDirection(d: Direction)
      requires Valid()
      modifies this
      ensures Valid() && lastTime == old(lastTime)
      ensures State() == Tick.SetDirection(old(State()), d)
    {
      Tick.InputKeepsInv(initial, State(), Tick.OtherKey, d);
      if status == Playing {
        pacman := pacman.(nextDirection := d);
      }
    }

    /** toggleGame, the start button. */
    method ToggleGame()
      requires Valid()
      modifies this, tiles
      ensures Valid() && lastTime == old(lastTime)
      ensures State() == Tick.ToggleGame(initial, old(State()))
    {
      if status != Playing {
        StartGame();
      }
    }

    /** What both Enter/Space and the start button do outside play:
        initGame, then PLAYING. */
    method StartGame()
      requires Valid() && status != Playing
      modifies tiles, this`pacman, this`ghosts, this`score, this`lives, this`status, this`powerModeTime
      ensures Valid()
      ensures State() == Tick.ToggleGame(initial, old(State()))
    {
      Tick.StartResets(initial, State());
      InitGame();
      status := Playing;
    }
  }
}
