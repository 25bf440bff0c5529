/** One ghost's move in one tick (App.tsx, the callback of `current.ghosts.map`):
    a live ghost wanders among the non-reversing open directions, a dead ghost
    steers towards the first ghost spawn and revives there. */
module Ghosts {
  import opened Types
  import opened Maze

  /** The Math.random() draws of one ghost in one tick, injected: keepStraight
      stands for `Math.random() > 0.3`, pick for `Math.random() * length`
      (taken modulo the number of candidates). */
  datatype GhostChoice = GhostChoice(keepStraight: bool, pick: nat)

  /** The directions a ghost considers, in the source's order. */
  const Options: seq<Direction> := [Up, Down, Left, Right]

  /** d turns a ghost heading `current` around by 180 degrees. */
  predicate IsReverse(d: Direction, current: Direction) {
    || (d == Up && current == Down)
    || (d == Down && current == Up)
    || (d == Left && current == Right)
    || (d == Right && current == Left)
  }

  /** The cell one step from gh in direction d is open to ghosts. */
  predicate GhostCanStep(g: Grid, w: int, gh: Entity, d: Direction)
    requires IsGrid(g)
  {
    var p := GetNextPosition(w, gh.x, gh.y, d);
    IsValidMove(g, p.x, p.y, true)
  }

  /** The source's filter predicate, including its `options.length === 1`
      escape for reversing. */
  predicate Allowed(g: Grid, w: int, gh: Entity, d: Direction)
    requires IsGrid(g)
  {
    GhostCanStep(g, w, gh, d) && (!IsReverse(d, gh.direction) || |Options| == 1)
  }

  /** `options.filter(...)`: the allowed directions of opts, in order. */
  function Filter(g: Grid, w: int, gh: Entity, opts: seq<Direction>): (r: seq<Direction>)
    requires IsGrid(g)
    ensures forall d :: d in r <==> d in opts && Allowed(g, w, gh, d)
  {
    if opts == [] then []
    else (if Allowed(g, w, gh, opts[0]) then [opts[0]] else []) + Filter(g, w, gh, opts[1..])
  }

  /** validOptions: the open directions other than straight back. Because the
      source filters a four-element list, its `options.length === 1` escape
      never applies, so the reverse direction is never a candidate. */
  function Candidates(g: Grid, w: int, gh: Entity): (r: seq<Direction>)
    requires IsGrid(g)
    ensures forall d :: d in r <==>
      d != NoDirection && GhostCanStep(g, w, gh, d) && !IsReverse(d, gh.direction)
  {
    Filter(g, w, gh, Options)
  }

  /** `Array.find(d => d !== current)` over opts. */
  function FirstOther(opts: seq<Direction>, current: Direction): (r: Option<Direction>)
    ensures r.Nothing? <==> forall i :: 0 <= i < |opts| ==> opts[i] == current
    ensures r.Some? ==> r.value != current && r.value in opts
    ensures r.Some? ==> exists k :: 0 <= k < |opts| && opts[k] == r.value && forall j :: 0 <= j < k ==> opts[j] == current
  {
    if opts == [] then Nothing
    else if opts[0] != current then Some(opts[0])
    else FirstOther(opts[1..], current)
  }

  /** The direction a live ghost picks: keep straight when that is a candidate
      and the draw says so, otherwise a drawn candidate; with no candidate,
      the first of UP, DOWN, LEFT, RIGHT that differs from its heading. */
  function ChooseDirection(g: Grid, w: int, gh: Entity, c: GhostChoice): (r: Direction)
    requires IsGrid(g)
    ensures Candidates(g, w, gh) != [] ==> r in Candidates(g, w, gh)
    ensures Candidates(g, w, gh) != [] && c.keepStraight && gh.direction in Candidates(g, w, gh)
            ==> r == gh.direction
    ensures Candidates(g, w, gh) == [] ==> r != gh.direction && r == (if gh.direction == Up then Down else Up)
  {
    var validOptions := Candidates(g, w, gh);
    if |validOptions| > 0 then
      if gh.direction in validOptions && c.keepStraight then gh.direction
      else validOptions[c.pick % |validOptions|]
    else
      match FirstOther(Options, gh.direction)
      case Some(d) => d
      case Nothing => Up
  }

  function Abs(v: int): nat {
    if v < 0 then -v else v
  }

  function Manhattan(p: Position, q: Position): nat {
    Abs(p.x - q.x) + Abs(p.y - q.y)
  }

  /** A dead ghost's heading: along the axis with the strictly larger distance
      to the spawn, otherwise (ties included) vertically. */
  function HomingDirection(gh: Entity, center: Position): (r: Direction)
    ensures r == Left || r == Right <==> Abs(center.x - gh.x) > Abs(center.y - gh.y)
  {
    var dx := center.x - gh.x;
    var dy := center.y - gh.y;
    if Abs(dx) > Abs(dy) then (if dx > 0 then Right else Left)
    else (if dy > 0 then Down else Up)
  }

  /** Inside the maze, a homing step always brings a dead ghost one step
      (in Manhattan distance) closer to the spawn: it never uses the tunnel. */
  lemma HomingApproaches(w: int, gh: Entity, center: Position)
    requires 0 <= gh.x < w && 0 <= center.x < w && gh.Pos() != center
    ensures Manhattan(GetNextPosition(w, gh.x, gh.y, HomingDirection(gh, center)), center) + 1
            == Manhattan(gh.Pos(), center)
  {
  }

  /** One ghost's update. `center` is findPosition(INITIAL_MAP, GHOST_SPAWN).
      A dead ghost standing on the center revives without moving. Otherwise
      the chosen direction is stored in nextDirection, and the ghost moves and
      takes it as its heading only when the cell ahead is open to ghosts. */
  function GhostStep(g: Grid, w: int, center: Option<Position>, gh: Entity, c: GhostChoice): (r: Entity)
    requires IsGrid(g)
    ensures r.isDead <==> gh.isDead && center != Some(gh.Pos())
    ensures r.isScared <==> gh.isScared && !(gh.isDead && center == Some(gh.Pos()))
  {
    if gh.isDead && center.Some? && gh.x == center.value.x && gh.y == center.value.y then
      gh.(isDead := false, isScared := false)
    else
      var next :=
        if gh.isDead then
          (if center.Some? then HomingDirection(gh, center.value) else gh.nextDirection)
        else ChooseDirection(g, w, gh, c);
      var gp := GetNextPosition(w, gh.x, gh.y, next);
      if IsValidMove(g, gp.x, gp.y, true) then
        gh.(nextDirection := next, direction := next, x := gp.x, y := gp.y)
      else
        gh.(nextDirection := next)
  }

  /** What a ghost's update does: revival on the spawn, scared and dead flags
      kept otherwise, a move only onto an open cell one step ahead in its new
      heading, a live ghost with a way forward never reversing, a dead one
      steering home. */
  lemma GhostStepSpec(g: Grid, w: int, center: Option<Position>, gh: Entity, c: GhostChoice)
    requires IsGrid(g)
    ensures var r := GhostStep(g, w, center, gh, c);
      && (gh.isDead && center == Some(gh.Pos()) ==> r == gh.(isDead := false, isScared := false))
      && (!(gh.isDead && center == Some(gh.Pos())) ==> r.isDead == gh.isDead && r.isScared == gh.isScared)
      && (r.Pos() != gh.Pos() || r.direction != gh.direction ==>
            && r.direction == r.nextDirection
            && r.Pos() == GetNextPosition(w, gh.x, gh.y, r.direction)
            && IsValidMove(g, r.x, r.y, true))
      && (IsValidMove(g, gh.x, gh.y, true) ==> IsValidMove(g, r.x, r.y, true))
      && (!gh.isDead && Candidates(g, w, gh) != [] ==>
            && r.direction in Candidates(g, w, gh)
            && r.Pos() == GetNextPosition(w, gh.x, gh.y, r.direction))
      && (gh.isDead && center.Some? && center.value != gh.Pos() ==>
            r.nextDirection == HomingDirection(gh, center.value))
      && (!gh.isDead ==> r.nextDirection == ChooseDirection(g, w, gh, c))
      && (!(gh.isDead && center == Some(gh.Pos())) ==>
            var q := GetNextPosition(w, gh.x, gh.y, r.nextDirection);
            IsValidMove(g, q.x, q.y, true) ==> r.Pos() == q && r.direction == r.nextDirection)
  {
  }
}
