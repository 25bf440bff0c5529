/** The maze queries and the movement rules of App.tsx: the row-major scans
    findPosition / findAllPositions, isValidMove and getNextPosition. */
module Maze {
  import opened Types

  /** A maze as rows of tiles, indexed g[y][x]. */
  type Grid = seq<seq<Tile>>

  /** At least one row, at least one column, every row as wide as the first. */
  predicate IsGrid(g: Grid) {
    |g| >= 1 && |g[0]| >= 1 && forall y :: 0 <= y < |g| ==> |g[y]| == |g[0]|
  }

  function Width(g: Grid): nat
    requires |g| >= 1
  {
    |g[0]|
  }

  predicate InBounds(g: Grid, x: int, y: int)
    requires IsGrid(g)
  {
    0 <= y < |g| && 0 <= x < |g[0]|
  }

  /** p names a cell of g (rows may differ in length here, as in the scans). */
  predicate InGrid(g: Grid, p: Position) {
    0 <= p.y < |g| && 0 <= p.x < |g[p.y]|
  }

  /** Row-major scan order: p is visited before q. */
  predicate Before(p: Position, q: Position) {
    p.y < q.y || (p.y == q.y && p.x < q.x)
  }

  predicate ScanOrdered(ps: seq<Position>) {
    forall i, j :: 0 <= i < j < |ps| ==> Before(ps[i], ps[j])
  }

  /** g with cell (x, y) overwritten by t; the shape of g is kept. */
  function SetTile(g: Grid, x: int, y: int, t: Tile): (r: Grid)
    requires 0 <= y < |g| && 0 <= x < |g[y]|
    ensures |r| == |g| && forall i :: 0 <= i < |g| ==> |r[i]| == |g[i]|
    ensures IsGrid(g) ==> IsGrid(r)
  {
    g[y := g[y][x := t]]
  }

  // ---------------------------------------------------------------------
  // Scanning (findPosition / findAllPositions)
  // ---------------------------------------------------------------------

  /** The cells among the first n of `row` (which is row y) that hold t. */
  function RowMatches(row: seq<Tile>, y: int, t: Tile, n: nat): seq<Position>
    requires n <= |row|
    decreases n
  {
    if n == 0 then []
    else
      var prefix := RowMatches(row, y, t, n - 1);
      prefix + (if row[n - 1] == t then [Position(n - 1, y)] else [])
  }

  /** The cells of the first n rows of g that hold t, in scan order. */
  function Matches(g: Grid, t: Tile, n: nat): seq<Position>
    requires n <= |g|
    decreases n
  {
    if n == 0 then []
    else Matches(g, t, n - 1) + RowMatches(g[n - 1], n - 1, t, |g[n - 1]|)
  }

  lemma {:induction false} RowMatchesMembers(row: seq<Tile>, y: int, t: Tile, n: nat)
    requires n <= |row|
    ensures forall p :: p in RowMatches(row, y, t, n) <==> p.y == y && 0 <= p.x < n && row[p.x] == t
    decreases n
  {
    if n > 0 {
      RowMatchesMembers(row, y, t, n - 1);
    }
  }

  lemma {:induction false} MatchesMembers(g: Grid, t: Tile, n: nat)
    requires n <= |g|
    ensures forall p :: p in Matches(g, t, n) <==> 0 <= p.y < n && InGrid(g, p) && g[p.y][p.x] == t
    decreases n
  {
    if n > 0 {
      MatchesMembers(g, t, n - 1);
      RowMatchesMembers(g[n - 1], n - 1, t, |g[n - 1]|);
    }
  }

  /** What findAllPositions returns: every cell holding t. */
  function AllPositions(g: Grid, t: Tile): (r: seq<Position>)
    ensures forall p :: p in r <==> InGrid(g, p) && g[p.y][p.x] == t
  {
    MatchesMembers(g, t, |g|);
    Matches(g, t, |g|)
  }

  lemma {:induction false} RowMatchesOrdered(row: seq<Tile>, y: int, t: Tile, n: nat)
    requires n <= |row|
    ensures ScanOrdered(RowMatches(row, y, t, n))
    decreases n
  {
    if n > 0 {
      RowMatchesOrdered(row, y, t, n - 1);
      RowMatchesMembers(row, y, t, n - 1);
      var prefix := RowMatches(row, y, t, n - 1);
      assert forall i :: 0 <= i < |prefix| ==> prefix[i] in prefix;
    }
  }

  lemma {:induction false} MatchesOrdered(g: Grid, t: Tile, n: nat)
    requires n <= |g|
    ensures ScanOrdered(Matches(g, t, n))
    decreases n
  {
    if n > 0 {
      MatchesOrdered(g, t, n - 1);
      RowMatchesOrdered(g[n - 1], n - 1, t, |g[n - 1]|);
      var prefix, last := Matches(g, t, n - 1), RowMatches(g[n - 1], n - 1, t, |g[n - 1]|);
      EarlierRowsFirst(g, t, n, prefix, last);
      ConcatOrdered(prefix, last);
    }
  }

  /** Every match in the first n - 1 rows (prefix) comes before every match
      in row n - 1 (last). */
  lemma EarlierRowsFirst(g: Grid, t: Tile, n: nat, prefix: seq<Position>, last: seq<Position>)
    requires 0 < n <= |g|
    requires prefix == Matches(g, t, n - 1) && last == RowMatches(g[n - 1], n - 1, t, |g[n - 1]|)
    ensures forall i, j :: 0 <= i < |prefix| && 0 <= j < |last| ==> Before(prefix[i], last[j])
  {
    MatchesMembers(g, t, n - 1);
    RowMatchesMembers(g[n - 1], n - 1, t, |g[n - 1]|);
    forall i, j | 0 <= i < |prefix| && 0 <= j < |last|
      ensures Before(prefix[i], last[j])
    {
      assert prefix[i] in prefix && last[j] in last;
    }
  }

  lemma ConcatOrdered(a: seq<Position>, b: seq<Position>)
    requires ScanOrdered(a) && ScanOrdered(b)
    requires forall i, j :: 0 <= i < |a| && 0 <= j < |b| ==> Before(a[i], b[j])
    ensures ScanOrdered(a + b)
  {
    var c := a + b;
    forall i, j | 0 <= i < j < |c|
      ensures Before(c[i], c[j])
    {
      if j < |a| {
        assert c[i] == a[i] && c[j] == a[j];
      } else if i < |a| {
        assert c[i] == a[i] && c[j] == b[j - |a|];
      } else {
        assert c[i] == b[i - |a|] && c[j] == b[j - |a|];
      }
    }
  }

  /** findAllPositions lists the cells in row-major scan order. */
  lemma AllPositionsOrdered(g: Grid, t: Tile)
    ensures ScanOrdered(AllPositions(g, t))
  {
    MatchesOrdered(g, t, |g|);
  }

  /** What findPosition returns: the first cell holding t, or null. */
  function FirstPosition(g: Grid, t: Tile): (r: Option<Position>)
    ensures r.Nothing? <==> forall p :: InGrid(g, p) ==> g[p.y][p.x] != t
    ensures r.Some? ==> InGrid(g, r.value) && g[r.value.y][r.value.x] == t
    ensures r.Some? ==> forall q :: InGrid(g, q) && Before(q, r.value) ==> g[q.y][q.x] != t
  {
    var all := AllPositions(g, t);
    if all == [] then Nothing
    else
      FirstIsEarliest(all, g, t);
      Some(all[0])
  }

  lemma FirstIsEarliest(all: seq<Position>, g: Grid, t: Tile)
    requires all == AllPositions(g, t) && all != []
    ensures forall q :: InGrid(g, q) && Before(q, all[0]) ==> g[q.y][q.x] != t
  {
    AllPositionsOrdered(g, t);
    assert forall k :: 0 <= k < |all| ==> !Before(all[k], all[0]);
    forall q | InGrid(g, q) && Before(q, all[0])
      ensures g[q.y][q.x] != t
    {
      assert q !in all;
    }
  }

  /** findPosition: the nested row-major loop with its early return. */
  method FindPosition(g: Grid, t: Tile) returns (r: Option<Position>)
    ensures r == FirstPosition(g, t)
  {
    var y := 0;
    while y < |g|
      invariant 0 <= y <= |g|
      invariant forall p :: InGrid(g, p) && p.y < y ==> g[p.y][p.x] != t
    {
      var x := 0;
      while x < |g[y]|
        invariant 0 <= x <= |g[y]|
        invariant forall p :: InGrid(g, p) && (p.y < y || (p.y == y && p.x < x)) ==> g[p.y][p.x] != t
      {
        if g[y][x] == t {
          FirstIsUnique(g, t, Position(x, y));
          return Some(Position(x, y));
        }
        x := x + 1;
      }
      y := y + 1;
    }
    return Nothing;
  }

  /** A cell holding t with no earlier cell holding t is the first one. */
  lemma FirstIsUnique(g: Grid, t: Tile, p: Position)
    requires InGrid(g, p) && g[p.y][p.x] == t
    requires forall q :: InGrid(g, q) && Before(q, p) ==> g[q.y][q.x] != t
    ensures FirstPosition(g, t) == Some(p)
  {
    var q := FirstPosition(g, t).value;
    assert !Before(q, p) && !Before(p, q);
  }

  /** findAllPositions: the nested row-major loop pushing every match. */
  method FindAllPositions(g: Grid, t: Tile) returns (positions: seq<Position>)
    ensures positions == AllPositions(g, t)
  {
    positions := [];
    var y := 0;
    while y < |g|
      invariant 0 <= y <= |g|
      invariant positions == Matches(g, t, y)
    {
      var x := 0;
      while x < |g[y]|
        invariant 0 <= x <= |g[y]|
        invariant positions == Matches(g, t, y) + RowMatches(g[y], y, t, x)
      {
        if g[y][x] == t {
          positions := positions + [Position(x, y)];
        }
        x := x + 1;
      }
      y := y + 1;
    }
  }

  // ---------------------------------------------------------------------
  // Counting cells (the win check counts dots and power pellets)
  // ---------------------------------------------------------------------

  function Count(g: Grid, t: Tile): nat {
    |AllPositions(g, t)|
  }

  lemma {:induction false} RowCountAfterSet(row: seq<Tile>, y: int, t: Tile, x: nat, u: Tile, n: nat)
    requires x < |row| && n <= |row|
    ensures |RowMatches(row[x := u], y, t, n)| ==
            |RowMatches(row, y, t, n)|
            - (if x < n && row[x] == t then 1 else 0)
            + (if x < n && u == t then 1 else 0)
    decreases n
  {
    if n > 0 {
      RowCountAfterSet(row, y, t, x, u, n - 1);
    }
  }

  lemma {:induction false} CountRowsAfterSet(g: Grid, t: Tile, x: nat, y: nat, u: Tile, n: nat)
    requires y < |g| && x < |g[y]| && n <= |g|
    ensures |Matches(SetTile(g, x, y, u), t, n)| ==
            |Matches(g, t, n)|
            - (if y < n && g[y][x] == t then 1 else 0)
            + (if y < n && u == t then 1 else 0)
    decreases n
  {
    if n > 0 {
      CountRowsAfterSet(g, t, x, y, u, n - 1);
      var g' := SetTile(g, x, y, u);
      if n - 1 == y {
        RowCountAfterSet(g[y], y, t, x, u, |g[y]|);
      } else {
        assert g'[n - 1] == g[n - 1];
      }
    }
  }

  /** Writing u into one cell changes the number of t-cells by exactly the
      cell's own contribution. */
  lemma CountAfterSet(g: Grid, t: Tile, x: nat, y: nat, u: Tile)
    requires y < |g| && x < |g[y]|
    ensures Count(SetTile(g, x, y, u), t) ==
            Count(g, t) - (if g[y][x] == t then 1 else 0) + (if u == t then 1 else 0)
  {
    CountRowsAfterSet(g, t, x, y, u, |g|);
  }

  // ---------------------------------------------------------------------
  // Movement rules
  // ---------------------------------------------------------------------

  /** isValidMove: outside the grid and WALL are closed to everyone; DOOR is
      closed to Pac-Man only; ghosts may also enter GHOST_SPAWN. */
  function IsValidMove(g: Grid, x: int, y: int, isGhost: bool): (r: bool)
    requires IsGrid(g)
    ensures r <==> InBounds(g, x, y) && g[y][x] != Wall && (isGhost || g[y][x] != Door)
  {
    if y < 0 || y >= |g| || x < 0 || x >= |g[0]| then false
    else
      var tile := g[y][x];
      if tile == Wall then false
      else if isGhost && tile == GhostSpawn then true
      else if !isGhost && tile == Door then false
      else true
  }

  function Dx(d: Direction): int {
    match d
    case Left => -1
    case Right => 1
    case _ => 0
  }

  function Dy(d: Direction): int {
    match d
    case Up => -1
    case Down => 1
    case _ => 0
  }

  /** getNextPosition in a maze of width w: one step in direction d, then the
      horizontal tunnel (x = -1 becomes w - 1, x = w becomes 0); y never wraps. */
  function GetNextPosition(w: int, x: int, y: int, d: Direction): (r: Position)
    ensures r.y == y + Dy(d)
    ensures 0 <= x + Dx(d) < w ==> r.x == x + Dx(d)
    ensures x + Dx(d) == -1 ==> r.x == w - 1
    ensures x + Dx(d) == w >= 0 ==> r.x == 0
    ensures 0 <= x < w ==> 0 <= r.x < w
  {
    var p := match d
      case Up => Position(x, y - 1)
      case Down => Position(x, y + 1)
      case Left => Position(x - 1, y)
      case Right => Position(x + 1, y)
      case NoDirection => Position(x, y);
    var wrapped := if p.x < 0 then w - 1 else p.x;
    Position(if wrapped >= w then 0 else wrapped, p.y)
  }
}
