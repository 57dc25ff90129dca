/**
 * The maze data model: persona keys, cells with four wall flags, the grid of
 * rows, positions and directions, together with the structural predicates a
 * perfect maze satisfies (mirrored walls, walled border, open passages,
 * reachability through open walls).
 */
module MazeGrid {
  import opened Optional

  /** The five fixed persona identifiers. */
  datatype PersonaKey = MarieCurie | MichelleObama | MalalaYousafzai | AdaLovelace | RosaParks

  /** The order in which persona keys are handed to the chosen dead ends. */
  const PersonaKeys: seq<PersonaKey> := [MarieCurie, MichelleObama, MalalaYousafzai, AdaLovelace, RosaParks]

  /** A wall flag: 1 is a standing wall, 0 an opening. */
  type Bit = b: int | 0 <= b <= 1

  /** A direction index into `walls`: 0 north, 1 east, 2 south, 3 west. */
  type Dir = d: int | 0 <= d < 4

  /** The four wall flags of a cell, ordered north, east, south, west. */
  type Walls = ws: seq<Bit> | |ws| == 4 witness [1, 1, 1, 1]

  /** A cell; `visited` is the generator's scratch flag, which stays on the returned cells. */
  datatype Cell = Cell(walls: Walls, unlockKey: Option<PersonaKey>, visited: bool)

  /** A grid is a sequence of rows; `g[y][x]` is the cell in column `x` of row `y`. */
  type Grid = seq<seq<Cell>>

  datatype Pos = Pos(x: int, y: int)

  /** Column offset of a direction (east is `+1`, west is `-1`). */
  function DX(d: Dir): int
  {
    if d == 1 then 1 else if d == 3 then -1 else 0
  }

  /** Row offset of a direction (north is up, towards row 0). */
  function DY(d: Dir): int
  {
    if d == 0 then -1 else if d == 2 then 1 else 0
  }

  /** The direction pointing back: two quarter turns further, modulo 4. */
  function Opposite(d: Dir): Dir
  {
    (d + 2) % 4
  }

  /** The neighbouring position in direction `d`. */
  function Step(p: Pos, d: Dir): Pos
  {
    Pos(p.x + DX(d), p.y + DY(d))
  }

  /** Stepping back through the opposite side returns to the start. */
  lemma StepOpposite(p: Pos, d: Dir)
    ensures Step(Step(p, d), Opposite(d)) == p
    ensures Opposite(Opposite(d)) == d
  {
  }

  predicate Inside(p: Pos, w: int, h: int)
  {
    0 <= p.x < w && 0 <= p.y < h
  }

  /** `g` has exactly `h` rows of `w` cells. */
  predicate Shaped(g: Grid, w: int, h: int)
  {
    |g| == h && forall y :: 0 <= y < h ==> |g[y]| == w
  }

  predicate InGrid(g: Grid, p: Pos)
  {
    0 <= p.y < |g| && 0 <= p.x < |g[p.y]|
  }

  function At(g: Grid, p: Pos): Cell
    requires InGrid(g, p)
  {
    g[p.y][p.x]
  }

  /** The grid with the cell at `p` replaced and every other cell kept. */
  function Put(g: Grid, p: Pos, c: Cell): (r: Grid)
    requires InGrid(g, p)
    ensures |r| == |g| && forall y :: 0 <= y < |g| ==> |r[y]| == |g[y]|
    ensures InGrid(r, p) && At(r, p) == c
    ensures forall q :: InGrid(g, q) && q != p ==> InGrid(r, q) && At(r, q) == At(g, q)
  {
    g[p.y := g[p.y][p.x := c]]
  }

  /** A cell with all four walls standing and nothing else set. */
  const Closed: Cell := Cell([1, 1, 1, 1], None, false)

  /** `h` rows of `w` cells, every wall set: the grid before carving. */
  function Blank(w: nat, h: nat): (g: Grid)
    ensures Shaped(g, w, h)
    ensures forall q :: Inside(q, w, h) ==> At(g, q) == Closed
  {
    seq(h, _ => seq(w, _ => Closed))
  }

  /** How many of the wall flags are raised (equal to 1). */
  function Raised(ws: seq<Bit>): nat
  {
    if ws == [] then 0 else (if ws[0] == 1 then 1 else 0) + Raised(ws[1..])
  }

  /** With four flags, the count of raised ones is their sum. */
  lemma RaisedFour(ws: seq<Bit>)
    requires |ws| == 4
    ensures Raised(ws) == ws[0] as int + ws[1] as int + ws[2] as int + ws[3] as int
  {
    assert ws[1..][1..] == ws[2..] && ws[2..][1..] == ws[3..] && ws[3..][1..] == [];
    assert Raised(ws[3..]) == ws[3] as int + Raised([]);
    assert Raised(ws[2..]) == ws[2] as int + Raised(ws[3..]);
    assert Raised(ws[1..]) == ws[1] as int + Raised(ws[2..]);
  }

  /** The side `d` is the only opening of the cell. */
  predicate OnlyOpening(c: Cell, d: Dir)
  {
    c.walls[d] == 0 && forall e: Dir :: e != d ==> c.walls[e] == 1
  }

  /** `isDeadEnd`: exactly three wall flags are set, that is, the cell has one opening and three walls. */
  function IsDeadEnd(c: Cell): (b: bool)
    ensures b <==> exists d: Dir :: OnlyOpening(c, d)
  {
    RaisedFour(c.walls);
    assert Raised(c.walls) == 3 ==> OnlyOpening(c, 0) || OnlyOpening(c, 1) || OnlyOpening(c, 2) || OnlyOpening(c, 3);
    Raised(c.walls) == 3
  }

  /** Wall flags of two adjacent cells facing each other agree. */
  predicate MirrorAt(g: Grid, w: int, h: int, p: Pos, d: Dir)
  {
    Shaped(g, w, h) && Inside(p, w, h) && Inside(Step(p, d), w, h) ==>
      At(g, p).walls[d] == At(g, Step(p, d)).walls[Opposite(d)]
  }

  /** The mirror invariant over the whole grid. */
  ghost predicate Mirrored(g: Grid, w: int, h: int)
  {
    Shaped(g, w, h) && forall p, d :: MirrorAt(g, w, h, p, d)
  }

  /** A side facing out of the grid is walled. */
  predicate WalledAt(g: Grid, w: int, h: int, p: Pos, d: Dir)
  {
    Shaped(g, w, h) && Inside(p, w, h) && !Inside(Step(p, d), w, h) ==> At(g, p).walls[d] == 1
  }

  /** Every border-facing side of the grid is walled. */
  ghost predicate Walled(g: Grid, w: int, h: int)
  {
    Shaped(g, w, h) && forall p, d :: WalledAt(g, w, h, p, d)
  }

  /** Every cell of a `w` by `h` grid. */
  function Cells(w: int, h: int): set<Pos>
  {
    set x: int, y: int | 0 <= x < w && 0 <= y < h :: Pos(x, y)
  }

  lemma CellsMembers(w: int, h: int)
    ensures forall q {:trigger q in Cells(w, h)} :: q in Cells(w, h) <==> Inside(q, w, h)
  {
    forall q | Inside(q, w, h)
      ensures q in Cells(w, h)
    {
      assert q == Pos(q.x, q.y);
    }
  }

  /** Cells of row `y` in columns `0 .. w - 1`. */
  function RowCells(w: int, y: int): set<Pos>
  {
    set x: int | 0 <= x < w :: Pos(x, y)
  }

  lemma RowCellsMembers(w: int, y: int)
    ensures forall q {:trigger q in RowCells(w, y)} :: q in RowCells(w, y) <==> q.y == y && 0 <= q.x < w
  {
    forall q: Pos | q.y == y && 0 <= q.x < w
      ensures q in RowCells(w, y)
    {
      assert q == Pos(q.x, y);
    }
  }

  lemma {:induction false} RowCellsCount(w: nat, y: int)
    ensures |RowCells(w, y)| == w
  {
    if w > 0 {
      RowCellsCount(w - 1, y);
      RowCellsMembers(w, y);
      RowCellsMembers(w - 1, y);
      assert RowCells(w, y) == RowCells(w - 1, y) + {Pos(w - 1, y)};
    }
  }

  /** A `w` by `h` grid has `w * h` cells. */
  lemma {:induction false} CellsCount(w: nat, h: nat)
    ensures |Cells(w, h)| == w * h
  {
    if h == 0 {
      assert Cells(w, h) == {};
    } else {
      CellsCount(w, h - 1);
      RowCellsCount(w, h - 1);
      CellsMembers(w, h);
      CellsMembers(w, h - 1);
      RowCellsMembers(w, h - 1);
      assert Cells(w, h) == Cells(w, h - 1) + RowCells(w, h - 1);
      assert Cells(w, h - 1) !! RowCells(w, h - 1);
      assert w * h == w * (h - 1) + w;
    }
  }

  /** The cells the generator has marked visited. */
  function Visited(g: Grid, w: int, h: int): set<Pos>
    requires Shaped(g, w, h)
  {
    set x: int, y: int | 0 <= x < w && 0 <= y < h && g[y][x].visited :: Pos(x, y)
  }

  lemma VisitedMembers(g: Grid, w: int, h: int)
    requires Shaped(g, w, h)
    ensures forall q {:trigger q in Visited(g, w, h)} :: q in Visited(g, w, h) <==> Inside(q, w, h) && At(g, q).visited
    ensures Visited(g, w, h) <= Cells(w, h)
  {
    forall q | Inside(q, w, h) && At(g, q).visited
      ensures q in Visited(g, w, h)
    {
      assert q == Pos(q.x, q.y);
    }
    CellsMembers(w, h);
  }

  /** The wall on side `d` of `p` is open towards a cell of the grid. */
  predicate Open(g: Grid, w: int, h: int, p: Pos, d: Dir)
  {
    Shaped(g, w, h) && Inside(p, w, h) && Inside(Step(p, d), w, h) && At(g, p).walls[d] == 0
  }

  /**
   * The passages of the maze, each counted once: an open east or south side of
   * a cell whose neighbour on that side is in the grid.
   */
  function Passages(g: Grid, w: int, h: int): set<(Pos, Dir)>
    requires Shaped(g, w, h)
  {
    set x: int, y: int, d: Dir | 0 <= x < w && 0 <= y < h && 1 <= d <= 2 && Open(g, w, h, Pos(x, y), d)
      :: (Pos(x, y), d)
  }

  lemma PassagesMembers(g: Grid, w: int, h: int)
    requires Shaped(g, w, h)
    ensures forall q, d {:trigger (q, d) in Passages(g, w, h)} :: (q, d) in Passages(g, w, h) <==> (d == 1 || d == 2) && Open(g, w, h, q, d)
  {
    forall q, d: Dir | (d == 1 || d == 2) && Open(g, w, h, q, d)
      ensures (q, d) in Passages(g, w, h)
    {
      assert (q, d) == (Pos(q.x, q.y), d);
    }
  }

  /** One move through an open wall from `a` to the neighbouring `b`. */
  ghost predicate Link(g: Grid, w: int, h: int, a: Pos, b: Pos)
  {
    exists d: Dir :: Step(a, d) == b && Open(g, w, h, a, d)
  }

  /** A walk through open walls. */
  ghost predicate IsPath(g: Grid, w: int, h: int, path: seq<Pos>)
  {
    && |path| > 0
    && Shaped(g, w, h)
    && Inside(path[0], w, h)
    && forall i :: 0 <= i < |path| - 1 ==> Link(g, w, h, path[i], path[i + 1])
  }

  /** `b` can be reached from `a` by walking through open walls. */
  ghost predicate Reach(g: Grid, w: int, h: int, a: Pos, b: Pos)
  {
    exists path :: IsPath(g, w, h, path) && path[0] == a && path[|path| - 1] == b
  }

  /** Walls only get knocked out between `g` and `r`: every opening of `g` is still open in `r`. */
  ghost predicate OpensKept(g: Grid, r: Grid, w: int, h: int)
  {
    Shaped(g, w, h) && Shaped(r, w, h)
      && forall p, d :: Open(g, w, h, p, d) ==> Open(r, w, h, p, d)
  }

  lemma ReachHere(g: Grid, w: int, h: int, a: Pos)
    requires Shaped(g, w, h) && Inside(a, w, h)
    ensures Reach(g, w, h, a, a)
  {
    assert IsPath(g, w, h, [a]);
  }

  /** A walk can be extended backwards by one open wall. */
  lemma ReachPrepend(g: Grid, w: int, h: int, a: Pos, b: Pos, c: Pos)
    requires Link(g, w, h, a, b) && Reach(g, w, h, b, c)
    ensures Reach(g, w, h, a, c)
  {
    var path :| IsPath(g, w, h, path) && path[0] == b && path[|path| - 1] == c;
    var longer := [a] + path;
    assert forall i :: 0 < i < |longer| ==> longer[i] == path[i - 1];
    assert IsPath(g, w, h, longer);
  }

  /** Knocking out more walls never disconnects two cells. */
  lemma ReachKept(g: Grid, r: Grid, w: int, h: int, a: Pos, b: Pos)
    requires OpensKept(g, r, w, h) && Reach(g, w, h, a, b)
    ensures Reach(r, w, h, a, b)
  {
    var path :| IsPath(g, w, h, path) && path[0] == a && path[|path| - 1] == b;
    forall i | 0 <= i < |path| - 1
      ensures Link(r, w, h, path[i], path[i + 1])
    {
      var d: Dir :| Step(path[i], d) == path[i + 1] && Open(g, w, h, path[i], d);
      assert Open(r, w, h, path[i], d);
    }
    assert IsPath(r, w, h, path);
  }

  /** The positions of a grid that carry a persona key. */
  function Keyed(g: Grid, w: int, h: int): set<Pos>
    requires Shaped(g, w, h)
  {
    set x: int, y: int | 0 <= x < w && 0 <= y < h && g[y][x].unlockKey.Some? :: Pos(x, y)
  }

  /** The positions of a grid holding a dead end. */
  function DeadEndCells(g: Grid, w: int, h: int): set<Pos>
    requires Shaped(g, w, h)
  {
    set x: int, y: int | 0 <= x < w && 0 <= y < h && IsDeadEnd(g[y][x]) :: Pos(x, y)
  }

  lemma MarkedMembers(g: Grid, w: int, h: int)
    requires Shaped(g, w, h)
    ensures forall q {:trigger q in Keyed(g, w, h)} :: q in Keyed(g, w, h) <==> Inside(q, w, h) && At(g, q).unlockKey.Some?
    ensures forall q {:trigger q in DeadEndCells(g, w, h)} :: q in DeadEndCells(g, w, h) <==> Inside(q, w, h) && IsDeadEnd(At(g, q))
  {
    forall q | Inside(q, w, h)
      ensures At(g, q).unlockKey.Some? ==> q in Keyed(g, w, h)
      ensures IsDeadEnd(At(g, q)) ==> q in DeadEndCells(g, w, h)
    {
      assert q == Pos(q.x, q.y);
    }
  }
}
