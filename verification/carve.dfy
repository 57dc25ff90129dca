/**
 * The recursive `carve` of `generateMaze`: randomized depth-first backtracking
 * that marks the current cell visited, shuffles the four directions and, for each
 * in-grid neighbour not yet visited, knocks out the wall on both sides and carves
 * on from the neighbour. The grid is threaded through the recursion instead of
 * being mutated in place.
 */
module Carving {
  import opened Shuffling
  import opened MazeGrid

  /** Per-cell draws for the direction shuffle; every cell is carved exactly once. */
  ghost predicate FairEverywhere(draws: Pos -> (nat -> nat))
  {
    forall q :: Fair(draws(q))
  }

  /** The four direction indices, in the order each visit starts its shuffle from. */
  const Directions: seq<Dir> := seq(4, i requires 0 <= i < 4 => i)

  /** The first step of a visit: the cell at `p` is flagged visited. */
  function Mark(g: Grid, w: int, h: int, p: Pos): (r: Grid)
    requires Shaped(g, w, h) && Inside(p, w, h)
    ensures Shaped(r, w, h)
    ensures At(r, p) == At(g, p).(visited := true)
    ensures forall q :: Inside(q, w, h) && q != p ==> At(r, q) == At(g, q)
  {
    Put(g, p, At(g, p).(visited := true))
  }

  lemma MarkVisits(g: Grid, w: int, h: int, p: Pos)
    requires Shaped(g, w, h) && Inside(p, w, h)
    ensures Visited(Mark(g, w, h, p), w, h) == Visited(g, w, h) + {p}
  {
    VisitedMembers(g, w, h);
    VisitedMembers(Mark(g, w, h, p), w, h);
  }

  function ClearWall(c: Cell, d: Dir): Cell
  {
    c.(walls := c.walls[d := 0])
  }

  /**
   * Knocking out the wall between `p` and its neighbour in direction `d`: the
   * flag of side `d` of `p` and the flag of the opposite side of the neighbour
   * are cleared.
   */
  function Knock(g: Grid, w: int, h: int, p: Pos, d: Dir): (r: Grid)
    requires Shaped(g, w, h) && Inside(p, w, h) && Inside(Step(p, d), w, h)
    ensures Shaped(r, w, h)
  {
    var n := Step(p, d);
    var once := Put(g, p, ClearWall(At(g, p), d));
    Put(once, n, ClearWall(At(once, n), Opposite(d)))
  }

  lemma KnockCells(g: Grid, w: int, h: int, p: Pos, d: Dir)
    requires Shaped(g, w, h) && Inside(p, w, h) && Inside(Step(p, d), w, h)
    ensures var r := Knock(g, w, h, p, d);
      forall q :: Inside(q, w, h) ==>
        At(r, q).visited == At(g, q).visited && At(r, q).unlockKey == At(g, q).unlockKey
    ensures var r := Knock(g, w, h, p, d);
      forall q, e: Dir :: Inside(q, w, h) ==>
        At(r, q).walls[e] == if (q == p && e == d) || (q == Step(p, d) && e == Opposite(d)) then 0 else At(g, q).walls[e]
  {
  }

  lemma KnockVisits(g: Grid, w: int, h: int, p: Pos, d: Dir)
    requires Shaped(g, w, h) && Inside(p, w, h) && Inside(Step(p, d), w, h)
    ensures Visited(Knock(g, w, h, p, d), w, h) == Visited(g, w, h)
  {
    VisitedMembers(g, w, h);
    VisitedMembers(Knock(g, w, h, p, d), w, h);
    KnockCells(g, w, h, p, d);
  }

  /** Marking an unvisited cell of the grid shrinks the set of unvisited cells: the measure carving decreases on. */
  lemma Progress(w: int, h: int, before: set<Pos>, p: Pos)
    requires Inside(p, w, h) && p !in before
    ensures Cells(w, h) - (before + {p}) < Cells(w, h) - before
  {
    CellsMembers(w, h);
  }

  /** `carve(x, y)`: every cell it newly visits is marked, starting with `p`. */
  function Carve(g: Grid, w: int, h: int, p: Pos, draws: Pos -> (nat -> nat)): (r: Grid)
    requires Shaped(g, w, h) && Inside(p, w, h) && !At(g, p).visited
    requires FairEverywhere(draws)
    ensures Shaped(r, w, h)
    ensures Visited(g, w, h) + {p} <= Visited(r, w, h)
    decreases Cells(w, h) - Visited(g, w, h), 0
  {
    var marked := Mark(g, w, h, p);
    MarkVisits(g, w, h, p);
    Progress(w, h, Visited(g, w, h), p);
    CarveDirs(marked, w, h, p, Shuffle(Directions, draws(p)), draws)
  }

  /** The `forEach` over the shuffled directions of the cell at `p`. */
  function CarveDirs(g: Grid, w: int, h: int, p: Pos, dirs: seq<Dir>, draws: Pos -> (nat -> nat)): (r: Grid)
    requires Shaped(g, w, h) && Inside(p, w, h) && FairEverywhere(draws)
    ensures Shaped(r, w, h)
    ensures Visited(g, w, h) <= Visited(r, w, h)
    decreases Cells(w, h) - Visited(g, w, h), |dirs| + 2
  {
    if dirs == [] then g
    else CarveDirs(CarveDir(g, w, h, p, dirs[0], draws), w, h, p, dirs[1..], draws)
  }

  /**
   * The body of the `forEach`: when the neighbour in direction `d` is in the
   * grid and not yet visited, knock out the wall on both sides and carve from it.
   */
  function CarveDir(g: Grid, w: int, h: int, p: Pos, d: Dir, draws: Pos -> (nat -> nat)): (r: Grid)
    requires Shaped(g, w, h) && Inside(p, w, h) && FairEverywhere(draws)
    ensures Shaped(r, w, h)
    ensures Visited(g, w, h) <= Visited(r, w, h)
    decreases Cells(w, h) - Visited(g, w, h), 1
  {
    var n := Step(p, d);
    if Inside(n, w, h) && !At(g, n).visited then
      KnockVisits(g, w, h, p, d);
      Carve(Knock(g, w, h, p, d), w, h, n, draws)
    else
      g
  }

  /** `carve(0, 0)` on the fully walled `h` by `w` grid. */
  function CarveAll(w: nat, h: nat, draws: Pos -> (nat -> nat)): (r: Grid)
    requires w > 0 && h > 0 && FairEverywhere(draws)
    ensures Shaped(r, w, h)
  {
    Carve(Blank(w, h), w, h, Pos(0, 0), draws)
  }
}
