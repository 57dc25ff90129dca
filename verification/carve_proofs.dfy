/**
 * What carving guarantees. Each property is proved by three mutually
 * recursive lemmas that follow the recursion of `Carve`, `CarveDirs` and `CarveDir`:
 *  - the mirror invariant and the walled border are kept, walls are only ever
 *    knocked out, and every passage is opened into a cell not yet visited, so the
 *    number of passages grows exactly as the number of visited cells does;
 *  - when the carve of a cell returns, every in-grid neighbour of every cell it
 *    visited has been visited too;
 *  - every cell a carve visits is reachable from where it started.
 * Together these make the carved grid a perfect maze.
 */
module CarveProofs {
  import opened Optional
  import opened Shuffling
  import opened MazeGrid
  import opened Carving

  /** All four walls of the cell are standing. */
  predicate Sealed(c: Cell)
  {
    c.walls == [1, 1, 1, 1]
  }

  /** Every cell not visited yet, except possibly `p`, still has all its walls. */
  ghost predicate SealedUnvisited(g: Grid, w: int, h: int, p: Pos)
  {
    Shaped(g, w, h)
      && forall q :: Inside(q, w, h) && q != p && !At(g, q).visited ==> Sealed(At(g, q))
  }

  /** The invariant carving keeps; `p` is the cell being carved (it may already have an opening). */
  ghost predicate Sound(g: Grid, w: int, h: int, p: Pos)
  {
    Mirrored(g, w, h) && Walled(g, w, h) && SealedUnvisited(g, w, h, p)
  }

  /** From `g` to `r` nothing is un-visited, no wall is rebuilt and no key changes. */
  ghost predicate Grows(g: Grid, r: Grid, w: int, h: int)
  {
    && OpensKept(g, r, w, h)
    && (forall q :: Inside(q, w, h) && At(g, q).visited ==> At(r, q).visited)
    && (forall q :: Inside(q, w, h) ==> At(r, q).unlockKey == At(g, q).unlockKey)
  }

  lemma GrowsTrans(a: Grid, b: Grid, c: Grid, w: int, h: int)
    requires Grows(a, b, w, h) && Grows(b, c, w, h)
    ensures Grows(a, c, w, h)
  {
  }

  /** Marking the cell keeps the invariant and opens no passage. */
  lemma MarkStep(g: Grid, w: int, h: int, p: Pos)
    requires Shaped(g, w, h) && Inside(p, w, h) && Sound(g, w, h, p)
    ensures Sound(Mark(g, w, h, p), w, h, p)
    ensures Grows(g, Mark(g, w, h, p), w, h)
    ensures Passages(Mark(g, w, h, p), w, h) == Passages(g, w, h)
  {
    var r := Mark(g, w, h, p);
    assert forall q :: Inside(q, w, h) ==> At(r, q).walls == At(g, q).walls;
    forall q, d | true
      ensures MirrorAt(r, w, h, q, d) && WalledAt(r, w, h, q, d)
    {
      assert MirrorAt(g, w, h, q, d) && WalledAt(g, w, h, q, d);
    }
    PassagesMembers(g, w, h);
    PassagesMembers(r, w, h);
  }

  /** The mirror invariant at one side of one cell survives a knock elsewhere or right there. */
  lemma KnockMirrorAt(g: Grid, w: int, h: int, p: Pos, d: Dir, q: Pos, e: Dir)
    requires Mirrored(g, w, h) && Inside(p, w, h) && Inside(Step(p, d), w, h)
    ensures MirrorAt(Knock(g, w, h, p, d), w, h, q, e)
  {
    KnockCells(g, w, h, p, d);
    assert MirrorAt(g, w, h, q, e);
    StepOpposite(p, d);
    StepOpposite(q, e);
  }

  /** Knocking out the wall between two cells keeps the mirror invariant. */
  lemma KnockMirrored(g: Grid, w: int, h: int, p: Pos, d: Dir)
    requires Mirrored(g, w, h) && Inside(p, w, h) && Inside(Step(p, d), w, h)
    ensures Mirrored(Knock(g, w, h, p, d), w, h)
  {
    forall q, e | true
      ensures MirrorAt(Knock(g, w, h, p, d), w, h, q, e)
    {
      KnockMirrorAt(g, w, h, p, d, q, e);
    }
  }

  /** Knocking out a wall between two in-grid cells keeps the border walled. */
  lemma KnockWalled(g: Grid, w: int, h: int, p: Pos, d: Dir)
    requires Walled(g, w, h) && Inside(p, w, h) && Inside(Step(p, d), w, h)
    ensures Walled(Knock(g, w, h, p, d), w, h)
  {
    var r := Knock(g, w, h, p, d);
    KnockCells(g, w, h, p, d);
    StepOpposite(p, d);
    forall q, e | true
      ensures WalledAt(r, w, h, q, e)
    {
      assert WalledAt(g, w, h, q, e);
    }
  }

  /**
   * Knocking through from a visited cell into a sealed, unvisited one opens
   * exactly one new passage.
   */
  lemma KnockPassage(g: Grid, w: int, h: int, p: Pos, d: Dir)
    requires Sound(g, w, h, p) && Inside(p, w, h) && At(g, p).visited
    requires Inside(Step(p, d), w, h) && !At(g, Step(p, d)).visited
    ensures |Passages(Knock(g, w, h, p, d), w, h)| == |Passages(g, w, h)| + 1
  {
    var r := Knock(g, w, h, p, d);
    var n := Step(p, d);
    KnockCells(g, w, h, p, d);
    StepOpposite(p, d);
    assert Sealed(At(g, n));
    assert MirrorAt(g, w, h, p, d);
    var edge := if d == 1 || d == 2 then (p, d) else (n, Opposite(d));
    PassagesMembers(g, w, h);
    PassagesMembers(r, w, h);
    assert edge !in Passages(g, w, h);
    assert Open(r, w, h, edge.0, edge.1);
    forall q, e: Dir | (q, e) != edge
      ensures (q, e) in Passages(r, w, h) <==> (q, e) in Passages(g, w, h)
    {
    }
    assert Passages(r, w, h) == Passages(g, w, h) + {edge};
  }

  /** Everything carving needs to know about one knock-through. */
  lemma KnockStep(g: Grid, w: int, h: int, p: Pos, d: Dir)
    requires Sound(g, w, h, p) && Inside(p, w, h) && At(g, p).visited
    requires Inside(Step(p, d), w, h) && !At(g, Step(p, d)).visited
    ensures Sound(Knock(g, w, h, p, d), w, h, Step(p, d))
    ensures Grows(g, Knock(g, w, h, p, d), w, h)
    ensures Open(Knock(g, w, h, p, d), w, h, p, d)
    ensures |Passages(Knock(g, w, h, p, d), w, h)| == |Passages(g, w, h)| + 1
  {
    KnockMirrored(g, w, h, p, d);
    KnockWalled(g, w, h, p, d);
    KnockPassage(g, w, h, p, d);
    KnockCells(g, w, h, p, d);
  }

  /** Visiting more cells leaves fewer unvisited: the measure carving decreases on. */
  lemma Shrinks(all: set<Pos>, a: set<Pos>, b: set<Pos>)
    requires a <= b
    ensures all - b <= all - a
    ensures all - b < all - a || all - b == all - a
  {
  }

  /**
   * Carving from an unvisited cell keeps the invariant, only grows the maze,
   * and opens one passage fewer than the number of cells it visits.
   */
  lemma {:induction false} CarveSound(g: Grid, w: int, h: int, p: Pos, draws: Pos -> (nat -> nat))
    requires Shaped(g, w, h) && Inside(p, w, h) && !At(g, p).visited && FairEverywhere(draws)
    requires Sound(g, w, h, p)
    ensures var r := Carve(g, w, h, p, draws);
      && Sound(r, w, h, p)
      && Grows(g, r, w, h)
      && |Passages(r, w, h)| + |Visited(g, w, h)| + 1 == |Passages(g, w, h)| + |Visited(r, w, h)|
    decreases Cells(w, h) - Visited(g, w, h), 0
  {
    var m := Mark(g, w, h, p);
    MarkStep(g, w, h, p);
    MarkVisits(g, w, h, p);
    VisitedMembers(g, w, h);
    Progress(w, h, Visited(g, w, h), p);
    var dirs := Shuffle(Directions, draws(p));
    CarveDirsSound(m, w, h, p, dirs, draws);
    GrowsTrans(g, m, CarveDirs(m, w, h, p, dirs, draws), w, h);
  }

  /** The same for the loop over the directions of a visited cell: passages and visited cells grow alike. */
  lemma {:induction false} CarveDirsSound(g: Grid, w: int, h: int, p: Pos, dirs: seq<Dir>, draws: Pos -> (nat -> nat))
    requires Shaped(g, w, h) && Inside(p, w, h) && At(g, p).visited && FairEverywhere(draws)
    requires Sound(g, w, h, p)
    ensures var r := CarveDirs(g, w, h, p, dirs, draws);
      && Sound(r, w, h, p)
      && Grows(g, r, w, h)
      && |Passages(r, w, h)| + |Visited(g, w, h)| == |Passages(g, w, h)| + |Visited(r, w, h)|
    decreases Cells(w, h) - Visited(g, w, h), |dirs| + 2
  {
    if dirs != [] {
      var c := CarveDir(g, w, h, p, dirs[0], draws);
      CarveDirSound(g, w, h, p, dirs[0], draws);
      Shrinks(Cells(w, h), Visited(g, w, h), Visited(c, w, h));
      CarveDirsSound(c, w, h, p, dirs[1..], draws);
      GrowsTrans(g, c, CarveDirs(c, w, h, p, dirs[1..], draws), w, h);
    }
  }

  /** One direction: either nothing happens, or one passage is opened and a subtree is carved. */
  lemma {:induction false} CarveDirSound(g: Grid, w: int, h: int, p: Pos, d: Dir, draws: Pos -> (nat -> nat))
    requires Shaped(g, w, h) && Inside(p, w, h) && At(g, p).visited && FairEverywhere(draws)
    requires Sound(g, w, h, p)
    ensures var r := CarveDir(g, w, h, p, d, draws);
      && Sound(r, w, h, p)
      && Grows(g, r, w, h)
      && At(r, p).visited
      && |Passages(r, w, h)| + |Visited(g, w, h)| == |Passages(g, w, h)| + |Visited(r, w, h)|
    decreases Cells(w, h) - Visited(g, w, h), 1
  {
    var n := Step(p, d);
    if Inside(n, w, h) && !At(g, n).visited {
      var k := Knock(g, w, h, p, d);
      KnockStep(g, w, h, p, d);
      KnockVisits(g, w, h, p, d);
      var c := Carve(k, w, h, n, draws);
      CarveSound(k, w, h, n, draws);
      VisitedMembers(c, w, h);
      assert At(c, n).visited;
      assert SealedUnvisited(c, w, h, p);
      GrowsTrans(g, k, c, w, h);
    }
  }

  /** Every in-grid neighbour of `q` has been visited. */
  ghost predicate Done(g: Grid, w: int, h: int, q: Pos)
  {
    Shaped(g, w, h) && forall d: Dir {:trigger Step(q, d)} :: Inside(Step(q, d), w, h) ==> At(g, Step(q, d)).visited
  }

  /** Every cell of `s` is done. */
  ghost predicate AllDone(g: Grid, w: int, h: int, s: set<Pos>)
  {
    forall q :: q in s ==> Done(g, w, h, q)
  }

  lemma DoneKept(a: Grid, b: Grid, w: int, h: int, q: Pos)
    requires Done(a, w, h, q) && Shaped(b, w, h) && Visited(a, w, h) <= Visited(b, w, h)
    ensures Done(b, w, h, q)
  {
    VisitedMembers(a, w, h);
    VisitedMembers(b, w, h);
    forall d: Dir | Inside(Step(q, d), w, h)
      ensures At(b, Step(q, d)).visited
    {
      assert Step(q, d) in Visited(a, w, h);
    }
  }

  /** A cell whose neighbours were visited in every direction of a shuffle of the four is done. */
  lemma AllDirsDone(r: Grid, w: int, h: int, p: Pos, dirs: seq<Dir>)
    requires Shaped(r, w, h) && multiset(dirs) == multiset(Directions)
    requires forall d :: d in dirs && Inside(Step(p, d), w, h) ==> At(r, Step(p, d)).visited
    ensures Done(r, w, h, p)
  {
    forall d: Dir | Inside(Step(p, d), w, h)
      ensures At(r, Step(p, d)).visited
    {
      assert Directions[d] == d;
      assert d in multiset(Directions);
      assert d in dirs;
    }
  }

  /** The start cell is done, and so is every cell the loop over its directions visited. */
  lemma DoneFromStart(r: Grid, w: int, h: int, p: Pos, before: set<Pos>, marked: set<Pos>)
    requires Done(r, w, h, p) && marked == before + {p}
    requires AllDone(r, w, h, Visited(r, w, h) - marked)
    ensures AllDone(r, w, h, Visited(r, w, h) - before)
  {
  }

  /** Cells done after one step stay done as the following steps visit more cells. */
  lemma DoneThrough(c: Grid, r: Grid, w: int, h: int, before: set<Pos>)
    requires Shaped(c, w, h) && Shaped(r, w, h)
    requires before <= Visited(c, w, h) <= Visited(r, w, h)
    requires AllDone(c, w, h, Visited(c, w, h) - before)
    requires AllDone(r, w, h, Visited(r, w, h) - Visited(c, w, h))
    ensures AllDone(r, w, h, Visited(r, w, h) - before)
  {
    forall q | q in Visited(c, w, h) - before
      ensures Done(r, w, h, q)
    {
      DoneKept(c, r, w, h, q);
    }
  }

  /**
   * When `carve` of `p` returns, `p` and every cell it visited on the way have
   * all their in-grid neighbours visited.
   */
  lemma {:induction false} CarveCloses(g: Grid, w: int, h: int, p: Pos, draws: Pos -> (nat -> nat))
    requires Shaped(g, w, h) && Inside(p, w, h) && !At(g, p).visited && FairEverywhere(draws)
    ensures var r := Carve(g, w, h, p, draws);
      AllDone(r, w, h, Visited(r, w, h) - Visited(g, w, h))
    decreases Cells(w, h) - Visited(g, w, h), 0
  {
    var m := Mark(g, w, h, p);
    MarkVisits(g, w, h, p);
    Progress(w, h, Visited(g, w, h), p);
    var dirs := Shuffle(Directions, draws(p));
    CarveDirsCloses(m, w, h, p, dirs, draws);
    var r := Carve(g, w, h, p, draws);
    assert r == CarveDirs(m, w, h, p, dirs, draws);
    AllDirsDone(r, w, h, p, dirs);
    DoneFromStart(r, w, h, p, Visited(g, w, h), Visited(m, w, h));
  }

  /**
   * After the loop over `dirs`, every in-grid neighbour of `p` in those
   * directions is visited, and so is every neighbour of each cell visited on the way.
   */
  lemma {:induction false} CarveDirsCloses(g: Grid, w: int, h: int, p: Pos, dirs: seq<Dir>, draws: Pos -> (nat -> nat))
    requires Shaped(g, w, h) && Inside(p, w, h) && FairEverywhere(draws)
    ensures var r := CarveDirs(g, w, h, p, dirs, draws);
      && AllDone(r, w, h, Visited(r, w, h) - Visited(g, w, h))
      && (forall d :: d in dirs && Inside(Step(p, d), w, h) ==> At(r, Step(p, d)).visited)
    decreases Cells(w, h) - Visited(g, w, h), |dirs| + 2
  {
    if dirs != [] {
      var c := CarveDir(g, w, h, p, dirs[0], draws);
      CarveDirCloses(g, w, h, p, dirs[0], draws);
      Shrinks(Cells(w, h), Visited(g, w, h), Visited(c, w, h));
      CarveDirsCloses(c, w, h, p, dirs[1..], draws);
      DoneThrough(c, CarveDirs(c, w, h, p, dirs[1..], draws), w, h, Visited(g, w, h));
      var n := Step(p, dirs[0]);
      if Inside(n, w, h) {
        VisitedMembers(c, w, h);
        VisitedMembers(CarveDirs(c, w, h, p, dirs[1..], draws), w, h);
        assert n in Visited(c, w, h);
      }
    }
  }

  /** After one direction, the neighbour on that side (if in the grid) is visited. */
  lemma {:induction false} CarveDirCloses(g: Grid, w: int, h: int, p: Pos, d: Dir, draws: Pos -> (nat -> nat))
    requires Shaped(g, w, h) && Inside(p, w, h) && FairEverywhere(draws)
    ensures var r := CarveDir(g, w, h, p, d, draws);
      && AllDone(r, w, h, Visited(r, w, h) - Visited(g, w, h))
      && (Inside(Step(p, d), w, h) ==> At(r, Step(p, d)).visited)
    decreases Cells(w, h) - Visited(g, w, h), 1
  {
    var n := Step(p, d);
    var r := CarveDir(g, w, h, p, d, draws);
    if Inside(n, w, h) && !At(g, n).visited {
      var k := Knock(g, w, h, p, d);
      KnockVisits(g, w, h, p, d);
      CarveCloses(k, w, h, n, draws);
      assert r == Carve(k, w, h, n, draws);
      VisitedMembers(r, w, h);
      assert n in Visited(r, w, h);
    }
  }

  /** Every cell that `carve` of `p` visits can be reached from `p` through open walls. */
  lemma {:induction false} CarveConnects(g: Grid, w: int, h: int, p: Pos, draws: Pos -> (nat -> nat))
    requires Shaped(g, w, h) && Inside(p, w, h) && !At(g, p).visited && FairEverywhere(draws)
    requires Sound(g, w, h, p)
    ensures var r := Carve(g, w, h, p, draws);
      AllReach(r, w, h, p, Visited(r, w, h) - Visited(g, w, h))
    decreases Cells(w, h) - Visited(g, w, h), 0
  {
    var m := Mark(g, w, h, p);
    MarkStep(g, w, h, p);
    MarkVisits(g, w, h, p);
    Progress(w, h, Visited(g, w, h), p);
    var dirs := Shuffle(Directions, draws(p));
    CarveDirsConnects(m, w, h, p, dirs, draws);
    var r := Carve(g, w, h, p, draws);
    assert r == CarveDirs(m, w, h, p, dirs, draws);
    ReachFromStart(r, w, h, p, Visited(g, w, h), Visited(m, w, h));
  }

  /** Every cell of `s` can be reached from `p`. */
  ghost predicate AllReach(g: Grid, w: int, h: int, p: Pos, s: set<Pos>)
  {
    forall q :: q in s ==> Reach(g, w, h, p, q)
  }

  /** Adding the start cell itself to the cells reachable from it. */
  lemma ReachFromStart(r: Grid, w: int, h: int, p: Pos, before: set<Pos>, marked: set<Pos>)
    requires Shaped(r, w, h) && Inside(p, w, h) && marked == before + {p}
    requires AllReach(r, w, h, p, Visited(r, w, h) - marked)
    ensures AllReach(r, w, h, p, Visited(r, w, h) - before)
  {
    ReachHere(r, w, h, p);
  }

  /** Cells reachable after one step stay reachable as the following steps open more walls. */
  lemma ReachThrough(c: Grid, r: Grid, w: int, h: int, p: Pos, before: set<Pos>)
    requires OpensKept(c, r, w, h)
    requires before <= Visited(c, w, h) <= Visited(r, w, h)
    requires AllReach(c, w, h, p, Visited(c, w, h) - before)
    requires AllReach(r, w, h, p, Visited(r, w, h) - Visited(c, w, h))
    ensures AllReach(r, w, h, p, Visited(r, w, h) - before)
  {
    forall q | q in Visited(c, w, h) - before
      ensures Reach(r, w, h, p, q)
    {
      ReachKept(c, r, w, h, p, q);
    }
  }

  /** Cells reachable from the neighbour `n` are reachable from `p` once the wall between them is open. */
  lemma ReachAcross(r: Grid, w: int, h: int, p: Pos, n: Pos, cells: set<Pos>)
    requires Link(r, w, h, p, n)
    requires AllReach(r, w, h, n, cells)
    ensures AllReach(r, w, h, p, cells)
  {
    forall q | q in cells
      ensures Reach(r, w, h, p, q)
    {
      ReachPrepend(r, w, h, p, n, q);
    }
  }

  /** Every cell visited during the loop over `dirs` can be reached from `p`. */
  lemma {:induction false} CarveDirsConnects(g: Grid, w: int, h: int, p: Pos, dirs: seq<Dir>, draws: Pos -> (nat -> nat))
    requires Shaped(g, w, h) && Inside(p, w, h) && At(g, p).visited && FairEverywhere(draws)
    requires Sound(g, w, h, p)
    ensures var r := CarveDirs(g, w, h, p, dirs, draws);
      AllReach(r, w, h, p, Visited(r, w, h) - Visited(g, w, h))
    decreases Cells(w, h) - Visited(g, w, h), |dirs| + 2
  {
    if dirs != [] {
      var c := CarveDir(g, w, h, p, dirs[0], draws);
      CarveDirSound(g, w, h, p, dirs[0], draws);
      CarveDirConnects(g, w, h, p, dirs[0], draws);
      Shrinks(Cells(w, h), Visited(g, w, h), Visited(c, w, h));
      CarveDirsSound(c, w, h, p, dirs[1..], draws);
      CarveDirsConnects(c, w, h, p, dirs[1..], draws);
      ReachThrough(c, CarveDirs(c, w, h, p, dirs[1..], draws), w, h, p, Visited(g, w, h));
    }
  }

  /** Every cell visited through direction `d` can be reached from `p`. */
  lemma {:induction false} CarveDirConnects(g: Grid, w: int, h: int, p: Pos, d: Dir, draws: Pos -> (nat -> nat))
    requires Shaped(g, w, h) && Inside(p, w, h) && At(g, p).visited && FairEverywhere(draws)
    requires Sound(g, w, h, p)
    ensures var r := CarveDir(g, w, h, p, d, draws);
      AllReach(r, w, h, p, Visited(r, w, h) - Visited(g, w, h))
    decreases Cells(w, h) - Visited(g, w, h), 1
  {
    var n := Step(p, d);
    if Inside(n, w, h) && !At(g, n).visited {
      var k := Knock(g, w, h, p, d);
      KnockStep(g, w, h, p, d);
      KnockVisits(g, w, h, p, d);
      var r := Carve(k, w, h, n, draws);
      CarveSound(k, w, h, n, draws);
      CarveConnects(k, w, h, n, draws);
      assert Open(r, w, h, p, d);
      assert Link(r, w, h, p, n);
      ReachAcross(r, w, h, p, n, Visited(r, w, h) - Visited(g, w, h));
    }
  }

  /** A set of visited cells that holds the corner and is closed under neighbours covers the grid. */
  lemma {:induction false} Spread(r: Grid, w: int, h: int, q: Pos)
    requires Shaped(r, w, h) && Inside(q, w, h) && At(r, Pos(0, 0)).visited
    requires AllDone(r, w, h, Visited(r, w, h))
    ensures At(r, q).visited
    decreases q.x + q.y
  {
    VisitedMembers(r, w, h);
    if q.y > 0 {
      var above := Pos(q.x, q.y - 1);
      Spread(r, w, h, above);
      assert above in Visited(r, w, h);
      assert Step(above, 2) == q;
    } else if q.x > 0 {
      var left := Pos(q.x - 1, q.y);
      Spread(r, w, h, left);
      assert left in Visited(r, w, h);
      assert Step(left, 1) == q;
    }
  }

  /** When every visited cell is done and the corner is visited, every cell is visited. */
  lemma Covered(r: Grid, w: int, h: int)
    requires Shaped(r, w, h) && Inside(Pos(0, 0), w, h) && At(r, Pos(0, 0)).visited
    requires AllDone(r, w, h, Visited(r, w, h))
    ensures Visited(r, w, h) == Cells(w, h)
  {
    VisitedMembers(r, w, h);
    CellsMembers(w, h);
    forall q | q in Cells(w, h)
      ensures q in Visited(r, w, h)
    {
      Spread(r, w, h, q);
    }
  }

  /** The fully walled, unvisited grid satisfies the invariant and has no passages. */
  lemma BlankStart(w: nat, h: nat)
    requires w > 0 && h > 0
    ensures Sound(Blank(w, h), w, h, Pos(0, 0))
    ensures Visited(Blank(w, h), w, h) == {}
    ensures Passages(Blank(w, h), w, h) == {}
  {
    var g := Blank(w, h);
    forall p, d | true
      ensures MirrorAt(g, w, h, p, d) && WalledAt(g, w, h, p, d)
    {
    }
    VisitedMembers(g, w, h);
    PassagesMembers(g, w, h);
  }

  /**
   * `carve(0, 0)` on the fully walled grid yields a perfect maze: the mirror
   * invariant holds, the border is walled, every cell is visited and reachable
   * from the top-left corner, exactly `w * h - 1` passages are open (a connected
   * graph on `w * h` nodes with that many edges is a spanning tree), and no key
   * has been placed yet.
   */
  lemma CarvedMazeIsPerfect(w: nat, h: nat, draws: Pos -> (nat -> nat))
    requires w > 0 && h > 0 && FairEverywhere(draws)
    ensures var r := CarveAll(w, h, draws);
      && Mirrored(r, w, h)
      && Walled(r, w, h)
      && Visited(r, w, h) == Cells(w, h)
      && AllReach(r, w, h, Pos(0, 0), Cells(w, h))
      && |Passages(r, w, h)| == w * h - 1
      && (forall q :: Inside(q, w, h) ==> At(r, q).unlockKey == None)
  {
    var g := Blank(w, h);
    var o := Pos(0, 0);
    var r := CarveAll(w, h, draws);
    BlankStart(w, h);
    CarveSound(g, w, h, o, draws);
    CarveCloses(g, w, h, o, draws);
    CarveConnects(g, w, h, o, draws);
    VisitedMembers(r, w, h);
    Covered(r, w, h);
    CellsCount(w, h);
  }
}
