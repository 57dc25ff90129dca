/**
 * The rest of `generateMaze`: after carving, the cells are flattened row by
 * row, the dead ends are filtered out, shuffled, and the first five of them
 * (or all, when there are fewer) receive the persona keys in list order.
 */
module MazeGen {
  import opened Optional
  import opened Shuffling
  import opened MazeGrid
  import opened Carving
  import opened CarveProofs

  function Min(a: int, b: int): int
  {
    if a <= b then a else b
  }

  /** `a` comes before `b` in the flattened grid: by row, then by column. */
  predicate Before(a: Pos, b: Pos)
  {
    a.y < b.y || (a.y == b.y && a.x < b.x)
  }

  /** Row `y` of a `w`-wide grid, left to right. */
  function Row(w: nat, y: int): (r: seq<Pos>)
    ensures |r| == w
    ensures forall x :: 0 <= x < w ==> r[x] == Pos(x, y)
  {
    seq(w, x => Pos(x, y))
  }

  /** From `g` to `r` only keys may change: every wall flag and visited flag is kept. */
  ghost predicate Retains(g: Grid, r: Grid, w: int, h: int)
  {
    Shaped(g, w, h) && Shaped(r, w, h)
      && forall q :: Inside(q, w, h) ==> At(r, q).walls == At(g, q).walls && At(r, q).visited == At(g, q).visited
  }

  /** `p` carries a key and `q` carries the same one. */
  predicate SameKey(g: Grid, w: int, h: int, p: Pos, q: Pos)
  {
    Shaped(g, w, h) && Inside(p, w, h) && Inside(q, w, h)
      && At(g, p).unlockKey.Some? && At(g, p).unlockKey == At(g, q).unlockKey
  }

  /** Every position of `ps` lies in the `w` by `h` grid. */
  predicate Within(ps: seq<Pos>, w: int, h: int)
  {
    forall i :: 0 <= i < |ps| ==> Inside(ps[i], w, h)
  }

  /**
   * The flattened grid as positions: every cell of the grid exactly once, row after
   * row, each row from left to right.
   */
  function Flat(w: nat, h: nat): (ps: seq<Pos>)
    ensures |ps| == w * h
    ensures forall q :: q in ps <==> Inside(q, w, h)
    ensures Within(ps, w, h)
    ensures forall i, j :: 0 <= i < j < |ps| ==> Before(ps[i], ps[j])
  {
    if h == 0 then []
    else
      var top := Flat(w, h - 1);
      var last := Row(w, h - 1);
      assert w * h == w * (h - 1) + w;
      assert forall q: Pos :: q in last <==> q.y == h - 1 && 0 <= q.x < w by {
        forall q: Pos | q.y == h - 1 && 0 <= q.x < w
          ensures q in last
        {
          assert last[q.x] == q;
        }
      }
      var ps := top + last;
      assert forall i :: 0 <= i < |top| ==> ps[i] == top[i] && top[i].y < h - 1;
      assert forall j :: |top| <= j < |ps| ==> ps[j] == last[j - |top|] == Pos(j - |top|, h - 1);
      ps
  }

  /** A sequence ordered by `Before` has no repeats. */
  lemma OrderedDistinct(ps: seq<Pos>)
    requires forall i, j :: 0 <= i < j < |ps| ==> Before(ps[i], ps[j])
    ensures Distinct(ps)
  {
  }

  /** The dead ends among `ps`, in the same order: the filter over the flattened grid. */
  function DeadEnds(g: Grid, w: int, h: int, ps: seq<Pos>): (r: seq<Pos>)
    requires Shaped(g, w, h) && Within(ps, w, h)
    ensures forall q :: q in r <==> q in ps && q in DeadEndCells(g, w, h)
    ensures Within(r, w, h)
    ensures Distinct(ps) ==> Distinct(r)
  {
    if ps == [] then []
    else
      var rest := DeadEnds(g, w, h, ps[1..]);
      MarkedMembers(g, w, h);
      assert Distinct(ps) ==> Distinct(ps[1..]) && ps[0] !in ps[1..];
      if IsDeadEnd(At(g, ps[0])) then [ps[0]] + rest else rest
  }

  /** Permuted sequences hold the same positions. */
  lemma PermutationMembers(a: seq<Pos>, b: seq<Pos>)
    requires multiset(a) == multiset(b)
    ensures forall q :: q in a <==> q in b
  {
    forall q
      ensures q in a <==> q in b
    {
      assert q in a <==> q in multiset(a);
      assert q in b <==> q in multiset(b);
    }
  }

  /** The five persona keys are pairwise different. */
  lemma KeysDistinct()
    ensures Distinct(PersonaKeys)
  {
  }

  /**
   * The dead ends in row-major order, shuffled, cut to the number of keys: as
   * many distinct dead ends as there are keys, or all of them when there are fewer.
   */
  function Pick(g: Grid, w: nat, h: nat, endDraws: nat -> nat): (chosen: seq<Pos>)
    requires Shaped(g, w, h) && Fair(endDraws)
    ensures |chosen| == Min(|PersonaKeys|, |DeadEndCells(g, w, h)|)
    ensures Distinct(chosen) && Within(chosen, w, h)
    ensures forall q :: q in chosen ==> q in DeadEndCells(g, w, h)
  {
    var all := Flat(w, h);
    OrderedDistinct(all);
    var ends := DeadEnds(g, w, h, all);
    var mixed := Shuffle(ends, endDraws);
    PermutationMembers(ends, mixed);
    PermutationKeepsDistinct(ends, mixed);
    MarkedMembers(g, w, h);
    assert (set q | q in ends) == DeadEndCells(g, w, h);
    DistinctCardinality(ends);
    var n := Min(|PersonaKeys|, |ends|);
    PrefixDistinct(mixed, n);
    assert forall q :: q in mixed[..n] ==> q in mixed;
    assert forall i :: 0 <= i < n ==> mixed[i] in mixed;
    mixed[..n]
  }

  /**
   * The final loop of the generator: the `i`-th chosen cell gets the `i`-th key;
   * walls, the visited flag and every other cell are left alone.
   */
  function Assign(g: Grid, w: int, h: int, chosen: seq<Pos>, keys: seq<PersonaKey>): (r: Grid)
    requires Shaped(g, w, h) && |chosen| <= |keys| && Within(chosen, w, h)
    ensures Shaped(r, w, h) && Retains(g, r, w, h)
    ensures forall q :: Inside(q, w, h) && q !in chosen ==> At(r, q).unlockKey == At(g, q).unlockKey
    ensures Distinct(chosen) ==> forall i :: 0 <= i < |chosen| ==> At(r, chosen[i]).unlockKey == Some(keys[i])
    decreases |chosen|
  {
    if chosen == [] then g
    else
      var p := chosen[0];
      assert Distinct(chosen) ==> Distinct(chosen[1..]) && p !in chosen[1..];
      Assign(Put(g, p, At(g, p).(unlockKey := Some(keys[0]))), w, h, chosen[1..], keys[1..])
  }

  /** The "place unlock tiles" block of `generateMaze` on a carved grid. */
  function PlaceKeys(g: Grid, w: nat, h: nat, endDraws: nat -> nat): (r: Grid)
    requires Shaped(g, w, h) && Fair(endDraws)
    ensures Shaped(r, w, h)
  {
    var chosen := Pick(g, w, h, endDraws);
    Assign(g, w, h, chosen, PersonaKeys)
  }

  /**
   * `generateMaze(w, h)` with its two sources of randomness made explicit: the
   * direction draws of every carved cell and the draws of the dead-end shuffle.
   */
  function GenerateMaze(w: nat, h: nat, dirDraws: Pos -> (nat -> nat), endDraws: nat -> nat): (r: Grid)
    requires w > 0 && h > 0 && FairEverywhere(dirDraws) && Fair(endDraws)
    ensures Shaped(r, w, h)
  {
    PlaceKeys(CarveAll(w, h, dirDraws), w, h, endDraws)
  }

  /** Some cell of the grid carries key `k`. */
  ghost predicate KeyPlaced(g: Grid, w: int, h: int, k: PersonaKey)
  {
    Shaped(g, w, h) && exists q :: Inside(q, w, h) && At(g, q).unlockKey == Some(k)
  }

  /** Grids that agree on walls and visited flags agree on every structural property of the maze. */
  lemma SameWalls(a: Grid, b: Grid, w: int, h: int)
    requires Retains(a, b, w, h)
    ensures Mirrored(a, w, h) ==> Mirrored(b, w, h)
    ensures Walled(a, w, h) ==> Walled(b, w, h)
    ensures Visited(b, w, h) == Visited(a, w, h)
    ensures Passages(b, w, h) == Passages(a, w, h)
    ensures DeadEndCells(b, w, h) == DeadEndCells(a, w, h)
    ensures OpensKept(a, b, w, h)
  {
    if Mirrored(a, w, h) {
      forall p, d | true
        ensures MirrorAt(b, w, h, p, d)
      {
        assert MirrorAt(a, w, h, p, d);
      }
    }
    if Walled(a, w, h) {
      forall p, d | true
        ensures WalledAt(b, w, h, p, d)
      {
        assert WalledAt(a, w, h, p, d);
      }
    }
    VisitedMembers(a, w, h);
    VisitedMembers(b, w, h);
    PassagesMembers(a, w, h);
    PassagesMembers(b, w, h);
    MarkedMembers(a, w, h);
    MarkedMembers(b, w, h);
  }

  /** A keyed cell after `Assign` on a grid without keys is one of the chosen cells, holding that cell's key. */
  lemma KeyIndex(g: Grid, w: int, h: int, chosen: seq<Pos>, q: Pos) returns (j: nat)
    requires Shaped(g, w, h) && |chosen| <= |PersonaKeys| && Within(chosen, w, h) && Distinct(chosen)
    requires Keyed(g, w, h) == {}
    requires Inside(q, w, h) && At(Assign(g, w, h, chosen, PersonaKeys), q).unlockKey.Some?
    ensures j < |chosen| && chosen[j] == q
    ensures At(Assign(g, w, h, chosen, PersonaKeys), q).unlockKey == Some(PersonaKeys[j])
  {
    MarkedMembers(g, w, h);
    assert q !in Keyed(g, w, h);
    j :| 0 <= j < |chosen| && chosen[j] == q;
  }

  /** After `Assign` on a grid without keys, the keyed cells are exactly the chosen ones. */
  lemma AssignedCells(g: Grid, w: int, h: int, chosen: seq<Pos>)
    requires Shaped(g, w, h) && |chosen| <= |PersonaKeys| && Within(chosen, w, h) && Distinct(chosen)
    requires Keyed(g, w, h) == {}
    ensures Keyed(Assign(g, w, h, chosen, PersonaKeys), w, h) == set q | q in chosen
  {
    var r := Assign(g, w, h, chosen, PersonaKeys);
    MarkedMembers(r, w, h);
    forall q | Inside(q, w, h) && At(r, q).unlockKey.Some?
      ensures q in chosen
    {
      var j := KeyIndex(g, w, h, chosen, q);
    }
    forall q | q in chosen
      ensures q in Keyed(r, w, h)
    {
      var j :| 0 <= j < |chosen| && chosen[j] == q;
      assert Inside(chosen[j], w, h);
    }
  }

  /** After `Assign` on a grid without keys, no key sits on two cells. */
  lemma AssignedOnce(g: Grid, w: int, h: int, chosen: seq<Pos>, p: Pos, q: Pos)
    requires Shaped(g, w, h) && |chosen| <= |PersonaKeys| && Within(chosen, w, h) && Distinct(chosen)
    requires Keyed(g, w, h) == {}
    requires SameKey(Assign(g, w, h, chosen, PersonaKeys), w, h, p, q)
    ensures p == q
  {
    KeysDistinct();
    var i := KeyIndex(g, w, h, chosen, p);
    var j := KeyIndex(g, w, h, chosen, q);
  }

  /** After `Assign` on a grid without keys, key `i` is placed exactly when a cell was chosen for it. */
  lemma AssignedKey(g: Grid, w: int, h: int, chosen: seq<Pos>, i: nat)
    requires Shaped(g, w, h) && |chosen| <= |PersonaKeys| && Within(chosen, w, h) && Distinct(chosen)
    requires Keyed(g, w, h) == {} && i < |PersonaKeys|
    ensures KeyPlaced(Assign(g, w, h, chosen, PersonaKeys), w, h, PersonaKeys[i]) <==> i < |chosen|
  {
    var r := Assign(g, w, h, chosen, PersonaKeys);
    KeysDistinct();
    if i < |chosen| {
      assert Inside(chosen[i], w, h);
    }
    if KeyPlaced(r, w, h, PersonaKeys[i]) {
      var q :| Inside(q, w, h) && At(r, q).unlockKey == Some(PersonaKeys[i]);
      var j := KeyIndex(g, w, h, chosen, q);
    }
  }

  /**
   * Placing keys on a carved grid without keys: walls and visited flags are kept,
   * every keyed cell is a dead end, exactly `min(5, number of dead ends)` cells
   * get a key, no key is used twice, and key `i` of the fixed list is placed
   * exactly when `i` is below that number.
   */
  lemma PlacedKeys(g: Grid, w: nat, h: nat, endDraws: nat -> nat)
    requires Shaped(g, w, h) && Fair(endDraws) && Keyed(g, w, h) == {}
    ensures var r := PlaceKeys(g, w, h, endDraws);
      && Retains(g, r, w, h)
      && DeadEndCells(r, w, h) == DeadEndCells(g, w, h)
      && Keyed(r, w, h) <= DeadEndCells(r, w, h)
      && |Keyed(r, w, h)| == Min(|PersonaKeys|, |DeadEndCells(r, w, h)|)
      && (forall p, q :: SameKey(r, w, h, p, q) ==> p == q)
      && (forall i :: 0 <= i < |PersonaKeys| ==> (KeyPlaced(r, w, h, PersonaKeys[i]) <==> i < |Keyed(r, w, h)|))
  {
    var chosen := Pick(g, w, h, endDraws);
    var r := PlaceKeys(g, w, h, endDraws);
    assert r == Assign(g, w, h, chosen, PersonaKeys);
    SameWalls(g, r, w, h);
    AssignedCells(g, w, h, chosen);
    DistinctCardinality(chosen);
    forall p, q | SameKey(r, w, h, p, q)
      ensures p == q
    {
      AssignedOnce(g, w, h, chosen, p, q);
    }
    forall i | 0 <= i < |PersonaKeys|
      ensures KeyPlaced(r, w, h, PersonaKeys[i]) <==> i < |chosen|
    {
      AssignedKey(g, w, h, chosen, i);
    }
  }

  /** Cells reachable in `a` stay reachable once more walls are open. */
  lemma AllReachKept(a: Grid, b: Grid, w: int, h: int, p: Pos, cells: set<Pos>)
    requires OpensKept(a, b, w, h) && AllReach(a, w, h, p, cells)
    ensures AllReach(b, w, h, p, cells)
  {
    forall q | q in cells
      ensures Reach(b, w, h, p, q)
    {
      ReachKept(a, b, w, h, p, q);
    }
  }

  /**
   * `generateMaze(w, h)` returns a perfect maze (mirror invariant, walled border,
   * every cell visited and reachable from the top-left corner, `w * h - 1`
   * passages) whose persona keys sit on `min(5, number of dead ends)` distinct
   * dead ends, each key at most once and the first ones of the list first.
   */
  lemma GeneratedMaze(w: nat, h: nat, dirDraws: Pos -> (nat -> nat), endDraws: nat -> nat)
    requires w > 0 && h > 0 && FairEverywhere(dirDraws) && Fair(endDraws)
    ensures var r := GenerateMaze(w, h, dirDraws, endDraws);
      && Mirrored(r, w, h)
      && Walled(r, w, h)
      && Visited(r, w, h) == Cells(w, h)
      && AllReach(r, w, h, Pos(0, 0), Cells(w, h))
      && |Passages(r, w, h)| == w * h - 1
      && Keyed(r, w, h) <= DeadEndCells(r, w, h)
      && |Keyed(r, w, h)| == Min(|PersonaKeys|, |DeadEndCells(r, w, h)|)
      && (forall p, q :: SameKey(r, w, h, p, q) ==> p == q)
      && (forall i :: 0 <= i < |PersonaKeys| ==> (KeyPlaced(r, w, h, PersonaKeys[i]) <==> i < |Keyed(r, w, h)|))
  {
    var c := CarveAll(w, h, dirDraws);
    var r := GenerateMaze(w, h, dirDraws, endDraws);
    CarvedMazeIsPerfect(w, h, dirDraws);
    MarkedMembers(c, w, h);
    assert Keyed(c, w, h) == {};
    PlacedKeys(c, w, h, endDraws);
    SameWalls(c, r, w, h);
    AllReachKept(c, r, w, h, Pos(0, 0), Cells(w, h));
  }
}
