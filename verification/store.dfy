/**
 * The game store: the state the front end keeps (maze, player position,
 * unlock flags, backend session ids, the key waiting to be shown) with its
 * initial value and its two operations, `move` and `saveSession`, as pure
 * state-to-state functions.
 */
module Store {
  import opened Optional
  import opened Shuffling
  import opened MazeGrid
  import opened Carving
  import opened MazeGen

  /** `GameState` without the two operation fields. */
  datatype GameState = GameState(
    maze: Grid,
    player: Pos,
    unlocked: map<PersonaKey, bool>,
    sessions: map<PersonaKey, Option<string>>,
    pendingUnlock: Option<PersonaKey>)

  /** The store generates a 15 by 15 maze. */
  const Size: nat := 15

  /** The set of all persona keys: the fields of both records. */
  function AllKeys(): set<PersonaKey>
  {
    set k | k in PersonaKeys
  }

  lemma AllKeysMembers()
    ensures forall k: PersonaKey :: k in AllKeys()
  {
    forall k: PersonaKey
      ensures k in AllKeys()
    {
      assert k == PersonaKeys[0] || k == PersonaKeys[1] || k == PersonaKeys[2] || k == PersonaKeys[3] || k == PersonaKeys[4];
    }
  }

  /** A record with the same value for every persona. */
  function Uniform<V>(v: V): (m: map<PersonaKey, V>)
    ensures m.Keys == AllKeys()
    ensures forall k :: k in m ==> m[k] == v
  {
    map k | k in AllKeys() :: v
  }

  /** The width `move` uses: the length of the first row, read only when there is one. */
  function Width(g: Grid): nat
  {
    if |g| == 0 then 0 else |g[0]|
  }

  /**
   * A well-formed state: a rectangular maze, the player on one of its cells,
   * and both records holding an entry for every persona.
   */
  ghost predicate Valid(s: GameState)
  {
    && Shaped(s.maze, Width(s.maze), |s.maze|)
    && Inside(s.player, Width(s.maze), |s.maze|)
    && s.unlocked.Keys == AllKeys()
    && s.sessions.Keys == AllKeys()
  }

  /** The cell `move` aims at: the player's position shifted by the deltas. */
  function Target(s: GameState, dx: int, dy: int): Pos
  {
    Pos(s.player.x + dx, s.player.y + dy)
  }

  /** The negation of `move`'s early-return test, with its short-circuit order. */
  function OnBoard(g: Grid, t: Pos): (b: bool)
    ensures b <==> Inside(t, Width(g), |g|)
  {
    !(t.y < 0 || t.y >= |g| || t.x < 0 || t.x >= |g[0]|)
  }

  /** The wall `move` checks: east for `dx = 1`, west for `dx = -1`, south for `dy = 1`, north otherwise. */
  function DirOf(dx: int, dy: int): (r: Dir)
    ensures forall d: Dir :: dx == DX(d) && dy == DY(d) ==> r == d
  {
    if dx == 1 then 1 else if dx == -1 then 3 else if dy == 1 then 2 else 0
  }

  /**
   * What `move` needs to run without reading past the maze: once the bounds
   * test passes, it reads the current cell and the target cell.
   */
  predicate MoveDefined(s: GameState, dx: int, dy: int)
  {
    OnBoard(s.maze, Target(s, dx, dy)) ==> InGrid(s.maze, s.player) && InGrid(s.maze, Target(s, dx, dy))
  }

  lemma ValidMoveDefined(s: GameState, dx: int, dy: int)
    requires Valid(s)
    ensures MoveDefined(s, dx, dy)
  {
  }

  /**
   * `move(dx, dy)`: off the board or into a wall of the current cell nothing
   * happens; otherwise the player steps to the target and the target's key (or
   * none) becomes the pending unlock. The maze and both records never change,
   * and a well-formed state stays well-formed.
   */
  function Move(s: GameState, dx: int, dy: int): (r: GameState)
    requires MoveDefined(s, dx, dy)
    ensures r.maze == s.maze && r.unlocked == s.unlocked && r.sessions == s.sessions
    ensures !OnBoard(s.maze, Target(s, dx, dy)) ==> r == s
    ensures OnBoard(s.maze, Target(s, dx, dy)) && At(s.maze, s.player).walls[DirOf(dx, dy)] == 1 ==> r == s
    ensures OnBoard(s.maze, Target(s, dx, dy)) && At(s.maze, s.player).walls[DirOf(dx, dy)] == 0 ==>
      r.player == Target(s, dx, dy) && r.pendingUnlock == At(s.maze, Target(s, dx, dy)).unlockKey
    ensures Valid(s) ==> Valid(r)
  {
    var t := Target(s, dx, dy);
    if !OnBoard(s.maze, t) then s
    else if At(s.maze, s.player).walls[DirOf(dx, dy)] == 1 then s
    else s.(player := t, pendingUnlock := At(s.maze, t).unlockKey)
  }

  /** `saveSession(k, id)`: the session id of persona `k` is recorded, replacing any earlier one. */
  function SaveSession(s: GameState, k: PersonaKey, id: string): (r: GameState)
    ensures r.sessions.Keys == s.sessions.Keys + {k}
    ensures Valid(s) ==> Valid(r)
  {
    AllKeysMembers();
    s.(sessions := s.sessions[k := Some(id)])
  }

  /**
   * The store's initial value: a freshly generated 15 by 15 maze, the player in
   * the top-left corner, nothing unlocked, no session and nothing pending.
   */
  function Initial(dirDraws: Pos -> (nat -> nat), endDraws: nat -> nat): (s: GameState)
    requires FairEverywhere(dirDraws) && Fair(endDraws)
    ensures Valid(s)
    ensures Shaped(s.maze, Size, Size) && Width(s.maze) == Size
    ensures s.player == Pos(0, 0) && s.pendingUnlock == None
    ensures forall k :: k in s.unlocked ==> !s.unlocked[k]
    ensures forall k :: k in s.sessions ==> s.sessions[k] == None
  {
    GameState(GenerateMaze(Size, Size, dirDraws, endDraws), Pos(0, 0), Uniform(false), Uniform(None), None)
  }

  /**
   * A unit move in direction `d` goes exactly where the maze has an opening:
   * through an open side the player steps to the neighbour and picks up its key
   * as the pending unlock; against a wall or the border the state is unchanged.
   */
  lemma MoveInDirection(s: GameState, d: Dir)
    requires Valid(s)
    ensures var r := Move(s, DX(d), DY(d));
      && (Open(s.maze, Width(s.maze), |s.maze|, s.player, d) ==>
            r.player == Step(s.player, d) && r.pendingUnlock == At(s.maze, Step(s.player, d)).unlockKey)
      && (!Open(s.maze, Width(s.maze), |s.maze|, s.player, d) ==> r == s)
  {
  }

  /** A unit move never passes through a wall: if the player moved, the two cells are linked. */
  lemma MoveFollowsLinks(s: GameState, d: Dir)
    requires Valid(s)
    ensures var r := Move(s, DX(d), DY(d));
      r.player != s.player ==> Link(s.maze, Width(s.maze), |s.maze|, s.player, r.player)
  {
    MoveInDirection(s, d);
    var r := Move(s, DX(d), DY(d));
    if r.player != s.player {
      assert Step(s.player, d) == r.player && Open(s.maze, Width(s.maze), |s.maze|, s.player, d);
    }
  }

  /** In a maze with the mirror invariant, a successful move can be undone by the opposite move. */
  lemma MoveBack(s: GameState, d: Dir)
    requires Valid(s) && Mirrored(s.maze, Width(s.maze), |s.maze|)
    ensures var r := Move(s, DX(d), DY(d));
      r.player != s.player ==> Move(r, DX(Opposite(d)), DY(Opposite(d))).player == s.player
  {
    var w, h := Width(s.maze), |s.maze|;
    var r := Move(s, DX(d), DY(d));
    MoveInDirection(s, d);
    if r.player != s.player {
      var n := Step(s.player, d);
      StepOpposite(s.player, d);
      assert MirrorAt(s.maze, w, h, s.player, d);
      assert Open(r.maze, w, h, n, Opposite(d));
      MoveInDirection(r, Opposite(d));
    }
  }

  /** From the top-left corner, moving north or west changes nothing. */
  lemma CornerMoves(s: GameState)
    requires Valid(s) && s.player == Pos(0, 0)
    ensures Move(s, 0, -1) == s && Move(s, -1, 0) == s
  {
  }

  /**
   * `move` consults one wall only: for the diagonal `(1, 1)` it checks the east
   * side of the current cell, and when that is open the player lands on the
   * diagonal neighbour. The keyboard hook never sends such a delta.
   */
  lemma MoveDiagonal(s: GameState)
    requires Valid(s) && OnBoard(s.maze, Target(s, 1, 1)) && At(s.maze, s.player).walls[1] == 0
    ensures Move(s, 1, 1).player == Pos(s.player.x + 1, s.player.y + 1)
    ensures !Link(s.maze, Width(s.maze), |s.maze|, s.player, Move(s, 1, 1).player)
  {
    var t := Pos(s.player.x + 1, s.player.y + 1);
    forall d: Dir
      ensures Step(s.player, d) != t
    {
    }
  }

  /** `saveSession` sets the entry of `k` and leaves every other entry and every other field alone. */
  lemma SaveSessionFrame(s: GameState, k: PersonaKey, id: string)
    ensures var r := SaveSession(s, k, id);
      && k in r.sessions && r.sessions[k] == Some(id)
      && (forall j :: j in s.sessions && j != k ==> j in r.sessions && r.sessions[j] == s.sessions[j])
      && r.maze == s.maze && r.player == s.player && r.unlocked == s.unlocked && r.pendingUnlock == s.pendingUnlock
  {
  }

  /** A second `saveSession` for the same persona replaces the first: the last id wins. */
  lemma SaveSessionLastWins(s: GameState, k: PersonaKey, a: string, b: string)
    ensures SaveSession(SaveSession(s, k, a), k, b) == SaveSession(s, k, b)
  {
  }

  /** Saving the same id twice is the same as saving it once. */
  lemma SaveSessionIdempotent(s: GameState, k: PersonaKey, id: string)
    ensures SaveSession(SaveSession(s, k, id), k, id) == SaveSession(s, k, id)
  {
    SaveSessionLastWins(s, k, id, id);
  }

  /** Sessions of different personas are independent of the order they are saved in. */
  lemma SaveSessionCommutes(s: GameState, j: PersonaKey, a: string, k: PersonaKey, b: string)
    requires j != k
    ensures SaveSession(SaveSession(s, j, a), k, b) == SaveSession(SaveSession(s, k, b), j, a)
  {
  }

  /** Moving and saving a session touch disjoint parts of the state, so they commute. */
  lemma MoveSaveCommute(s: GameState, dx: int, dy: int, k: PersonaKey, id: string)
    requires Valid(s)
    ensures Move(SaveSession(s, k, id), dx, dy) == SaveSession(Move(s, dx, dy), k, id)
  {
  }

  /** The two operations of the store, as events. */
  datatype Action = MoveBy(dx: int, dy: int) | Save(k: PersonaKey, id: string)

  function Apply(s: GameState, a: Action): (r: GameState)
    requires Valid(s)
    ensures Valid(r)
  {
    match a
    case MoveBy(dx, dy) => Move(s, dx, dy)
    case Save(k, id) => SaveSession(s, k, id)
  }

  /**
   * Any sequence of store operations keeps the state well-formed, never changes
   * the maze and never changes the unlock flags.
   */
  function Run(s: GameState, acts: seq<Action>): (r: GameState)
    requires Valid(s)
    ensures Valid(r) && r.maze == s.maze && r.unlocked == s.unlocked
    decreases |acts|
  {
    if acts == [] then s else Run(Apply(s, acts[0]), acts[1..])
  }

  /** Nothing the store can do sets an unlock flag: from the initial state every flag stays false. */
  lemma NeverUnlocked(dirDraws: Pos -> (nat -> nat), endDraws: nat -> nat, acts: seq<Action>)
    requires FairEverywhere(dirDraws) && Fair(endDraws)
    ensures var r := Run(Initial(dirDraws, endDraws), acts);
      forall k :: k in r.unlocked ==> !r.unlocked[k]
  {
  }

  /** Unit moves, one direction per step, as the keyboard hook issues them. */
  function Walk(s: GameState, dirs: seq<Dir>): (r: GameState)
    requires Valid(s)
    ensures Valid(r) && r.maze == s.maze
    decreases |dirs|
  {
    if dirs == [] then s else Walk(Move(s, DX(dirs[0]), DY(dirs[0])), dirs[1..])
  }

  /** Wherever a walk of unit moves ends, that cell is connected to its start through open walls. */
  lemma {:induction false} WalkReaches(s: GameState, dirs: seq<Dir>)
    requires Valid(s)
    ensures Reach(s.maze, Width(s.maze), |s.maze|, s.player, Walk(s, dirs).player)
    decreases |dirs|
  {
    var w, h := Width(s.maze), |s.maze|;
    if dirs == [] {
      ReachHere(s.maze, w, h, s.player);
    } else {
      var s1 := Move(s, DX(dirs[0]), DY(dirs[0]));
      WalkReaches(s1, dirs[1..]);
      MoveFollowsLinks(s, dirs[0]);
      if s1.player != s.player {
        ReachPrepend(s.maze, w, h, s.player, s1.player, Walk(s, dirs).player);
      }
    }
  }

  /** Every walk through open walls from the player's cell can be played as unit moves. */
  lemma {:induction false} WalkAlong(s: GameState, path: seq<Pos>) returns (dirs: seq<Dir>)
    requires Valid(s) && IsPath(s.maze, Width(s.maze), |s.maze|, path) && path[0] == s.player
    ensures Walk(s, dirs).player == path[|path| - 1]
    decreases |path|
  {
    var w, h := Width(s.maze), |s.maze|;
    if |path| == 1 {
      dirs := [];
    } else {
      assert Link(s.maze, w, h, path[0], path[1]);
      var d: Dir :| Step(path[0], d) == path[1] && Open(s.maze, w, h, path[0], d);
      MoveInDirection(s, d);
      var s1 := Move(s, DX(d), DY(d));
      assert IsPath(s.maze, w, h, path[1..]);
      var rest := WalkAlong(s1, path[1..]);
      dirs := [d] + rest;
      assert dirs[0] == d && dirs[1..] == rest;
    }
  }

  /** A cell can be reached by unit moves exactly when it is connected to the player's cell. */
  lemma WalkableIffReachable(s: GameState, q: Pos)
    requires Valid(s)
    ensures (exists dirs :: Walk(s, dirs).player == q) <==> Reach(s.maze, Width(s.maze), |s.maze|, s.player, q)
  {
    var w, h := Width(s.maze), |s.maze|;
    if Reach(s.maze, w, h, s.player, q) {
      var path :| IsPath(s.maze, w, h, path) && path[0] == s.player && path[|path| - 1] == q;
      var dirs := WalkAlong(s, path);
    }
    if exists dirs :: Walk(s, dirs).player == q {
      var dirs :| Walk(s, dirs).player == q;
      WalkReaches(s, dirs);
    }
  }

  /** In the initial state every one of the 15 by 15 cells can be reached with the arrow keys. */
  lemma InitialAllWalkable(dirDraws: Pos -> (nat -> nat), endDraws: nat -> nat, q: Pos)
    requires FairEverywhere(dirDraws) && Fair(endDraws) && Inside(q, Size, Size)
    ensures exists dirs :: Walk(Initial(dirDraws, endDraws), dirs).player == q
  {
    var s := Initial(dirDraws, endDraws);
    GeneratedMaze(Size, Size, dirDraws, endDraws);
    CellsMembers(Size, Size);
    assert q in Cells(Size, Size);
    WalkableIffReachable(s, q);
  }
}
