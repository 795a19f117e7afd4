/**
  `hlt.GameMap`: the per-turn occupancy grid and the bot's movement logic over it — the two
  greedy navigators, the recursive conflict resolver with head-on swaps, the enemy threat
  marker, the nearest-dropoff search and the halite-per-distance target scan.

  Ships are held in an arena `ships`; a cell's occupant is an index into it. `moveCostRatio`
  and `extractRatio` are the game constants `MOVE_COST_RATIO` and `EXTRACT_RATIO`.
*/
module Navigation {
  import opened Optional
  import opened Geometry
  import opened World
  import opened Lists
  import opened Resolution
  import opened Steps
  import opened Resolver
  import opened Reservations

  /** A ship can pay to leave its cell: the floor of cell halite over the ratio is covered. */
  lemma {:induction false} CostIff(cellHalite: nat, ratio: int, halite: nat)
    requires ratio > 0
    ensures halite >= cellHalite / ratio <==> cellHalite < (halite + 1) * ratio
  {
    var q, r := cellHalite / ratio, cellHalite % ratio;
    assert cellHalite == ratio * q + r && 0 <= r < ratio;
    if q <= halite {
      assert ratio * q <= ratio * halite;
      assert (halite + 1) * ratio == ratio * halite + ratio;
    } else {
      assert q >= halite + 1;
      assert ratio * q >= ratio * (halite + 1);
    }
  }

  /** The ships of players other than `me` are arena indices when every player's are. */
  lemma {:induction false} EnemyShipsIn(me: int, players: seq<Player>, n: nat)
    requires forall i, k | 0 <= i < |players| && 0 <= k < |players[i].ships| :: players[i].ships[k] < n
    ensures forall k | 0 <= k < |EnemyShips(me, players)| :: EnemyShips(me, players)[k] < n
  {
    if players != [] {
      var init := players[..|players| - 1];
      assert forall i | 0 <= i < |init| :: init[i] == players[i];
      EnemyShipsIn(me, init, n);
    }
  }

  /** The distance from `pos` to each site, in order. */
  function Distances(width: int, height: int, pos: Position, sites: seq<Entity>): (ds: seq<nat>)
    requires width > 0 && height > 0
    ensures |ds| == |sites|
    ensures forall i | 0 <= i < |sites| :: ds[i] == Distance(width, height, pos, sites[i].position)
  {
    seq(|sites|, i requires 0 <= i < |sites| => Distance(width, height, pos, sites[i].position))
  }

  /** The index of the first least element of `ds`. */
  function FirstMin(ds: seq<nat>): (k: nat)
    requires ds != []
    ensures k < |ds|
    ensures forall i | 0 <= i < k :: ds[i] > ds[k]
    ensures forall i | k <= i < |ds| :: ds[k] <= ds[i]
  {
    if |ds| == 1 then 0
    else
      var k := FirstMin(ds[..|ds| - 1]);
      if ds[|ds| - 1] < ds[k] then |ds| - 1 else k
  }

  /** One more element replaces the first least one only when strictly smaller. */
  lemma {:induction false} FirstMinNext(ds: seq<nat>, n: nat)
    requires 0 < n < |ds|
    ensures FirstMin(ds[..n + 1]) == if ds[n] < ds[FirstMin(ds[..n])] then n else FirstMin(ds[..n])
  {
    assert ds[..n + 1][..n] == ds[..n];
  }

  /** A quotient by a positive divisor is at most the dividend. */
  lemma {:induction false} QuotientAtMost(a: nat, b: int)
    requires b > 0
    ensures 0 <= a / b <= a
  {
    var q := a / b;
    assert a == b * q + a % b && 0 <= a % b;
    if q > 0 {
      MulAtLeast(q, b);
      assert q * b == b * q;
    }
  }

  /**
    What `highestValueLocation` expects to gain by staying: a sixth of a turn's worth of
    extraction plus the move cost, both as integer quotients of the halite under the ship.
  */
  function Baseline(g: Grid, width: int, height: int, moveCostRatio: int, extractRatio: int, pos: Position): (r: nat)
    requires width > 0 && height > 0 && moveCostRatio > 0 && extractRatio > 0 && Shaped(g, width, height)
    ensures r <= 12 * At(g, width, height, pos).halite
    ensures At(g, width, height, pos).halite == 0 ==> r == 0
  {
    var h := At(g, width, height, pos).halite;
    QuotientAtMost(h, extractRatio);
    QuotientAtMost(h, moveCostRatio);
    (h / extractRatio + h / moveCostRatio) * 6
  }

  /**
    The halite per unit of distance that cell `c` offers a ship standing at `pos`, doubled
    when the cell is inspired. The distance is positive because `c` and `pos` differ.
  */
  function Value(g: Grid, width: int, height: int, pos: Position, c: Position): (r: int)
    requires width > 0 && height > 0 && Shaped(g, width, height)
    requires InBounds(width, height, pos) && InBounds(width, height, c) && c != pos
    ensures 0 <= r <= 2 * g[c.y][c.x].halite
    ensures !g[c.y][c.x].inspired ==> r <= g[c.y][c.x].halite
  {
    DistancePositive(width, height, pos, c);
    var cell := g[c.y][c.x];
    var d := Distance(width, height, pos, c);
    QuotientAtMost(cell.halite, d);
    if cell.inspired then cell.halite / d * 2 else cell.halite / d
  }

  /** `a` comes before `b` in the scan of `highestValueLocation`: by column, then by row. */
  predicate Before(a: Position, b: Position)
  {
    a.x < b.x || (a.x == b.x && a.y < b.y)
  }

  /**
    `best` is what `highestValueLocation` settles on: when it is not the ship's own position,
    a cell worth at least `base`, worth no less than any other cell and worth strictly more
    than every cell after it in scan order; when it is, every other cell is worth less than
    `base`.
  */
  ghost predicate Highest(g: Grid, width: int, height: int, pos: Position, base: int, best: Position)
    requires width > 0 && height > 0 && Shaped(g, width, height) && InBounds(width, height, pos)
  {
    if best == pos then
      forall c | InBounds(width, height, c) && c != pos :: Value(g, width, height, pos, c) < base
    else
      && InBounds(width, height, best)
      && Value(g, width, height, pos, best) >= base
      && forall c | InBounds(width, height, c) && c != pos ::
           && Value(g, width, height, pos, c) <= Value(g, width, height, pos, best)
           && (Before(best, c) ==> Value(g, width, height, pos, c) < Value(g, width, height, pos, best))
  }

  /** At most one position is what the scan settles on. */
  lemma {:induction false} HighestUnique(g: Grid, width: int, height: int, pos: Position, base: int, a: Position, b: Position)
    requires width > 0 && height > 0 && Shaped(g, width, height) && InBounds(width, height, pos)
    requires Highest(g, width, height, pos, base, a)
    ensures Highest(g, width, height, pos, base, b) ==> a == b
  {
    if b != a && InBounds(width, height, b) {
      if b == pos {
        assert Value(g, width, height, pos, a) >= base;
      } else if a == pos {
        assert Value(g, width, height, pos, b) < base;
      } else if Before(a, b) {
        assert Value(g, width, height, pos, b) < Value(g, width, height, pos, a);
      } else {
        assert Before(b, a) && Value(g, width, height, pos, b) <= Value(g, width, height, pos, a);
      }
    }
  }

  /**
    The scan's invariant once every cell before `lim` has been looked at: `best`, worth
    `bestVal`, is what `Highest` describes for the cells seen so far.
  */
  ghost predicate Leads(g: Grid, width: int, height: int, pos: Position, base: int, best: Position, bestVal: int, lim: Position)
    requires width > 0 && height > 0 && Shaped(g, width, height) && InBounds(width, height, pos)
  {
    && (best == pos ==> bestVal == base)
    && (best != pos ==> InBounds(width, height, best) && Before(best, lim)
                        && bestVal == Value(g, width, height, pos, best) && bestVal >= base)
    && (forall c | InBounds(width, height, c) && c != pos && Before(c, lim) ::
          && Value(g, width, height, pos, c) <= bestVal
          && (best == pos || Before(best, c) ==> Value(g, width, height, pos, c) < bestVal))
  }

  /** Looking at one more cell, `here`, worth at least the best so far: it becomes the best. */
  lemma {:induction false} LeadsTake(g: Grid, width: int, height: int, pos: Position, base: int, best: Position, bestVal: int, here: Position)
    requires width > 0 && height > 0 && Shaped(g, width, height) && InBounds(width, height, pos)
    requires InBounds(width, height, here) && here != pos
    requires Leads(g, width, height, pos, base, best, bestVal, here) == true
    requires Value(g, width, height, pos, here) >= bestVal
    ensures Leads(g, width, height, pos, base, here, Value(g, width, height, pos, here), Position(here.x, here.y + 1))
  {
    var v := Value(g, width, height, pos, here);
    forall c | InBounds(width, height, c) && c != pos && Before(c, Position(here.x, here.y + 1))
      ensures Value(g, width, height, pos, c) <= v && (Before(here, c) ==> Value(g, width, height, pos, c) < v)
    {
      if c != here {
        assert Before(c, here) && !Before(here, c);
      }
    }
  }

  /** Looking at one more cell, `here`, that is the ship's own or worth less: nothing changes. */
  lemma {:induction false} LeadsKeep(g: Grid, width: int, height: int, pos: Position, base: int, best: Position, bestVal: int, here: Position)
    requires width > 0 && height > 0 && Shaped(g, width, height) && InBounds(width, height, pos)
    requires InBounds(width, height, here)
    requires Leads(g, width, height, pos, base, best, bestVal, here) == true
    requires here == pos || Value(g, width, height, pos, here) < bestVal
    ensures Leads(g, width, height, pos, base, best, bestVal, Position(here.x, here.y + 1))
  {
    forall c | InBounds(width, height, c) && c != pos && Before(c, Position(here.x, here.y + 1))
      ensures Value(g, width, height, pos, c) <= bestVal
      ensures best == pos || Before(best, c) ==> Value(g, width, height, pos, c) < bestVal
    {
      if c != here {
        assert Before(c, here);
      }
    }
  }

  /** The end of one column is the start of the next. */
  lemma {:induction false} LeadsColumn(g: Grid, width: int, height: int, pos: Position, base: int, best: Position, bestVal: int, x: int)
    requires width > 0 && height > 0 && Shaped(g, width, height) && InBounds(width, height, pos)
    requires Leads(g, width, height, pos, base, best, bestVal, Position(x, height)) == true
    ensures Leads(g, width, height, pos, base, best, bestVal, Position(x + 1, 0))
  {
  }

  /** Once every column is scanned, the invariant is the promise. */
  lemma {:induction false} LeadsDone(g: Grid, width: int, height: int, pos: Position, base: int, best: Position, bestVal: int)
    requires width > 0 && height > 0 && Shaped(g, width, height) && InBounds(width, height, pos)
    requires Leads(g, width, height, pos, base, best, bestVal, Position(width, 0)) == true
    ensures Highest(g, width, height, pos, base, best)
  {
  }

  /** The scan of `highestValueLocation` over the grid as a value, column by column. */
  method ScanValues(g: Grid, width: int, height: int, pos: Position, base: nat) returns (best: Position)
    requires width > 0 && height > 0 && Shaped(g, width, height) && InBounds(width, height, pos)
    ensures Highest(g, width, height, pos, base, best)
  {
    var bestVal := base;
    best := pos;
    for x := 0 to width
      invariant Leads(g, width, height, pos, base, best, bestVal, Position(x, 0)) == true
    {
      for y := 0 to height
        invariant Leads(g, width, height, pos, base, best, bestVal, Position(x, y)) == true
      {
        var here := Position(x, y);
        if here == pos {
          LeadsKeep(g, width, height, pos, base, best, bestVal, here);
          continue;
        }
        DistancePositive(width, height, pos, here);
        var totalDistance := Distance(width, height, pos, here);
        var value;
        if g[y][x].inspired {
          value := g[y][x].halite / totalDistance * 2;
        } else {
          value := g[y][x].halite / totalDistance;
        }
        if value >= bestVal {
          LeadsTake(g, width, height, pos, base, best, bestVal, here);
          bestVal := value;
          best := here;
        } else {
          LeadsKeep(g, width, height, pos, base, best, bestVal, here);
        }
      }
      LeadsColumn(g, width, height, pos, base, best, bestVal, x);
    }
    LeadsDone(g, width, height, pos, base, best, bestVal);
  }

  /**
    The target cell a navigator may step onto: a free cell, or, for `crashNavigate`
    (`crash`), also a cell holding a shipyard or dropoff.
  */
  predicate Takes(g: Grid, width: int, height: int, p: Position, crash: bool): (r: bool)
    requires width > 0 && height > 0 && Shaped(g, width, height)
    ensures !At(g, width, height, p).IsOccupied() ==> r
    ensures r && At(g, width, height, p).IsOccupied() ==> crash && At(g, width, height, p).HasStructure()
  {
    var c := At(g, width, height, p);
    !c.IsOccupied() || (crash && c.HasStructure())
  }

  /**
    The index of the first candidate direction whose target `Takes` accepts, or `|cands|`
    when there is none: the direction a navigator's scan of the candidates settles on.
  */
  function FirstTaken(g: Grid, width: int, height: int, pos: Position, cands: seq<Direction>, crash: bool): (k: nat)
    requires width > 0 && height > 0 && Shaped(g, width, height)
    ensures k <= |cands|
    ensures k < |cands| ==> Takes(g, width, height, Offset(pos, cands[k]), crash)
    ensures forall i | 0 <= i < k :: !Takes(g, width, height, Offset(pos, cands[i]), crash)
  {
    if cands == [] then 0
    else if Takes(g, width, height, Offset(pos, cands[0]), crash) then 0
    else 1 + FirstTaken(g, width, height, pos, cands[1..], crash)
  }

  /** One ship `j` standing at `p` marks its four cardinal neighbours, in order. */
  method MarkNeighbours(g: Grid, width: int, height: int, p: Position, j: nat) returns (r: Grid)
    requires width > 0 && height > 0 && Shaped(g, width, height)
    ensures r == MarkAll(g, width, height, SurroundingCardinals(p), j)
  {
    var around := SurroundingCardinals(p);
    r := g;
    for m := 0 to |around|
      invariant Shaped(r, width, height)
      invariant r == MarkAll(g, width, height, around[..m], j)
    {
      MarkAllNext(g, width, height, around, j, m);
      r := Mark(r, width, height, around[m], Some(j));
    }
    assert around[..|around|] == around;
  }

  /** The ships `js` of one player mark their neighbours on top of what the ships `done` left. */
  method MarkShips(g: Grid, width: int, height: int, ships: seq<Ship>, ghost base: Grid, ghost done: seq<nat>, js: seq<nat>)
    returns (r: Grid)
    requires width > 0 && height > 0 && Shaped(base, width, height)
    requires forall k | 0 <= k < |done| :: done[k] < |ships|
    requires forall k | 0 <= k < |js| :: js[k] < |ships|
    requires g == Threaten(base, width, height, ships, done)
    ensures (assert forall k | 0 <= k < |done + js| :: (done + js)[k] < |ships|;
             r == Threaten(base, width, height, ships, done + js))
  {
    r := g;
    assert done + js[..0] == done;
    for k := 0 to |js|
      invariant forall k' | 0 <= k' < |done + js[..k]| :: (done + js[..k])[k'] < |ships|
      invariant r == Threaten(base, width, height, ships, done + js[..k])
    {
      AppendNext(done, js, k);
      ThreatenNext(base, width, height, ships, done + js[..k], js[k]);
      r := MarkNeighbours(r, width, height, ships[js[k]].position, js[k]);
    }
    assert js[..|js|] == js;
  }

  /**
    The enemy threat marker on the grid as a value: every ship of every player other than
    `me`, player by player and ship by ship, marks its four cardinal neighbours.
  */
  method MarkEnemies(g: Grid, width: int, height: int, ships: seq<Ship>, me: int, enemies: seq<Player>)
    returns (r: Grid)
    requires width > 0 && height > 0 && Shaped(g, width, height)
    requires forall i, k | 0 <= i < |enemies| && 0 <= k < |enemies[i].ships| :: enemies[i].ships[k] < |ships|
    ensures (EnemyShipsIn(me, enemies, |ships|); r == Threaten(g, width, height, ships, EnemyShips(me, enemies)))
  {
    r := g;
    assert enemies[..0] == [];
    for i := 0 to |enemies|
      invariant forall k | 0 <= k < |EnemyShips(me, enemies[..i])| :: EnemyShips(me, enemies[..i])[k] < |ships|
      invariant r == Threaten(g, width, height, ships, EnemyShips(me, enemies[..i]))
    {
      ghost var done := EnemyShips(me, enemies[..i]);
      EnemyShipsNext(me, enemies, i);
      EnemyShipsIn(me, enemies[..i + 1], |ships|);
      var enemy := enemies[i];
      if me == enemy.id {
        assert done + [] == done;
        assert EnemyShips(me, enemies[..i + 1]) == done;
        continue;
      }
      r := MarkShips(r, width, height, ships, g, done, enemy.ships);
      assert EnemyShips(me, enemies[..i + 1]) == done + enemy.ships;
    }
    assert enemies[..|enemies|] == enemies;
  }

  /**
    The candidate scan of a navigator, on the grid as a value: the first candidate `Takes`
    accepts is taken, its target marked with ship `s` and the ship's own cell cleared;
    with no such candidate the result is `Still` and the grid is unchanged.
  */
  method Scan(g: Grid, width: int, height: int, n: nat, s: nat, pos: Position, cands: seq<Direction>, crash: bool)
    returns (d: Direction, r: Grid)
    requires width > 0 && height > 0 && Shaped(g, width, height) && OccupantsIn(g, width, height, n) && s < n
    ensures Shaped(r, width, height) && OccupantsIn(r, width, height, n)
    ensures var k := FirstTaken(g, width, height, pos, cands, crash);
      if k == |cands| then d == Still && r == g
      else d == cands[k] && r == Mark(Mark(g, width, height, Offset(pos, d), Some(s)), width, height, pos, None)
  {
    for i := 0 to |cands|
      invariant i <= FirstTaken(g, width, height, pos, cands, crash)
    {
      var target := Offset(pos, cands[i]);
      if Takes(g, width, height, target, crash) {
        var marked := Mark(g, width, height, target, Some(s));
        MarkOccupants(g, width, height, target, Some(s), n);
        MarkOccupants(marked, width, height, pos, None, n);
        return cands[i], Mark(marked, width, height, pos, None);
      }
    }
    return Still, g;
  }

  /** The direction a navigator settles on brings the ship one step closer to its destination. */
  lemma {:induction false} FirstTakenCloser(g: Grid, width: int, height: int, pos: Position, destination: Position, crash: bool)
    requires width > 0 && height > 0 && Shaped(g, width, height)
    requires FirstTaken(g, width, height, pos, UnsafeMoves(width, height, pos, destination), crash)
             < |UnsafeMoves(width, height, pos, destination)|
    ensures var cands := UnsafeMoves(width, height, pos, destination);
      var d := cands[FirstTaken(g, width, height, pos, cands, crash)];
      Distance(width, height, Offset(pos, d), destination) == Distance(width, height, pos, destination) - 1
  {
    var cands := UnsafeMoves(width, height, pos, destination);
    UnsafeMovesCloser(width, height, pos, destination, cands[FirstTaken(g, width, height, pos, cands, crash)]);
  }

  /**
    `crashNavigate` settles no later in the candidate list than `naiveNavigate`: every target
    the naive scan accepts, the crash scan accepts too.
  */
  lemma {:induction false} CrashSettlesNoLater(g: Grid, width: int, height: int, pos: Position, cands: seq<Direction>)
    requires width > 0 && height > 0 && Shaped(g, width, height)
    ensures FirstTaken(g, width, height, pos, cands, true) <= FirstTaken(g, width, height, pos, cands, false)
  {
    if cands != [] && !Takes(g, width, height, Offset(pos, cands[0]), true) {
      CrashSettlesNoLater(g, width, height, pos, cands[1..]);
    }
  }

  /**
    `newNavigate`, over the state it threads: resolve ship `s` against the ships still to move.
    Candidates are tried in order: a free target is taken at once; a friendly ship still to
    move that stands in the way is resolved first (recursively) unless it is itself being
    resolved, in which case the two swap when it wants to go exactly the opposite way; a
    candidate that does not work out is dropped. A ship left without candidates stays still.
    The state it leaves is `Resolver.Navigate`'s, whose decisions the lemmas of `Resolver`
    describe.
  */
  method Resolve(width: int, height: int, s: nat, start: Snapshot) returns (state: Snapshot)
    requires Fits(width, height, start) && s < |start.ships|
    decreases Unvisited(start.ships), if start.ships[s].visited then 1 else 0
    ensures state == Navigate(width, height, s, start)
  {
    state := start;
    while state.ships[s].moves != []
      invariant Fits(width, height, state) && |state.ships| == |start.ships|
      invariant Navigate(width, height, s, state) == Navigate(width, height, s, start)
      invariant Unvisited(state.ships) <= Unvisited(start.ships)
      invariant !start.ships[s].visited && state.ships[s].visited ==> Unvisited(state.ships) < Unvisited(start.ships)
      decreases |state.ships[s].moves|
    {
      var ship := state.ships[s];
      var d := ship.moves[0];
      var target := Offset(ship.position, d);
      var cell := At(state.cells, width, height, target);
      if !cell.IsOccupied() {
        NavigateCommitsFreeHead(width, height, s, state);
        state := AfterCommit(width, height, state, s, d);
        return;
      }
      var v := cell.ship.value;
      var other := state.ships[v];
      if other.owner == ship.owner && v in state.pending {
        if other.visited {
          var opposite := GameMap.CanSwap(d, other.moves);
          if opposite.Some? {
            NavigateSwapsWithVisited(width, height, s, state);
            state := AfterSwap(state, s, d, v, opposite.value);
            return;
          }
          NavigateDropsBlockedHead(width, height, s, state);
        } else {
          NavigateNests(width, height, s, state);
          VisitShrinks(state, s);
          state := Visit(state, s);
          ghost var visited := state;
          state := Resolve(width, height, v, state);
          SettlesShrinks(visited.ships, state.ships);
        }
      } else {
        NavigateDropsBlockedHead(width, height, s, state);
      }
      DropKeeps(state, s);
      state := Drop(state, s);
    }
    NavigateStaysWhenSpent(width, height, s, state);
    if s in state.pending {
      state := AfterStay(state, s);
    }
  }

  class GameMap {
    const width: int
    const height: int
    const moveCostRatio: int
    const extractRatio: int
    /** `cells[y][x]`; the occupant field is the only thing the methods here change. */
    var cells: Grid
    /** The arena of every ship on the map, mine and the enemies'. */
    var ships: seq<Ship>

    ghost predicate Valid()
      reads this
    {
      && width > 0 && height > 0 && moveCostRatio > 0 && extractRatio > 0
      && Shaped(cells, width, height)
      && OccupantsIn(cells, width, height, |ships|)
      && forall i | 0 <= i < |ships| :: InBounds(width, height, ships[i].position)
    }

    /** A map in the state the turn's input left it in. */
    constructor (width: int, height: int, moveCostRatio: int, extractRatio: int, cells: Grid, ships: seq<Ship>)
      requires width > 0 && height > 0 && moveCostRatio > 0 && extractRatio > 0
      requires Shaped(cells, width, height) && OccupantsIn(cells, width, height, |ships|)
      requires forall i | 0 <= i < |ships| :: InBounds(width, height, ships[i].position)
      ensures Valid()
      ensures this.width == width && this.height == height
      ensures this.moveCostRatio == moveCostRatio && this.extractRatio == extractRatio
      ensures this.cells == cells && this.ships == ships
    {
      this.width := width;
      this.height := height;
      this.moveCostRatio := moveCostRatio;
      this.extractRatio := extractRatio;
      this.cells := cells;
      this.ships := ships;
    }

    /** `canMove`: the ship carries enough halite to pay the cost of leaving its cell. */
    function CanMove(s: nat): (r: bool)
      reads this
      requires Valid() && s < |ships|
      ensures r <==> At(cells, width, height, ships[s].position).halite < (ships[s].halite + 1) * moveCostRatio
    {
      CostIff(At(cells, width, height, ships[s].position).halite, moveCostRatio, ships[s].halite);
      ships[s].halite >= At(cells, width, height, ships[s].position).halite / moveCostRatio
    }

    /**
      `naiveNavigate`: when the ship can pay to move, the first candidate from `UnsafeMoves`
      whose target is free; that target is marked with the ship and its own cell cleared.
      Otherwise `Still`, and nothing changes.
    */
    method NaiveNavigate(s: nat, destination: Position) returns (d: Direction)
      requires Valid() && s < |ships|
      modifies this
      ensures Valid() && ships == old(ships)
      ensures var pos := ships[s].position;
        var cands := UnsafeMoves(width, height, pos, destination);
        var k := FirstTaken(old(cells), width, height, pos, cands, false);
        if !old(CanMove(s)) || k == |cands| then d == Still && cells == old(cells)
        else d == cands[k] && cells == Mark(Mark(old(cells), width, height, Offset(pos, d), Some(s)), width, height, pos, None)
    {
      if !CanMove(s) {
        return Still;
      }
      d, cells := Scan(cells, width, height, |ships|, s, ships[s].position,
                       UnsafeMoves(width, height, ships[s].position, destination), false);
    }

    /**
      `crashNavigate`: as `NaiveNavigate`, but a target holding a structure is taken even when
      occupied, so ships may collide on a shipyard or dropoff.
    */
    method CrashNavigate(s: nat, destination: Position) returns (d: Direction)
      requires Valid() && s < |ships|
      modifies this
      ensures Valid() && ships == old(ships)
      ensures var pos := ships[s].position;
        var cands := UnsafeMoves(width, height, pos, destination);
        var k := FirstTaken(old(cells), width, height, pos, cands, true);
        if !old(CanMove(s)) || k == |cands| then d == Still && cells == old(cells)
        else d == cands[k] && cells == Mark(Mark(old(cells), width, height, Offset(pos, d), Some(s)), width, height, pos, None)
    {
      if !CanMove(s) {
        return Still;
      }
      d, cells := Scan(cells, width, height, |ships|, s, ships[s].position,
                       UnsafeMoves(width, height, ships[s].position, destination), true);
    }

    /**
      `markEnemyShips`: every ship of every player other than `me` marks its four cardinal
      neighbours as occupied by itself, in player order and ship order, so a later mark wins.
    */
    method MarkEnemyShips(me: Player, enemies: seq<Player>)
      requires Valid()
      requires forall i, k | 0 <= i < |enemies| && 0 <= k < |enemies[i].ships| :: enemies[i].ships[k] < |ships|
      modifies this
      ensures Valid() && ships == old(ships)
      ensures (EnemyShipsIn(me.id, enemies, |ships|);
        cells == Threaten(old(cells), width, height, ships, EnemyShips(me.id, enemies)))
    {
      EnemyShipsIn(me.id, enemies, |ships|);
      ThreatenOccupants(cells, width, height, ships, EnemyShips(me.id, enemies));
      cells := MarkEnemies(cells, width, height, ships, me.id, enemies);
    }

    /**
      `getNearestDropoff`: of the shipyard followed by the dropoffs, the first one at the
      least distance from the ship; a later one replaces it only when strictly closer.
    */
    method GetNearestDropoff(ship: Ship, me: Player) returns (nearest: Entity)
      requires width > 0 && height > 0
      ensures var sites := [me.shipyard] + me.dropoffs;
        nearest == sites[FirstMin(Distances(width, height, ship.position, sites))]
    {
      var pos := ship.position;
      ghost var sites := [me.shipyard] + me.dropoffs;
      ghost var dist := Distances(width, height, pos, sites);
      ghost var best := 0;
      nearest := me.shipyard;
      var nearestDistance := Distance(width, height, pos, nearest.position);
      for i := 0 to |me.dropoffs|
        invariant best == FirstMin(dist[..i + 1]) && nearest == sites[best] && nearestDistance == dist[best]
      {
        var dropoff := me.dropoffs[i];
        var d := Distance(width, height, pos, dropoff.position);
        assert sites[i + 1] == dropoff && d == dist[i + 1];
        FirstMinNext(dist, i + 1);
        if d < nearestDistance {
          nearest, nearestDistance := dropoff, d;
          best := i + 1;
        }
      }
      assert dist[..|me.dropoffs| + 1] == dist;
    }

    /**
      `highestValueLocation`: the cell of greatest `Value` at or above the baseline, the last
      such cell in scan order when several tie; the ship's own position when no other cell
      reaches the baseline.
    */
    method HighestValueLocation(s: nat) returns (best: Position)
      requires Valid() && s < |ships|
      ensures Highest(cells, width, height, ships[s].position,
                      Baseline(cells, width, height, moveCostRatio, extractRatio, ships[s].position), best)
    {
      best := ScanValues(cells, width, height, ships[s].position,
                         Baseline(cells, width, height, moveCostRatio, extractRatio, ships[s].position));
    }

    /**
      `canSwap`: the exact opposite of `direction`, provided it is among `moves`; nothing for
      `Still`, which has no opposite.
    */
    static method CanSwap(direction: Direction, moves: seq<Direction>) returns (r: Option<Direction>)
      ensures r.Some? <==> Opposite(direction).Some? && Opposite(direction).value in moves
      ensures r.Some? ==> r == Opposite(direction)
    {
      var opposite := Opposite(direction);
      for i := 0 to |moves|
        invariant forall k | 0 <= k < i :: opposite != Some(moves[k])
      {
        if opposite == Some(moves[i]) {
          return opposite;
        }
      }
      return None;
    }

    /**
      `newNavigate`: resolve ship `s` against the ships still to move, `shipsToMove`, appending
      to `commands`; see `Resolve`. The occupancy and the ships it changes are written back.
      The decisions taken form the trace `events`, legal one after the other, in which `s` is
      resolved; when the ships to move start anchored, no two resolved ships end on one cell.
    */
    method NewNavigate(s: nat, shipsToMove: seq<nat>, commands: seq<Command>)
      returns (pending: seq<nat>, out: seq<Command>, ghost events: seq<Event>)
      requires Valid() && s < |ships| && s in shipsToMove
      requires WellFormed(width, height, Snapshot(cells, ships, shipsToMove, commands))
      modifies this
      ensures Valid()
      ensures Snapshot(cells, ships, pending, out)
           == Navigate(width, height, s, Snapshot(old(cells), old(ships), shipsToMove, commands))
      ensures Traced(width, height, Snapshot(old(cells), old(ships), shipsToMove, commands),
                     Snapshot(cells, ships, pending, out), events, s)
      ensures s in ShipsOf(events)
      ensures width >= 2 && height >= 2 && Anchored(old(cells), width, height, old(ships), shipsToMove) ==>
        && Apart(DestinationsOf(width, height, old(ships), events))
        && Anchored(cells, width, height, ships, pending)
    {
      var start := Snapshot(cells, ships, shipsToMove, commands);
      var r := Resolve(width, height, s, start);
      events := NavigateTraced(width, height, s, start);
      if width >= 2 && height >= 2 && Anchored(cells, width, height, ships, shipsToMove) {
        ResolutionReserves(width, height, start, r, events, s);
      }
      cells, ships, pending, out := r.cells, r.ships, r.pending, r.out;
    }
  }
}
