/**
  The entities of one turn: map cells, ships (kept in an arena and referred to by index),
  structures, players and the commands sent back to the engine, together with the grid
  operations the navigators use (`at`, `markUnsafe`, `markSafe`) and the effect of the
  threat marker stated as a function of the grid.
*/
module World {
  import opened Optional
  import opened Geometry

  /** A structure (shipyard or dropoff) or any other entity with an identity and a place. */
  datatype Entity = Entity(id: int, position: Position)

  /**
    A cell: its halite, whether it is inspired, the structure on it, and the arena index of the
    ship that occupies (or has reserved, or threatens) it this turn.
  */
  datatype MapCell = MapCell(halite: nat, inspired: bool, structure: Option<Entity>, ship: Option<nat>)
  {
    predicate IsOccupied() { ship.Some? }
    predicate HasStructure() { structure.Some? }
  }

  /** A ship; `moves` is its candidate-direction list and `visited` its resolver flag. */
  datatype Ship = Ship(id: int, owner: int, halite: nat, position: Position, moves: seq<Direction>, visited: bool)

  /** A player: its shipyard, its dropoffs in iteration order, and the arena indices of its ships. */
  datatype Player = Player(id: int, shipyard: Entity, dropoffs: seq<Entity>, ships: seq<nat>)

  datatype Command = Move(shipId: int, direction: Direction) | Stay(shipId: int)

  /** The map as rows: `cells[y][x]`. */
  type Grid = seq<seq<MapCell>>

  predicate Shaped(g: Grid, width: int, height: int)
  {
    |g| == height && forall y | 0 <= y < height :: |g[y]| == width
  }

  /** `at(position)`: the cell a (possibly off-map) position wraps onto. */
  function At(g: Grid, width: int, height: int, p: Position): (c: MapCell)
    requires width > 0 && height > 0 && Shaped(g, width, height)
    ensures InBounds(width, height, p) ==> c == g[p.y][p.x]
  {
    var n := Normalize(width, height, p);
    assert InBounds(width, height, p) ==> n == p by {
      if InBounds(width, height, p) {
        NormalizeInBounds(width, height, p);
      }
    }
    g[n.y][n.x]
  }

  /**
    `at(p).markUnsafe(ship)` when `o` is `Some(ship)`, `at(p).markSafe()` when `o` is `None`:
    the one cell `p` wraps onto gets occupant `o`, and nothing else changes.
  */
  function Mark(g: Grid, width: int, height: int, p: Position, o: Option<nat>): (r: Grid)
    requires width > 0 && height > 0 && Shaped(g, width, height)
    ensures Shaped(r, width, height)
    ensures forall y, x | 0 <= y < height && 0 <= x < width ::
      r[y][x] == if Position(x, y) == Normalize(width, height, p) then g[y][x].(ship := o) else g[y][x]
  {
    var n := Normalize(width, height, p);
    g[n.y := g[n.y][n.x := g[n.y][n.x].(ship := o)]]
  }

  /** Every occupant recorded in the grid is a ship of the arena. */
  predicate OccupantsIn(g: Grid, width: int, height: int, n: nat)
    requires Shaped(g, width, height)
  {
    forall y, x | 0 <= y < height && 0 <= x < width :: g[y][x].ship.Some? ==> g[y][x].ship.value < n
  }

  /** Marking a cell with an arena ship, or clearing it, keeps every occupant in the arena. */
  lemma {:induction false} MarkOccupants(g: Grid, width: int, height: int, p: Position, o: Option<nat>, n: nat)
    requires width > 0 && height > 0 && Shaped(g, width, height) && OccupantsIn(g, width, height, n)
    requires o.Some? ==> o.value < n
    ensures OccupantsIn(Mark(g, width, height, p, o), width, height, n)
  {
  }

  // ---------------------------------------------------------------------------
  // Threat marker
  // ---------------------------------------------------------------------------

  /** `Position.getSurroundingCardinals`: the four neighbours, in the order N, S, E, W. */
  function SurroundingCardinals(p: Position): (r: seq<Position>)
    ensures |r| == 4
    ensures forall i | 0 <= i < 4 :: Abs(r[i].x - p.x) + Abs(r[i].y - p.y) == 1
    ensures forall i, j | 0 <= i < j < 4 :: r[i] != r[j]
  {
    [Offset(p, North), Offset(p, South), Offset(p, East), Offset(p, West)]
  }

  /** Cell `c` is one of the four cardinal neighbours of a ship standing at `p`. */
  predicate Threatens(width: int, height: int, p: Position, c: Position)
    requires width > 0 && height > 0
  {
    || c == Normalize(width, height, Offset(p, North))
    || c == Normalize(width, height, Offset(p, South))
    || c == Normalize(width, height, Offset(p, East))
    || c == Normalize(width, height, Offset(p, West))
  }

  /** The ships whose neighbourhoods are marked: every player's ships except those of `me`. */
  function EnemyShips(me: int, players: seq<Player>): seq<nat>
  {
    if players == [] then []
    else
      var last := players[|players| - 1];
      EnemyShips(me, players[..|players| - 1]) + (if last.id == me then [] else last.ships)
  }

  /** Marks each position of `ps`, in order, as occupied by ship `j`. */
  function MarkAll(g: Grid, width: int, height: int, ps: seq<Position>, j: nat): (r: Grid)
    requires width > 0 && height > 0 && Shaped(g, width, height)
    ensures Shaped(r, width, height)
  {
    if ps == [] then g
    else Mark(MarkAll(g, width, height, ps[..|ps| - 1], j), width, height, ps[|ps| - 1], Some(j))
  }

  /** The grid after each ship of `js`, in order, has marked its four neighbours. */
  function Threaten(g: Grid, width: int, height: int, ships: seq<Ship>, js: seq<nat>): (r: Grid)
    requires width > 0 && height > 0 && Shaped(g, width, height)
    requires forall k | 0 <= k < |js| :: js[k] < |ships|
    ensures Shaped(r, width, height)
  {
    if js == [] then g
    else
      var j := js[|js| - 1];
      MarkAll(Threaten(g, width, height, ships, js[..|js| - 1]), width, height,
              SurroundingCardinals(ships[j].position), j)
  }

  /** Taking one more player into account appends that player's ships unless they are `me`. */
  lemma {:induction false} EnemyShipsNext(me: int, players: seq<Player>, i: nat)
    requires i < |players|
    ensures EnemyShips(me, players[..i + 1])
         == EnemyShips(me, players[..i]) + (if players[i].id == me then [] else players[i].ships)
  {
    assert players[..i + 1][..i] == players[..i];
  }

  /** One more ship marks its neighbours on top of the grid the earlier ships left. */
  lemma {:induction false} ThreatenNext(g: Grid, width: int, height: int, ships: seq<Ship>, js: seq<nat>, j: nat)
    requires width > 0 && height > 0 && Shaped(g, width, height)
    requires forall k | 0 <= k < |js| :: js[k] < |ships|
    requires j < |ships|
    ensures Threaten(g, width, height, ships, js + [j])
         == MarkAll(Threaten(g, width, height, ships, js), width, height, SurroundingCardinals(ships[j].position), j)
  {
    assert (js + [j])[..|js|] == js;
  }

  /** Marking one more position of the list. */
  lemma {:induction false} MarkAllNext(g: Grid, width: int, height: int, ps: seq<Position>, j: nat, m: nat)
    requires width > 0 && height > 0 && Shaped(g, width, height)
    requires m < |ps|
    ensures MarkAll(g, width, height, ps[..m + 1], j) == Mark(MarkAll(g, width, height, ps[..m], j), width, height, ps[m], Some(j))
  {
    assert ps[..m + 1][..m] == ps[..m];
  }

  /** Whether some position of `ps` wraps onto `c`, scanning from the back. */
  predicate Hits(width: int, height: int, ps: seq<Position>, c: Position)
    requires width > 0 && height > 0
  {
    ps != [] && (Normalize(width, height, ps[|ps| - 1]) == c || Hits(width, height, ps[..|ps| - 1], c))
  }

  lemma {:induction false} HitsIff(width: int, height: int, ps: seq<Position>, c: Position)
    requires width > 0 && height > 0
    ensures Hits(width, height, ps, c) <==> exists k | 0 <= k < |ps| :: Normalize(width, height, ps[k]) == c
  {
    if ps != [] {
      var init := ps[..|ps| - 1];
      HitsIff(width, height, init, c);
      if exists k | 0 <= k < |init| :: Normalize(width, height, init[k]) == c {
        var k :| 0 <= k < |init| && Normalize(width, height, init[k]) == c;
        assert ps[k] == init[k];
      }
      if exists k | 0 <= k < |ps| :: Normalize(width, height, ps[k]) == c {
        var k :| 0 <= k < |ps| && Normalize(width, height, ps[k]) == c;
        if k < |init| { assert init[k] == ps[k]; }
      }
    }
  }

  lemma {:induction false} MarkAllHits(g: Grid, width: int, height: int, ps: seq<Position>, j: nat, c: Position)
    requires width > 0 && height > 0 && Shaped(g, width, height) && InBounds(width, height, c)
    ensures var r := MarkAll(g, width, height, ps, j);
      r[c.y][c.x] == if Hits(width, height, ps, c) then g[c.y][c.x].(ship := Some(j)) else g[c.y][c.x]
  {
    if ps != [] {
      MarkAllHits(g, width, height, ps[..|ps| - 1], j, c);
    }
  }

  /** Marking a list of positions sets exactly the cells some position wraps onto. */
  lemma {:induction false} MarkAllAt(g: Grid, width: int, height: int, ps: seq<Position>, j: nat, c: Position)
    requires width > 0 && height > 0 && Shaped(g, width, height) && InBounds(width, height, c)
    ensures var r := MarkAll(g, width, height, ps, j);
      r[c.y][c.x] == if exists k | 0 <= k < |ps| :: Normalize(width, height, ps[k]) == c
                     then g[c.y][c.x].(ship := Some(j)) else g[c.y][c.x]
  {
    MarkAllHits(g, width, height, ps, j, c);
    HitsIff(width, height, ps, c);
  }

  /** A ship marks exactly its four cardinal neighbours. */
  lemma {:induction false} MarkNeighboursAt(g: Grid, width: int, height: int, p: Position, j: nat, c: Position)
    requires width > 0 && height > 0 && Shaped(g, width, height) && InBounds(width, height, c)
    ensures var r := MarkAll(g, width, height, SurroundingCardinals(p), j);
      r[c.y][c.x] == if Threatens(width, height, p, c) then g[c.y][c.x].(ship := Some(j)) else g[c.y][c.x]
  {
    var ps := SurroundingCardinals(p);
    MarkAllAt(g, width, height, ps, j, c);
    if Threatens(width, height, p, c) {
      if c == Normalize(width, height, ps[0]) {
      } else if c == Normalize(width, height, ps[1]) {
      } else if c == Normalize(width, height, ps[2]) {
      } else {
        assert c == Normalize(width, height, ps[3]);
      }
    }
  }

  /** The threat marker leaves a cell untouched when no ship of `js` is next to it. */
  lemma {:induction false} ThreatenUntouched(g: Grid, width: int, height: int, ships: seq<Ship>, js: seq<nat>, c: Position)
    requires width > 0 && height > 0 && Shaped(g, width, height) && InBounds(width, height, c)
    requires forall k | 0 <= k < |js| :: js[k] < |ships|
    requires forall k | 0 <= k < |js| :: !Threatens(width, height, ships[js[k]].position, c)
    ensures Threaten(g, width, height, ships, js)[c.y][c.x] == g[c.y][c.x]
  {
    if js != [] {
      var init := js[..|js| - 1];
      var j := js[|js| - 1];
      var before := Threaten(g, width, height, ships, init);
      assert Threaten(g, width, height, ships, js) == MarkAll(before, width, height, SurroundingCardinals(ships[j].position), j);
      forall k | 0 <= k < |init| ensures !Threatens(width, height, ships[init[k]].position, c) {
        assert init[k] == js[k];
      }
      ThreatenUntouched(g, width, height, ships, init, c);
      MarkNeighboursAt(before, width, height, ships[j].position, j, c);
    }
  }

  /**
    A cell next to some ship of `js` ends up occupied by the LAST such ship; its halite,
    inspiration and structure do not change.
  */
  lemma {:induction false} ThreatenLast(g: Grid, width: int, height: int, ships: seq<Ship>, js: seq<nat>, c: Position, k: nat)
    requires width > 0 && height > 0 && Shaped(g, width, height) && InBounds(width, height, c)
    requires forall i | 0 <= i < |js| :: js[i] < |ships|
    requires k < |js| && Threatens(width, height, ships[js[k]].position, c)
    requires forall k' | k < k' < |js| :: !Threatens(width, height, ships[js[k']].position, c)
    ensures Threaten(g, width, height, ships, js)[c.y][c.x] == g[c.y][c.x].(ship := Some(js[k]))
  {
    var init := js[..|js| - 1];
    ThreatenStep(g, width, height, ships, js, c);
    if k < |js| - 1 {
      ThreatenShift(width, height, ships, js, init, c, k);
      ThreatenLast(g, width, height, ships, init, c, k);
    } else {
      ThreatenKeepsCell(g, width, height, ships, init, c);
    }
  }

  /** Below the last ship of `js`, the ship `js[k]` is still the last one next to `c`. */
  lemma {:induction false} ThreatenShift(width: int, height: int, ships: seq<Ship>, js: seq<nat>, init: seq<nat>, c: Position, k: nat)
    requires width > 0 && height > 0
    requires forall i | 0 <= i < |js| :: js[i] < |ships|
    requires k < |js| - 1 && init == js[..|js| - 1]
    requires forall k' | k < k' < |js| :: !Threatens(width, height, ships[js[k']].position, c)
    ensures init[k] == js[k]
    ensures !Threatens(width, height, ships[js[|js| - 1]].position, c)
    ensures forall k' | k < k' < |init| :: !Threatens(width, height, ships[init[k']].position, c)
  {
    forall k' | k < k' < |init| ensures !Threatens(width, height, ships[init[k']].position, c) {
      assert init[k'] == js[k'];
    }
  }

  /** The last ship of `js` marks the cell `c` when it is next to it, and otherwise leaves it. */
  lemma {:induction false} ThreatenStep(g: Grid, width: int, height: int, ships: seq<Ship>, js: seq<nat>, c: Position)
    requires width > 0 && height > 0 && Shaped(g, width, height) && InBounds(width, height, c)
    requires forall i | 0 <= i < |js| :: js[i] < |ships|
    requires js != []
    ensures var before := Threaten(g, width, height, ships, js[..|js| - 1]);
      var j := js[|js| - 1];
      Threaten(g, width, height, ships, js)[c.y][c.x]
        == if Threatens(width, height, ships[j].position, c) then before[c.y][c.x].(ship := Some(j)) else before[c.y][c.x]
  {
    var init, j := js[..|js| - 1], js[|js| - 1];
    assert Threaten(g, width, height, ships, js)
        == MarkAll(Threaten(g, width, height, ships, init), width, height, SurroundingCardinals(ships[j].position), j);
    MarkNeighboursAt(Threaten(g, width, height, ships, init), width, height, ships[j].position, j, c);
  }

  /** The threat marker changes nothing but occupants. */
  lemma {:induction false} ThreatenKeepsCell(g: Grid, width: int, height: int, ships: seq<Ship>, js: seq<nat>, c: Position)
    requires width > 0 && height > 0 && Shaped(g, width, height) && InBounds(width, height, c)
    requires forall i | 0 <= i < |js| :: js[i] < |ships|
    ensures var r := Threaten(g, width, height, ships, js);
      r[c.y][c.x] == g[c.y][c.x].(ship := r[c.y][c.x].ship)
  {
    if js != [] {
      var init := js[..|js| - 1];
      var j := js[|js| - 1];
      var before := Threaten(g, width, height, ships, init);
      ThreatenKeepsCell(g, width, height, ships, init, c);
      MarkNeighboursAt(before, width, height, ships[j].position, j, c);
    }
  }

  /** Marking only ever records ships of `js`, so occupants stay within the arena. */
  lemma {:induction false} ThreatenOccupants(g: Grid, width: int, height: int, ships: seq<Ship>, js: seq<nat>)
    requires width > 0 && height > 0 && Shaped(g, width, height)
    requires forall k | 0 <= k < |js| :: js[k] < |ships|
    requires OccupantsIn(g, width, height, |ships|)
    ensures OccupantsIn(Threaten(g, width, height, ships, js), width, height, |ships|)
  {
    forall y, x | 0 <= y < height && 0 <= x < width
      ensures var r := Threaten(g, width, height, ships, js);
        r[y][x].ship.Some? ==> r[y][x].ship.value < |ships|
    {
      var c := Position(x, y);
      LastThreat(width, height, ships, js, c);
      if exists k | 0 <= k < |js| :: Threatens(width, height, ships[js[k]].position, c) {
        var k :| 0 <= k < |js| && Threatens(width, height, ships[js[k]].position, c) &&
          forall k' | k < k' < |js| :: !Threatens(width, height, ships[js[k']].position, c);
        ThreatenLast(g, width, height, ships, js, c, k);
      } else {
        ThreatenUntouched(g, width, height, ships, js, c);
      }
    }
  }

  /** Past a set flag there is a last set flag. */
  lemma {:induction false} LastSet(bs: seq<bool>, i: nat)
    requires i < |bs| && bs[i]
    ensures exists k | i <= k < |bs| :: bs[k] && forall k' | k < k' < |bs| :: !bs[k']
    decreases |bs| - i
  {
    if exists j | i < j < |bs| :: bs[j] {
      var j :| i < j < |bs| && bs[j];
      LastSet(bs, j);
    } else {
      assert bs[i] && forall k' | i < k' < |bs| :: !bs[k'];
    }
  }

  /** If some ship of `js` threatens `c`, there is a last one that does. */
  lemma {:induction false} LastThreat(width: int, height: int, ships: seq<Ship>, js: seq<nat>, c: Position)
    requires width > 0 && height > 0
    requires forall k | 0 <= k < |js| :: js[k] < |ships|
    ensures (exists k | 0 <= k < |js| :: Threatens(width, height, ships[js[k]].position, c)) ==>
      exists k | 0 <= k < |js| :: Threatens(width, height, ships[js[k]].position, c) &&
        forall k' | k < k' < |js| :: !Threatens(width, height, ships[js[k']].position, c)
  {
    var bs := seq(|js|, k requires 0 <= k < |js| => Threatens(width, height, ships[js[k]].position, c));
    assert forall k | 0 <= k < |js| :: bs[k] == Threatens(width, height, ships[js[k]].position, c);
    if k0 :| 0 <= k0 < |js| && bs[k0] {
      LastSet(bs, k0);
    }
  }
}
