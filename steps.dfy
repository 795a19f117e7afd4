/**
  The state `GameMap.newNavigate` threads through its loop and its recursion, the relation
  between the state it starts from and the state it has reached, and one lemma per kind of
  decision showing that the decision keeps that relation.
*/
module Steps {
  import opened Optional
  import opened Geometry
  import opened World
  import opened Lists
  import opened Resolution

  /** A list of ships still to move: arena indices, no ship twice. */
  predicate Pending(ps: seq<nat>, n: nat)
  {
    Distinct(ps) && forall k | 0 <= k < |ps| :: ps[k] < n
  }

  /**
    A cell whose occupant is a ship still to move is that ship's own cell: nothing has been
    committed into a cell on behalf of a ship that has not been resolved yet.
  */
  predicate OnlyOwnCells(g: Grid, width: int, height: int, ships: seq<Ship>, pending: seq<nat>)
    requires Shaped(g, width, height)
  {
    forall y, x | 0 <= y < height && 0 <= x < width ::
      g[y][x].ship.Some? && g[y][x].ship.value in pending ==>
        g[y][x].ship.value < |ships| && ships[g[y][x].ship.value].position == Position(x, y)
  }

  /** Two states of one ship that agree on everything but its candidate moves and visited flag. */
  predicate SameShip(a: Ship, b: Ship)
  {
    a.id == b.id && a.owner == b.owner && a.halite == b.halite && a.position == b.position
  }

  /** What the resolver works on: occupancy, the ships, the ships still to move, the commands. */
  datatype Snapshot = Snapshot(cells: Grid, ships: seq<Ship>, pending: seq<nat>, out: seq<Command>)

  predicate WellFormed(width: int, height: int, a: Snapshot)
  {
    && width > 0 && height > 0
    && Shaped(a.cells, width, height) && OccupantsIn(a.cells, width, height, |a.ships|)
    && (forall i | 0 <= i < |a.ships| :: InBounds(width, height, a.ships[i].position))
    && Pending(a.pending, |a.ships|)
    && OnlyOwnCells(a.cells, width, height, a.ships, a.pending)
  }

  /**
    The decisions `events`, taken from `a`, are legal one after the other and lead to `b`:
    the occupancy is their replay and the commands are the old ones followed by theirs.
  */
  ghost predicate Replays(width: int, height: int, a: Snapshot, b: Snapshot, events: seq<Event>)
  {
    && width > 0 && height > 0 && Shaped(a.cells, width, height)
    && ShipsIn(events, |a.ships|)
    && Legal(a.cells, width, height, a.ships, events)
    && b.cells == Replay(a.cells, width, height, events)
    && b.out == a.out + CommandsOf(events, a.ships)
  }

  /**
    The ships `done` resolved, each one still to move in `pending0` and none twice on a map at
    least two cells wide and high, have left the pending list.
  */
  predicate Removes(width: int, height: int, pending0: seq<nat>, pending: seq<nat>, done: seq<nat>)
  {
    && pending == Except(pending0, done)
    && (forall j | j in done :: j in pending0)
    && (width >= 2 && height >= 2 ==> Distinct(done))
  }

  ghost predicate Effects(width: int, height: int, a: Snapshot, b: Snapshot, events: seq<Event>)
  {
    Replays(width, height, a, b, events) && Removes(width, height, a.pending, b.pending, ShipsOf(events))
  }

  /**
    From `ships0` to `ships`, every ship keeps its id, owner, cargo and place; the ships of
    `done` have no candidates left; no other ship but `s` has changed at all; visited flags
    are only ever set.
  */
  predicate Keeps(ships0: seq<Ship>, ships: seq<Ship>, done: seq<nat>, s: nat)
  {
    && |ships| == |ships0|
    && (forall j | 0 <= j < |ships| :: SameShip(ships[j], ships0[j]))
    && (forall j | 0 <= j < |ships| && j != s && j !in done :: ships[j] == ships0[j])
    && (forall j | 0 <= j < |ships| && j in done :: ships[j].moves == [])
    && (forall j | 0 <= j < |ships| :: ships0[j].visited ==> ships[j].visited)
  }

  /**
    `b` is what resolving ship `s` by the decisions `events` has made of `a`.
    Preconditions below write `Traced(...) == true`: compared with `true`, the predicate stays
    one fact for the verifier instead of being split into all its conjuncts at every call.
  */
  ghost predicate Traced(width: int, height: int, a: Snapshot, b: Snapshot, events: seq<Event>, s: nat)
  {
    && WellFormed(width, height, a) && WellFormed(width, height, b)
    && Effects(width, height, a, b, events)
    && Keeps(a.ships, b.ships, ShipsOf(events), s)
  }

  // ---------------------------------------------------------------------------
  // Helpers
  // ---------------------------------------------------------------------------

  /** Marking depends on a position only through the cell it wraps onto. */
  lemma {:induction false} MarkNormalize(g: Grid, width: int, height: int, p: Position, o: Option<nat>)
    requires width > 0 && height > 0 && Shaped(g, width, height)
    ensures Mark(g, width, height, Normalize(width, height, p), o) == Mark(g, width, height, p, o)
  {
    NormalizeIdempotent(width, height, p);
  }

  /** The last decision's effect, spelled out for a trace that ends in `e`. */
  lemma {:induction false} Snoc(g: Grid, width: int, height: int, ships: seq<Ship>, events: seq<Event>, e: Event)
    requires width > 0 && height > 0 && Shaped(g, width, height)
    requires ShipsIn(events, |ships|) && EventIn(e, |ships|)
    ensures ShipsIn(events + [e], |ships|)
    ensures ShipsOf(events + [e]) == ShipsOf(events) + EventShips(e)
    ensures CommandsOf(events + [e], ships) == CommandsOf(events, ships) + EventCommands(e, ships)
    ensures Replay(g, width, height, events + [e]) == Apply(Replay(g, width, height, events), width, height, e)
    ensures Legal(g, width, height, ships, events + [e]) <==>
      Legal(g, width, height, ships, events) && StepLegal(Replay(g, width, height, events), width, height, ships, e)
  {
    var t := events + [e];
    assert t[..|t| - 1] == events;
    assert forall i | 0 <= i < |t| :: t[i] == if i < |events| then events[i] else e;
  }

  lemma {:induction false} AppendAssoc<T>(x: seq<T>, y: seq<T>, z: seq<T>)
    ensures (x + y) + z == x + (y + z)
  {
  }

  /** Resolving ships `r` out of the pending list in one go. */
  lemma {:induction false} ExceptMore(p0: seq<nat>, done: seq<nat>, pending: seq<nat>, r: seq<nat>)
    requires Distinct(p0) && pending == Except(p0, done)
    ensures Except(pending, r) == Except(p0, done + r)
    ensures Distinct(Except(pending, r))
  {
    ExceptTwice(p0, done, r);
    ExceptDistinct(p0, done + r);
  }

  /**
    Well-formedness survives keeping the occupancy, keeping every ship where it is and
    shrinking the pending list.
  */
  lemma {:induction false} Reframe(width: int, height: int, b: Snapshot, ships': seq<Ship>, pending': seq<nat>, out': seq<Command>)
    requires WellFormed(width, height, b)
    requires |ships'| == |b.ships| && forall j | 0 <= j < |ships'| :: ships'[j].position == b.ships[j].position
    requires Distinct(pending') && forall j | j in pending' :: j in b.pending
    ensures WellFormed(width, height, Snapshot(b.cells, ships', pending', out'))
  {
    forall k | 0 <= k < |pending'| ensures pending'[k] < |ships'| {
      assert pending'[k] in b.pending;
    }
    forall y, x | 0 <= y < height && 0 <= x < width && b.cells[y][x].ship.Some? && b.cells[y][x].ship.value in pending'
      ensures b.cells[y][x].ship.value < |ships'| && ships'[b.cells[y][x].ship.value].position == Position(x, y)
    {
      assert b.cells[y][x].ship.value in b.pending;
    }
  }

  /** One more decision `e` extends the trace. */
  lemma {:induction false} ReplaysSnoc(width: int, height: int, a: Snapshot, b: Snapshot, events: seq<Event>, e: Event, b': Snapshot)
    requires Replays(width, height, a, b, events)
    requires EventIn(e, |a.ships|) && StepLegal(b.cells, width, height, a.ships, e)
    requires b'.cells == Apply(b.cells, width, height, e)
    requires b'.out == b.out + EventCommands(e, a.ships)
    ensures Replays(width, height, a, b', events + [e])
    ensures ShipsOf(events + [e]) == ShipsOf(events) + EventShips(e)
  {
    Snoc(a.cells, width, height, a.ships, events, e);
    AppendAssoc(a.out, CommandsOf(events, a.ships), EventCommands(e, a.ships));
  }

  /** The ships `r` resolved next leave the pending list too. */
  lemma {:induction false} RemovesMore(width: int, height: int, pending0: seq<nat>, pending: seq<nat>, done: seq<nat>, r: seq<nat>)
    requires Removes(width, height, pending0, pending, done) && Distinct(pending0)
    requires forall j | j in r :: j in pending
    requires width >= 2 && height >= 2 ==> Distinct(r)
    ensures Removes(width, height, pending0, Except(pending, r), done + r)
  {
    ExceptMore(pending0, done, pending, r);
    if width >= 2 && height >= 2 {
      DistinctConcat(done, r);
    }
  }

  lemma {:induction false} EffectsSnoc(width: int, height: int, a: Snapshot, b: Snapshot, events: seq<Event>, e: Event, b': Snapshot)
    requires Effects(width, height, a, b, events) && Distinct(a.pending)
    requires EventIn(e, |a.ships|) && StepLegal(b.cells, width, height, a.ships, e)
    requires b'.cells == Apply(b.cells, width, height, e)
    requires b'.out == b.out + EventCommands(e, a.ships)
    requires b'.pending == Except(b.pending, EventShips(e))
    requires forall j | j in EventShips(e) :: j in b.pending
    requires width >= 2 && height >= 2 ==> Distinct(EventShips(e))
    ensures Effects(width, height, a, b', events + [e])
    ensures ShipsOf(events + [e]) == ShipsOf(events) + EventShips(e)
  {
    ReplaysSnoc(width, height, a, b, events, e, b');
    RemovesMore(width, height, a.pending, b.pending, ShipsOf(events), EventShips(e));
  }

  /** A nested trace, taken from where the outer one stands, extends it. */
  lemma {:induction false} ReplaysNest(width: int, height: int, a: Snapshot, b: Snapshot, c: Snapshot, events: seq<Event>, sub: seq<Event>)
    requires Replays(width, height, a, b, events) && Replays(width, height, b, c, sub)
    requires |b.ships| == |a.ships|
    requires forall j | j in ShipsOf(sub) && j < |a.ships| ::
      && b.ships[j].id == a.ships[j].id && b.ships[j].owner == a.ships[j].owner
      && b.ships[j].position == a.ships[j].position
      && forall x | x in b.ships[j].moves :: x in a.ships[j].moves
    ensures Replays(width, height, a, c, events + sub)
    ensures ShipsOf(events + sub) == ShipsOf(events) + ShipsOf(sub)
  {
    LegalNest(width, height, a, b, events, sub);
    ReplayAppend(a.cells, width, height, events, sub);
    CommandsNest(a, b, c, events, sub);
    ShipsOfAppend(events, sub);
  }

  lemma {:induction false} LegalNest(width: int, height: int, a: Snapshot, b: Snapshot, events: seq<Event>, sub: seq<Event>)
    requires width > 0 && height > 0 && Shaped(a.cells, width, height)
    requires Legal(a.cells, width, height, a.ships, events) && b.cells == Replay(a.cells, width, height, events)
    requires Legal(b.cells, width, height, b.ships, sub)
    requires |b.ships| == |a.ships|
    requires forall j | j in ShipsOf(sub) && j < |a.ships| ::
      && b.ships[j].owner == a.ships[j].owner && b.ships[j].position == a.ships[j].position
      && forall x | x in b.ships[j].moves :: x in a.ships[j].moves
    ensures Legal(a.cells, width, height, a.ships, events + sub)
  {
    LegalTransfer(b.cells, width, height, b.ships, a.ships, sub);
    LegalAppend(a.cells, width, height, a.ships, events, sub);
  }

  lemma {:induction false} CommandsNest(a: Snapshot, b: Snapshot, c: Snapshot, events: seq<Event>, sub: seq<Event>)
    requires ShipsIn(events, |a.ships|) && ShipsIn(sub, |b.ships|) && |b.ships| == |a.ships|
    requires b.out == a.out + CommandsOf(events, a.ships) && c.out == b.out + CommandsOf(sub, b.ships)
    requires forall j | j in ShipsOf(sub) && j < |a.ships| :: b.ships[j].id == a.ships[j].id
    ensures ShipsIn(events + sub, |a.ships|)
    ensures c.out == a.out + CommandsOf(events + sub, a.ships)
  {
    CommandsTransfer(sub, b.ships, a.ships);
    CommandsOfAppend(events, sub, a.ships);
    AppendAssoc(a.out, CommandsOf(events, a.ships), CommandsOf(sub, a.ships));
  }

  lemma {:induction false} EffectsNest(width: int, height: int, a: Snapshot, b: Snapshot, c: Snapshot, events: seq<Event>, sub: seq<Event>)
    requires Effects(width, height, a, b, events) && Effects(width, height, b, c, sub) && Distinct(a.pending)
    requires |b.ships| == |a.ships|
    requires forall j | j in ShipsOf(sub) && j < |a.ships| ::
      && b.ships[j].id == a.ships[j].id && b.ships[j].owner == a.ships[j].owner
      && b.ships[j].position == a.ships[j].position
      && forall x | x in b.ships[j].moves :: x in a.ships[j].moves
    ensures Effects(width, height, a, c, events + sub)
    ensures ShipsOf(events + sub) == ShipsOf(events) + ShipsOf(sub)
  {
    ReplaysNest(width, height, a, b, c, events, sub);
    assert forall j | j in ShipsOf(sub) :: j in b.pending;
    RemovesMore(width, height, a.pending, b.pending, ShipsOf(events), ShipsOf(sub));
  }

  /** The ships resolved by one more step `r` join those already resolved. */
  lemma {:induction false} KeepsStep(ships0: seq<Ship>, ships: seq<Ship>, ships': seq<Ship>, done: seq<nat>, r: seq<nat>, s: nat)
    requires Keeps(ships0, ships, done, s) && s !in done && |ships'| == |ships|
    requires forall j | 0 <= j < |ships| :: SameShip(ships'[j], ships[j]) && (ships[j].visited ==> ships'[j].visited)
    requires forall j | 0 <= j < |ships| && j != s && j !in r :: ships'[j] == ships[j]
    requires forall j | 0 <= j < |ships| && j in r :: ships'[j].moves == []
    ensures Keeps(ships0, ships', done + r, s)
  {
    forall j | 0 <= j < |ships'| ensures SameShip(ships'[j], ships0[j]) {
      assert SameShip(ships'[j], ships[j]) && SameShip(ships[j], ships0[j]);
    }
  }

  /** The ships resolved by one more step `r` join those already resolved. */
  lemma {:induction false} KeepsClear(ships0: seq<Ship>, ships: seq<Ship>, done: seq<nat>, s: nat)
    requires Keeps(ships0, ships, done, s) && s !in done && s < |ships|
    ensures Keeps(ships0, ships[s := ships[s].(moves := [])], done + [s], s)
  {
    KeepsStep(ships0, ships, ships[s := ships[s].(moves := [])], done, [s], s);
  }

  lemma {:induction false} KeepsSwap(ships0: seq<Ship>, ships: seq<Ship>, done: seq<nat>, s: nat, v: nat)
    requires Keeps(ships0, ships, done, s) && s !in done && s < |ships| && v < |ships|
    ensures var ships' := ships[s := ships[s].(moves := [])];
      Keeps(ships0, ships'[v := ships'[v].(moves := [])], done + [s, v], s)
  {
    var ships' := ships[s := ships[s].(moves := [])];
    KeepsStep(ships0, ships, ships'[v := ships'[v].(moves := [])], done, [s, v], s);
  }

  /** Changing only the candidates or the visited flag of the ship being resolved. */
  lemma {:induction false} KeepsSelf(ships0: seq<Ship>, ships: seq<Ship>, done: seq<nat>, s: nat, ship: Ship)
    requires Keeps(ships0, ships, done, s) && s !in done && s < |ships|
    requires SameShip(ship, ships[s]) && (ships[s].visited ==> ship.visited)
    ensures Keeps(ships0, ships[s := ship], done, s)
  {
    KeepsStep(ships0, ships, ships[s := ship], done, [], s);
    assert done + [] == done;
  }

  // ---------------------------------------------------------------------------
  // The states each decision leads to
  // ---------------------------------------------------------------------------

  /** Ship `s` committed one step in direction `d`: target marked, source cleared, move emitted. */
  function AfterCommit(width: int, height: int, b: Snapshot, s: nat, d: Direction): Snapshot
    requires width > 0 && height > 0 && Shaped(b.cells, width, height) && s < |b.ships|
  {
    var pos := b.ships[s].position;
    Snapshot(
      Mark(Mark(b.cells, width, height, Offset(pos, d), Some(s)), width, height, pos, None),
      b.ships[s := b.ships[s].(moves := [])],
      Remove(b.pending, s),
      b.out + [Move(b.ships[s].id, d)])
  }

  function CommitEvent(width: int, height: int, b: Snapshot, s: nat, d: Direction): Event
    requires width > 0 && height > 0 && s < |b.ships|
  {
    var pos := b.ships[s].position;
    Moved(s, d, Normalize(width, height, pos), Normalize(width, height, Offset(pos, d)))
  }

  /** Ships `s` and `v` swapped head-on: both moves emitted, occupancy untouched. */
  function AfterSwap(b: Snapshot, s: nat, d: Direction, v: nat, dv: Direction): Snapshot
    requires s < |b.ships| && v < |b.ships|
  {
    var ships' := b.ships[s := b.ships[s].(moves := [])];
    Snapshot(
      b.cells,
      ships'[v := ships'[v].(moves := [])],
      Remove(Remove(b.pending, s), v),
      b.out + [Move(b.ships[s].id, d), Move(b.ships[v].id, dv)])
  }

  /** Ship `s` staying still. */
  function AfterStay(b: Snapshot, s: nat): Snapshot
    requires s < |b.ships|
  {
    Snapshot(b.cells, b.ships[s := b.ships[s].(moves := [])], Remove(b.pending, s), b.out + [Stay(b.ships[s].id)])
  }

  /** The decision to commit is possible: `s` is still to move and `d` leads to a free cell. */
  ghost predicate CommitReady(width: int, height: int, a: Snapshot, b: Snapshot, events: seq<Event>, s: nat, d: Direction)
  {
    && Traced(width, height, a, b, events, s) == true
    && s < |b.ships| && s in b.pending && d in a.ships[s].moves
    && !At(b.cells, width, height, Offset(b.ships[s].position, d)).IsOccupied()
  }

  /**
    The decision to swap is possible: `s` and `v` are friendly ships still to move, `v`
    occupies the cell `d` leads to, and `dv`, the opposite of `d`, is among its candidates.
  */
  ghost predicate SwapReady(width: int, height: int, a: Snapshot, b: Snapshot, events: seq<Event>, s: nat, d: Direction, v: nat, dv: Direction)
  {
    && Traced(width, height, a, b, events, s) == true
    && s < |b.ships| && v < |b.ships| && s in b.pending && v in b.pending
    && d in a.ships[s].moves && (forall x | x in b.ships[s].moves :: x in a.ships[s].moves)
    && Opposite(d) == Some(dv) && dv in b.ships[v].moves
    && b.ships[v].owner == b.ships[s].owner
    && At(b.cells, width, height, Offset(b.ships[s].position, d)).ship == Some(v)
  }

  // ---------------------------------------------------------------------------
  // Commit
  // ---------------------------------------------------------------------------

  lemma {:induction false} CommitEffects(width: int, height: int, a: Snapshot, b: Snapshot, events: seq<Event>, s: nat, d: Direction)
    requires CommitReady(width, height, a, b, events, s, d)
    ensures var e := CommitEvent(width, height, b, s, d);
      Effects(width, height, a, AfterCommit(width, height, b, s, d), events + [e])
      && ShipsOf(events + [e]) == ShipsOf(events) + [s]
  {
    var pos := b.ships[s].position;
    var e := CommitEvent(width, height, b, s, d);
    assert SameShip(b.ships[s], a.ships[s]);
    NormalizeIdempotent(width, height, Offset(pos, d));
    MarkNormalize(b.cells, width, height, Offset(pos, d), Some(s));
    MarkNormalize(Mark(b.cells, width, height, Offset(pos, d), Some(s)), width, height, pos, None);
    assert StepLegal(b.cells, width, height, a.ships, e);
    RemoveDistinct(b.pending, s);
    EffectsSnoc(width, height, a, b, events, e, AfterCommit(width, height, b, s, d));
  }

  lemma {:induction false} CommitFrame(width: int, height: int, b: Snapshot, s: nat, d: Direction)
    requires WellFormed(width, height, b) && s < |b.ships| && s in b.pending
    ensures WellFormed(width, height, AfterCommit(width, height, b, s, d))
  {
    var b' := AfterCommit(width, height, b, s, d);
    RemoveDistinct(b.pending, s);
    ExceptDistinct(b.pending, [s]);
    forall k | 0 <= k < |b'.pending| ensures b'.pending[k] < |b'.ships| {
      assert b'.pending[k] in b.pending;
    }
    forall y: int, x: int | 0 <= y < height && 0 <= x < width && b'.cells[y][x].ship.Some? && b'.cells[y][x].ship.value in b'.pending
      ensures b'.cells[y][x].ship.value < |b'.ships| && b'.ships[b'.cells[y][x].ship.value].position == Position(x, y)
    {
      assert b'.cells[y][x] == b.cells[y][x];
      assert b'.cells[y][x].ship.value in b.pending;
    }
  }

  /**
    `newNavigate`, free target: mark the target, clear the source, emit the move. The trace
    `events'` is `events` followed by the move.
  */
  lemma {:induction false} TraceCommit(width: int, height: int, a: Snapshot, b: Snapshot, events: seq<Event>, s: nat, d: Direction)
    returns (events': seq<Event>)
    requires CommitReady(width, height, a, b, events, s, d)
    ensures Traced(width, height, a, AfterCommit(width, height, b, s, d), events', s) && s in ShipsOf(events')
  {
    events' := events + [CommitEvent(width, height, b, s, d)];
    CommitEffects(width, height, a, b, events, s, d);
    CommitFrame(width, height, b, s, d);
    assert s !in ShipsOf(events);
    KeepsClear(a.ships, b.ships, ShipsOf(events), s);
  }

  // ---------------------------------------------------------------------------
  // Swap
  // ---------------------------------------------------------------------------

  /** Dropping two ships one after the other from a list without duplicates. */
  lemma {:induction false} RemoveTwo(p: seq<nat>, s: nat, v: nat)
    requires Distinct(p)
    ensures Remove(Remove(p, s), v) == Except(p, [s, v]) && Distinct(Except(p, [s, v]))
    ensures forall j | j in Except(p, [s, v]) :: j in p
  {
    RemoveDistinct(p, s);
    ExceptDistinct(p, [s]);
    RemoveDistinct(Remove(p, s), v);
    ExceptTwice(p, [s], [v]);
    assert [s] + [v] == [s, v];
    ExceptDistinct(p, [s, v]);
  }

  /**
    A head-on swap is legal: the occupant `v` of the target, being still to move, stands on
    the target, and the opposite step brings it back onto the mover's cell; on a map at least
    two cells wide and high the two ships are different.
  */
  lemma {:induction false} SwapLegal(width: int, height: int, a: Snapshot, b: Snapshot, events: seq<Event>, s: nat, d: Direction, v: nat, dv: Direction)
    requires SwapReady(width, height, a, b, events, s, d, v, dv)
    ensures StepLegal(b.cells, width, height, a.ships, Swapped(s, d, v, dv))
    ensures width >= 2 && height >= 2 ==> s != v
  {
    var ps, pv := b.ships[s].position, b.ships[v].position;
    var t := Normalize(width, height, Offset(ps, d));
    assert b.cells[t.y][t.x].ship == Some(v);
    assert pv == t;
    assert SameShip(b.ships[s], a.ships[s]) && SameShip(b.ships[v], a.ships[v]);
    NormalizeIdempotent(width, height, Offset(ps, d));
    OppositeReturns(width, height, ps, d, dv);
    assert v !in ShipsOf(events);
    assert v != s ==> b.ships[v] == a.ships[v];
    if width >= 2 && height >= 2 {
      StepLeavesCell(width, height, ps, d);
      NormalizeInBounds(width, height, ps);
    }
  }

  lemma {:induction false} SwapEffects(width: int, height: int, a: Snapshot, b: Snapshot, events: seq<Event>, s: nat, d: Direction, v: nat, dv: Direction)
    requires Effects(width, height, a, b, events) && Distinct(a.pending) && Distinct(b.pending)
    requires |b.ships| == |a.ships| && s < |b.ships| && v < |b.ships| && s in b.pending && v in b.pending
    requires b.ships[s].id == a.ships[s].id && b.ships[v].id == a.ships[v].id
    requires StepLegal(b.cells, width, height, a.ships, Swapped(s, d, v, dv))
    requires width >= 2 && height >= 2 ==> s != v
    ensures var e := Swapped(s, d, v, dv);
      Effects(width, height, a, AfterSwap(b, s, d, v, dv), events + [e])
      && ShipsOf(events + [e]) == ShipsOf(events) + [s, v]
  {
    RemoveTwo(b.pending, s, v);
    EffectsSnoc(width, height, a, b, events, Swapped(s, d, v, dv), AfterSwap(b, s, d, v, dv));
  }

  lemma {:induction false} SwapFrame(width: int, height: int, b: Snapshot, s: nat, d: Direction, v: nat, dv: Direction)
    requires WellFormed(width, height, b) && s < |b.ships| && v < |b.ships|
    ensures WellFormed(width, height, AfterSwap(b, s, d, v, dv))
  {
    var b' := AfterSwap(b, s, d, v, dv);
    RemoveTwo(b.pending, s, v);
    Reframe(width, height, b, b'.ships, b'.pending, b'.out);
  }

  /**
    `newNavigate`, head-on swap with the visited friendly ship `v` that occupies the target
    and has the opposite direction `dv` among its candidates: both moves are emitted, both
    ships are resolved, occupancy is left as it is.
  */
  lemma {:induction false} TraceSwap(width: int, height: int, a: Snapshot, b: Snapshot, events: seq<Event>, s: nat, d: Direction, v: nat, dv: Direction)
    returns (events': seq<Event>)
    requires SwapReady(width, height, a, b, events, s, d, v, dv)
    ensures Traced(width, height, a, AfterSwap(b, s, d, v, dv), events', s) && s in ShipsOf(events')
  {
    events' := events + [Swapped(s, d, v, dv)];
    SwapLegal(width, height, a, b, events, s, d, v, dv);
    assert SameShip(b.ships[s], a.ships[s]) && SameShip(b.ships[v], a.ships[v]);
    SwapEffects(width, height, a, b, events, s, d, v, dv);
    SwapFrame(width, height, b, s, d, v, dv);
    assert s !in ShipsOf(events);
    KeepsSwap(a.ships, b.ships, ShipsOf(events), s, v);
  }

  // ---------------------------------------------------------------------------
  // Visit, nest, pop, stay
  // ---------------------------------------------------------------------------

  /** Nothing decided yet. */
  lemma {:induction false} TraceStart(width: int, height: int, a: Snapshot, s: nat)
    requires WellFormed(width, height, a)
    ensures Traced(width, height, a, a, [], s)
  {
    ExceptNone(a.pending, []);
  }

  /** `newNavigate`, before recursing into the blocking ship: `s` is marked visited. */
  lemma {:induction false} TraceVisit(width: int, height: int, a: Snapshot, b: Snapshot, events: seq<Event>, s: nat)
    requires Traced(width, height, a, b, events, s) == true && s < |b.ships| && s in b.pending
    ensures var b' := b.(ships := b.ships[s := b.ships[s].(visited := true)]);
      && Traced(width, height, a, b', events, s)
      && Unvisited(b'.ships) <= Unvisited(a.ships)
      && (!a.ships[s].visited ==> Unvisited(b'.ships) < Unvisited(a.ships))
  {
    var b' := b.(ships := b.ships[s := b.ships[s].(visited := true)]);
    Reframe(width, height, b, b'.ships, b'.pending, b'.out);
    assert s !in ShipsOf(events);
    KeepsSelf(a.ships, b.ships, ShipsOf(events), s, b.ships[s].(visited := true));
    UnvisitedShrinks(a.ships, b'.ships, s);
  }

  /**
    `newNavigate`, after the recursive call on `v` returned: the nested trace `sub` carries on
    the outer one.
  */
  lemma {:induction false} TraceNest(width: int, height: int, a: Snapshot, b: Snapshot, c: Snapshot,
                  events: seq<Event>, sub: seq<Event>, s: nat, v: nat)
    returns (events': seq<Event>)
    requires Traced(width, height, a, b, events, s) == true && Traced(width, height, b, c, sub, v) == true
    requires s < |b.ships| && s in b.pending && v in ShipsOf(sub)
    requires forall x | x in b.ships[s].moves :: x in a.ships[s].moves
    ensures Traced(width, height, a, c, events', s)
    ensures c.ships[s].moves == [] || (s in c.pending && c.ships[s] == b.ships[s])
    ensures Unvisited(c.ships) <= Unvisited(b.ships)
  {
    events' := events + sub;
    NestEffects(width, height, a, b, c, events, sub, s);
    assert s !in ShipsOf(events);
    KeepsStep(a.ships, b.ships, c.ships, ShipsOf(events), ShipsOf(sub), s);
    UnvisitedShrinks(b.ships, c.ships, -1);
  }

  lemma {:induction false} NestEffects(width: int, height: int, a: Snapshot, b: Snapshot, c: Snapshot,
                    events: seq<Event>, sub: seq<Event>, s: nat)
    requires Traced(width, height, a, b, events, s) && Effects(width, height, b, c, sub)
    requires s < |b.ships| && forall x | x in b.ships[s].moves :: x in a.ships[s].moves
    ensures Effects(width, height, a, c, events + sub)
    ensures ShipsOf(events + sub) == ShipsOf(events) + ShipsOf(sub)
  {
    forall j | j in ShipsOf(sub) && j < |a.ships|
      ensures && b.ships[j].id == a.ships[j].id && b.ships[j].owner == a.ships[j].owner
              && b.ships[j].position == a.ships[j].position
              && forall x | x in b.ships[j].moves :: x in a.ships[j].moves
    {
      assert SameShip(b.ships[j], a.ships[j]);
      assert j in b.pending;
      assert j !in ShipsOf(events);
    }
    EffectsNest(width, height, a, b, c, events, sub);
  }

  /** `newNavigate`, the candidate at the head did not work out: drop it. */
  lemma {:induction false} TracePop(width: int, height: int, a: Snapshot, b: Snapshot, events: seq<Event>, s: nat)
    requires Traced(width, height, a, b, events, s) == true
    requires s < |b.ships| && s in b.pending && b.ships[s].moves != []
    ensures var b' := b.(ships := b.ships[s := b.ships[s].(moves := b.ships[s].moves[1..])]);
      Traced(width, height, a, b', events, s) && Unvisited(b'.ships) == Unvisited(b.ships)
  {
    var b' := b.(ships := b.ships[s := b.ships[s].(moves := b.ships[s].moves[1..])]);
    Reframe(width, height, b, b'.ships, b'.pending, b'.out);
    assert s !in ShipsOf(events);
    KeepsSelf(a.ships, b.ships, ShipsOf(events), s, b.ships[s].(moves := b.ships[s].moves[1..]));
    UnvisitedShrinks(b.ships, b'.ships, -1);
    UnvisitedShrinks(b'.ships, b.ships, -1);
  }

  lemma {:induction false} StayEffects(width: int, height: int, a: Snapshot, b: Snapshot, events: seq<Event>, s: nat)
    requires Traced(width, height, a, b, events, s) && s < |b.ships| && s in b.pending
    ensures Effects(width, height, a, AfterStay(b, s), events + [Stayed(s)])
    ensures ShipsOf(events + [Stayed(s)]) == ShipsOf(events) + [s]
  {
    assert SameShip(b.ships[s], a.ships[s]);
    RemoveDistinct(b.pending, s);
    EffectsSnoc(width, height, a, b, events, Stayed(s), AfterStay(b, s));
  }

  /** `newNavigate`, candidates exhausted while still pending: the ship stays still. */
  lemma {:induction false} TraceStay(width: int, height: int, a: Snapshot, b: Snapshot, events: seq<Event>, s: nat)
    returns (events': seq<Event>)
    requires Traced(width, height, a, b, events, s) == true
    requires s < |b.ships| && s in b.pending
    ensures Traced(width, height, a, AfterStay(b, s), events', s) && s in ShipsOf(events')
  {
    events' := events + [Stayed(s)];
    StayEffects(width, height, a, b, events, s);
    var b' := AfterStay(b, s);
    RemoveDistinct(b.pending, s);
    ExceptDistinct(b.pending, [s]);
    Reframe(width, height, b, b'.ships, b'.pending, b'.out);
    assert s !in ShipsOf(events);
    KeepsClear(a.ships, b.ships, ShipsOf(events), s);
  }
}
