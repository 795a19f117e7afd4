/**
  What the decisions of one resolution reserve: the cell each resolved ship ends the turn on.
  Provided the ships still to move stand on distinct cells, each of them occupied (by the ship
  itself, or by the threat of an enemy next to it), no two resolved ships end on the same cell
  and none ends on the cell of a ship still to move.
*/
module Reservations {
  import opened Optional
  import opened Geometry
  import opened World
  import opened Lists
  import opened Resolution
  import opened Steps

  /** The cells the ships `e` resolves end the turn on, in the order of `EventShips(e)`. */
  function Destinations(width: int, height: int, ships: seq<Ship>, e: Event): (r: seq<Position>)
    requires width > 0 && height > 0 && EventIn(e, |ships|)
    ensures |r| == |EventShips(e)|
  {
    match e
    case Moved(_, _, _, to) => [to]
    case Swapped(j, d, k, dk) =>
      [Normalize(width, height, Offset(ships[j].position, d)), Normalize(width, height, Offset(ships[k].position, dk))]
    case Stayed(j) => [Normalize(width, height, ships[j].position)]
  }

  /** The cells the ships `events` resolve end the turn on, in the order of `ShipsOf(events)`. */
  function DestinationsOf(width: int, height: int, ships: seq<Ship>, events: seq<Event>): (r: seq<Position>)
    requires width > 0 && height > 0 && ShipsIn(events, |ships|)
    ensures |r| == |ShipsOf(events)|
  {
    if events == [] then []
    else
      var init := events[..|events| - 1];
      assert forall i | 0 <= i < |init| :: init[i] == events[i];
      DestinationsOf(width, height, ships, init) + Destinations(width, height, ships, events[|events| - 1])
  }

  /** No cell twice. */
  predicate Apart(ps: seq<Position>)
  {
    forall i, k | 0 <= i < k < |ps| :: ps[i] != ps[k]
  }

  /** The ships still to move stand on distinct cells, and each of those cells is occupied. */
  predicate Anchored(g: Grid, width: int, height: int, ships: seq<Ship>, pending: seq<nat>)
    requires width > 0 && height > 0 && Shaped(g, width, height)
  {
    && (forall j | j in pending :: j < |ships| && At(g, width, height, ships[j].position).IsOccupied())
    && (forall j, k | j in pending && k in pending && j < |ships| && k < |ships| && j != k ::
          ships[j].position != ships[k].position)
  }

  /**
    After the ships `done` were resolved onto the cells `dests`: the ships still to move
    stand on occupied cells; every reserved cell is on the map, occupied, and none of theirs;
    no cell is reserved twice.
  */
  predicate Reserved(g: Grid, width: int, height: int, ships: seq<Ship>, pending: seq<nat>, done: seq<nat>, dests: seq<Position>)
    requires width > 0 && height > 0 && Shaped(g, width, height)
  {
    && (forall j | j in pending && j !in done :: j < |ships| && At(g, width, height, ships[j].position).IsOccupied())
    && (forall i | 0 <= i < |dests| :: InBounds(width, height, dests[i]) && At(g, width, height, dests[i]).IsOccupied())
    && (forall i, j | 0 <= i < |dests| && j in pending && j !in done && j < |ships| :: dests[i] != ships[j].position)
    && Apart(dests)
  }

  /** Marking a cell changes that cell's occupant and no other cell. */
  lemma {:induction false} AtMark(g: Grid, width: int, height: int, p: Position, o: Option<nat>, x: Position)
    requires width > 0 && height > 0 && Shaped(g, width, height)
    requires InBounds(width, height, p) && InBounds(width, height, x)
    ensures At(Mark(g, width, height, p, o), width, height, x)
         == if x == p then At(g, width, height, x).(ship := o) else At(g, width, height, x)
  {
    NormalizeInBounds(width, height, p);
    NormalizeInBounds(width, height, x);
  }

  /** A committed move reserves the free cell it goes to and frees the mover's own cell only. */
  lemma {:induction false} MovedReserves(g: Grid, width: int, height: int, ships: seq<Ship>, pending: seq<nat>,
                                         done: seq<nat>, dests: seq<Position>, e: Event)
    requires width > 0 && height > 0 && Shaped(g, width, height)
    requires forall i | 0 <= i < |ships| :: InBounds(width, height, ships[i].position)
    requires forall j, k | j in pending && k in pending && j < |ships| && k < |ships| && j != k ::
      ships[j].position != ships[k].position
    requires Reserved(g, width, height, ships, pending, done, dests)
    requires e.Moved? && e.ship < |ships| && StepLegal(g, width, height, ships, e)
    requires e.ship in pending && e.ship !in done
    ensures Reserved(Apply(g, width, height, e), width, height, ships, pending, done + [e.ship], dests + [e.to])
  {
    var q, from, to := e.ship, e.from, e.to;
    NormalizeInBounds(width, height, ships[q].position);
    var g1 := Mark(g, width, height, to, Some(q));
    var g' := Mark(g1, width, height, from, None);
    assert to != from;
    forall x | InBounds(width, height, x) && x != from && x != to
      ensures At(g', width, height, x) == At(g, width, height, x)
    {
      AtMark(g, width, height, to, Some(q), x);
      AtMark(g1, width, height, from, None, x);
    }
    AtMark(g, width, height, to, Some(q), to);
    AtMark(g1, width, height, from, None, to);
    var done', dests' := done + [q], dests + [to];
    forall j | j in pending && j !in done'
      ensures j < |ships| && At(g', width, height, ships[j].position).IsOccupied()
    {
      assert ships[j].position != to;
    }
    forall i | 0 <= i < |dests'|
      ensures InBounds(width, height, dests'[i]) && At(g', width, height, dests'[i]).IsOccupied()
    {
      if i < |dests| {
        assert dests'[i] == dests[i] && dests[i] != ships[q].position;
      }
    }
    forall i, j | 0 <= i < |dests'| && j in pending && j !in done' && j < |ships|
      ensures dests'[i] != ships[j].position
    {
      if i == |dests| {
        assert At(g, width, height, ships[j].position).IsOccupied();
      }
    }
    forall i, k | 0 <= i < k < |dests'| ensures dests'[i] != dests'[k] {
      if k == |dests| {
        assert At(g, width, height, dests[i]).IsOccupied();
      }
    }
  }

  /**
    A head-on swap reserves the two swapping ships' own cells, each for the other: both are
    occupied, both ships are still to move, and they stand on distinct cells.
  */
  lemma {:induction false} SwapReserves(g: Grid, width: int, height: int, ships: seq<Ship>, pending: seq<nat>,
                                        done: seq<nat>, dests: seq<Position>, e: Event)
    requires width > 0 && height > 0 && Shaped(g, width, height)
    requires forall i | 0 <= i < |ships| :: InBounds(width, height, ships[i].position)
    requires forall j, k | j in pending && k in pending && j < |ships| && k < |ships| && j != k ::
      ships[j].position != ships[k].position
    requires Reserved(g, width, height, ships, pending, done, dests)
    requires e.Swapped? && EventIn(e, |ships|) && StepLegal(g, width, height, ships, e)
    requires e.ship != e.other && e.ship in pending && e.ship !in done && e.other in pending && e.other !in done
    ensures Reserved(Apply(g, width, height, e), width, height, ships, pending, done + [e.ship, e.other],
                     dests + Destinations(width, height, ships, e))
  {
    var j, k := e.ship, e.other;
    NormalizeInBounds(width, height, ships[j].position);
    NormalizeInBounds(width, height, ships[k].position);
    assert Destinations(width, height, ships, e) == [ships[k].position, ships[j].position];
    var done', dests' := done + [j, k], dests + [ships[k].position, ships[j].position];
    assert forall i | 0 <= i < |dests| :: dests'[i] == dests[i];
    assert dests'[|dests|] == ships[k].position && dests'[|dests| + 1] == ships[j].position;
  }

  /** A ship staying still reserves its own cell: occupied, and no other ship's. */
  lemma {:induction false} StayReserves(g: Grid, width: int, height: int, ships: seq<Ship>, pending: seq<nat>,
                                        done: seq<nat>, dests: seq<Position>, e: Event)
    requires width > 0 && height > 0 && Shaped(g, width, height)
    requires forall i | 0 <= i < |ships| :: InBounds(width, height, ships[i].position)
    requires forall j, k | j in pending && k in pending && j < |ships| && k < |ships| && j != k ::
      ships[j].position != ships[k].position
    requires Reserved(g, width, height, ships, pending, done, dests)
    requires e.Stayed? && e.ship < |ships| && e.ship in pending && e.ship !in done
    ensures Reserved(Apply(g, width, height, e), width, height, ships, pending, done + [e.ship],
                     dests + Destinations(width, height, ships, e))
  {
    var j := e.ship;
    NormalizeInBounds(width, height, ships[j].position);
    var dests' := dests + [ships[j].position];
    assert forall i | 0 <= i < |dests| :: dests'[i] == dests[i];
    assert dests'[|dests|] == ships[j].position;
  }

  /**
    Along a legal trace that resolves ships still to move, each at most once, from a state
    where those ships are anchored: every resolved ship ends on a cell of its own, off the
    cells of the ships still to move, which stay anchored.
  */
  lemma {:induction false} TraceReserves(g: Grid, width: int, height: int, ships: seq<Ship>, pending: seq<nat>, events: seq<Event>)
    requires width > 0 && height > 0 && Shaped(g, width, height)
    requires forall i | 0 <= i < |ships| :: InBounds(width, height, ships[i].position)
    requires Anchored(g, width, height, ships, pending)
    requires ShipsIn(events, |ships|) && Legal(g, width, height, ships, events)
    requires Distinct(ShipsOf(events)) && forall j | j in ShipsOf(events) :: j in pending
    ensures Reserved(Replay(g, width, height, events), width, height, ships, pending, ShipsOf(events),
                     DestinationsOf(width, height, ships, events))
  {
    if events != [] {
      var init, e := events[..|events| - 1], events[|events| - 1];
      assert forall i | 0 <= i < |init| :: init[i] == events[i];
      assert init + [e] == events;
      Snoc(g, width, height, ships, init, e);
      DistinctSplit(ShipsOf(init), EventShips(e));
      TraceReserves(g, width, height, ships, pending, init);
      var r := Replay(g, width, height, init);
      var done, dests := ShipsOf(init), DestinationsOf(width, height, ships, init);
      assert DestinationsOf(width, height, ships, events) == dests + Destinations(width, height, ships, e);
      assert StepLegal(r, width, height, ships, e);
      match e {
        case Moved(_, _, _, _) =>
          MovedReserves(r, width, height, ships, pending, done, dests, e);
        case Swapped(j, _, k, _) =>
          assert EventShips(e) == [j, k] && j in EventShips(e) && k in EventShips(e);
          assert j in ShipsOf(events) && k in ShipsOf(events);
          assert EventShips(e)[0] != EventShips(e)[1];
          SwapReserves(r, width, height, ships, pending, done, dests, e);
        case Stayed(_) =>
          StayReserves(r, width, height, ships, pending, done, dests, e);
      }
    }
  }

  /**
    One resolution (see `Steps.Traced`), on a map at least two cells wide and high, started with
    the ships still to move anchored: no two resolved ships end on the same cell, none ends on
    the cell of a ship left to move, and the ships left to move are still anchored.
  */
  lemma {:induction false} ResolutionReserves(width: int, height: int, a: Snapshot, b: Snapshot, events: seq<Event>, s: nat)
    requires Traced(width, height, a, b, events, s) == true && width >= 2 && height >= 2
    requires Anchored(a.cells, width, height, a.ships, a.pending)
    ensures Apart(DestinationsOf(width, height, a.ships, events))
    ensures forall i, j | 0 <= i < |DestinationsOf(width, height, a.ships, events)| && j in b.pending ::
      j < |b.ships| && DestinationsOf(width, height, a.ships, events)[i] != b.ships[j].position
    ensures Anchored(b.cells, width, height, b.ships, b.pending)
  {
    assert Effects(width, height, a, b, events) && Keeps(a.ships, b.ships, ShipsOf(events), s);
    assert WellFormed(width, height, a) && WellFormed(width, height, b);
    TraceReserves(a.cells, width, height, a.ships, a.pending, events);
    forall j | j in b.pending ensures j in a.pending && j !in ShipsOf(events) && j < |b.ships| {
    }
    forall j | j in b.pending && j < |b.ships| ensures b.ships[j].position == a.ships[j].position {
      assert SameShip(b.ships[j], a.ships[j]);
    }
  }
}
