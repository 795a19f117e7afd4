/**
  `GameMap.newNavigate` as a function: what the resolver does to the state it threads, one
  turn of its `while` loop per call, a recursive call where the code recurses into a blocker.
  It is the specification the imperative resolver is proved against; the lemmas here say what
  it decides (the trace it follows is legal, a free head is taken at once, a head-on pair
  swaps, a ship boxed in by ships that cannot move away stays).
*/
module Resolver {
  import opened Optional
  import opened Geometry
  import opened World
  import opened Lists
  import opened Resolution
  import opened Steps

  /** What the resolver needs to read a state at all: a shaped grid whose occupants are ships. */
  predicate Fits(width: int, height: int, a: Snapshot)
  {
    width > 0 && height > 0 && Shaped(a.cells, width, height) && OccupantsIn(a.cells, width, height, |a.ships|)
  }

  /** `ship.visited = true`. */
  function Visit(a: Snapshot, s: nat): Snapshot
    requires s < |a.ships|
  {
    a.(ships := a.ships[s := a.ships[s].(visited := true)])
  }

  /** `if (!ship.moves.isEmpty()) ship.moves.remove(0)`: the head candidate is given up. */
  function Drop(a: Snapshot, s: nat): Snapshot
    requires s < |a.ships|
  {
    if a.ships[s].moves == [] then a
    else a.(ships := a.ships[s := a.ships[s].(moves := a.ships[s].moves[1..])])
  }

  /** Marking a ship visited lowers the number of unvisited ships, if it was not visited yet. */
  lemma {:induction false} VisitShrinks(a: Snapshot, s: nat)
    requires s < |a.ships|
    ensures Unvisited(Visit(a, s).ships) <= Unvisited(a.ships)
    ensures !a.ships[s].visited ==> Unvisited(Visit(a, s).ships) < Unvisited(a.ships)
  {
    UnvisitedShrinks(a.ships, Visit(a, s).ships, s);
  }

  /** Giving a candidate up leaves the visited flags alone. */
  lemma {:induction false} DropKeeps(a: Snapshot, s: nat)
    requires s < |a.ships|
    ensures Unvisited(Drop(a, s).ships) == Unvisited(a.ships)
  {
    UnvisitedShrinks(a.ships, Drop(a, s).ships, -1);
    UnvisitedShrinks(Drop(a, s).ships, a.ships, -1);
  }

  /**
    From `ships0` to `ships`: no visited flag is cleared, and each ship either keeps its
    candidate list or has none left.
  */
  predicate Settles(ships0: seq<Ship>, ships: seq<Ship>)
  {
    && |ships| == |ships0|
    && forall j | 0 <= j < |ships0| ::
      && (ships0[j].visited ==> ships[j].visited)
      && (ships[j].moves == [] || ships[j].moves == ships0[j].moves)
  }

  lemma {:induction false} SettlesShrinks(ships0: seq<Ship>, ships: seq<Ship>)
    requires Settles(ships0, ships)
    ensures Unvisited(ships) <= Unvisited(ships0)
  {
    UnvisitedShrinks(ships0, ships, -1);
  }

  lemma {:induction false} CommitSettles(width: int, height: int, a: Snapshot, s: nat, d: Direction)
    requires width > 0 && height > 0 && Shaped(a.cells, width, height) && s < |a.ships|
    ensures Settles(a.ships, AfterCommit(width, height, a, s, d).ships)
    ensures AfterCommit(width, height, a, s, d).ships[s].moves == []
  {
  }

  lemma {:induction false} SwapSettles(a: Snapshot, s: nat, d: Direction, v: nat, dv: Direction)
    requires s < |a.ships| && v < |a.ships|
    ensures Settles(a.ships, AfterSwap(a, s, d, v, dv).ships)
    ensures AfterSwap(a, s, d, v, dv).ships[s].moves == []
  {
  }

  /** Resolving the blocker and then the rest of `s`'s candidates settles every ship. */
  lemma {:induction false} NestSettles(a: Snapshot, s: nat, c: Snapshot, r: Snapshot)
    requires s < |a.ships|
    requires Settles(Visit(a, s).ships, c.ships) && Settles(Drop(c, s).ships, r.ships)
    requires r.ships[s].moves == []
    ensures Settles(a.ships, r.ships)
  {
    forall j | 0 <= j < |a.ships| && j != s
      ensures && (a.ships[j].visited ==> r.ships[j].visited)
              && (r.ships[j].moves == [] || r.ships[j].moves == a.ships[j].moves)
    {
      assert Visit(a, s).ships[j] == a.ships[j] && Drop(c, s).ships[j] == c.ships[j];
    }
  }

  lemma {:induction false} DropSettles(a: Snapshot, s: nat, r: Snapshot)
    requires s < |a.ships|
    requires Settles(Drop(a, s).ships, r.ships) && r.ships[s].moves == []
    ensures Settles(a.ships, r.ships)
  {
    forall j | 0 <= j < |a.ships| && j != s
      ensures && (a.ships[j].visited ==> r.ships[j].visited)
              && (r.ships[j].moves == [] || r.ships[j].moves == a.ships[j].moves)
    {
      assert Drop(a, s).ships[j] == a.ships[j];
    }
  }

  /** `canSwap(d, moves) != null`: the exact opposite of `d` is among `moves`. */
  predicate Swappable(d: Direction, moves: seq<Direction>)
  {
    Opposite(d).Some? && Opposite(d).value in moves
  }

  /**
    The state `newNavigate(s)` leaves, from state `a`. While `s` has candidates, its head `d`
    is tried: a free target is committed to; a friendly blocker still to move that is already
    being resolved swaps with `s` when it can go exactly the opposite way; an unvisited one is
    resolved first, `s` having been marked visited, and then the head is given up; any other
    blocker makes `s` give up its head. Without candidates, `s` stays if it is still to move.
  */
  function Navigate(width: int, height: int, s: nat, a: Snapshot): (r: Snapshot)
    requires Fits(width, height, a) && s < |a.ships|
    decreases Unvisited(a.ships), if a.ships[s].visited then 1 else 0, |a.ships[s].moves|
    ensures Fits(width, height, r) && Settles(a.ships, r.ships) && r.ships[s].moves == []
  {
    var ship := a.ships[s];
    if ship.moves == [] then
      if s in a.pending then AfterStay(a, s) else a
    else
      var d := ship.moves[0];
      var target := Offset(ship.position, d);
      var cell := At(a.cells, width, height, target);
      if !cell.IsOccupied() then
        MarkOccupants(a.cells, width, height, target, Some(s), |a.ships|);
        MarkOccupants(Mark(a.cells, width, height, target, Some(s)), width, height, ship.position, None, |a.ships|);
        CommitSettles(width, height, a, s, d);
        AfterCommit(width, height, a, s, d)
      else
        var v := cell.ship.value;
        var other := a.ships[v];
        var friendly := other.owner == ship.owner && v in a.pending;
        if friendly && other.visited && Swappable(d, other.moves) then
          SwapSettles(a, s, d, v, Opposite(d).value);
          AfterSwap(a, s, d, v, Opposite(d).value)
        else if friendly && !other.visited then
          var b := Visit(a, s);
          VisitShrinks(a, s);
          var c := Navigate(width, height, v, b);
          SettlesShrinks(b.ships, c.ships);
          DropKeeps(c, s);
          var r := Navigate(width, height, s, Drop(c, s));
          NestSettles(a, s, c, r);
          r
        else
          DropKeeps(a, s);
          var r := Navigate(width, height, s, Drop(a, s));
          DropSettles(a, s, r);
          r
  }

  // ---------------------------------------------------------------------------
  // What it decides
  // ---------------------------------------------------------------------------

  /**
    Where the resolver of `s` stands after the decisions `events`: the trace so far, the
    candidates left (all among the original ones), `s` still to move unless they are spent.
  */
  ghost predicate Midway(width: int, height: int, s: nat, start: Snapshot, state: Snapshot, events: seq<Event>)
  {
    && s < |start.ships| && s in start.pending
    && Traced(width, height, start, state, events, s)
    && (forall x | x in state.ships[s].moves :: x in start.ships[s].moves)
    && (s in state.pending || state.ships[s].moves == [])
  }

  /**
    From a point the resolver of `s` has reached by the decisions `events`, the rest of its
    run extends them to a trace of the whole call, in which `s` is resolved.
  */
  lemma {:induction false} ContinueTraced(width: int, height: int, s: nat, start: Snapshot, state: Snapshot, events: seq<Event>)
    returns (events': seq<Event>)
    requires Fits(width, height, state) && s < |state.ships|
    requires Midway(width, height, s, start, state, events) == true
    decreases Unvisited(state.ships), if state.ships[s].visited then 1 else 0, |state.ships[s].moves|, 2
    ensures Traced(width, height, start, Navigate(width, height, s, state), events', s) == true
    ensures s in ShipsOf(events')
  {
    var ship := state.ships[s];
    if ship.moves == [] {
      events' := StopTraced(width, height, s, start, state, events);
    } else {
      var d := ship.moves[0];
      var cell := At(state.cells, width, height, Offset(ship.position, d));
      if !cell.IsOccupied() {
        events' := CommitTraced(width, height, s, start, state, events);
      } else {
        var v := cell.ship.value;
        var other := state.ships[v];
        var friendly := other.owner == ship.owner && v in state.pending;
        if friendly && other.visited && Swappable(d, other.moves) {
          events' := SwapTraced(width, height, s, start, state, events);
        } else if friendly && !other.visited {
          assert Nests(width, height, s, state);
          events' := NestTraced(width, height, s, start, state, events);
        } else {
          events' := PopTraced(width, height, s, start, state, events);
        }
      }
    }
  }

  /** No candidates left: `s` stays if it is still to move, and is resolved either way. */
  lemma {:induction false} StopTraced(width: int, height: int, s: nat, start: Snapshot, state: Snapshot, events: seq<Event>)
    returns (events': seq<Event>)
    requires Fits(width, height, state) && s < |state.ships|
    requires Midway(width, height, s, start, state, events) == true
    requires state.ships[s].moves == []
    ensures Traced(width, height, start, Navigate(width, height, s, state), events', s) == true
    ensures s in ShipsOf(events')
  {
    if s in state.pending {
      assert Navigate(width, height, s, state) == AfterStay(state, s);
      events' := TraceStay(width, height, start, state, events, s);
    } else {
      assert Navigate(width, height, s, state) == state;
      assert s !in Except(start.pending, ShipsOf(events));
      events' := events;
    }
  }

  /** The head's target is free: `s` commits to it. */
  lemma {:induction false} CommitTraced(width: int, height: int, s: nat, start: Snapshot, state: Snapshot, events: seq<Event>)
    returns (events': seq<Event>)
    requires Fits(width, height, state) && s < |state.ships|
    requires Midway(width, height, s, start, state, events) == true
    requires state.ships[s].moves != []
    requires !At(state.cells, width, height, Offset(state.ships[s].position, state.ships[s].moves[0])).IsOccupied()
    ensures Traced(width, height, start, Navigate(width, height, s, state), events', s) == true
    ensures s in ShipsOf(events')
  {
    var d := state.ships[s].moves[0];
    assert Navigate(width, height, s, state) == AfterCommit(width, height, state, s, d);
    events' := TraceCommit(width, height, start, state, events, s, d);
  }

  /** The head's target holds a friendly ship being resolved that can go the opposite way: swap. */
  lemma {:induction false} SwapTraced(width: int, height: int, s: nat, start: Snapshot, state: Snapshot, events: seq<Event>)
    returns (events': seq<Event>)
    requires Fits(width, height, state) && s < |state.ships|
    requires Midway(width, height, s, start, state, events) == true
    requires state.ships[s].moves != []
    requires var cell := At(state.cells, width, height, Offset(state.ships[s].position, state.ships[s].moves[0]));
      && cell.IsOccupied()
      && state.ships[cell.ship.value].owner == state.ships[s].owner && cell.ship.value in state.pending
      && state.ships[cell.ship.value].visited
      && Swappable(state.ships[s].moves[0], state.ships[cell.ship.value].moves)
    ensures Traced(width, height, start, Navigate(width, height, s, state), events', s) == true
    ensures s in ShipsOf(events')
  {
    var d := state.ships[s].moves[0];
    var v := At(state.cells, width, height, Offset(state.ships[s].position, d)).ship.value;
    assert Navigate(width, height, s, state) == AfterSwap(state, s, d, v, Opposite(d).value);
    events' := TraceSwap(width, height, start, state, events, s, d, v, Opposite(d).value);
  }

  /** The cell the head candidate of `s` leads to. */
  function HeadCell(width: int, height: int, s: nat, state: Snapshot): MapCell
    requires Fits(width, height, state) && s < |state.ships| && state.ships[s].moves != []
  {
    At(state.cells, width, height, Offset(state.ships[s].position, state.ships[s].moves[0]))
  }

  /** The ship on the cell the head of `s` leads to. */
  function Blocker(width: int, height: int, s: nat, state: Snapshot): nat
    requires Fits(width, height, state) && s < |state.ships| && state.ships[s].moves != []
    requires HeadCell(width, height, s, state).IsOccupied()
  {
    HeadCell(width, height, s, state).ship.value
  }

  /** The blocker of `s`'s head is a ship of the same player that is still to move. */
  predicate Friendly(width: int, height: int, s: nat, state: Snapshot)
    requires Fits(width, height, state) && s < |state.ships| && state.ships[s].moves != []
    requires HeadCell(width, height, s, state).IsOccupied()
  {
    var v := Blocker(width, height, s, state);
    state.ships[v].owner == state.ships[s].owner && v in state.pending
  }

  /** The condition under which the resolver of `s` recurses into the blocker of its head. */
  predicate Nests(width: int, height: int, s: nat, state: Snapshot)
    requires Fits(width, height, state) && s < |state.ships| && state.ships[s].moves != []
  {
    && HeadCell(width, height, s, state).IsOccupied()
    && Friendly(width, height, s, state)
    && !state.ships[Blocker(width, height, s, state)].visited
  }

  /**
    Where the resolver of `s` stands after resolving the blocker of its head, `s` having been
    marked visited first, and giving the head up.
  */
  function AfterNest(width: int, height: int, s: nat, state: Snapshot): Snapshot
    requires Fits(width, height, state) && s < |state.ships| && state.ships[s].moves != []
    requires HeadCell(width, height, s, state).IsOccupied()
  {
    Drop(Navigate(width, height, Blocker(width, height, s, state), Visit(state, s)), s)
  }

  /** The resolver of `s`, recursing into its blocker, carries on from `AfterNest`. */
  lemma {:induction false} NavigateNests(width: int, height: int, s: nat, state: Snapshot)
    requires Fits(width, height, state) && s < |state.ships|
    requires state.ships[s].moves != [] && Nests(width, height, s, state)
    ensures Navigate(width, height, s, state) == Navigate(width, height, s, AfterNest(width, height, s, state))
  {
  }

  /** A head leading to a free cell is committed to at once: marked, cleared, emitted. */
  lemma {:induction false} NavigateCommitsFreeHead(width: int, height: int, s: nat, state: Snapshot)
    requires Fits(width, height, state) && s < |state.ships|
    requires state.ships[s].moves != [] && !HeadCell(width, height, s, state).IsOccupied()
    ensures Navigate(width, height, s, state) == AfterCommit(width, height, state, s, state.ships[s].moves[0])
  {
  }

  /**
    A head blocked by a friendly ship still to move that is already being resolved and can go
    exactly the opposite way: the two swap, and the resolver of `s` is done.
  */
  lemma {:induction false} NavigateSwapsWithVisited(width: int, height: int, s: nat, state: Snapshot)
    requires Fits(width, height, state) && s < |state.ships|
    requires state.ships[s].moves != [] && HeadCell(width, height, s, state).IsOccupied()
    requires Friendly(width, height, s, state)
    requires var v := Blocker(width, height, s, state);
      state.ships[v].visited && Swappable(state.ships[s].moves[0], state.ships[v].moves)
    ensures var d, v := state.ships[s].moves[0], Blocker(width, height, s, state);
      Navigate(width, height, s, state) == AfterSwap(state, s, d, v, Opposite(d).value)
  {
  }

  /**
    Any other blocker (an enemy, a ship that has already moved, or a friendly ship being
    resolved that cannot swap): the head is given up and the next candidate tried.
  */
  lemma {:induction false} NavigateDropsBlockedHead(width: int, height: int, s: nat, state: Snapshot)
    requires Fits(width, height, state) && s < |state.ships|
    requires state.ships[s].moves != [] && HeadCell(width, height, s, state).IsOccupied()
    requires var v := Blocker(width, height, s, state);
      !Friendly(width, height, s, state) || (state.ships[v].visited && !Swappable(state.ships[s].moves[0], state.ships[v].moves))
    ensures Navigate(width, height, s, state) == Navigate(width, height, s, Drop(state, s))
  {
  }

  /** Out of candidates: a ship still to move stays still; one already resolved is left alone. */
  lemma {:induction false} NavigateStaysWhenSpent(width: int, height: int, s: nat, state: Snapshot)
    requires Fits(width, height, state) && s < |state.ships| && state.ships[s].moves == []
    ensures Navigate(width, height, s, state) == if s in state.pending then AfterStay(state, s) else state
  {
  }

  /** Marking `s` visited and resolving its blocker: both on their traces. */
  lemma {:induction false} NestEnter(width: int, height: int, s: nat, start: Snapshot, state: Snapshot, events: seq<Event>)
    returns (sub: seq<Event>)
    requires Fits(width, height, state) && s < |state.ships|
    requires Midway(width, height, s, start, state, events) == true
    requires state.ships[s].moves != [] && Nests(width, height, s, state)
    decreases Unvisited(state.ships), if state.ships[s].visited then 1 else 0, |state.ships[s].moves|, 0
    ensures var v, b := Blocker(width, height, s, state), Visit(state, s);
      && Traced(width, height, start, b, events, s) == true
      && Traced(width, height, b, Navigate(width, height, v, b), sub, v) == true
      && v in ShipsOf(sub)
  {
    var v, b := Blocker(width, height, s, state), Visit(state, s);
    TraceVisit(width, height, start, state, events, s);
    VisitShrinks(state, s);
    TraceStart(width, height, b, v);
    assert Midway(width, height, v, b, b, []);
    sub := ContinueTraced(width, height, v, b, b, []);
  }

  /** Back from the blocker, `s` gives its head up: still on its trace, one candidate fewer. */
  lemma {:induction false} NestLeave(width: int, height: int, s: nat, start: Snapshot, state: Snapshot,
                                     events: seq<Event>, sub: seq<Event>)
    returns (mid: seq<Event>)
    requires Fits(width, height, state) && s < |state.ships|
    requires Midway(width, height, s, start, state, events) == true
    requires state.ships[s].moves != [] && Nests(width, height, s, state)
    requires var v, b := Blocker(width, height, s, state), Visit(state, s);
      && Traced(width, height, start, b, events, s) == true
      && Traced(width, height, b, Navigate(width, height, v, b), sub, v) == true
      && v in ShipsOf(sub)
    ensures Fits(width, height, AfterNest(width, height, s, state))
    ensures Midway(width, height, s, start, AfterNest(width, height, s, state), mid) == true
    ensures Unvisited(AfterNest(width, height, s, state).ships) <= Unvisited(Visit(state, s).ships)
    ensures |AfterNest(width, height, s, state).ships[s].moves| < |state.ships[s].moves|
  {
    var v, b := Blocker(width, height, s, state), Visit(state, s);
    var c := Navigate(width, height, v, b);
    mid := TraceNest(width, height, start, b, c, events, sub, s, v);
    if c.ships[s].moves != [] {
      TracePop(width, height, start, c, mid, s);
    }
    DropKeeps(c, s);
  }

  /**
    The head's target holds a friendly ship still to move and not yet visited: `s` is marked
    visited, that ship is resolved first, and then the head is given up.
  */
  lemma {:induction false} NestTraced(width: int, height: int, s: nat, start: Snapshot, state: Snapshot, events: seq<Event>)
    returns (events': seq<Event>)
    requires Fits(width, height, state) && s < |state.ships|
    requires Midway(width, height, s, start, state, events) == true
    requires state.ships[s].moves != [] && Nests(width, height, s, state)
    decreases Unvisited(state.ships), if state.ships[s].visited then 1 else 0, |state.ships[s].moves|, 1
    ensures Traced(width, height, start, Navigate(width, height, s, state), events', s) == true
    ensures s in ShipsOf(events')
  {
    var next := AfterNest(width, height, s, state);
    NavigateNests(width, height, s, state);
    var sub := NestEnter(width, height, s, start, state, events);
    var mid := NestLeave(width, height, s, start, state, events, sub);
    VisitShrinks(state, s);
    events' := ContinueTraced(width, height, s, start, next, mid);
  }

  /** Any other blocker: the head is given up and the next candidate tried. */
  lemma {:induction false} PopTraced(width: int, height: int, s: nat, start: Snapshot, state: Snapshot, events: seq<Event>)
    returns (events': seq<Event>)
    requires Fits(width, height, state) && s < |state.ships|
    requires Midway(width, height, s, start, state, events) == true
    requires state.ships[s].moves != []
    requires var cell := At(state.cells, width, height, Offset(state.ships[s].position, state.ships[s].moves[0]));
      && cell.IsOccupied()
      && !(state.ships[cell.ship.value].owner == state.ships[s].owner && cell.ship.value in state.pending
           && (!state.ships[cell.ship.value].visited || Swappable(state.ships[s].moves[0], state.ships[cell.ship.value].moves)))
    decreases Unvisited(state.ships), if state.ships[s].visited then 1 else 0, |state.ships[s].moves|, 1
    ensures Traced(width, height, start, Navigate(width, height, s, state), events', s) == true
    ensures s in ShipsOf(events')
  {
    assert Navigate(width, height, s, state) == Navigate(width, height, s, Drop(state, s));
    TracePop(width, height, start, state, events, s);
    DropKeeps(state, s);
    events' := ContinueTraced(width, height, s, start, Drop(state, s), events);
  }

  /**
    `newNavigate(s)` is described by a trace of decisions, each legal where it was taken (see
    `Steps.Traced`): the new occupancy is the trace's replay, the new commands are the old
    ones followed by one per resolved ship, the resolved ships, `s` among them, leave the list
    of ships to move and lose their candidates, and no other ship changes.
  */
  lemma {:induction false} NavigateTraced(width: int, height: int, s: nat, a: Snapshot) returns (events: seq<Event>)
    requires WellFormed(width, height, a) && s < |a.ships| && s in a.pending
    ensures Traced(width, height, a, Navigate(width, height, s, a), events, s) == true
    ensures s in ShipsOf(events)
  {
    TraceStart(width, height, a, s);
    assert Midway(width, height, s, a, a, []);
    events := ContinueTraced(width, height, s, a, a, []);
  }

  // ---------------------------------------------------------------------------
  // Situations
  // ---------------------------------------------------------------------------

  /**
    Two friendly ships still to move, each blocking the other's head, heading exactly
    opposite ways: resolving `s` marks it visited and recurses into `v`, which swaps with
    `s`; `v`'s move is emitted first, then `s`'s, and nothing else happens.
  */
  lemma {:induction false} NavigateHeadOn(width: int, height: int, s: nat, v: nat, a: Snapshot)
    requires Fits(width, height, a) && s < |a.ships| && v < |a.ships| && s != v
    requires Distinct(a.pending) && s in a.pending && v in a.pending
    requires a.ships[s].owner == a.ships[v].owner && !a.ships[v].visited
    requires a.ships[s].moves != [] && a.ships[v].moves != []
    requires HeadCell(width, height, s, a).ship == Some(v) && HeadCell(width, height, v, a).ship == Some(s)
    requires Opposite(a.ships[v].moves[0]) == Some(a.ships[s].moves[0])
    ensures Navigate(width, height, s, a) == AfterSwap(Visit(a, s), v, a.ships[v].moves[0], s, a.ships[s].moves[0])
  {
    var b := Visit(a, s);
    assert HeadCell(width, height, v, b) == HeadCell(width, height, v, a);
    assert Nests(width, height, s, a);
    NavigateNests(width, height, s, a);
    NavigateSwapsWithVisited(width, height, v, b);
    var c := Navigate(width, height, v, b);
    assert c == AfterSwap(b, v, a.ships[v].moves[0], s, a.ships[s].moves[0]);
    assert Drop(c, s) == c;
    RemoveTwo(b.pending, v, s);
    NavigateStaysWhenSpent(width, height, s, c);
  }

  /**
    Every candidate of `s` leads onto a ship that is not a friendly ship still to move (an
    enemy, a cell an enemy threatens, a ship already resolved): each is given up in turn, and
    `s` stays still.
  */
  lemma {:induction false} NavigateBoxedInStays(width: int, height: int, s: nat, a: Snapshot)
    requires Fits(width, height, a) && s < |a.ships| && s in a.pending
    requires forall k | 0 <= k < |a.ships[s].moves| ::
      var cell := At(a.cells, width, height, Offset(a.ships[s].position, a.ships[s].moves[k]));
      && cell.IsOccupied()
      && !(cell.ship.value < |a.ships| && a.ships[cell.ship.value].owner == a.ships[s].owner && cell.ship.value in a.pending)
    decreases |a.ships[s].moves|
    ensures Navigate(width, height, s, a) == AfterStay(a, s)
  {
    if a.ships[s].moves == [] {
      NavigateStaysWhenSpent(width, height, s, a);
    } else {
      assert !Friendly(width, height, s, a);
      NavigateDropsBlockedHead(width, height, s, a);
      var a' := Drop(a, s);
      assert forall k | 0 <= k < |a'.ships[s].moves| :: a'.ships[s].moves[k] == a.ships[s].moves[k + 1];
      NavigateBoxedInStays(width, height, s, a');
      assert AfterStay(a', s) == AfterStay(a, s);
    }
  }
}
