/**
  The record of one conflict resolution (`GameMap.newNavigate`): the sequence of decisions it
  takes, what each decision does to cell occupancy and to the command list, and when a
  decision is legal in the state it is taken in.
*/
module Resolution {
  import opened Optional
  import opened Geometry
  import opened World

  /**
    One decision of the resolver:
    - `Moved`: ship `ship` is committed in `direction` from cell `from` to the free cell `to`;
    - `Swapped`: `ship` and the blocking ship `other` trade places head-on;
    - `Stayed`: `ship` ran out of candidates and stays still.
  */
  datatype Event =
    | Moved(ship: nat, direction: Direction, from: Position, to: Position)
    | Swapped(ship: nat, direction: Direction, other: nat, otherDirection: Direction)
    | Stayed(ship: nat)

  function EventShips(e: Event): seq<nat>
  {
    match e
    case Moved(j, _, _, _) => [j]
    case Swapped(j, _, k, _) => [j, k]
    case Stayed(j) => [j]
  }

  /** The ships resolved by `events`, in the order their commands are emitted. */
  function ShipsOf(events: seq<Event>): seq<nat>
  {
    if events == [] then [] else ShipsOf(events[..|events| - 1]) + EventShips(events[|events| - 1])
  }

  /** Every ship `e` names is in an arena of `n` ships. */
  predicate EventIn(e: Event, n: nat)
  {
    match e
    case Moved(j, _, _, _) => j < n
    case Swapped(j, _, k, _) => j < n && k < n
    case Stayed(j) => j < n
  }

  predicate ShipsIn(events: seq<Event>, n: nat)
  {
    forall i | 0 <= i < |events| :: EventIn(events[i], n)
  }

  function EventCommands(e: Event, ships: seq<Ship>): seq<Command>
    requires EventIn(e, |ships|)
  {
    match e
    case Moved(j, d, _, _) => [Move(ships[j].id, d)]
    case Swapped(j, d, k, dk) => [Move(ships[j].id, d), Move(ships[k].id, dk)]
    case Stayed(j) => [Stay(ships[j].id)]
  }

  /** The commands `events` append to the command list. */
  function CommandsOf(events: seq<Event>, ships: seq<Ship>): seq<Command>
    requires ShipsIn(events, |ships|)
  {
    if events == [] then []
    else
      var init := events[..|events| - 1];
      assert forall i | 0 <= i < |init| :: init[i] == events[i];
      CommandsOf(init, ships) + EventCommands(events[|events| - 1], ships)
  }

  /** A committed move marks its target with the mover and then clears its source. */
  function Apply(g: Grid, width: int, height: int, e: Event): (r: Grid)
    requires width > 0 && height > 0 && Shaped(g, width, height)
    ensures Shaped(r, width, height)
  {
    match e
    case Moved(j, _, from, to) => Mark(Mark(g, width, height, to, Some(j)), width, height, from, None)
    case _ => g
  }

  /** The occupancy after `events`. */
  function Replay(g: Grid, width: int, height: int, events: seq<Event>): (r: Grid)
    requires width > 0 && height > 0 && Shaped(g, width, height)
    ensures Shaped(r, width, height)
  {
    if events == [] then g
    else Apply(Replay(g, width, height, events[..|events| - 1]), width, height, events[|events| - 1])
  }

  /**
    When the resolver may take decision `e` in occupancy `g`:
    a move goes one step in one of the ship's candidate directions, into a cell that is free
    at that moment; a swap pairs a candidate direction of the mover with its exact opposite,
    found among the candidates of the friendly ship that occupies the mover's target, and
    each ship's destination is the other's source; a stay is always possible.
  */
  predicate StepLegal(g: Grid, width: int, height: int, ships: seq<Ship>, e: Event)
    requires width > 0 && height > 0 && Shaped(g, width, height)
  {
    match e
    case Moved(j, d, from, to) =>
      && j < |ships| && d in ships[j].moves
      && from == Normalize(width, height, ships[j].position)
      && to == Normalize(width, height, Offset(ships[j].position, d))
      && !At(g, width, height, to).IsOccupied()
    case Swapped(j, d, k, dk) =>
      && j < |ships| && k < |ships|
      && Opposite(d) == Some(dk)
      && d in ships[j].moves && dk in ships[k].moves
      && ships[j].owner == ships[k].owner
      && At(g, width, height, Offset(ships[j].position, d)).ship == Some(k)
      && Normalize(width, height, Offset(ships[j].position, d)) == Normalize(width, height, ships[k].position)
      && Normalize(width, height, Offset(ships[k].position, dk)) == Normalize(width, height, ships[j].position)
    case Stayed(j) => j < |ships|
  }

  /** Every decision of `events` is legal in the occupancy left by the ones before it. */
  predicate Legal(g: Grid, width: int, height: int, ships: seq<Ship>, events: seq<Event>)
    requires width > 0 && height > 0 && Shaped(g, width, height)
  {
    events == [] ||
    (var init := events[..|events| - 1];
     Legal(g, width, height, ships, init) &&
     StepLegal(Replay(g, width, height, init), width, height, ships, events[|events| - 1]))
  }

  /** The number of ships not yet visited; it bounds the resolver's recursion. */
  function Unvisited(ships: seq<Ship>): nat
  {
    if ships == [] then 0 else (if ships[0].visited then 0 else 1) + Unvisited(ships[1..])
  }

  // ---------------------------------------------------------------------------
  // Lemmas
  // ---------------------------------------------------------------------------

  /** ShipsOf distributes over concatenation. */
  lemma {:induction false} ShipsOfAppend(a: seq<Event>, b: seq<Event>)
    ensures ShipsOf(a + b) == ShipsOf(a) + ShipsOf(b)
  {
    if b != [] {
      var init := b[..|b| - 1];
      assert (a + b)[..|a + b| - 1] == a + init;
      ShipsOfAppend(a, init);
    } else {
      assert a + b == a;
    }
  }

  /** The ships of a trace over an arena of `n` ships are indices of that arena. */
  lemma {:induction false} ShipsOfIn(events: seq<Event>, n: nat)
    requires ShipsIn(events, n)
    ensures forall j | j in ShipsOf(events) :: j < n
  {
    if events != [] {
      var init := events[..|events| - 1];
      assert forall i | 0 <= i < |init| :: init[i] == events[i];
      ShipsOfIn(init, n);
      assert EventIn(events[|events| - 1], n);
    }
  }

  /** CommandsOf distributes over concatenation. */
  lemma {:induction false} CommandsOfAppend(a: seq<Event>, b: seq<Event>, ships: seq<Ship>)
    requires ShipsIn(a, |ships|) && ShipsIn(b, |ships|)
    ensures ShipsIn(a + b, |ships|)
    ensures CommandsOf(a + b, ships) == CommandsOf(a, ships) + CommandsOf(b, ships)
  {
    assert forall i | 0 <= i < |a + b| :: (a + b)[i] == if i < |a| then a[i] else b[i - |a|];
    if b != [] {
      var init := b[..|b| - 1];
      assert (a + b)[..|a + b| - 1] == a + init;
      assert forall i | 0 <= i < |init| :: init[i] == b[i];
      CommandsOfAppend(a, init, ships);
      assert (a + b)[|a + b| - 1] == b[|b| - 1];
    } else {
      assert a + b == a;
    }
  }

  /** Exactly one command per resolved ship, in the same order, carrying that ship's id. */
  lemma {:induction false} CommandsMatchShips(events: seq<Event>, ships: seq<Ship>)
    requires ShipsIn(events, |ships|)
    ensures |CommandsOf(events, ships)| == |ShipsOf(events)|
    ensures forall i | 0 <= i < |ShipsOf(events)| ::
      ShipsOf(events)[i] < |ships| && CommandsOf(events, ships)[i].shipId == ships[ShipsOf(events)[i]].id
  {
    ShipsOfIn(events, |ships|);
    if events != [] {
      var init, e := events[..|events| - 1], events[|events| - 1];
      assert forall i | 0 <= i < |init| :: init[i] == events[i];
      var a: seq<nat>, b: seq<nat> := ShipsOf(init), EventShips(e);
      var ca: seq<Command>, cb: seq<Command> := CommandsOf(init, ships), EventCommands(e, ships);
      assert ShipsOf(events) == a + b && CommandsOf(events, ships) == ca + cb;
      CommandsMatchShips(init, ships);
      EventCommandsMatch(e, ships);
      forall i | 0 <= i < |a + b| ensures (a + b)[i] < |ships| && (ca + cb)[i].shipId == ships[(a + b)[i]].id {
        if i >= |a| {
          assert (a + b)[i] == b[i - |a|] && (ca + cb)[i] == cb[i - |a|];
        }
      }
    }
  }

  /** One event's commands, one per ship it names, carrying those ships' ids. */
  lemma {:induction false} EventCommandsMatch(e: Event, ships: seq<Ship>)
    requires EventIn(e, |ships|)
    ensures |EventCommands(e, ships)| == |EventShips(e)|
    ensures forall i | 0 <= i < |EventShips(e)| ::
      EventShips(e)[i] < |ships| && EventCommands(e, ships)[i].shipId == ships[EventShips(e)[i]].id
  {
  }

  /** Replaying a concatenation replays its halves in turn. */
  lemma {:induction false} ReplayAppend(g: Grid, width: int, height: int, a: seq<Event>, b: seq<Event>)
    requires width > 0 && height > 0 && Shaped(g, width, height)
    ensures Replay(g, width, height, a + b) == Replay(Replay(g, width, height, a), width, height, b)
  {
    if b != [] {
      var init := b[..|b| - 1];
      assert (a + b)[..|a + b| - 1] == a + init;
      ReplayAppend(g, width, height, a, init);
    } else {
      assert a + b == a;
    }
  }

  /** A concatenation is legal exactly when each half is, the second from where the first ends. */
  lemma {:induction false} LegalAppend(g: Grid, width: int, height: int, ships: seq<Ship>, a: seq<Event>, b: seq<Event>)
    requires width > 0 && height > 0 && Shaped(g, width, height)
    ensures Legal(g, width, height, ships, a + b) <==>
      Legal(g, width, height, ships, a) && Legal(Replay(g, width, height, a), width, height, ships, b)
  {
    if b != [] {
      var init := b[..|b| - 1];
      assert (a + b)[..|a + b| - 1] == a + init;
      LegalAppend(g, width, height, ships, a, init);
      ReplayAppend(g, width, height, a, init);
    } else {
      assert a + b == a;
    }
  }

  /**
    Legality carries over to an arena whose ships keep their owners and positions and whose
    candidate lists contain the earlier ones.
  */
  lemma {:induction false} LegalTransfer(g: Grid, width: int, height: int, ships: seq<Ship>, ships': seq<Ship>, events: seq<Event>)
    requires width > 0 && height > 0 && Shaped(g, width, height)
    requires Legal(g, width, height, ships, events)
    requires |ships'| == |ships|
    requires forall j | j in ShipsOf(events) && j < |ships| ::
      && ships'[j].owner == ships[j].owner && ships'[j].position == ships[j].position
      && forall d | d in ships[j].moves :: d in ships'[j].moves
    ensures Legal(g, width, height, ships', events)
  {
    if events != [] {
      var init := events[..|events| - 1];
      assert ShipsOf(events) == ShipsOf(init) + EventShips(events[|events| - 1]);
      LegalTransfer(g, width, height, ships, ships', init);
    }
  }

  /** The commands depend on the arena only through the resolved ships' ids. */
  lemma {:induction false} CommandsTransfer(events: seq<Event>, ships: seq<Ship>, ships': seq<Ship>)
    requires ShipsIn(events, |ships|) && |ships'| == |ships|
    requires forall j | j in ShipsOf(events) && j < |ships| :: ships'[j].id == ships[j].id
    ensures CommandsOf(events, ships') == CommandsOf(events, ships)
  {
    if events != [] {
      var init := events[..|events| - 1];
      assert forall i | 0 <= i < |init| :: init[i] == events[i];
      assert ShipsOf(events) == ShipsOf(init) + EventShips(events[|events| - 1]);
      CommandsTransfer(init, ships, ships');
    }
  }

  /** Flags only ever being set, the unvisited count can only drop, and drops when one is set. */
  lemma {:induction false} UnvisitedShrinks(a: seq<Ship>, b: seq<Ship>, i: int)
    requires |a| == |b|
    requires forall j | 0 <= j < |a| :: a[j].visited ==> b[j].visited
    ensures Unvisited(b) <= Unvisited(a)
    ensures 0 <= i < |a| && !a[i].visited && b[i].visited ==> Unvisited(b) < Unvisited(a)
  {
    if a != [] {
      UnvisitedShrinks(a[1..], b[1..], i - 1);
    }
  }
}
