/**
  Geometry of the wrap-around (toroidal) map: positions, the five directions, wrapping a
  position onto the map, the wrap-aware Manhattan distance and the greedy candidate
  directions from one position towards another.
*/
module Geometry {
  import opened Optional

  datatype Position = Position(x: int, y: int)

  datatype Direction = North | East | South | West | Still

  predicate IsHorizontal(d: Direction) { d == East || d == West }

  predicate IsVertical(d: Direction) { d == North || d == South }

  /** The position one step away in direction `d`: EAST is +x, SOUTH is +y; not wrapped. */
  function Offset(p: Position, d: Direction): Position
  {
    match d
    case North => Position(p.x, p.y - 1)
    case South => Position(p.x, p.y + 1)
    case East => Position(p.x + 1, p.y)
    case West => Position(p.x - 1, p.y)
    case Still => p
  }

  /**
    `Position.directionalOffset` moves one unit along the direction's axis, and STILL does
    not move at all.
  */
  lemma {:induction false} OffsetIsUnitStep(p: Position, d: Direction)
    ensures d == Still <==> Offset(p, d) == p
    ensures Abs(Offset(p, d).x - p.x) + Abs(Offset(p, d).y - p.y) == if d == Still then 0 else 1
    ensures IsHorizontal(d) ==> Offset(p, d).y == p.y
    ensures IsVertical(d) ==> Offset(p, d).x == p.x
  {
  }

  /** The opposite of a cardinal direction; STILL has none. */
  function Opposite(d: Direction): (r: Option<Direction>)
    ensures r.Some? <==> d != Still
    ensures r.Some? ==> r.value != d && r.value != Still && (IsHorizontal(r.value) <==> IsHorizontal(d))
  {
    match d
    case North => Some(South)
    case South => Some(North)
    case East => Some(West)
    case West => Some(East)
    case Still => None
  }

  function Abs(a: int): nat { if a < 0 then -a else a }

  function Min(a: int, b: int): int { if a <= b then a else b }

  /** Java's `%` for a positive divisor: truncated division, so the sign follows the dividend. */
  function JavaRem(a: int, b: int): (r: int)
    requires b > 0
    ensures -b < r < b
    ensures a >= 0 ==> r >= 0
    ensures a <= 0 ==> r <= 0
  {
    if a >= 0 then a % b else -((-a) % b)
  }

  predicate InBounds(width: int, height: int, p: Position)
  {
    0 <= p.x < width && 0 <= p.y < height
  }

  /** `((x % width) + width) % width` on each axis, with Java's `%`. */
  function Normalize(width: int, height: int, p: Position): (r: Position)
    requires width > 0 && height > 0
    ensures InBounds(width, height, r)
  {
    Position(JavaRem(JavaRem(p.x, width) + width, width),
             JavaRem(JavaRem(p.y, height) + height, height))
  }

  /** The distance between two coordinates on a circle of `n` cells. */
  function AxisDistance(a: int, b: int, n: int): (r: int)
    ensures r == Abs(a - b) || r == n - Abs(a - b)
    ensures r <= Abs(a - b) && r <= n - Abs(a - b)
  {
    Min(Abs(a - b), n - Abs(a - b))
  }

  /** Wrap-aware Manhattan distance between the normalized positions. */
  function Distance(width: int, height: int, source: Position, target: Position): (r: nat)
    requires width > 0 && height > 0
    ensures r <= width / 2 + height / 2
  {
    var s := Normalize(width, height, source);
    var t := Normalize(width, height, target);
    AxisBound(s.x, t.x, width);
    AxisBound(s.y, t.y, height);
    AxisDistance(s.x, t.x, width) + AxisDistance(s.y, t.y, height)
  }

  /**
    At most one horizontal and then at most one vertical direction that each take the
    shorter way round towards `destination`; a tie on an axis goes EAST or SOUTH.
  */
  function UnsafeMoves(width: int, height: int, source: Position, destination: Position): (r: seq<Direction>)
    requires width > 0 && height > 0
    ensures var s, t := Normalize(width, height, source), Normalize(width, height, destination);
      && |r| == (if s.x != t.x then 1 else 0) + (if s.y != t.y then 1 else 0)
      && (s.x != t.x ==> IsHorizontal(r[0]))
      && (s.y != t.y ==> IsVertical(r[|r| - 1]))
  {
    var s := Normalize(width, height, source);
    var t := Normalize(width, height, destination);
    var dx, dy := Abs(s.x - t.x), Abs(s.y - t.y);
    var wrappedDx, wrappedDy := width - dx, height - dy;
    var horizontal :=
      if s.x < t.x then [if dx > wrappedDx then West else East]
      else if s.x > t.x then [if dx < wrappedDx then West else East]
      else [];
    var vertical :=
      if s.y < t.y then [if dy > wrappedDy then North else South]
      else if s.y > t.y then [if dy < wrappedDy then North else South]
      else [];
    horizontal + vertical
  }

  // ---------------------------------------------------------------------------
  // Arithmetic helpers
  // ---------------------------------------------------------------------------

  /** Euclidean division is determined by any quotient/remainder pair with 0 <= r < b. */
  lemma {:induction false} ModUnique(a: int, b: int, q: int, r: int)
    requires b > 0 && 0 <= r < b && a == b * q + r
    ensures a % b == r
  {
    var q', r' := a / b, a % b;
    assert a == b * q' + r';
    if q' < q {
      assert b * (q - q') >= b by { MulAtLeast(b, q - q'); }
    } else if q' > q {
      assert b * (q' - q) >= b by { MulAtLeast(b, q' - q); }
    }
  }

  lemma {:induction false} MulAtLeast(b: int, k: int)
    requires b > 0 && k >= 1
    ensures b * k >= b
  {
  }

  lemma {:induction false} AxisBound(a: int, b: int, n: int)
    requires 0 <= a < n && 0 <= b < n
    ensures 0 <= AxisDistance(a, b, n) <= n / 2
  {
  }

  /** Java's double remainder agrees with Dafny's Euclidean `%` for a positive modulus. */
  lemma {:induction false} WrapIsEuclidean(a: int, b: int)
    requires b > 0
    ensures JavaRem(JavaRem(a, b) + b, b) == a % b
  {
    if a >= 0 {
      var q := a / b;
      var m := a % b;
      ModUnique(m + b, b, 1, m);
    } else {
      var q := (-a) / b;
      var m := (-a) % b;
      assert -a == b * q + m;
      if m == 0 {
        ModUnique(b, b, 1, 0);
        ModUnique(a, b, -q, 0);
      } else {
        ModUnique(b - m, b, 0, b - m);
        ModUnique(a, b, -q - 1, b - m);
      }
    }
  }

  lemma {:induction false} NormalizeIsMod(width: int, height: int, p: Position)
    requires width > 0 && height > 0
    ensures Normalize(width, height, p) == Position(p.x % width, p.y % height)
  {
    WrapIsEuclidean(p.x, width);
    WrapIsEuclidean(p.y, height);
  }

  lemma {:induction false} ModOfInRange(a: int, n: int)
    requires 0 <= a < n
    ensures a % n == a
  {
    ModUnique(a, n, 0, a);
  }

  // ---------------------------------------------------------------------------
  // Properties of Normalize
  // ---------------------------------------------------------------------------

  /** A position already on the map is its own normal form. */
  lemma {:induction false} NormalizeInBounds(width: int, height: int, p: Position)
    requires width > 0 && height > 0 && InBounds(width, height, p)
    ensures Normalize(width, height, p) == p
  {
    NormalizeIsMod(width, height, p);
    ModOfInRange(p.x, width);
    ModOfInRange(p.y, height);
  }

  /** Normalizing twice is the same as normalizing once. */
  lemma {:induction false} NormalizeIdempotent(width: int, height: int, p: Position)
    requires width > 0 && height > 0
    ensures Normalize(width, height, Normalize(width, height, p)) == Normalize(width, height, p)
  {
    NormalizeInBounds(width, height, Normalize(width, height, p));
  }

  /** Positions a whole number of map widths/heights apart share a normal form. */
  lemma {:induction false} NormalizePeriodic(width: int, height: int, p: Position, i: int, j: int)
    requires width > 0 && height > 0
    ensures Normalize(width, height, Position(p.x + i * width, p.y + j * height)) == Normalize(width, height, p)
  {
    NormalizeIsMod(width, height, p);
    NormalizeIsMod(width, height, Position(p.x + i * width, p.y + j * height));
    ShiftMod(p.x, width, i);
    ShiftMod(p.y, height, j);
  }

  /** Adding a multiple of the modulus leaves the Euclidean remainder unchanged. */
  lemma {:induction false} ShiftMod(a: int, n: int, k: int)
    requires n > 0
    ensures (a + k * n) % n == a % n
  {
    var q, r := a / n, a % n;
    assert a + k * n == n * (q + k) + r by {
      assert a == n * q + r;
      assert n * (q + k) == n * q + n * k;
    }
    ModUnique(a + k * n, n, q + k, r);
  }

  /** A position is its normal form plus whole numbers of map widths and heights. */
  lemma {:induction false} Decompose(width: int, height: int, p: Position)
    requires width > 0 && height > 0
    ensures var n := Normalize(width, height, p);
      p == Position(n.x + (p.x / width) * width, n.y + (p.y / height) * height)
  {
    NormalizeIsMod(width, height, p);
  }

  /** A step commutes with a shift by whole map widths and heights. */
  lemma {:induction false} OffsetShift(width: int, height: int, n: Position, d: Direction, i: int, j: int)
    ensures Offset(Position(n.x + i * width, n.y + j * height), d)
         == Position(Offset(n, d).x + i * width, Offset(n, d).y + j * height)
  {
  }

  /** One step from the normal form lands on the same cell as one step from the position. */
  lemma {:induction false} OffsetNormalize(width: int, height: int, p: Position, d: Direction)
    requires width > 0 && height > 0
    ensures Normalize(width, height, Offset(Normalize(width, height, p), d)) == Normalize(width, height, Offset(p, d))
  {
    var n := Normalize(width, height, p);
    var qx, qy := p.x / width, p.y / height;
    Decompose(width, height, p);
    OffsetShift(width, height, n, d, qx, qy);
    NormalizePeriodic(width, height, Offset(n, d), qx, qy);
  }

  /** Stepping in a direction and then in its opposite returns to the same cell. */
  lemma {:induction false} OppositeReturns(width: int, height: int, p: Position, d: Direction, e: Direction)
    requires width > 0 && height > 0 && Opposite(d) == Some(e)
    ensures Normalize(width, height, Offset(Normalize(width, height, Offset(p, d)), e)) == Normalize(width, height, p)
  {
    OffsetNormalize(width, height, Offset(p, d), e);
    assert Offset(Offset(p, d), e) == p;
  }

  /** On a map at least two cells wide and high, a cardinal step always leaves the cell. */
  lemma {:induction false} StepLeavesCell(width: int, height: int, p: Position, d: Direction)
    requires width >= 2 && height >= 2 && d != Still
    ensures Normalize(width, height, Offset(p, d)) != Normalize(width, height, p)
  {
    var n := Normalize(width, height, p);
    OffsetNormalize(width, height, p, d);
    var o := Offset(n, d);
    NormalizeIsMod(width, height, o);
    match d
    case East =>
      if n.x + 1 < width { ModOfInRange(n.x + 1, width); } else { ModUnique(n.x + 1, width, 1, 0); }
    case West =>
      if n.x >= 1 { ModOfInRange(n.x - 1, width); } else { ModUnique(n.x - 1, width, -1, width - 1); }
    case South =>
      if n.y + 1 < height { ModOfInRange(n.y + 1, height); } else { ModUnique(n.y + 1, height, 1, 0); }
    case North =>
      if n.y >= 1 { ModOfInRange(n.y - 1, height); } else { ModUnique(n.y - 1, height, -1, height - 1); }
  }

  // ---------------------------------------------------------------------------
  // Properties of Distance
  // ---------------------------------------------------------------------------

  lemma {:induction false} DistanceSymmetric(width: int, height: int, a: Position, b: Position)
    requires width > 0 && height > 0
    ensures Distance(width, height, a, b) == Distance(width, height, b, a)
  {
  }

  /** The distance is zero exactly when both positions normalize to the same cell. */
  lemma {:induction false} DistanceZeroIff(width: int, height: int, a: Position, b: Position)
    requires width > 0 && height > 0
    ensures Distance(width, height, a, b) == 0 <==> Normalize(width, height, a) == Normalize(width, height, b)
  {
  }

  /** Two different on-map positions are at a positive distance. */
  lemma {:induction false} DistancePositive(width: int, height: int, a: Position, b: Position)
    requires width > 0 && height > 0 && InBounds(width, height, a) && InBounds(width, height, b) && a != b
    ensures Distance(width, height, a, b) > 0
  {
    NormalizeInBounds(width, height, a);
    NormalizeInBounds(width, height, b);
    DistanceZeroIff(width, height, a, b);
  }

  // ---------------------------------------------------------------------------
  // Properties of UnsafeMoves
  // ---------------------------------------------------------------------------

  /** No candidate at all exactly when source and destination are the same cell. */
  lemma {:induction false} UnsafeMovesEmptyIff(width: int, height: int, source: Position, destination: Position)
    requires width > 0 && height > 0
    ensures UnsafeMoves(width, height, source, destination) == []
        <==> Normalize(width, height, source) == Normalize(width, height, destination)
  {
  }

  /** A tie between going round either way is broken towards EAST and SOUTH. */
  lemma {:induction false} UnsafeMovesTie(width: int, height: int, source: Position, destination: Position)
    requires width > 0 && height > 0
    ensures var s, t := Normalize(width, height, source), Normalize(width, height, destination);
      var r := UnsafeMoves(width, height, source, destination);
      && (s.x != t.x && 2 * Abs(s.x - t.x) == width ==> r[0] == East)
      && (s.y != t.y && 2 * Abs(s.y - t.y) == height ==> r[|r| - 1] == South)
  {
  }

  /** The successor of a coordinate on a circle of `n` cells. */
  lemma {:induction false} ModNext(a: int, n: int)
    requires 0 <= a < n
    ensures (a + 1) % n == if a + 1 < n then a + 1 else 0
  {
    if a + 1 < n { ModOfInRange(a + 1, n); } else { ModUnique(a + 1, n, 1, 0); }
  }

  /** The predecessor of a coordinate on a circle of `n` cells. */
  lemma {:induction false} ModPrev(a: int, n: int)
    requires 0 <= a < n
    ensures (a - 1) % n == if a >= 1 then a - 1 else n - 1
  {
    if a >= 1 { ModOfInRange(a - 1, n); } else { ModUnique(a - 1, n, -1, n - 1); }
  }

  /** Whether UnsafeMoves steps towards +x (resp. +y) on an axis where `a != b`. */
  predicate StepsForward(a: int, b: int, n: int)
  {
    var d := Abs(a - b);
    if a < b then !(d > n - d) else !(d < n - d)
  }

  /** The chosen step on one axis shortens the circular distance by exactly one. */
  lemma {:induction false} AxisStepCloser(a: int, b: int, n: int)
    requires 0 <= a < n && 0 <= b < n && a != b
    ensures StepsForward(a, b, n) ==> AxisDistance((a + 1) % n, b, n) == AxisDistance(a, b, n) - 1
    ensures !StepsForward(a, b, n) ==> AxisDistance((a - 1) % n, b, n) == AxisDistance(a, b, n) - 1
  {
    ModNext(a, n);
    ModPrev(a, n);
  }

  /** One step in any candidate direction lowers the distance to the destination by one. */
  lemma {:induction false} UnsafeMovesCloser(width: int, height: int, source: Position, destination: Position, d: Direction)
    requires width > 0 && height > 0
    requires d in UnsafeMoves(width, height, source, destination)
    ensures Distance(width, height, Offset(source, d), destination) == Distance(width, height, source, destination) - 1
  {
    var s := Normalize(width, height, source);
    var t := Normalize(width, height, destination);
    var n := Normalize(width, height, Offset(source, d));
    StepNormalized(width, height, source, d);
    CandidateAxis(width, height, source, destination, d);
    CloserOnAxis(width, height, s, t, n, d);
  }

  /** Where one step from a position lands, in terms of its normal form. */
  lemma {:induction false} StepNormalized(width: int, height: int, p: Position, d: Direction)
    requires width > 0 && height > 0
    ensures var s, n := Normalize(width, height, p), Normalize(width, height, Offset(p, d));
      n == Position(Offset(s, d).x % width, Offset(s, d).y % height)
  {
    var s := Normalize(width, height, p);
    NormalizeIdempotent(width, height, p);
    OffsetNormalize(width, height, p, d);
    NormalizeIsMod(width, height, Offset(s, d));
  }

  /** The distance bookkeeping of one candidate step, on positions already in bounds. */
  lemma {:induction false} CloserOnAxis(width: int, height: int, s: Position, t: Position, n: Position, d: Direction)
    requires width > 0 && height > 0 && InBounds(width, height, s) && InBounds(width, height, t)
    requires n == Position(Offset(s, d).x % width, Offset(s, d).y % height)
    requires d == East || d == West ==> s.x != t.x && (d == East <==> StepsForward(s.x, t.x, width))
    requires d == South || d == North ==> s.y != t.y && (d == South <==> StepsForward(s.y, t.y, height))
    requires d != Still
    ensures AxisDistance(n.x, t.x, width) + AxisDistance(n.y, t.y, height)
         == AxisDistance(s.x, t.x, width) + AxisDistance(s.y, t.y, height) - 1
  {
    if s.x != t.x { AxisStepCloser(s.x, t.x, width); }
    if s.y != t.y { AxisStepCloser(s.y, t.y, height); }
    ModOfInRange(s.x, width);
    ModOfInRange(s.y, height);
  }

  /** A candidate direction moves along an axis where the two cells differ, forward exactly when StepsForward says so. */
  lemma {:induction false} CandidateAxis(width: int, height: int, source: Position, destination: Position, d: Direction)
    requires width > 0 && height > 0
    requires d in UnsafeMoves(width, height, source, destination)
    ensures var s, t := Normalize(width, height, source), Normalize(width, height, destination);
      && (d == East || d == West ==> s.x != t.x && (d == East <==> StepsForward(s.x, t.x, width)))
      && (d == South || d == North ==> s.y != t.y && (d == South <==> StepsForward(s.y, t.y, height)))
      && d != Still
  {
  }
}
