/** Grid positions and the three adjacency relations between them
    (model/Position.java). Coordinates are mathematical integers here. Module
    PositionOverflow restates the three adjacency tests and the search's chain property on
    Java's 32-bit `int` coordinates and shows where the two disagree. */
module Positions {
  import opened Wrappers

  /** An immutable point of the 3D grid; equality is equality of the three coordinates,
      as `Position.equals` defines it. The two-argument Java constructor is Position(x, y, 0). */
  datatype Position = Position(x: int, y: int, z: int)

  /** A unit step. TOP decreases y and BACK increases z. */
  datatype Direction = Top | Bottom | Left | Right | Back | Front

  datatype Axis = X | Y | Z

  const UniqueAxisMessage := "The direction along the same axis must be unique."

  function Abs(n: int): (r: nat)
    ensures r == n || r == -n
  {
    if n < 0 then -n else n
  }

  function AxisOf(d: Direction): Axis {
    match d
    case Top | Bottom => Y
    case Left | Right => X
    case Back | Front => Z
  }

  /** The position one step away from `p` in direction `d`: one unit along the direction's
      axis, the two other coordinates unchanged. */
  function Step(p: Position, d: Direction): (r: Position)
    ensures UnitStepAlong(p, r, AxisOf(d))
  {
    match d
    case Top => p.(y := p.y - 1)
    case Bottom => p.(y := p.y + 1)
    case Left => p.(x := p.x - 1)
    case Right => p.(x := p.x + 1)
    case Back => p.(z := p.z + 1)
    case Front => p.(z := p.z - 1)
  }

  /** How many times `d` occurs in `ds`. */
  function Count(ds: seq<Direction>, d: Direction): nat {
    if ds == [] then 0
    else Count(ds[..|ds| - 1], d) + (if ds[|ds| - 1] == d then 1 else 0)
  }

  /** How many entries of `ds` lie on axis `a`. */
  function AxisCount(ds: seq<Direction>, a: Axis): nat {
    if ds == [] then 0
    else AxisCount(ds[..|ds| - 1], a) + (if AxisOf(ds[|ds| - 1]) == a then 1 else 0)
  }

  /** No two entries of `ds` (at different indices) lie on the same axis; in particular no
      direction is repeated. */
  predicate UniqueAxes(ds: seq<Direction>) {
    forall i, j :: 0 <= i < j < |ds| ==> AxisOf(ds[i]) != AxisOf(ds[j])
  }

  /** `p` moved by every step of `ds`, in order. The closed form: each coordinate moves by
      the number of steps that increase it minus the number that decrease it. */
  function Translate(p: Position, ds: seq<Direction>): (r: Position)
    ensures r.x == p.x + Count(ds, Right) - Count(ds, Left)
    ensures r.y == p.y + Count(ds, Bottom) - Count(ds, Top)
    ensures r.z == p.z + Count(ds, Back) - Count(ds, Front)
  {
    if ds == [] then p else Step(Translate(p, ds[..|ds| - 1]), ds[|ds| - 1])
  }

  /** The counters `requiredUniqueAxisDirection` compares with 1 decide exactly whether the
      directions are on pairwise different axes. */
  lemma {:induction false} AxisCountsDecideUniqueness(ds: seq<Direction>)
    ensures (AxisCount(ds, X) <= 1 && AxisCount(ds, Y) <= 1 && AxisCount(ds, Z) <= 1)
            <==> UniqueAxes(ds)
  {
    if ds != [] {
      var init, last := ds[..|ds| - 1], ds[|ds| - 1];
      AxisCountsDecideUniqueness(init);
      AxisCountZeroIffAbsent(init, AxisOf(last));
      if UniqueAxes(ds) {
        assert UniqueAxes(init) by {
          forall i, j | 0 <= i < j < |init| ensures AxisOf(init[i]) != AxisOf(init[j]) {
            assert init[i] == ds[i] && init[j] == ds[j];
          }
        }
        forall k | 0 <= k < |init| ensures AxisOf(init[k]) != AxisOf(last) {
          assert init[k] == ds[k];
        }
      } else {
        var i, j :| 0 <= i < j < |ds| && AxisOf(ds[i]) == AxisOf(ds[j]);
        if j < |ds| - 1 {
          assert init[i] == ds[i] && init[j] == ds[j];
        } else {
          assert init[i] == ds[i];
        }
      }
    }
  }

  /** No direction of `ds` lies on axis `a` exactly when the axis count is zero. */
  lemma {:induction false} AxisCountZeroIffAbsent(ds: seq<Direction>, a: Axis)
    ensures AxisCount(ds, a) == 0 <==> forall k :: 0 <= k < |ds| ==> AxisOf(ds[k]) != a
  {
    if ds != [] {
      var init := ds[..|ds| - 1];
      AxisCountZeroIffAbsent(init, a);
      assert forall k :: 0 <= k < |init| ==> init[k] == ds[k];
    }
  }

  /** The validation step of `getRelativePosition`: counts the directions on each axis and
      fails with an invalid-argument error when some axis is used more than once. */
  method RequireUniqueAxisDirection(ds: seq<Direction>) returns (r: Outcome)
    ensures r.Pass? <==> UniqueAxes(ds)
    ensures r.Fail? ==> r.error == InvalidArgument(UniqueAxisMessage)
  {
    var vertical, horizontal, depth := 0, 0, 0;
    for i := 0 to |ds|
      invariant vertical == AxisCount(ds[..i], Y)
      invariant horizontal == AxisCount(ds[..i], X)
      invariant depth == AxisCount(ds[..i], Z)
    {
      assert ds[..i + 1][..i] == ds[..i];
      match AxisOf(ds[i])
      case Y => vertical := vertical + 1;
      case X => horizontal := horizontal + 1;
      case Z => depth := depth + 1;
    }
    assert ds[..|ds|] == ds;
    AxisCountsDecideUniqueness(ds);
    if vertical > 1 || horizontal > 1 || depth > 1 {
      r := Fail(InvalidArgument(UniqueAxisMessage));
    } else {
      r := Pass;
    }
  }

  /** `getRelativePosition`: validates the directions, then walks from `p` one step per
      direction, updating the three coordinates in place. */
  method RelativePosition(p: Position, ds: seq<Direction>) returns (r: Result<Position>)
    ensures r.Ok? <==> UniqueAxes(ds)
    ensures r.Ok? ==> r.value == Translate(p, ds)
    ensures r.Err? ==> r.error == InvalidArgument(UniqueAxisMessage)
  {
    var check := RequireUniqueAxisDirection(ds);
    if check.Fail? {
      return Err(check.error);
    }
    var x, y, z := p.x, p.y, p.z;
    for i := 0 to |ds|
      invariant Position(x, y, z) == Translate(p, ds[..i])
    {
      assert ds[..i + 1][..i] == ds[..i];
      match ds[i]
      case Top => y := y - 1;
      case Bottom => y := y + 1;
      case Left => x := x - 1;
      case Right => x := x + 1;
      case Back => z := z + 1;
      case Front => z := z - 1;
    }
    assert ds[..|ds|] == ds;
    r := Ok(Position(x, y, z));
  }

  /** `isAdjacent(other, directions...)`: false when `q` is `p` itself (checked first, so no
      error is raised then); otherwise an invalid-argument error when two directions share
      an axis, and otherwise whether `q` is exactly `p` moved by all the directions. */
  function IsAdjacentInDirections(p: Position, q: Position, ds: seq<Direction>): (r: Result<bool>)
    ensures r.Err? <==> q != p && !UniqueAxes(ds)
    ensures r.Err? ==> r.error == InvalidArgument(UniqueAxisMessage)
    ensures r == Ok(true) <==>
              && q != p && UniqueAxes(ds)
              && q.x - p.x == Count(ds, Right) - Count(ds, Left)
              && q.y - p.y == Count(ds, Bottom) - Count(ds, Top)
              && q.z - p.z == Count(ds, Back) - Count(ds, Front)
  {
    if q == p then Ok(false)
    else if !UniqueAxes(ds) then Err(InvalidArgument(UniqueAxisMessage))
    else Ok(q == Translate(p, ds))
  }

  /** `q` is one unit step from `p` along axis `a` and agrees with `p` on the two other axes. */
  predicate UnitStepAlong(p: Position, q: Position, a: Axis) {
    match a
    case X => Abs(q.x - p.x) == 1 && q.y == p.y && q.z == p.z
    case Y => Abs(q.y - p.y) == 1 && q.x == p.x && q.z == p.z
    case Z => Abs(q.z - p.z) == 1 && q.x == p.x && q.y == p.y
  }

  /** `isAdjacent(other, axis)`: `q` is not `p` and is `p`'s relative position in one of the
      axis's two directions. Since it goes through the relative position, the other two
      coordinates must agree. */
  function IsAdjacentAlong(p: Position, q: Position, a: Axis): (r: bool)
    ensures r <==> UnitStepAlong(p, q, a)
  {
    q != p &&
    match a
    case X => q == Step(p, Left) || q == Step(p, Right)
    case Y => q == Step(p, Top) || q == Step(p, Bottom)
    case Z => q == Step(p, Front) || q == Step(p, Back)
  }

  /** The per-axis test is the directional test in either direction of the axis, each
      with a single direction, so that no error can arise. */
  lemma AlongIsEitherDirection(p: Position, q: Position, a: Axis)
    ensures IsAdjacentAlong(p, q, a) <==>
              match a
              case X => IsAdjacentInDirections(p, q, [Left]) == Ok(true) || IsAdjacentInDirections(p, q, [Right]) == Ok(true)
              case Y => IsAdjacentInDirections(p, q, [Top]) == Ok(true) || IsAdjacentInDirections(p, q, [Bottom]) == Ok(true)
              case Z => IsAdjacentInDirections(p, q, [Front]) == Ok(true) || IsAdjacentInDirections(p, q, [Back]) == Ok(true)
  {
    var dirs := match a
      case X => [Left, Right]
      case Y => [Top, Bottom]
      case Z => [Front, Back];
    SingleDirectionIsAxisStep(p, q, dirs[0]);
    SingleDirectionIsAxisStep(p, q, dirs[1]);
  }

  function Max(a: int, b: int): int {
    if a < b then b else a
  }

  /** `isAdjacent(other)`: every coordinate differs by at most one and some coordinate by
      exactly one, i.e. `q` is one of the 26 cells around `p` (Chebyshev distance 1). */
  function IsAdjacent(p: Position, q: Position): (r: bool)
    ensures r <==> Max(Max(Abs(p.x - q.x), Abs(p.y - q.y)), Abs(p.z - q.z)) == 1
    ensures r ==> p != q
  {
    var dx, dy, dz := Abs(p.x - q.x), Abs(p.y - q.y), Abs(p.z - q.z);
    (dx <= 1 && dy <= 1 && dz <= 1) && (dx == 1 || dy == 1 || dz == 1)
  }

  /** A position is never adjacent to itself, under any of the three forms. */
  lemma NeverAdjacentToItself(p: Position, ds: seq<Direction>, a: Axis)
    ensures !IsAdjacent(p, p)
    ensures IsAdjacentInDirections(p, p, ds) == Ok(false)
    ensures !IsAdjacentAlong(p, p, a)
  {
  }

  /** The unrestricted and the per-axis forms are symmetric. */
  lemma AdjacencySymmetric(p: Position, q: Position, a: Axis)
    ensures IsAdjacent(p, q) == IsAdjacent(q, p)
    ensures IsAdjacentAlong(p, q, a) == IsAdjacentAlong(q, p, a)
  {
  }

  /** A step in a single direction is a step along its axis, and conversely. */
  lemma {:induction false} SingleDirectionIsAxisStep(p: Position, q: Position, d: Direction)
    ensures IsAdjacentInDirections(p, q, [d]) == Ok(true) <==> q == Step(p, d)
    ensures q == Step(p, d) ==> IsAdjacentAlong(p, q, AxisOf(d))
  {
    assert [d][..0] == [];
  }

  /** With valid, non-empty directions the relative position is never `p` itself and lies
      in its 26-neighbourhood: directional adjacency implies unrestricted adjacency, and
      the per-axis form implies it too. */
  lemma {:induction false} DirectionalImpliesAdjacent(p: Position, q: Position, ds: seq<Direction>, a: Axis)
    ensures UniqueAxes(ds) && ds != [] ==> Translate(p, ds) != p && IsAdjacent(p, Translate(p, ds))
    ensures IsAdjacentInDirections(p, q, ds) == Ok(true) ==> IsAdjacent(p, q)
    ensures IsAdjacentAlong(p, q, a) ==> IsAdjacent(p, q)
  {
    if UniqueAxes(ds) {
      UniqueAxesCountsBounded(ds);
      if ds != [] {
        SomeAxisCounted(ds);
      }
    }
  }

  /** Under unique axes each direction occurs at most once and opposite directions never
      both occur. */
  lemma {:induction false} UniqueAxesCountsBounded(ds: seq<Direction>)
    requires UniqueAxes(ds)
    ensures Count(ds, Left) + Count(ds, Right) <= 1
    ensures Count(ds, Top) + Count(ds, Bottom) <= 1
    ensures Count(ds, Front) + Count(ds, Back) <= 1
  {
    AxisCountsDecideUniqueness(ds);
    AxisCountSplits(ds);
  }

  /** The axis count is the sum of the counts of the axis's two directions. */
  lemma {:induction false} AxisCountSplits(ds: seq<Direction>)
    ensures AxisCount(ds, X) == Count(ds, Left) + Count(ds, Right)
    ensures AxisCount(ds, Y) == Count(ds, Top) + Count(ds, Bottom)
    ensures AxisCount(ds, Z) == Count(ds, Front) + Count(ds, Back)
  {
    if ds != [] {
      AxisCountSplits(ds[..|ds| - 1]);
    }
  }

  /** A non-empty list of directions on distinct axes moves at least one coordinate. */
  lemma {:induction false} SomeAxisCounted(ds: seq<Direction>)
    requires UniqueAxes(ds) && ds != []
    ensures Count(ds, Right) != Count(ds, Left) || Count(ds, Bottom) != Count(ds, Top)
         || Count(ds, Back) != Count(ds, Front)
  {
    UniqueAxesCountsBounded(ds);
    var init := ds[..|ds| - 1];
    assert UniqueAxes(init) by {
      forall i, j | 0 <= i < j < |init| ensures AxisOf(init[i]) != AxisOf(init[j]) {
        assert init[i] == ds[i] && init[j] == ds[j];
      }
    }
    UniqueAxesCountsBounded(init);
  }
}
