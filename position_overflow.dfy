/** What `Position`'s adjacency tests compute on Java's 32-bit `int` coordinates
    (model/Position.java). The subtraction in `isAdjacent(other)` and the increments in
    `getRelativePosition` wrap around modulo 2^32, and `Math.abs(Integer.MIN_VALUE)` is
    negative. So `isAdjacent(other)` accepts some pairs whose coordinate difference is
    2^31 or more, wherever they lie in the range, and the per-axis and directional tests
    link the two ends of the range. The rest of the model uses the mathematical
    definitions of modules Positions and Connectivity. */
module PositionOverflow {
  import opened Wrappers
  import opened Positions
  import opened JavaInt
  import opened Seqs
  import opened Connectivity

  /** A position whose coordinates fit Java's `int`. */
  predicate Representable(p: Position) {
    InIntRange(p.x) && InIntRange(p.y) && InIntRange(p.z)
  }

  /** `Math.abs` on an `int`: the absolute value, except that it returns `Integer.MIN_VALUE`
      for `Integer.MIN_VALUE`, whose negation does not fit. */
  function JavaAbs(n: int): (r: int)
    requires InIntRange(n)
    ensures InIntRange(r)
    ensures n != IntMin ==> r == Abs(n)
    ensures n == IntMin ==> r < 0
  {
    if n == IntMin then IntMin else Abs(n)
  }

  /** `isAdjacent(other)` exactly as written, with 32-bit wrapping differences. Even so a
      position is never adjacent to itself. */
  function IsAdjacentAsWritten(p: Position, q: Position): (r: bool)
    requires Representable(p) && Representable(q)
    ensures r ==> p != q
  {
    var dx, dy, dz := JavaAbs(Wrap(p.x - q.x)), JavaAbs(Wrap(p.y - q.y)), JavaAbs(Wrap(p.z - q.z));
    (dx <= 1 && dy <= 1 && dz <= 1) && (dx == 1 || dy == 1 || dz == 1)
  }

  /** The origin is "adjacent" to (1, Integer.MIN_VALUE, 0): 0 - MIN_VALUE wraps to MIN_VALUE,
      whose `Math.abs` is negative and so passes the "at most one" test. */
  lemma AsWrittenAdjacentAcrossTheRange()
    ensures Representable(Position(0, 0, 0)) && Representable(Position(1, IntMin, 0))
    ensures IsAdjacentAsWritten(Position(0, 0, 0), Position(1, IntMin, 0))
    ensures !IsAdjacent(Position(0, 0, 0), Position(1, IntMin, 0))
  {
    assert Wrap(0 - IntMin) == IntMin;
  }

  /** Nowhere near an end of the range: (0, 1, 0) counts as "adjacent" to (1, MIN_VALUE + 1, 0),
      since 1 - (MIN_VALUE + 1) is 2^31, which wraps to MIN_VALUE. */
  lemma AsWrittenAdjacentAwayFromTheEnds()
    ensures Representable(Position(0, 1, 0)) && Representable(Position(1, IntMin + 1, 0))
    ensures IsAdjacentAsWritten(Position(0, 1, 0), Position(1, IntMin + 1, 0))
    ensures !IsAdjacent(Position(0, 1, 0), Position(1, IntMin + 1, 0))
  {
    assert Wrap(1 - (IntMin + 1)) == IntMin;
  }

  /** While every coordinate difference fits an `int` the code computes the 26-neighbourhood
      test of module Positions. */
  lemma AsWrittenAgreesWhenDifferencesFit(p: Position, q: Position)
    requires Representable(p) && Representable(q)
    requires IntMin < p.x - q.x <= IntMax && IntMin < p.y - q.y <= IntMax && IntMin < p.z - q.z <= IntMax
    ensures IsAdjacentAsWritten(p, q) == IsAdjacent(p, q)
  {
  }

  /** One step of `getRelativePosition` with `x++`, `y--`, … on `int` coordinates. */
  function StepAsWritten(p: Position, d: Direction): (r: Position)
    requires Representable(p)
    ensures Representable(r)
  {
    match d
    case Top => p.(y := Wrap(p.y - 1))
    case Bottom => p.(y := Wrap(p.y + 1))
    case Left => p.(x := Wrap(p.x - 1))
    case Right => p.(x := Wrap(p.x + 1))
    case Back => p.(z := Wrap(p.z + 1))
    case Front => p.(z := Wrap(p.z - 1))
  }

  /** `isAdjacent(other, axis)` exactly as written: `other` differs from this position and is
      its wrapped relative position in one of the axis's two directions. Such a neighbour
      is itself representable and agrees with `p` on the two other axes. */
  function IsAdjacentAlongAsWritten(p: Position, q: Position, a: Axis): (r: bool)
    requires Representable(p)
    ensures r ==> Representable(q)
    ensures r ==> match a
                  case X => q.y == p.y && q.z == p.z
                  case Y => q.x == p.x && q.z == p.z
                  case Z => q.x == p.x && q.y == p.y
  {
    q != p &&
    match a
    case X => q == StepAsWritten(p, Left) || q == StepAsWritten(p, Right)
    case Y => q == StepAsWritten(p, Top) || q == StepAsWritten(p, Bottom)
    case Z => q == StepAsWritten(p, Front) || q == StepAsWritten(p, Back)
  }

  /** RIGHT of (Integer.MAX_VALUE, 0, 0) wraps to (Integer.MIN_VALUE, 0, 0), so the two ends
      of the x range are "adjacent along X". */
  lemma AsWrittenStepWrapsAround()
    ensures Representable(Position(IntMax, 0, 0))
    ensures StepAsWritten(Position(IntMax, 0, 0), Right) == Position(IntMin, 0, 0)
    ensures IsAdjacentAlongAsWritten(Position(IntMax, 0, 0), Position(IntMin, 0, 0), X)
    ensures !IsAdjacentAlong(Position(IntMax, 0, 0), Position(IntMin, 0, 0), X)
  {
    assert Wrap(IntMax + 1) == IntMin;
  }

  /** Away from the ends of the range the code computes the per-axis test of module
      Positions. */
  lemma AsWrittenAlongAgreesAwayFromTheEnds(p: Position, q: Position, a: Axis)
    requires IntMin < p.x < IntMax && IntMin < p.y < IntMax && IntMin < p.z < IntMax
    ensures IsAdjacentAlongAsWritten(p, q, a) == IsAdjacentAlong(p, q, a)
  {
  }

  /** The coordinate updates of `getRelativePosition`, one direction after the other, on
      `int` coordinates. */
  function TranslateAsWritten(p: Position, ds: seq<Direction>): (r: Position)
    requires Representable(p)
    ensures Representable(r)
  {
    if ds == [] then p else StepAsWritten(TranslateAsWritten(p, ds[..|ds| - 1]), ds[|ds| - 1])
  }

  /** `isAdjacent(other, directions...)` exactly as written: the same checks in the same
      order as in module Positions, with the wrapped relative position. */
  function IsAdjacentInDirectionsAsWritten(p: Position, q: Position, ds: seq<Direction>): (r: Result<bool>)
    requires Representable(p)
    ensures r.Err? <==> q != p && !UniqueAxes(ds)
    ensures r.Err? ==> r.error == InvalidArgument(UniqueAxisMessage)
    ensures r == Ok(true) ==> Representable(q) && q != p
  {
    if q == p then Ok(false)
    else if !UniqueAxes(ds) then Err(InvalidArgument(UniqueAxisMessage))
    else Ok(q == TranslateAsWritten(p, ds))
  }

  /** RIGHT then BOTTOM of (Integer.MAX_VALUE, 0, 0) is (Integer.MIN_VALUE, 1, 0) on `int`
      coordinates, while mathematically it is (2^31, 1, 0). */
  lemma AsWrittenDirectionsWrapAround()
    ensures Representable(Position(IntMax, 0, 0))
    ensures IsAdjacentInDirectionsAsWritten(Position(IntMax, 0, 0), Position(IntMin, 1, 0), [Right, Bottom]) == Ok(true)
    ensures IsAdjacentInDirections(Position(IntMax, 0, 0), Position(IntMin, 1, 0), [Right, Bottom]) == Ok(false)
  {
    var ds := [Right, Bottom];
    assert ds[..1] == [Right] && [Right][..0] == [];
    assert Wrap(IntMax + 1) == IntMin;
    assert TranslateAsWritten(Position(IntMax, 0, 0), [Right]) == Position(IntMin, 0, 0);
    assert Translate(Position(IntMax, 0, 0), ds) == Position(IntMax + 1, 1, 0);
  }

  /** With directions on distinct axes each coordinate moves by at most one, so away from
      the ends of the range no increment wraps and the code computes `Translate`. */
  lemma {:induction false} TranslateAsWrittenAwayFromTheEnds(p: Position, ds: seq<Direction>)
    requires IntMin < p.x < IntMax && IntMin < p.y < IntMax && IntMin < p.z < IntMax
    requires UniqueAxes(ds)
    ensures TranslateAsWritten(p, ds) == Translate(p, ds)
  {
    if ds != [] {
      var init := ds[..|ds| - 1];
      assert UniqueAxes(init) by {
        forall i, j | 0 <= i < j < |init| ensures AxisOf(init[i]) != AxisOf(init[j]) {
          assert init[i] == ds[i] && init[j] == ds[j];
        }
      }
      TranslateAsWrittenAwayFromTheEnds(p, init);
      UniqueAxesCountsBounded(ds);
      var r := Translate(p, ds);
      assert InIntRange(r.x) && InIntRange(r.y) && InIntRange(r.z);
    }
  }

  /** Away from the ends of the range the code computes the directional test of module
      Positions. */
  lemma AsWrittenDirectionsAgreeAwayFromTheEnds(p: Position, q: Position, ds: seq<Direction>)
    requires IntMin < p.x < IntMax && IntMin < p.y < IntMax && IntMin < p.z < IntMax
    ensures IsAdjacentInDirectionsAsWritten(p, q, ds) == IsAdjacentInDirections(p, q, ds)
  {
    if q != p && UniqueAxes(ds) {
      TranslateAsWrittenAwayFromTheEnds(p, ds);
    }
  }

  /** The chain property of module Connectivity with the per-axis test as written in place
      of the mathematical one. That the search decides it is not proved here; module
      Connectivity proves the search against the mathematical test. */
  ghost predicate IsChainAsWritten(path: seq<Position>, positions: seq<Position>, a: Axis) {
    && |path| == |positions|
    && Distinct(path)
    && (forall i :: 0 <= i < |path| ==> path[i] in positions && Representable(path[i]))
    && (forall i :: 0 <= i < |path| - 1 ==> IsAdjacentAlongAsWritten(path[i], path[i + 1], a))
  }

  /** Some chain as written runs through all of at least two positions. */
  ghost predicate ConnectedAsWritten(positions: seq<Position>, a: Axis) {
    |positions| >= 2 && exists path :: IsChainAsWritten(path, positions, a)
  }

  /** [(Integer.MAX_VALUE, 0, 0), (Integer.MIN_VALUE, 0, 0)] is connected along X on `int`
      coordinates, though the two positions are 2^32 - 1 apart. */
  lemma AsWrittenEndsOfRangeConnected()
    ensures ConnectedAsWritten([Position(IntMax, 0, 0), Position(IntMin, 0, 0)], X)
    ensures !Connected([Position(IntMax, 0, 0), Position(IntMin, 0, 0)], X)
  {
    var ps := [Position(IntMax, 0, 0), Position(IntMin, 0, 0)];
    AsWrittenStepWrapsAround();
    assert IsChainAsWritten(ps, ps, X);
    IsolatedPositionBreaksChain(ps, ps[0], X);
  }

  /** When no listed position lies at an end of the range, the chains as written are the
      chains of module Connectivity, so the search decides the same property. */
  lemma AsWrittenChainsAgreeAwayFromTheEnds(positions: seq<Position>, a: Axis)
    requires forall i :: 0 <= i < |positions| ==>
               IntMin < positions[i].x < IntMax && IntMin < positions[i].y < IntMax && IntMin < positions[i].z < IntMax
    ensures ConnectedAsWritten(positions, a) <==> Connected(positions, a)
  {
    forall path | |path| == |positions| && (forall i :: 0 <= i < |path| ==> path[i] in positions)
      ensures IsChainAsWritten(path, positions, a) <==> IsChain(path, positions, a)
    {
      forall i | 0 <= i < |path| - 1
        ensures IsAdjacentAlongAsWritten(path[i], path[i + 1], a) <==> UnitStepAlong(path[i], path[i + 1], a)
      {
        assert path[i] in positions;
        AsWrittenAlongAgreesAwayFromTheEnds(path[i], path[i + 1], a);
      }
    }
  }
}
