/** `Position.areConnected` and its backtracking depth-first search `dfs`
    (model/Position.java): whether all listed positions can be put in one order in which
    consecutive positions are adjacent along an axis, visiting every position once. */
module Connectivity {
  import opened Positions
  import opened Seqs

  /** The `HashSet<Position>` the search marks and unmarks positions in. */
  class PositionSet {
    var elems: set<Position>

    constructor ()
      ensures elems == {}
    {
      elems := {};
    }

    /** `contains`: set membership. */
    predicate Contains(p: Position): (r: bool)
      reads this
      ensures r <==> p in elems
    {
      p in elems
    }

    method Add(p: Position)
      modifies this
      ensures elems == old(elems) + {p}
    {
      elems := elems + {p};
    }

    method Remove(p: Position)
      modifies this
      ensures elems == old(elems) - {p}
    {
      elems := elems - {p};
    }
  }

  /** `path` is a walk that starts anywhere and then only enters listed positions outside
      `avoid`, never repeats a position, and moves one unit step along `a` at a time. */
  ghost predicate IsWalk(path: seq<Position>, positions: seq<Position>, avoid: set<Position>, a: Axis) {
    && |path| >= 1
    && Distinct(path)
    && (forall i :: 1 <= i < |path| ==> path[i] in positions && path[i] !in avoid)
    && (forall i :: 0 <= i < |path| - 1 ==> UnitStepAlong(path[i], path[i + 1], a))
  }

  /** What `dfs(current, positions, visited, remaining, axis)` searches for: a walk from
      `current` with `remaining` further steps that avoids the positions already visited. */
  ghost predicate CanExtend(current: Position, positions: seq<Position>, visited: set<Position>, remaining: nat, a: Axis) {
    exists path :: |path| == remaining + 1 && path[0] == current && IsWalk(path, positions, visited, a)
  }

  /** A chain through `positions`: an ordering that visits each listed position exactly
      once (so no position is listed twice) with consecutive entries adjacent along `a`. */
  ghost predicate IsChain(path: seq<Position>, positions: seq<Position>, a: Axis) {
    && |path| == |positions|
    && Distinct(path)
    && (forall i :: 0 <= i < |path| ==> path[i] in positions)
    && (forall i :: 0 <= i < |path| - 1 ==> UnitStepAlong(path[i], path[i + 1], a))
  }

  /** The property `areConnected` decides: there are at least two positions and some
      chain through all of them (a Hamiltonian path of the axis-adjacency graph). */
  ghost predicate Connected(positions: seq<Position>, a: Axis) {
    |positions| >= 2 && exists path :: IsChain(path, positions, a)
  }

  /** None of the first `n` listed positions that are unvisited and adjacent to `current`
      along `a` starts a walk of `remaining` steps avoiding `visited`. */
  ghost predicate NoneExtends(current: Position, positions: seq<Position>, visited: set<Position>, remaining: nat, a: Axis, n: int) {
    forall k :: 0 <= k < n && k < |positions| && positions[k] !in visited && UnitStepAlong(current, positions[k], a)
      ==> !CanExtend(positions[k], positions, visited, remaining, a)
  }

  /** `dfs`: marks `current` as visited, succeeds when nothing remains, otherwise tries
      every unvisited listed position adjacent along `a` in list order; on failure it
      unmarks `current`, so the visited set is as on entry (less `current`). */
  method Dfs(current: Position, positions: seq<Position>, visited: PositionSet, remaining: nat, a: Axis)
    returns (found: bool)
    modifies visited
    ensures found == CanExtend(current, positions, old(visited.elems), remaining, a)
    ensures !found ==> visited.elems == old(visited.elems) - {current}
    decreases remaining
  {
    ghost var entry := visited.elems;
    visited.Add(current);
    if remaining == 0 {
      assert IsWalk([current], positions, entry, a);
      return true;
    }
    ghost var marked := entry + {current};
    for i := 0 to |positions|
      invariant visited.elems == marked
      invariant NoneExtends(current, positions, marked, remaining - 1, a, i)
    {
      var next := positions[i];
      if !visited.Contains(next) && IsAdjacentAlong(current, next, a) {
        var ok := Dfs(next, positions, visited, remaining - 1, a);
        if ok {
          ExtendWalk(current, next, positions, entry, remaining, a);
          return true;
        }
        assert visited.elems == marked;
      }
    }
    NoExtension(current, positions, entry, remaining, a);
    visited.Remove(current);
    return false;
  }

  /** A walk found from an adjacent unvisited neighbour extends to one from `current`. */
  lemma ExtendWalk(current: Position, next: Position, positions: seq<Position>, visited: set<Position>, remaining: nat, a: Axis)
    requires remaining >= 1
    requires next in positions && next !in visited + {current}
    requires UnitStepAlong(current, next, a)
    requires CanExtend(next, positions, visited + {current}, remaining - 1, a)
    ensures CanExtend(current, positions, visited, remaining, a)
  {
    var tail :| |tail| == remaining && tail[0] == next && IsWalk(tail, positions, visited + {current}, a);
    var path := [current] + tail;
    assert forall i :: 1 <= i < |path| ==> path[i] == tail[i - 1];
    assert IsWalk(path, positions, visited, a);
  }

  /** When no adjacent unvisited neighbour extends, `current` does not extend either:
      the second entry of any walk from `current` would be such a neighbour. */
  lemma NoExtension(current: Position, positions: seq<Position>, visited: set<Position>, remaining: nat, a: Axis)
    requires remaining >= 1
    requires NoneExtends(current, positions, visited + {current}, remaining - 1, a, |positions|)
    ensures !CanExtend(current, positions, visited, remaining, a)
  {
    forall path | |path| == remaining + 1 && path[0] == current && IsWalk(path, positions, visited, a)
      ensures false
    {
      var k := SecondEntryExtends(current, path, positions, visited, remaining, a);
    }
  }

  /** The second entry of a walk from `current` is an adjacent unvisited listed position
      from which the rest of the walk extends. */
  lemma SecondEntryExtends(current: Position, path: seq<Position>, positions: seq<Position>, visited: set<Position>, remaining: nat, a: Axis)
    returns (k: int)
    requires remaining >= 1
    requires |path| == remaining + 1 && path[0] == current && IsWalk(path, positions, visited, a)
    ensures 0 <= k < |positions| && positions[k] !in visited + {current}
    ensures UnitStepAlong(current, positions[k], a)
    ensures CanExtend(positions[k], positions, visited + {current}, remaining - 1, a)
  {
    var tail := path[1..];
    assert forall i :: 0 <= i < |tail| ==> tail[i] == path[i + 1];
    assert path[1] == tail[0];
    assert IsWalk(tail, positions, visited + {current}, a);
    k :| 0 <= k < |positions| && positions[k] == tail[0];
  }

  /** `areConnected`: false for fewer than two positions; otherwise true as soon as the
      search from some listed start, with nothing visited, covers all of them. */
  method AreConnected(positions: seq<Position>, a: Axis) returns (r: bool)
    ensures r == Connected(positions, a)
  {
    if |positions| < 2 {
      return false;
    }
    var visited := new PositionSet();
    for i := 0 to |positions|
      invariant visited.elems == {}
      invariant forall k :: 0 <= k < i ==> !CanExtend(positions[k], positions, {}, |positions| - 1, a)
    {
      var found := Dfs(positions[i], positions, visited, |positions| - 1, a);
      if found {
        ChainFromSearch(positions, positions[i], a);
        return true;
      }
    }
    NoChainFromSearch(positions, a);
    return false;
  }

  /** A successful search from a listed start is a chain. */
  lemma ChainFromSearch(positions: seq<Position>, start: Position, a: Axis)
    requires |positions| >= 1 && start in positions
    requires CanExtend(start, positions, {}, |positions| - 1, a)
    ensures exists path :: IsChain(path, positions, a)
  {
    var path :| |path| == |positions| && path[0] == start && IsWalk(path, positions, {}, a);
    assert IsChain(path, positions, a);
  }

  /** If the search fails from every listed start, no chain exists. */
  lemma NoChainFromSearch(positions: seq<Position>, a: Axis)
    requires |positions| >= 1
    requires forall k :: 0 <= k < |positions| ==> !CanExtend(positions[k], positions, {}, |positions| - 1, a)
    ensures !exists path :: IsChain(path, positions, a)
  {
    forall path | IsChain(path, positions, a) ensures false {
      var k := ChainStartsASearch(path, positions, a);
    }
  }

  /** A chain is a walk from its first entry, which is one of the listed starts. */
  lemma ChainStartsASearch(path: seq<Position>, positions: seq<Position>, a: Axis) returns (k: int)
    requires |positions| >= 1 && IsChain(path, positions, a)
    ensures 0 <= k < |positions|
    ensures CanExtend(positions[k], positions, {}, |positions| - 1, a)
  {
    assert IsWalk(path, positions, {}, a);
    assert path[0] in positions;
    k :| 0 <= k < |positions| && positions[k] == path[0];
  }

  /** A list that names some position twice is never connected: a chain would have to
      visit more distinct positions than the list holds. */
  lemma DuplicatesNeverConnected(positions: seq<Position>, a: Axis)
    requires !Distinct(positions)
    ensures !Connected(positions, a)
  {
    if path :| IsChain(path, positions, a) {
      Pigeonhole(path, positions);
      ElementsCardinality(positions);
      assert false;
    }
  }

  /** A connected list has no repeated position and every chain through it lists exactly
      its positions. */
  lemma ChainCoversEveryPosition(positions: seq<Position>, path: seq<Position>, a: Axis)
    requires IsChain(path, positions, a)
    ensures Distinct(positions)
    ensures forall p :: p in positions <==> p in path
  {
    if !Distinct(positions) {
      Pigeonhole(path, positions);
      ElementsCardinality(positions);
    }
    ElementsCardinality(path);
    ElementsCardinality(positions);
    assert Elements(path) <= Elements(positions);
    SubsetEqualCardinality(Elements(path), Elements(positions));
    forall p ensures p in positions <==> p in path {
      assert p in positions <==> p in Elements(positions);
      assert p in path <==> p in Elements(path);
    }
  }

  /** A subset with as many elements as its superset is the whole superset. */
  lemma SubsetEqualCardinality<T>(small: set<T>, big: set<T>)
    requires small <= big && |small| == |big|
    ensures small == big
  {
    if small != big {
      assert big - small != {} by {
        if big - small == {} {
          forall y | y in big ensures y in small {
            assert y !in big - small;
          }
        }
      }
      var x :| x in big - small;
      SubsetCardinality(small, big - {x});
    }
  }

  /** Fewer than two positions are never connected. */
  lemma ShortListsNeverConnected(positions: seq<Position>, a: Axis)
    requires |positions| < 2
    ensures !Connected(positions, a)
  {
  }

  /** A listed position without any neighbour along `a` in the list rules out a chain:
      every position of a chain of two or more has a neighbour before or after it. */
  lemma IsolatedPositionBreaksChain(positions: seq<Position>, p: Position, a: Axis)
    requires p in positions
    requires forall q :: q in positions ==> !UnitStepAlong(p, q, a)
    ensures !Connected(positions, a)
  {
    if path :| |positions| >= 2 && IsChain(path, positions, a) {
      ChainCoversEveryPosition(positions, path, a);
      var k :| 0 <= k < |path| && path[k] == p;
      ChainEntryHasNeighbour(path, positions, a, k);
    }
  }

  /** Every entry of a chain of two or more positions has a listed neighbour along `a`. */
  lemma ChainEntryHasNeighbour(path: seq<Position>, positions: seq<Position>, a: Axis, k: nat)
    requires IsChain(path, positions, a) && |path| >= 2 && k < |path|
    ensures exists q :: q in positions && UnitStepAlong(path[k], q, a)
  {
    if k == 0 {
      assert path[1] in positions && UnitStepAlong(path[0], path[1], a);
    } else {
      AdjacencySymmetric(path[k - 1], path[k], a);
      assert path[k - 1] in positions && UnitStepAlong(path[k], path[k - 1], a);
    }
  }

  /** (0,0,0), (1,0,0), (2,0,0) form a chain along X and along no other axis. */
  lemma StraightLineAlongX()
    ensures Connected([Position(0, 0, 0), Position(1, 0, 0), Position(2, 0, 0)], X)
    ensures !Connected([Position(0, 0, 0), Position(1, 0, 0), Position(2, 0, 0)], Y)
    ensures !Connected([Position(0, 0, 0), Position(1, 0, 0), Position(2, 0, 0)], Z)
  {
    var ps := [Position(0, 0, 0), Position(1, 0, 0), Position(2, 0, 0)];
    assert IsChain(ps, ps, X);
    IsolatedPositionBreaksChain(ps, ps[0], Y);
    IsolatedPositionBreaksChain(ps, ps[0], Z);
  }

  /** (0,0,0), (1,0,0), (3,0,0): the gap at x = 2 leaves (3,0,0) with no neighbour. */
  lemma GapBreaksChain()
    ensures !Connected([Position(0, 0, 0), Position(1, 0, 0), Position(3, 0, 0)], X)
  {
    var ps := [Position(0, 0, 0), Position(1, 0, 0), Position(3, 0, 0)];
    IsolatedPositionBreaksChain(ps, ps[2], X);
  }

  /** Diagonal steps do not count: (0,0,0), (1,1,0), (2,2,0) are connected along no axis. */
  lemma DiagonalNotConnected(a: Axis)
    ensures !Connected([Position(0, 0, 0), Position(1, 1, 0), Position(2, 2, 0)], a)
  {
    var ps := [Position(0, 0, 0), Position(1, 1, 0), Position(2, 2, 0)];
    IsolatedPositionBreaksChain(ps, ps[0], a);
  }
}
