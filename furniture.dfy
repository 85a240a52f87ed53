/** A piece of furniture: a named grid that maps each occupied cell to the component
    occupying it (model/Furniture.java). */
module Furnitures {
  import opened Wrappers
  import opened Positions
  import opened Components
  import opened Seqs

  /** The `Map<Position, Component>` of occupied cells. */
  type Occupancy = map<Position, Component>

  /** Every occupied cell is the position of one of its occupant's modules. */
  predicate Covered(occ: Occupancy) {
    forall p :: p in occ ==> p in CellsOf(occ[p].modules)
  }

  /** The occupancy after putting `c` at every cell of `cells`, overwriting earlier
      occupants there (last write wins) and keeping every other cell as it was. */
  function Place(occ: Occupancy, cells: set<Position>, c: Component): (r: Occupancy)
    ensures r.Keys == occ.Keys + cells
    ensures forall p :: p in cells ==> r[p] == c
    ensures forall p :: p in occ && p !in cells ==> r[p] == occ[p]
  {
    map p | p in occ.Keys + cells :: if p in cells then c else occ[p]
  }

  /** The occupancy after clearing every cell of `cells`, whoever occupies it, keeping every
      other cell as it was. */
  function Vacate(occ: Occupancy, cells: set<Position>): (r: Occupancy)
    ensures r.Keys == occ.Keys - cells
    ensures forall p :: p in r ==> r[p] == occ[p]
  {
    occ - cells
  }

  /** Placing a component whose cells were all free and then removing it restores the
      occupancy exactly. */
  lemma PlaceThenVacateRestores(occ: Occupancy, c: Component)
    requires CellsOf(c.modules) !! occ.Keys
    ensures Vacate(Place(occ, CellsOf(c.modules), c), CellsOf(c.modules)) == occ
  {
    var cells := CellsOf(c.modules);
    var after := Vacate(Place(occ, cells, c), cells);
    assert after.Keys == occ.Keys;
  }

  /** Of two overlapping placements the later one owns the shared cells. */
  lemma LastPlacementWins(occ: Occupancy, first: Component, second: Component, p: Position)
    requires p in CellsOf(first.modules) && p in CellsOf(second.modules)
    ensures Place(Place(occ, CellsOf(first.modules), first), CellsOf(second.modules), second)[p] == second
  {
  }

  /** Removing a component clears its cells even where another component has since taken
      them over. */
  lemma VacateClearsOtherOccupants(occ: Occupancy, c: Component, p: Position)
    requires p in occ && occ[p] != c && p in CellsOf(c.modules)
    ensures p !in Vacate(occ, CellsOf(c.modules))
  {
  }

  /** Adding and removing components keep every occupied cell covered by its occupant. */
  lemma PlacementKeepsCovered(occ: Occupancy, c: Component)
    requires Covered(occ)
    ensures Covered(Place(occ, CellsOf(c.modules), c))
    ensures Covered(Vacate(occ, CellsOf(c.modules)))
  {
  }

  /** The modules of a component sit at pairwise different cells. */
  predicate DistinctCells(ms: seq<ShelvingModule>) {
    forall i, j :: 0 <= i < j < |ms| ==> ms[i].position != ms[j].position
  }

  /** A component with k modules at different cells covers k cells. */
  lemma DistinctCellsCount(ms: seq<ShelvingModule>)
    requires DistinctCells(ms)
    ensures |CellsOf(ms)| == |ms|
  {
    var ps := PositionsOf(ms);
    assert Distinct(ps);
    CellsArePositions(ms);
    ElementsCardinality(ps);
  }

  /** The cells an occupant holds. */
  function CellsHeldBy(occ: Occupancy, c: Component): set<Position> {
    set p | p in occ && occ[p] == c
  }

  /** After placing `c`, it holds its own cells, plus any it already held elsewhere. */
  lemma PlacedComponentHoldsItsCells(occ: Occupancy, c: Component)
    ensures CellsHeldBy(Place(occ, CellsOf(c.modules), c), c) == CellsOf(c.modules) + CellsHeldBy(occ, c)
  {
  }

  /** A listing of `occ`: one entry per occupied cell, each the occupant of its cell. */
  ghost predicate IsListing(occ: Occupancy, r: seq<Component>, cells: seq<Position>) {
    && |r| == |cells|
    && Distinct(cells)
    && Elements(cells) == occ.Keys
    && forall i :: 0 <= i < |r| ==> r[i] == occ[cells[i]]
  }

  /** Dropping the last entry of a listing lists the occupancy without that cell. */
  lemma ListingWithoutLast(occ: Occupancy, r: seq<Component>, cells: seq<Position>)
    requires IsListing(occ, r, cells) && r != []
    ensures cells[|r| - 1] in occ
    ensures IsListing(occ - {cells[|r| - 1]}, r[..|r| - 1], cells[..|r| - 1])
  {
    var n := |r| - 1;
    var last := cells[n];
    var rest := occ - {last};
    assert last in Elements(cells);
    assert Distinct(cells[..n]);
    assert Elements(cells[..n]) == rest.Keys by {
      forall p ensures p in Elements(cells[..n]) <==> p in rest.Keys {
        if p in Elements(cells[..n]) {
          var k :| 0 <= k < n && cells[..n][k] == p;
          assert cells[k] == p && k != n;
        } else if p in rest.Keys {
          assert p in Elements(cells);
          var k :| 0 <= k < |cells| && cells[k] == p;
        }
      }
    }
  }

  /** Clearing one occupied cell lowers the count of its occupant's cells by one. */
  lemma HeldAfterClearing(occ: Occupancy, p: Position, c: Component)
    requires p in occ
    ensures |CellsHeldBy(occ, c)| == |CellsHeldBy(occ - {p}, c)| + (if occ[p] == c then 1 else 0)
  {
    if occ[p] == c {
      assert CellsHeldBy(occ, c) == CellsHeldBy(occ - {p}, c) + {p};
    } else {
      assert CellsHeldBy(occ, c) == CellsHeldBy(occ - {p}, c);
    }
  }

  /** In a listing each component occurs once per cell it holds. */
  lemma {:induction false} ListingCounts(occ: Occupancy, r: seq<Component>, cells: seq<Position>, c: Component)
    requires IsListing(occ, r, cells)
    ensures multiset(r)[c] == |CellsHeldBy(occ, c)|
    decreases |r|
  {
    if r != [] {
      var n := |r| - 1;
      ListingWithoutLast(occ, r, cells);
      ListingCounts(occ - {cells[n]}, r[..n], cells[..n], c);
      HeldAfterClearing(occ, cells[n], c);
      assert r == r[..n] + [r[n]];
      assert multiset(r) == multiset(r[..n]) + multiset{r[n]};
    }
  }

  /** A furniture: its name and dimensions are fixed at construction; only the occupancy
      changes. Width, height and module size are stored but not checked against the
      positions placed. */
  class Furniture {
    const name: string
    const width: int
    const height: int
    const moduleSize: int
    var components: Occupancy

    ghost predicate Valid()
      reads this
    {
      Covered(components)
    }

    constructor (name: string, width: int, height: int, moduleSize: int)
      ensures this.name == name && this.width == width && this.height == height
      ensures this.moduleSize == moduleSize
      ensures components == map[]
      ensures Valid()
    {
      this.name := name;
      this.width := width;
      this.height := height;
      this.moduleSize := moduleSize;
      components := map[];
    }

    /** `addComponent`: puts `c` at the position of each of its modules in turn. */
    method AddComponent(c: Component)
      requires Valid()
      modifies this
      ensures Valid()
      ensures components == Place(old(components), CellsOf(c.modules), c)
      ensures forall p :: p in CellsOf(c.modules) ==> GetComponent(p) == Some(c)
    {
      ghost var before := components;
      for i := 0 to |c.modules|
        invariant components == Place(before, CellsOf(c.modules[..i]), c)
      {
        assert c.modules[..i + 1] == c.modules[..i] + [c.modules[i]];
        CellsOfConcat(c.modules[..i], c.modules[i]);
        components := components[c.modules[i].position := c];
      }
      assert c.modules[..|c.modules|] == c.modules;
      PlacementKeepsCovered(before, c);
    }

    /** `removeComponent`: clears the position of each of its modules in turn. */
    method RemoveComponent(c: Component)
      requires Valid()
      modifies this
      ensures Valid()
      ensures components == Vacate(old(components), CellsOf(c.modules))
      ensures forall p :: p in CellsOf(c.modules) ==> GetComponent(p) == None
    {
      ghost var before := components;
      for i := 0 to |c.modules|
        invariant components == Vacate(before, CellsOf(c.modules[..i]))
      {
        assert c.modules[..i + 1] == c.modules[..i] + [c.modules[i]];
        CellsOfConcat(c.modules[..i], c.modules[i]);
        components := components - {c.modules[i].position};
      }
      assert c.modules[..|c.modules|] == c.modules;
      PlacementKeepsCovered(before, c);
    }

    /** `getComponents`: the occupants, one entry per occupied cell, in some order (the
        ghost `cells` names the cell of each entry). */
    method GetComponents() returns (r: seq<Component>, ghost cells: seq<Position>)
      ensures IsListing(components, r, cells)
      ensures |r| == |components|
    {
      r, cells := [], [];
      var todo := components.Keys;
      while todo != {}
        invariant todo !! Elements(cells) && todo + Elements(cells) == components.Keys
        invariant Distinct(cells) && |r| == |cells|
        invariant forall i :: 0 <= i < |r| ==> r[i] == components[cells[i]]
        decreases todo
      {
        var p :| p in todo;
        r, cells := r + [components[p]], cells + [p];
        todo := todo - {p};
      }
      ElementsCardinality(cells);
    }

    /** `getComponent`: the occupant of `p`, or none. */
    function GetComponent(p: Position): (r: Option<Component>)
      reads this
      ensures r.Some? <==> p in components
      ensures r.Some? ==> r.value == components[p]
    {
      if p in components then Some(components[p]) else None
    }
  }
}
