/** Shelving modules and the components that group them (model/Component.java,
    model/shelvingsystem/ShelvingModule.java). */
module Components {
  import opened Wrappers
  import opened Positions
  import opened Colors
  import opened Seqs

  /** The smallest placeable unit: its size, grid cell and colour, and the two attributes of
      a shelving module. Named after the Java subclass, since `module` is a keyword here. */
  datatype ShelvingModule = ShelvingModule(size: int, position: Position, color: Color, isBackClosed: bool, hasDoor: bool)

  /** A component: an immutable sequence of modules placed and removed as a unit. */
  datatype Component = Component(modules: seq<ShelvingModule>)

  /** The cells the modules occupy. */
  function CellsOf(ms: seq<ShelvingModule>): set<Position> {
    set m | m in ms :: m.position
  }

  /** The module positions in sequence order. */
  function PositionsOf(ms: seq<ShelvingModule>): (ps: seq<Position>)
    ensures |ps| == |ms|
    ensures forall i :: 0 <= i < |ms| ==> ps[i] == ms[i].position
  {
    seq(|ms|, i requires 0 <= i < |ms| => ms[i].position)
  }

  /** The cells are the elements of the position sequence. */
  lemma CellsArePositions(ms: seq<ShelvingModule>)
    ensures CellsOf(ms) == Elements(PositionsOf(ms))
  {
    var ps := PositionsOf(ms);
    forall p ensures p in CellsOf(ms) <==> p in Elements(ps) {
      if p in CellsOf(ms) {
        var m :| m in ms && m.position == p;
        var k :| 0 <= k < |ms| && ms[k] == m;
        assert ps[k] == p;
      }
      if p in Elements(ps) {
        var k :| 0 <= k < |ps| && ps[k] == p;
        assert ms[k] in ms;
      }
    }
  }

  /** Adding a module at either end adds its cell. */
  lemma CellsOfConcat(ms: seq<ShelvingModule>, m: ShelvingModule)
    ensures CellsOf(ms + [m]) == CellsOf(ms) + {m.position}
    ensures CellsOf([m] + ms) == {m.position} + CellsOf(ms)
  {
    assert forall n :: n in ms + [m] <==> n in ms || n == m;
    assert forall n :: n in [m] + ms <==> n == m || n in ms;
  }

  /** `new Component(modules)`: keeps the given sequence. */
  function FromModules(ms: seq<ShelvingModule>): (c: Component)
    ensures c.modules == ms
  {
    Component(ms)
  }

  /** `new Component(module)`: the one-module component. */
  function FromModule(m: ShelvingModule): (c: Component)
    ensures |c.modules| == 1 && c.modules[0] == m
  {
    Component([m])
  }

  /** `getModule(position)`: the first module, in sequence order, whose position equals `p`
      (see FirstAt); none exactly when `p` is not one of the component's cells. */
  function GetModule(c: Component, p: Position): (r: Option<ShelvingModule>)
    ensures r.None? <==> p !in CellsOf(c.modules)
  {
    FirstAt(c.modules, p)
  }

  /** The stream `filter(...).findFirst()` over a module sequence. */
  function FirstAt(ms: seq<ShelvingModule>, p: Position): (r: Option<ShelvingModule>)
    ensures r.None? <==> forall i :: 0 <= i < |ms| ==> ms[i].position != p
    ensures r.Some? ==> exists i :: 0 <= i < |ms| && ms[i] == r.value
                          && r.value.position == p
                          && forall j :: 0 <= j < i ==> ms[j].position != p
  {
    if ms == [] then None
    else if ms[0].position == p then Some(ms[0])
    else
      var rest := FirstAt(ms[1..], p);
      assert forall i :: 1 <= i < |ms| ==> ms[i] == ms[1..][i - 1];
      rest
  }

  /** Looking up the cell of the k-th module finds a module, at or before index k. */
  lemma GetModuleFindsFirst(c: Component, k: nat)
    requires k < |c.modules|
    ensures exists i :: 0 <= i <= k && GetModule(c, c.modules[k].position) == Some(c.modules[i])
  {
    var p := c.modules[k].position;
    var i :| 0 <= i < |c.modules| && c.modules[i] == GetModule(c, p).value && c.modules[i].position == p
             && forall j :: 0 <= j < i ==> c.modules[j].position != p;
    assert i <= k;
  }
}
