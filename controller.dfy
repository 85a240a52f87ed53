/** The controller's registry of furniture and its placement step (Controller.java): it
    keeps the list of furniture, the active furniture, position and colour, and the two
    factories; persistence calls are no-ops here. */
module Controllers {
  import opened Wrappers
  import opened Positions
  import opened Colors
  import opened Components
  import opened Furnitures

  /** The kinds of furniture the furniture factory can build; `SHELVING` is the only one. */
  datatype FurnitureType = Shelving

  /** A component factory: from the module size, the active position and the active colour
      (either may still be unset) it builds the new component. */
  type ComponentFactory = (int, Option<Position>, Option<Color>) -> Component

  const NameRequired := "Name is required"
  const NameInUse := "Furniture with the same name already exists"
  const FurnitureNotFound := "Furniture not found"

  /** Some furniture in `fs` is called `name`. */
  predicate NameTaken(fs: seq<Furniture>, name: string) {
    exists i :: 0 <= i < |fs| && fs[i].name == name
  }

  /** No two furniture in `fs` share a name. */
  predicate DistinctNames(fs: seq<Furniture>) {
    forall i, j :: 0 <= i < j < |fs| ==> fs[i].name != fs[j].name
  }

  /** `i` is the first index of a furniture called `name`. */
  predicate FirstNamed(fs: seq<Furniture>, name: string, i: int) {
    0 <= i < |fs| && fs[i].name == name && forall j :: 0 <= j < i ==> fs[j].name != name
  }

  /** Appending a furniture under a name not yet in use keeps the names distinct. */
  lemma {:induction false} FreshNameKeepsNamesDistinct(fs: seq<Furniture>, f: Furniture)
    requires DistinctNames(fs) && !NameTaken(fs, f.name)
    ensures DistinctNames(fs + [f])
  {
    var gs := fs + [f];
    forall i, j | 0 <= i < j < |gs| ensures gs[i].name != gs[j].name {
      if j < |fs| {
        assert gs[i] == fs[i] && gs[j] == fs[j];
      } else {
        assert gs[i] == fs[i] && gs[j] == f;
      }
    }
  }

  /** In a list with distinct names the first furniture with a name is the only one. */
  lemma FirstNamedIsUnique(fs: seq<Furniture>, name: string, i: int, k: int)
    requires DistinctNames(fs) && FirstNamed(fs, name, i)
    requires 0 <= k < |fs| && fs[k].name == name
    ensures k == i
  {
  }

  class Controller {
    var furnitureList: seq<Furniture>
    const colorList: seq<Color>
    var furnitureTypeFactory: Option<FurnitureType>
    var componentFactory: Option<ComponentFactory>
    var activeFurniture: Furniture?
    var activePosition: Option<Position>
    var activeColor: Option<Color>

    /** Every furniture the controller can reach keeps its occupancy invariant. */
    ghost predicate Valid()
      reads this, activeFurniture, (set f | f in furnitureList)
    {
      && (forall f :: f in furnitureList ==> f.Valid())
      && (activeFurniture != null ==> activeFurniture.Valid())
    }

    /** `new Controller(dataService)`: no furniture, nothing active, no factory; the colour
        list is what the data service offers. */
    constructor (availableColors: seq<Color>)
      ensures furnitureList == [] && colorList == availableColors
      ensures furnitureTypeFactory == None && componentFactory == None
      ensures activeFurniture == null && activePosition == None && activeColor == None
      ensures Valid()
    {
      furnitureList := [];
      colorList := availableColors;
      furnitureTypeFactory, componentFactory := None, None;
      activeFurniture := null;
      activePosition, activeColor := None, None;
    }

    method SetFurnitureFactory(factory: FurnitureType)
      modifies this
      ensures furnitureTypeFactory == Some(factory)
      ensures furnitureList == old(furnitureList) && componentFactory == old(componentFactory)
      ensures activeFurniture == old(activeFurniture) && activePosition == old(activePosition)
      ensures activeColor == old(activeColor)
    {
      furnitureTypeFactory := Some(factory);
    }

    method SetComponentFactory(factory: ComponentFactory)
      modifies this
      ensures componentFactory == Some(factory)
      ensures furnitureList == old(furnitureList) && furnitureTypeFactory == old(furnitureTypeFactory)
      ensures activeFurniture == old(activeFurniture) && activePosition == old(activePosition)
      ensures activeColor == old(activeColor)
    {
      componentFactory := Some(factory);
    }

    method SetActiveColor(color: Color)
      modifies this
      ensures activeColor == Some(color)
      ensures furnitureList == old(furnitureList) && furnitureTypeFactory == old(furnitureTypeFactory)
      ensures componentFactory == old(componentFactory)
      ensures activeFurniture == old(activeFurniture) && activePosition == old(activePosition)
    {
      activeColor := Some(color);
    }

    method SetActivePosition(position: Position)
      modifies this
      ensures activePosition == Some(position)
      ensures furnitureList == old(furnitureList) && furnitureTypeFactory == old(furnitureTypeFactory)
      ensures componentFactory == old(componentFactory)
      ensures activeFurniture == old(activeFurniture) && activeColor == old(activeColor)
    {
      activePosition := Some(position);
    }

    /** `setActiveFurniture`: makes the first furniture called `name` active; with none of
        that name it throws an invalid-argument error and the active furniture stays. */
    method SetActiveFurniture(name: string) returns (r: Outcome)
      requires Valid()
      modifies this
      ensures Valid()
      ensures r.Pass? <==> NameTaken(furnitureList, name)
      ensures r.Pass? ==> exists i :: FirstNamed(furnitureList, name, i) && activeFurniture == furnitureList[i]
      ensures r.Fail? ==> r == Fail(InvalidArgument(FurnitureNotFound)) && activeFurniture == old(activeFurniture)
      ensures furnitureList == old(furnitureList) && furnitureTypeFactory == old(furnitureTypeFactory)
      ensures componentFactory == old(componentFactory)
      ensures activePosition == old(activePosition) && activeColor == old(activeColor)
    {
      for i := 0 to |furnitureList|
        invariant forall j :: 0 <= j < i ==> furnitureList[j].name != name
      {
        if furnitureList[i].name == name {
          activeFurniture := furnitureList[i];
          assert FirstNamed(furnitureList, name, i);
          return Pass;
        }
      }
      return Fail(InvalidArgument(FurnitureNotFound));
    }

    /** `createFurniture`: rejects an empty name and a name already in the list with an
        invalid-argument error, throws when no furniture factory is set, and otherwise
        appends one new, empty furniture with the given name and dimensions. On every
        failure the list is unchanged; names in the list stay pairwise distinct. */
    method CreateFurniture(name: string, width: int, height: int, moduleSize: int) returns (r: Outcome)
      requires Valid()
      modifies this
      ensures Valid()
      ensures name == [] ==> r == Fail(InvalidArgument(NameRequired))
      ensures name != [] && NameTaken(old(furnitureList), name) ==> r == Fail(InvalidArgument(NameInUse))
      ensures name != [] && !NameTaken(old(furnitureList), name) && furnitureTypeFactory.None? ==> r == Fail(NullPointer)
      ensures r.Pass? <==> name != [] && !NameTaken(old(furnitureList), name) && furnitureTypeFactory.Some?
      ensures r.Fail? ==> furnitureList == old(furnitureList)
      ensures r.Pass? ==>
                && |furnitureList| == |old(furnitureList)| + 1
                && furnitureList[..|old(furnitureList)|] == old(furnitureList)
                && var f := furnitureList[|furnitureList| - 1];
                   fresh(f) && f.name == name && f.width == width && f.height == height
                   && f.moduleSize == moduleSize && f.components == map[]
      ensures DistinctNames(old(furnitureList)) ==> DistinctNames(furnitureList)
      ensures furnitureTypeFactory == old(furnitureTypeFactory) && componentFactory == old(componentFactory)
      ensures activeFurniture == old(activeFurniture) && activePosition == old(activePosition)
      ensures activeColor == old(activeColor)
    {
      if name == [] {
        return Fail(InvalidArgument(NameRequired));
      }
      for i := 0 to |furnitureList|
        invariant forall j :: 0 <= j < i ==> furnitureList[j].name != name
      {
        if furnitureList[i].name == name {
          return Fail(InvalidArgument(NameInUse));
        }
      }
      if furnitureTypeFactory.None? {
        return Fail(NullPointer);
      }
      var furniture := new Furniture(name, width, height, moduleSize);
      if DistinctNames(furnitureList) {
        FreshNameKeepsNamesDistinct(furnitureList, furniture);
      }
      furnitureList := furnitureList + [furniture];
      return Pass;
    }

    /** `createComponent`: builds a component with the factory from the active furniture's
        module size and the active position and colour, and adds it to the active
        furniture, whose cells under its modules then all map to it. Without an active
        furniture or a component factory the call throws and changes nothing. */
    method CreateComponent() returns (r: Result<Component>)
      requires Valid()
      modifies activeFurniture
      ensures Valid()
      ensures r.Ok? <==> activeFurniture != null && componentFactory.Some?
      ensures r.Err? ==> r.error == NullPointer
      ensures r.Err? && activeFurniture != null ==> activeFurniture.components == old(activeFurniture.components)
      ensures r.Ok? ==>
                && r.value == componentFactory.value(activeFurniture.moduleSize, activePosition, activeColor)
                && activeFurniture.components == Place(old(activeFurniture.components), CellsOf(r.value.modules), r.value)
                && forall p :: p in CellsOf(r.value.modules) ==> activeFurniture.GetComponent(p) == Some(r.value)
    {
      if activeFurniture == null || componentFactory.None? {
        return Err(NullPointer);
      }
      var component := componentFactory.value(activeFurniture.moduleSize, activePosition, activeColor);
      activeFurniture.AddComponent(component);
      return Ok(component);
    }
  }
}
