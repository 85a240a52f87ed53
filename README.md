# Placement and connectivity engine of the modular furniture configurator

The configurator composes a piece of modular furniture, such as a shelving unit, from cubic
modules on a 3D grid. Modules are grouped into components, and components are placed in a
furniture. This project models the sequential core of that system and proves its properties:

- **`Position`**: an immutable integer triple. Equality is coordinate-wise, so it is the
  datatype's own equality. Position has three adjacency tests:
  - the 26-neighbourhood;
  - "moved by these unit directions", which rejects two directions on one axis;
  - "one unit step along this axis".
- **`getRelativePosition`**: a method whose `for` loop updates the three coordinates in place.
- **`requiredUniqueAxisDirection`**: the source runs three stream filter-and-count passes,
  one per axis. The model folds them into one loop that updates three counters, and proves
  that the counters equal the per-axis counts.
- **`areConnected` / `dfs`**: a backtracking depth-first search.
  - It marks and unmarks positions in a mutable visited set, modelled as class `PositionSet`.
  - It decides whether all listed positions can be ordered into a chain of axis-adjacent
    steps that visits each position once, which is a Hamiltonian path.
- **`Color`**: hex ⇄ RGB conversion and the four ways of building a colour.
  - The pattern is `#?` and six hexadecimal digits.
  - Formatting is `#%02x%02x%02x` on Java `int`s, including what `%02x` prints for
    negative and larger values.
- **`Component`**: an immutable sequence of shelving modules, with lookup of the first
  module at a position.
- **`Furniture`**: a class whose `Map<Position, Component>` occupancy is a `map` field.
  `addComponent` and `removeComponent` update it in place, one module at a time.
- **`Controller`**: the furniture registry and the placement step.
  - `createFurniture` guards and appends to the furniture list.
  - `setActiveFurniture` looks up by name or throws.
  - `createComponent` builds a component with the component factory and places it in the
    active furniture.

Java exceptions become `Result`, `Outcome` or `Option` values, with the same message
strings. Coordinates and colour channels are mathematical integers. Colour formatting
models `%02x` of a Java `int`, including negative values. Module `PositionOverflow`
restates the three adjacency tests and the chain property of `areConnected` on 32-bit
wrapping coordinates, and shows inputs on which they differ from the mathematical versions.
The 26-neighbourhood test is proved to agree with the mathematical one whenever every
coordinate difference fits an `int` (AsWrittenAgreesWhenDifferencesFit); outside that it
goes wrong for some pairs anywhere in the range. The per-axis
test, the directional test and the chain property agree with the mathematical ones when no
coordinate is at an end of the `int` range. That the search decides the as-written chain
property is not proved. See Findings.

Two behaviours of the code are easy to miss:

- **Per-axis adjacency.** `isAdjacent(other, axis)` goes through `getRelativePosition` with
  a single direction. So it requires the other two coordinates to be equal: a position one step away along
  the axis but offset on another axis is not adjacent.
- **Directional adjacency.** `isAdjacent(other, directions...)` checks `other.equals(this)`
  before it validates the directions. So no error is raised when `other` is `this`, even
  for an invalid combination.
  - The validation rejects any two directions on one axis, including the same direction
    twice, not only opposing pairs.

The files:

- `wrappers.dfy`, `seqs.dfy`, `javaint.dfy`: shared support.
- `position.dfy`, `connectivity.dfy`, `position_overflow.dfy`: `Position`.
- `color.dfy`: `Color`.
- `component.dfy`: `Component`.
- `furniture.dfy`: `Furniture`.
- `controller.dfy`: `Controller`.

## Model

| member | source | states |
|---|---|---|
| Positions.Step | api/src/main/java/com/edoardoconti/mfs/model/Position.java:211-216 | One step in a direction moves exactly one unit along the direction's axis and leaves the other two coordinates unchanged |
| Positions.Translate | api/src/main/java/com/edoardoconti/mfs/model/Position.java:204-220 | Moving by every direction in turn shifts each coordinate by the number of steps that increase it minus the number that decrease it: TOP y−1, BOTTOM y+1, LEFT x−1, RIGHT x+1, BACK z+1, FRONT z−1 |
| Positions.AxisCountsDecideUniqueness | api/src/main/java/com/edoardoconti/mfs/model/Position.java:229-236 | The three per-axis counts are all at most one exactly when no two directions share an axis (both directions of the equivalence) |
| Positions.AxisCountZeroIffAbsent | api/src/main/java/com/edoardoconti/mfs/model/Position.java:229-236 | An axis count is zero exactly when no direction lies on that axis |
| Positions.RequireUniqueAxisDirection | api/src/main/java/com/edoardoconti/mfs/model/Position.java:229-236 | The counting loop passes exactly when the directions are on pairwise different axes, and otherwise fails with the invalid-argument message "The direction along the same axis must be unique." |
| Positions.RelativePosition | api/src/main/java/com/edoardoconti/mfs/model/Position.java:204-220 | Validation first: an error exactly when two directions share an axis. Otherwise the loop's in-place coordinate updates yield the translated position |
| Positions.IsAdjacentInDirections | api/src/main/java/com/edoardoconti/mfs/model/Position.java:90-94 | It errs exactly when `q ≠ p` and two directions share an axis, and the error is the invalid-argument message. It answers true exactly when `q ≠ p`, the axes are unique and each coordinate difference equals the net count of its directions |
| Positions.IsAdjacentAlong | api/src/main/java/com/edoardoconti/mfs/model/Position.java:103-109 | True exactly when `q` differs from `p` by 1 in absolute value on the axis and equals it on the other two axes |
| Positions.AlongIsEitherDirection | api/src/main/java/com/edoardoconti/mfs/model/Position.java:103-109 | The per-axis test is the directional test with LEFT or RIGHT (X), TOP or BOTTOM (Y), FRONT or BACK (Z), each given alone |
| Positions.IsAdjacent | api/src/main/java/com/edoardoconti/mfs/model/Position.java:117-125 | True exactly when the largest absolute coordinate difference is 1, so diagonal neighbours count; an adjacent position is never the same position |
| Positions.NeverAdjacentToItself | api/src/main/java/com/edoardoconti/mfs/model/Position.java:90-125 | No position is adjacent to itself under any of the three tests; the directional test answers false rather than failing, for any directions |
| Positions.AdjacencySymmetric | api/src/main/java/com/edoardoconti/mfs/model/Position.java:103-125 | The 26-neighbourhood test and the per-axis test are symmetric |
| Positions.SingleDirectionIsAxisStep | api/src/main/java/com/edoardoconti/mfs/model/Position.java:90-94 | With one direction, the directional test holds exactly when `q` is the one-step neighbour in that direction, which is a step along the direction's axis |
| Positions.DirectionalImpliesAdjacent | api/src/main/java/com/edoardoconti/mfs/model/Position.java:90-125 | A valid non-empty list of directions moves a position into its 26-neighbourhood, never onto itself; directional and per-axis adjacency both imply 26-neighbourhood adjacency |
| Positions.UniqueAxesCountsBounded | api/src/main/java/com/edoardoconti/mfs/model/Position.java:229-236 | Under unique axes no direction repeats and opposite directions never both occur |
| Positions.AxisCountSplits | api/src/main/java/com/edoardoconti/mfs/model/Position.java:229-236 | Each axis count is the sum of the counts of that axis's two directions, which is the filter the validation applies |
| Positions.SomeAxisCounted | api/src/main/java/com/edoardoconti/mfs/model/Position.java:204-220 | A non-empty list of directions on distinct axes changes at least one coordinate |
| Connectivity.PositionSet.constructor | api/src/main/java/com/edoardoconti/mfs/model/Position.java:148 | The new visited set is empty |
| Connectivity.PositionSet.Add | api/src/main/java/com/edoardoconti/mfs/model/Position.java:250 | Marking adds exactly the position |
| Connectivity.PositionSet.Remove | api/src/main/java/com/edoardoconti/mfs/model/Position.java:260 | Unmarking removes exactly the position |
| Connectivity.Dfs | api/src/main/java/com/edoardoconti/mfs/model/Position.java:248-262 | Succeeds exactly when a walk from `current` with `remaining` further axis-adjacent steps exists through listed positions that were unvisited on entry, never repeating a position. On failure the visited set is the entry set minus `current`, because of the unmarking |
| Connectivity.ExtendWalk | api/src/main/java/com/edoardoconti/mfs/model/Position.java:254-257 | A walk found from an unvisited adjacent neighbour, with `current` marked, extends to a walk from `current` |
| Connectivity.NoExtension | api/src/main/java/com/edoardoconti/mfs/model/Position.java:254-261 | When no unvisited adjacent listed neighbour extends to a walk, `current` has no walk either, which justifies the backtracking |
| Connectivity.SecondEntryExtends | api/src/main/java/com/edoardoconti/mfs/model/Position.java:254-257 | The second entry of any walk from `current` is an unvisited, adjacent, listed position from which the rest of the walk continues |
| Connectivity.AreConnected | api/src/main/java/com/edoardoconti/mfs/model/Position.java:143-154 | True exactly when there are at least two positions and some ordering lists every position once with consecutive entries adjacent along the axis (a Hamiltonian path) |
| Connectivity.ChainFromSearch | api/src/main/java/com/edoardoconti/mfs/model/Position.java:150-152 | A successful search from a listed start, with nothing visited and |positions|−1 steps, is a chain |
| Connectivity.NoChainFromSearch | api/src/main/java/com/edoardoconti/mfs/model/Position.java:150-153 | When the search fails from every listed start there is no chain |
| Connectivity.ChainStartsASearch | api/src/main/java/com/edoardoconti/mfs/model/Position.java:150-152 | Every chain is found by the search started at its first entry, which is a listed start |
| Connectivity.DuplicatesNeverConnected | api/src/main/java/com/edoardoconti/mfs/model/Position.java:143-154 | A list that names a position twice is never connected |
| Connectivity.ChainCoversEveryPosition | api/src/main/java/com/edoardoconti/mfs/model/Position.java:143-154 | A list with a chain has no repeats, and the chain holds exactly the listed positions |
| Connectivity.ShortListsNeverConnected | api/src/main/java/com/edoardoconti/mfs/model/Position.java:144-146 | Lists of fewer than two positions are not connected |
| Connectivity.IsolatedPositionBreaksChain | api/src/main/java/com/edoardoconti/mfs/model/Position.java:143-154 | A listed position with no listed neighbour along the axis rules out connectivity |
| Connectivity.ChainEntryHasNeighbour | api/src/main/java/com/edoardoconti/mfs/model/Position.java:143-154 | Every entry of a chain of two or more has a listed neighbour along the axis |
| Connectivity.StraightLineAlongX | api/src/test/java/com/edoardoconti/mfs/model/PositionTest.java:145-152 | (0,0,0), (1,0,0), (2,0,0) are connected along X and not along Y or Z |
| Connectivity.GapBreaksChain | api/src/test/java/com/edoardoconti/mfs/model/PositionTest.java:164-172 | (0,0,0), (1,0,0), (3,0,0) are not connected along X |
| Connectivity.DiagonalNotConnected | api/src/test/java/com/edoardoconti/mfs/model/PositionTest.java:174-183 | (0,0,0), (1,1,0), (2,2,0) are connected along no axis |
| PositionOverflow.JavaAbs | api/src/main/java/com/edoardoconti/mfs/model/Position.java:118-120 | `Math.abs` of an `int` stays in range, agrees with the absolute value except at `Integer.MIN_VALUE`, and is negative there |
| PositionOverflow.IsAdjacentAsWritten | api/src/main/java/com/edoardoconti/mfs/model/Position.java:117-125 | The 26-neighbourhood test on wrapping `int` differences still never holds between a position and itself |
| PositionOverflow.AsWrittenAdjacentAcrossTheRange | api/src/main/java/com/edoardoconti/mfs/model/Position.java:117-125 | With 32-bit differences, (0,0,0) counts as adjacent to (1, −2^31, 0), which the intended test rejects |
| PositionOverflow.AsWrittenAdjacentAwayFromTheEnds | api/src/main/java/com/edoardoconti/mfs/model/Position.java:117-125 | Far from the ends of the range, (0,1,0) counts as adjacent to (1, −2^31+1, 0), since the y difference 2^31 wraps to −2^31; the intended test rejects the pair |
| PositionOverflow.AsWrittenAgreesWhenDifferencesFit | api/src/main/java/com/edoardoconti/mfs/model/Position.java:117-125 | While every coordinate difference fits an `int` (and is not −2^31), the code as written computes the 26-neighbourhood test |
| PositionOverflow.StepAsWritten | api/src/main/java/com/edoardoconti/mfs/model/Position.java:209-219 | A wrapped `++`/`--` step of an `int` position stays representable |
| PositionOverflow.AsWrittenStepWrapsAround | api/src/main/java/com/edoardoconti/mfs/model/Position.java:204-220 | RIGHT of (2^31−1, 0, 0) wraps to (−2^31, 0, 0), so the two counts as adjacent along X as written but not under the intended test |
| PositionOverflow.IsAdjacentAlongAsWritten | api/src/main/java/com/edoardoconti/mfs/model/Position.java:103-109 | On `int` coordinates a neighbour along an axis is itself representable and agrees with the position on the two other axes |
| PositionOverflow.TranslateAsWritten | api/src/main/java/com/edoardoconti/mfs/model/Position.java:204-220 | The loop's `++`/`--` updates on `int` coordinates, one direction after the other, keep the position representable |
| PositionOverflow.IsAdjacentInDirectionsAsWritten | api/src/main/java/com/edoardoconti/mfs/model/Position.java:90-94 | The directional test on `int` coordinates: the same error exactly when `q ≠ p` and two directions share an axis, and a representable neighbour other than `p` when it answers true |
| PositionOverflow.AsWrittenDirectionsWrapAround | api/src/main/java/com/edoardoconti/mfs/model/Position.java:90-94 | RIGHT then BOTTOM of (2^31−1, 0, 0) is (−2^31, 1, 0) as written, which the mathematical directional test rejects |
| PositionOverflow.TranslateAsWrittenAwayFromTheEnds | api/src/main/java/com/edoardoconti/mfs/model/Position.java:204-220 | With directions on distinct axes and no coordinate at an end of the `int` range, no update wraps and the loop computes the mathematical translation |
| PositionOverflow.AsWrittenDirectionsAgreeAwayFromTheEnds | api/src/main/java/com/edoardoconti/mfs/model/Position.java:90-94 | With no coordinate of `p` at an end of the `int` range, the directional test as written is the mathematical one, errors included |
| PositionOverflow.AsWrittenEndsOfRangeConnected | api/src/main/java/com/edoardoconti/mfs/model/Position.java:143-154 | [(2^31−1, 0, 0), (−2^31, 0, 0)] satisfies the chain property of the as-written per-axis test along X, yet is not connected under the mathematical test |
| PositionOverflow.AsWrittenChainsAgreeAwayFromTheEnds | api/src/main/java/com/edoardoconti/mfs/model/Position.java:143-154 | When no listed position has a coordinate at an end of the `int` range, chains as written and mathematical chains coincide (both directions), so on such lists the per-axis test the search uses is the mathematical one that AreConnected is proved against |
| PositionOverflow.AsWrittenAlongAgreesAwayFromTheEnds | api/src/main/java/com/edoardoconti/mfs/model/Position.java:103-109 | Away from the ends of the `int` range the per-axis test as written is the intended one |
| Colors.ParseHexPair | api/src/main/java/com/edoardoconti/mfs/model/Color.java:133-135 | A parsed two-digit group is at most 255 |
| Colors.HexToRgb | api/src/main/java/com/edoardoconti/mfs/model/Color.java:129-139 | Accepts exactly an optional single '#' followed by six hexadecimal digits of either case (ASCII digits only). Each channel is the base-16 value of its group, in 0..255. Anything else is an invalid-argument error whose message names the string |
| Colors.HexDigits | api/src/main/java/com/edoardoconti/mfs/model/Color.java:149-151 | `%x` of a non-negative value is a non-empty run of lower-case digits, one digit exactly below 16 |
| Colors.HexDigitsWidth | api/src/main/java/com/edoardoconti/mfs/model/Color.java:149-151 | A value with k hexadecimal digits (16^(k−1) ≤ n < 16^k) prints as exactly k of them |
| Colors.Format02x | api/src/main/java/com/edoardoconti/mfs/model/Color.java:149-151 | `%02x` of any `int` is at least two characters, all lower-case hexadecimal digits |
| Colors.RgbToHex | api/src/main/java/com/edoardoconti/mfs/model/Color.java:149-151 | For any `int` channels the result is '#' followed by at least six lower-case hexadecimal digits |
| Colors.ByteFormat | api/src/main/java/com/edoardoconti/mfs/model/Color.java:149-151 | `%02x` of 0..255 is its high and low lower-case digits |
| Colors.FormatWidth | api/src/main/java/com/edoardoconti/mfs/model/Color.java:149-151 | `%02x` prints at least two digits, and exactly two exactly for 0..255; a negative value prints as the eight digits of its unsigned 32-bit form |
| Colors.RgbToHexShape | api/src/main/java/com/edoardoconti/mfs/model/Color.java:149-151 | For channels in 0..255, `rgbToHex` is '#' and six lower-case digits, two per channel in r, g, b order |
| Colors.RgbRoundTrip | api/src/main/java/com/edoardoconti/mfs/model/Color.java:129-151 | `hexToRgb(rgbToHex(r, g, b))` is (r, g, b) for all channels in 0..255 |
| Colors.HexRoundTrip | api/src/main/java/com/edoardoconti/mfs/model/Color.java:129-151 | Formatting a parsed string gives '#' and the accepted six digits in lower case |
| Colors.PairFormat | api/src/main/java/com/edoardoconti/mfs/model/Color.java:129-151 | `%02x` of a parsed group prints the group's two digits in lower case |
| Colors.OutOfRangeChannelUnparseable | api/src/main/java/com/edoardoconti/mfs/model/Color.java:129-151 | If any channel is outside 0..255, `hexToRgb` rejects the string `rgbToHex` yields |
| Colors.RgbHexAgreement | api/src/main/java/com/edoardoconti/mfs/model/Color.java:58-74 | Both directions: channels in 0..255 give a hex that parses back to them, and any other channels give a hex that does not parse |
| Colors.FromHexNamed | api/src/main/java/com/edoardoconti/mfs/model/Color.java:82-88 | It succeeds exactly when the string parses. The stored hex then has exactly one leading '#' followed by the six given digits, its channels are the parsed ones and the name is kept. On failure the error names the '#'-prefixed string |
| Colors.FromHex | api/src/main/java/com/edoardoconti/mfs/model/Color.java:47-49 | It succeeds exactly when the string parses, and the colour is named by its '#'-prefixed hex |
| Colors.FromRgbNamed | api/src/main/java/com/edoardoconti/mfs/model/Color.java:70-74 | It stores the channels and the name as given. The derived hex parses back to the channels when they are in 0..255, and does not parse otherwise |
| Colors.FromRgb | api/src/main/java/com/edoardoconti/mfs/model/Color.java:58-60 | The colour is named by its own hex, which agrees with the channels in 0..255 |
| Colors.RedExamples | api/src/test/java/com/edoardoconti/mfs/model/ColorTest.java:36-66 | "#ff0000" and "ff0000" both store "#ff0000"; (255, 0, 0) formats as "#ff0000"; "#ff0000" parses to (255, 0, 0); "zzzzzz" is rejected |
| Components.FromModules | api/src/main/java/com/edoardoconti/mfs/model/Component.java:37-39 | The component keeps exactly the given module sequence |
| Components.FromModule | api/src/main/java/com/edoardoconti/mfs/model/Component.java:40-42 | The one-module component has a sequence of length one holding that module |
| Components.GetModule | api/src/main/java/com/edoardoconti/mfs/model/Component.java:48-50 | None exactly when the position is not one of the component's cells; the match itself is FirstAt's |
| Components.FirstAt | api/src/main/java/com/edoardoconti/mfs/model/Component.java:48-50 | The filter-and-find-first over a module sequence: none exactly when no entry matches, otherwise the first match |
| Components.GetModuleFindsFirst | api/src/main/java/com/edoardoconti/mfs/model/Component.java:48-50 | Looking up the cell of the k-th module finds a module at index k or earlier |
| Connectivity.PositionSet.Contains | api/src/main/java/com/edoardoconti/mfs/model/Position.java:256 | `visited.contains(next)`: membership in the set the search has marked |
| Furnitures.Place | api/src/main/java/com/edoardoconti/mfs/model/Furniture.java:50-52 | After placing, the occupied cells are the old ones plus the component's; the component holds all of its cells, overwriting earlier occupants; every other cell is unchanged |
| Furnitures.Vacate | api/src/main/java/com/edoardoconti/mfs/model/Furniture.java:54-56 | After vacating, the occupied cells are the old ones minus the removed cells; the remaining occupants are unchanged |
| Furnitures.PlaceThenVacateRestores | api/src/main/java/com/edoardoconti/mfs/model/Furniture.java:50-56 | Adding a component into free cells and then removing it restores the occupancy exactly |
| Furnitures.LastPlacementWins | api/src/main/java/com/edoardoconti/mfs/model/Furniture.java:50-52 | Of two overlapping placements the later one owns the shared cells |
| Furnitures.VacateClearsOtherOccupants | api/src/main/java/com/edoardoconti/mfs/model/Furniture.java:54-56 | Removing a component clears its cells even where another component now holds them |
| Furnitures.PlacementKeepsCovered | api/src/main/java/com/edoardoconti/mfs/model/Furniture.java:50-56 | Adding and removing keep every occupied cell at the position of one of its occupant's modules |
| Furnitures.DistinctCellsCount | api/src/main/java/com/edoardoconti/mfs/model/Furniture.java:50-52 | A component whose k modules sit at different cells covers exactly k cells |
| Furnitures.PlacedComponentHoldsItsCells | api/src/main/java/com/edoardoconti/mfs/model/Furniture.java:50-52 | After placing, the component holds exactly its own cells plus any it held before |
| Furnitures.ListingCounts | api/src/main/java/com/edoardoconti/mfs/model/Furniture.java:58-60 | In a listing of the occupants, each component occurs once per cell it holds |
| Furnitures.Furniture.constructor | api/src/main/java/com/edoardoconti/mfs/model/Furniture.java:42-48 | The name, width, height and module size are as given, and no cell is occupied |
| Furnitures.Furniture.AddComponent | api/src/main/java/com/edoardoconti/mfs/model/Furniture.java:50-52 | The per-module `put` loop leaves the occupancy equal to placing the component at all of its cells, so each of its cells maps to it. It keeps the covering invariant |
| Furnitures.Furniture.RemoveComponent | api/src/main/java/com/edoardoconti/mfs/model/Furniture.java:54-56 | The per-module `remove` loop leaves the occupancy equal to vacating all of the component's cells, so each is free. It keeps the covering invariant |
| Furnitures.Furniture.GetComponents | api/src/main/java/com/edoardoconti/mfs/model/Furniture.java:58-60 | One entry per occupied cell, each the occupant of a distinct cell, covering every occupied cell |
| Furnitures.Furniture.GetComponent | api/src/main/java/com/edoardoconti/mfs/model/Furniture.java:62-64 | The occupant of the cell, or none exactly when the cell is free; nothing changes |
| Controllers.FreshNameKeepsNamesDistinct | api/src/main/java/com/edoardoconti/mfs/Controller.java:128-133 | Appending a furniture under a name not in use keeps the names pairwise distinct |
| Controllers.FirstNamedIsUnique | api/src/main/java/com/edoardoconti/mfs/Controller.java:110-115 | With distinct names, the first furniture with a name is the only one |
| Controllers.Controller.constructor | api/src/main/java/com/edoardoconti/mfs/Controller.java:65-71 | The list is empty, nothing is active, no factory is set, and the colour list is what the data service offers |
| Controllers.Controller.SetFurnitureFactory | api/src/main/java/com/edoardoconti/mfs/Controller.java:80-82 | Sets the furniture factory and nothing else |
| Controllers.Controller.SetComponentFactory | api/src/main/java/com/edoardoconti/mfs/Controller.java:90-92 | Sets the component factory and nothing else |
| Controllers.Controller.SetActiveColor | api/src/main/java/com/edoardoconti/mfs/Controller.java:94-96 | Sets the active colour and nothing else |
| Controllers.Controller.SetActivePosition | api/src/main/java/com/edoardoconti/mfs/Controller.java:98-100 | Sets the active position and nothing else |
| Controllers.Controller.SetActiveFurniture | api/src/main/java/com/edoardoconti/mfs/Controller.java:110-115 | It succeeds exactly when some furniture has the name, and then makes the first such furniture active. Otherwise it fails with "Furniture not found" and leaves the active furniture as it was. Nothing else changes |
| Controllers.Controller.CreateFurniture | api/src/main/java/com/edoardoconti/mfs/Controller.java:127-135 | The guards run in order: an empty name is rejected with "Name is required", a name in use with "Furniture with the same name already exists", and a missing factory throws. The list is unchanged on any failure. Success appends exactly one new, empty furniture with the given name and dimensions at the end. The names stay pairwise distinct |
| Controllers.Controller.CreateComponent | api/src/main/java/com/edoardoconti/mfs/Controller.java:142-148 | Without an active furniture or a component factory it throws and changes nothing. Otherwise it returns the factory's component for the active module size, position and colour, placed in the active furniture so that each of its cells maps to it |

## Left out

- `OntologyService` and `OntologyServiceUtils` are not part of this model: they are an RDF store, SPARQL queries and network reads.
- `Controller.exportData` and `Controller.importData` read and write files. `importData` also replaces the furniture list wholesale, so the distinct-names property covers `createFurniture` only.
- The `DataService` calls in `createFurniture` and `createComponent` are no-ops here. `getAvailableColors` becomes the constructor's parameter.
- `Controller.joinComponents` (it returns null) and `ShelvingComponent.join` (it throws) are unimplemented in the source.
- Everything under `app/` is JavaFX user interface.
- `hashCode` and `toString` of `Position`, `Color` and `Component` are hashing and formatting details with no contract.
- Getters (`getX`, `getWidth`, `getName`, `getModules`, `getFurnitures`, `getActiveFurniture` and the like) are reads of the corresponding fields.
- Null arguments are not modelled. This covers `Objects.requireNonNull` in `areConnected` and in the controller's constructor, and null strings or lists passed to constructors. An unselected `activePosition` or `activeColor` is modelled, as `None`.
- `ShelvingSystem.java`, `ComponentFactory.java` and `Module.java` are not part of this model.
  - The furniture factory's `SHELVING.create` is modelled as constructing a fresh `Furniture`.
  - The component factory is an arbitrary function of the module size, position and colour. Whatever it may throw is outside the model.
- `Furniture` and `Component` are abstract classes in Java, and `Module` has a shelving subclass. Here one concrete class stands for `Furniture`, and datatypes stand for `Component` and `ShelvingModule`.
- Component identity: the occupancy map stores object references, while here components are values compared structurally.
- Aliasing of the module list: `new Component(list)` keeps the caller's list, which the caller could still mutate. Here the sequence is immutable.
- The order of `getComponents` follows the `HashMap`'s iteration order. The model fixes no order.
- The `selectedComponents` field is initialised but unused by the modelled operations.
- Connectivity.Dfs: on success the contents of the visited set are not stated. The source leaves the whole chain marked, which only matters because `areConnected` then returns at once.
- Controllers.Controller.CreateFurniture: the Javadoc of `createFurniture` (Controller.java:124-125) promises an invalid-argument error for a module size that is not positive, but neither `createFurniture` (Controller.java:127-135) nor the `Furniture` constructor (Furniture.java:42-48) checks it. The model follows the code and accepts any module size, assuming the furniture factory does not validate either, since `ShelvingSystem.java` is not part of this model.
- Controllers.Controller.Valid: furniture reachable from the controller may alias each other. The invariant only requires each one's own occupancy invariant.

## Findings

| source | as written | input that shows it | evidently intended | confidence | as-written member | corrected member |
|---|---|---|---|---|---|---|
| api/src/main/java/com/edoardoconti/mfs/model/Position.java:117-125 | `Math.abs(x - other.x)` on `int`: the difference wraps modulo 2^32, and `Math.abs(Integer.MIN_VALUE)` is negative, so it passes `dx <= 1` | (0,0,0) and (1, −2147483648, 0) count as adjacent, and so do (0,1,0) and (1, −2147483647, 0), which lie nowhere near an end of the range: any coordinate difference of exactly 2^31 passes | Adjacent exactly when the largest absolute coordinate difference is 1 | not executed; follows from Java's `int` semantics | PositionOverflow.IsAdjacentAsWritten, PositionOverflow.AsWrittenAdjacentAcrossTheRange, PositionOverflow.AsWrittenAdjacentAwayFromTheEnds | Positions.IsAdjacent |
| api/src/main/java/com/edoardoconti/mfs/model/Position.java:209-219 | `x++` in `getRelativePosition` wraps at `Integer.MAX_VALUE`, so `isAdjacent(other, directions...)`, `isAdjacent(other, axis)` and `areConnected` link the two ends of the range | (2147483647, 0, 0) and (−2147483648, 0, 0) are adjacent along X, and a list of the two satisfies the chain property that the as-written per-axis test induces; (−2147483648, 1, 0) is RIGHT and BOTTOM of (2147483647, 0, 0) | Moving in a direction changes the coordinate by one without wrapping, so only positions one unit apart are adjacent or chained | not executed; follows from Java's `int` semantics | PositionOverflow.IsAdjacentAlongAsWritten, PositionOverflow.AsWrittenStepWrapsAround, PositionOverflow.IsAdjacentInDirectionsAsWritten, PositionOverflow.AsWrittenDirectionsWrapAround, PositionOverflow.AsWrittenEndsOfRangeConnected | Positions.IsAdjacentAlong, Positions.IsAdjacentInDirections, Connectivity.AreConnected |
