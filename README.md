# Spawn-slot allocator of the robotic logic world

This project models the world scene of a small browser-based robotics
playground. The scene keeps a list of spawned objects. Each object has a type
(robot, box or shelf) and a position `[x, y, z]`. When the control panel asks
for a new object, the scene looks for a free spawn slot and appends the
object there.

Slots come from a fixed raster. Two counters `x` and `z` each run from -5 to 5,
with `x` in the outer loop. The candidate for a counter pair is
`[2x, 0, 2z]`. The search returns the first candidate that no object
occupies. It returns nothing when all 121 candidates are taken. In that case
the spawn request has no effect.

The model has three modules:

- `Wrappers` (wrappers.dfy): `Option`, which stands for the source's `null`.
- `Grid` (grid.dfy): positions, the raster, the order in which the search
  visits it, and the order "by `x`, then by `z`" on positions.
- `Scene` (world_scene.dfy): the object list and the occupancy set. It also
  holds the slot search, as a method with nested loops proved against the
  function `FirstFree`, and the spawn step, as a pure function `SpawnStep`
  and as the method `WorldScene.Spawn` of a class holding the `objects`
  field.

The occupancy set in the source is a set of `JSON.stringify` strings of
positions. For integer triples that encoding is one-to-one, so the model uses
a set of positions directly. The object type is the datatype `Kind`. It has
the three values the control panel passes to the spawn handler. A spawn
request is `Option<Kind>`, and `None` is the null request.

The checker floor the scene draws (`CheckerFloor` with `size={10}`,
src/components/WorldScene.jsx:79-81 and 135) has tiles at -10 to 9. The slot
search's raster reaches 10, one row and one column past the floor. The model
follows the slot search.

## Model

| member | source | states |
|---|---|---|
| `Grid.Candidate` | src/components/WorldScene.jsx:115 | while both counters are within their loop bounds -5..5 the candidate is a raster position (`y = 0`, even `x`, `z` in [-10, 10]); the counters can be read back from it (`x = cx / 2`, `z = cz / 2`) |
| `Grid.RasterAt` | src/components/WorldScene.jsx:113-115 | every candidate the search visits (the k-th, for k below 121) has `y = 0` and even `x`, `z` in [-10, 10] |
| `Grid.RankOf` | src/components/WorldScene.jsx:113-115 | every position with `y = 0` and even `x`, `z` in [-10, 10] is visited by the search, at a number below 121 |
| `Grid.RankOfRasterAt` | src/components/WorldScene.jsx:113-115 | the visiting number of the k-th candidate is k |
| `Grid.RasterAtInjective` | src/components/WorldScene.jsx:113-115 | the search never visits one position twice |
| `Grid.RasterOrder` | src/components/WorldScene.jsx:113-114 | the search visits positions in order of `x` first, then `z`: an earlier visit number means an earlier position in that order, and the other way round |
| `Scene.UsedPositions` | src/components/WorldScene.jsx:110 | the occupancy set holds the position of every object and nothing else |
| `Scene.FreeIndexFrom` | src/components/WorldScene.jsx:113-119 | from visit number k on, the search finds the first free candidate: it is free and every candidate between k and it is taken; it finds none exactly when every candidate from k on is taken |
| `Scene.FirstFree` | src/components/WorldScene.jsx:112-120 | a returned slot is on the raster, is free, and every raster position before it in (x, z) order is taken; the result is null exactly when every raster position is taken |
| `Scene.FirstFitIsFirstFree` | src/components/WorldScene.jsx:113-116 | the first fit is unique: any free raster position with all earlier raster positions taken is the one the search returns |
| `Scene.NextAvailablePosition` | src/components/WorldScene.jsx:112-120 | the nested loops return a free raster position with every earlier one taken, or null exactly when all 121 are taken; either way the result is `FirstFree` of the occupancy set |
| `Scene.SpawnStep` | src/components/WorldScene.jsx:122-129 | the list after one spawn request keeps every earlier object in place and in order and has at most one more; `SpawnOutcome` says when it grows and with what |
| `Scene.SpawnOutcome` | src/components/WorldScene.jsx:122-129 | a spawn adds an object exactly when the request is not null and a raster position is free; the new object has the requested type and the first free position |
| `Scene.SpawnPreservesDistinct` | src/components/WorldScene.jsx:110-128 | if the objects have pairwise distinct positions before a spawn, they still have them after it |
| `Scene.FirstSpawnInCorner` | src/components/WorldScene.jsx:113-128 | in an empty world the first spawn appends one object of the requested type at `[-10, 0, -10]` |
| `Scene.LayoutFirstFree` | src/components/WorldScene.jsx:110-120 | when the list holds the first n raster positions in visiting order, the search returns the (n+1)-th, or null once n is 121 |
| `Scene.LayoutAppend` | src/components/WorldScene.jsx:128 | appending the requested type at the next raster position keeps the list in that layout |
| `Scene.LayoutDistinct` | src/components/WorldScene.jsx:110-116 | a list in that layout has pairwise distinct positions |
| `Scene.SpawnStepLayout` | src/components/WorldScene.jsx:122-129 | a spawn on such a list places the requested type at the next raster position, until 121 objects exist |
| `Scene.SpawnAll` | src/components/WorldScene.jsx:122-129 | the list after a run of spawn requests keeps the starting list as its prefix and grows by at most one object per request; `SpawnAllLayout` gives its contents |
| `Scene.SpawnAllLayout` | src/components/WorldScene.jsx:122-129 | any sequence of spawn requests keeps that layout, with the requested types in order |
| `Scene.SpawnedFromEmpty` | src/components/WorldScene.jsx:108-129 | starting from an empty world, any sequence of requests yields min(121, number of non-null requests) objects: at most 121, pairwise distinct positions, the i-th of the i-th requested type at the i-th raster position |
| `Scene.SpawnKeepsReachable` | src/components/WorldScene.jsx:122-129 | a list that spawns can build from an empty world is still one after another spawn, and has at most 121 objects |
| `Scene.WorldScene.constructor` | src/components/WorldScene.jsx:108 | the scene starts with an empty object list |
| `Scene.WorldScene.Spawn` | src/components/WorldScene.jsx:122-129 | the new object list is `SpawnStep` of the old one: unchanged for a null request or a full raster, otherwise the old list plus one object; distinct positions are preserved, and a list built by spawns stays one with at most 121 objects |

## Left out

- Rendering is not modelled: the scene graph, lights, the checker floor, the per-type render switch, and the robot, box and shelf meshes. They hold no simulation state.
- Dragging and grid snapping of a cube are not modelled. They use floating-point ray casting and rounding. The dragged position is local to the cube and is never written back into the object list, so it does not affect occupancy.
- Alt-key handling and orbit controls are not modelled. They are browser events and a foreign library.
- The control panel, robot selection, `sendCommand` and the time slider are not modelled. `sendCommand` only writes a log line. `timeState` is a bare number with no history behind it.
- React scheduling is not modelled. The model treats each spawn request as one synchronous step on the current object list. The timestamp that makes each spawn command a new value is dropped.
- Object types are the three values the control panel sends. The source copies its type field as-is, and the allocator never looks at it.
