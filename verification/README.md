# r3f-map core, modelled in Dafny

This project models the logic underneath the r3f-map multi-floor isometric map viewer. The rendering itself is left to three.js and react-three-fiber. The model covers four pieces:

- **Floor stacking** (`Composer`, `FloorView`). `Map3D` mounts three `Floor`s. Floor `i` gets depth `i - activeIndex`, position `(0, i - activeIndex, 0)` and `active = (activeIndex === i)`. A floor's target opacity is `1` when active and `0.1 / |depth|` otherwise. The active flag gates the rotating cube, the markers and the hover handlers.
- **Marker derivation** (`Scene`, `Markers`). The `useMemo` pass runs `scene.traverse` over the loaded scene tree. For each mesh it draws a random colour, gives the mesh a fresh solid material of that colour, and pushes a marker at the mesh's bounding-box centre with a running mesh index. `FloorView.RenderChildren` models the meshes a floor draws, which are only the scene's direct mesh children.
- **Hover highlighting** (`Hover`). The `originalMaterials` map is driven by pointer-over and pointer-out.
- **Floor selector** (`FloorSelect`). The selector renders numbered buttons, marks the active one with a class, and reports clicks as `setActiveIndex(index)`.

Several values are inputs to the model rather than computed by it:

- Each mesh's world bounding-box centre is stored on the mesh node (`Scene.Kind.Mesh.centre`).
- Random colours come in as a function `draw: nat -> Colour`, where `draw(k)` is the colour drawn for the k-th mesh visited.
- JavaScript numbers in the opacity computation are exact reals, plus `+Infinity` for `0.1 / 0`.

All three floors use the same cached scene object. Each floor's derivation repaints that shared scene. `Composer.MountAll` models the three derivations in mount order. `Composer.SharedSceneKeepsLastColours` shows that the scene ends up with the last floor's colours, so the other floors' markers match their meshes only where their random draws happen to agree.

The code does not guard the opacity of an inactive floor at depth 0: `0.1 / Math.abs(0)` is `Infinity`. The model keeps that value (`FloorView.OpacityLevel` returns `PosInfinity`) and proves a composed floor never selects it, because a composed floor is active exactly when its depth is 0 (`Composer.LayoutOpacitiesFinite`). Markers are numbered in traversal order, and the model keeps that order.

## Model

| member | source | states |
|---|---|---|
| Geometry.ToCss | components/Map3D/index.tsx:60 | The marker's `rgb(...)` numbers are the colour channels times 255; reading them back gives the colour again |
| Geometry.ToCssInjective | components/Map3D/index.tsx:51-60 | Two colours give the same marker colour string iff they are the same colour |
| Scene.Meshes | components/Map3D/index.tsx:49-50 | The traversal visits nodes in pre-order (the node, then each child's subtree), and only meshes are kept |
| Scene.MeshChildren | components/Map3D/index.tsx:93-94 | The rendered list keeps only mesh children, never more than there are children |
| Scene.MeshChildrenExactly | components/Map3D/index.tsx:93-94 | A node is in the rendered list iff it is a direct child and a mesh |
| Scene.SameShapeSameMeshChildren | components/Map3D/index.tsx:93-94 | Two child lists that differ only in materials have the same mesh children, identity for identity |
| Scene.MeshChildrenAreTraversed | components/Map3D/index.tsx:93-94 | Every directly rendered mesh is also visited by the marker traversal, so there are never more rendered meshes than markers |
| Markers.VisitNode | components/Map3D/index.tsx:48-64 | A subtree yields one marker per mesh, numbered consecutively from the running index |
| Markers.VisitForest | components/Map3D/index.tsx:49 | A list of subtrees yields one marker per mesh in all of them, numbered consecutively, and keeps the same number of nodes |
| Markers.Derive | components/Map3D/index.tsx:46-67 | On a scene, the number of markers equals the number of meshes and the mesh indices are exactly 0..n-1 |
| Markers.VisitNodeCorrect | components/Map3D/index.tsx:49-63 | Marker k is at the centre of the k-th mesh visited, with index next+k and colour draw(next+k); that mesh, and only meshes, gets the solid material of that colour |
| Markers.VisitForestCorrect | components/Map3D/index.tsx:49-63 | The same correspondence for a list of subtrees |
| Markers.DeriveCorrect | components/Map3D/index.tsx:46-66 | On a scene, each marker's position, index and colour match the k-th mesh, whose identity and centre are kept and whose new material has the marker's colour; with materials erased, the repainted scene is the original tree |
| Markers.VisitNodeKeepsShape | components/Map3D/index.tsx:52 | The traversal only assigns materials: with materials erased, the repainted subtree equals the original (same ids, mesh kinds, centres and children) |
| Markers.VisitForestKeepsShape | components/Map3D/index.tsx:52 | The same for a list of subtrees |
| Markers.DeriveKeepsRenderedMeshes | components/Map3D/index.tsx:93-94 | The repainted scene has the same direct mesh children, identity for identity, as the original |
| Markers.RevisitNodeStable | components/Map3D/index.tsx:46-67 | Re-running the derivation on the repainted scene with the same draws gives the same markers and leaves the scene unchanged |
| Markers.RevisitForestStable | components/Map3D/index.tsx:46-67 | The same stability for a list of subtrees |
| Markers.PositionsIgnoreMaterials | components/Map3D/index.tsx:51-55 | Marker positions and indices do not depend on the colours drawn |
| Hover.InitialIsValid | components/Map3D/index.tsx:69-70 | A fresh floor, with nothing saved and no mesh wearing its new hover material, satisfies the hover invariant |
| Hover.Over | components/Map3D/index.tsx:72-78 | Pointer-over on an unrecorded mesh saves its material and applies the hover material; on a recorded mesh it changes nothing; no other mesh changes; the invariant is kept |
| Hover.Out | components/Map3D/index.tsx:80-87 | Pointer-out on a recorded mesh restores the saved material and deletes the entry; on an unrecorded mesh it changes nothing; no other mesh changes; the invariant is kept and the mesh is left unhighlighted |
| Hover.OverOutRoundTrip | components/Map3D/index.tsx:72-87 | Over then out on an unrecorded mesh returns materials and saved map to their exact prior state |
| Hover.OverOutIdempotent | components/Map3D/index.tsx:72-87 | A repeated pointer-over, or a repeated pointer-out, acts once |
| Hover.RunMeaning | components/Map3D/index.tsx:72-87 | Under any event sequence the invariant holds, a mesh's underlying material is never lost, and a mesh is highlighted iff the last event on it was a pointer-over |
| FloorView.OpacityLevel | components/Map3D/index.tsx:29 | `0.1 / abs(depth)` is +Infinity exactly at depth 0; otherwise it lies in (0, 0.1] and times abs(depth) gives 0.1 |
| FloorView.TargetOpacity | components/Map3D/index.tsx:34-42 | The mount and fade-target opacity is 1 exactly for the active floor; it is infinite only for an inactive floor at depth 0; otherwise it is in (0, 1], and for an inactive floor it is the value v with v times abs(depth) equal to 0.1, so at most 0.1 |
| FloorView.FartherIsFainter | components/Map3D/index.tsx:29 | A floor further from the active floor has a target opacity no higher than a nearer one |
| FloorView.RenderChildren | components/Map3D/index.tsx:93-111 | One `<mesh>` per direct mesh child, in order, copying its material's colour, with the floor's opacity, and with handlers attached iff the floor is active |
| FloorView.Render | components/Map3D/index.tsx:89-131 | The cube is shown iff the floor is active; markers are shown iff active (otherwise none); every mesh is interactive iff active; the floor draws no more meshes than it has markers |
| FloorView.PointerEvent | components/Map3D/index.tsx:106-107 | Pointer events on an inactive floor leave the hover state unchanged |
| FloorView.InactiveFloorInert | components/Map3D/index.tsx:91-113 | An inactive floor shows no cube, no markers, no interactive mesh, and ignores pointer events |
| FloorSelect.PrepareLevels | components/FloorSelect/index.tsx:12 | The list is built iff `levels` is a valid array length (otherwise RangeError), and then has `levels` entries |
| FloorSelect.PreparedIsOneToLevels | components/FloorSelect/index.tsx:12 | The prepared list starts at 1, increases by one, and holds exactly 1..levels |
| FloorSelect.Classes | components/FloorSelect/index.tsx:21-23 | Every button has the item class; it has the active class iff its condition holds |
| FloorSelect.Buttons | components/FloorSelect/index.tsx:17-25 | Button i shows the i-th prepared number, requests index i, and is active iff i equals activeIndex |
| FloorSelect.Render | components/FloorSelect/index.tsx:11-32 | There are `levels` buttons, button i is labelled i+1, and every click requests an index in [0, levels) |
| FloorSelect.ActiveButtonIsSelected | components/FloorSelect/index.tsx:22 | The active buttons are exactly {activeIndex} when it is in [0, levels), none otherwise, and never more than one |
| Composer.PropsFor | components/Map3D/index.tsx:168-185 | A floor's depth is its level minus activeIndex, its vertical offset equals its depth, and it is active iff its depth is 0 |
| Composer.Layout | components/Map3D/index.tsx:168-185 | Three floors, listed as levels 2, 1, 0 |
| Composer.OneActiveFloor | components/Map3D/index.tsx:168-185 | The active floors are exactly {activeIndex} when it names a floor, none otherwise; each offset equals its depth; the active floor sits at the origin |
| Composer.LayoutOpacitiesFinite | components/Map3D/index.tsx:168-185 | For any activeIndex, every composed floor's target opacity (line 29) is finite and in (0, 1], and inactive ones are at most 0.1 |
| Composer.StackingScenarios | components/Map3D/index.tsx:168-185 | activeIndex 0 gives heights 2, 1, 0 and opacities 0.05, 0.1, 1; activeIndex 2 gives heights 0, -1, -2 with the top floor active |
| Composer.GatingFollowsSelection | components/Map3D/index.tsx:91-113 | In the composed stack, only the selected floor shows the cube and markers and has interactive meshes |
| Composer.MoveCameraTo | components/Map3D/index.tsx:140-143 | A camera request sets the target, raises the animating flag and keeps the active floor |
| Composer.ClickMarker | components/Map3D/index.tsx:126 | Clicking a shown marker requests the camera to move to that marker's position |
| Composer.MarkerClickTargetsMesh | components/Map3D/index.tsx:113-127 | Clicking marker k on the active floor aims the camera at the bounding-box centre of the k-th mesh traversed |
| Composer.PressFloorButton | components/Map3D/index.tsx:187 | Pressing selector button b makes b the active index and leaves the camera state alone |
| Composer.SelectorMatchesStack | components/Map3D/index.tsx:187 | Selector button b carries the active class iff floor b is the active floor |
| Composer.AlwaysOneActiveFloor | components/Map3D/index.tsx:137 | From a valid active index (the initial one is 0), after any sequence of button presses and marker clicks, the active index is still a floor index and exactly one floor is active |
| Composer.MountAll | components/Map3D/index.tsx:31 | Floors mounting in turn over the one cached scene each produce one marker list, each derived from the scene as the previous floor repainted it |
| Composer.MountAllScene | components/Map3D/index.tsx:46-67 | After the floors mount over the shared scene, it has the same meshes (identity, centre) in the same order, each with the solid colour the last floor drew |
| Composer.MountAllMarkers | components/Map3D/index.tsx:46-67 | Each floor's marker k is at the centre of the scene's k-th mesh, with the colour that floor drew for it |
| Composer.SharedSceneKeepsLastColours | components/Map3D/index.tsx:46-67 | After all floors mount, the shared scene has the last floor's colours; every floor's markers sit at the mesh centres; a floor's marker matches its mesh's colour iff its draw equals the last floor's |

## Left out

- Per-frame smoothing (`lerp` of position and opacity, lines 37-43). It is floating-point animation inside three.js. The model states the target position and opacity, not how the animation converges.
- `IsometricCamera` (lines 209-314): orthographic projection, `camera-controls` damping and boundary, the angle clamps, and the effect with its 500 ms timeout. These belong to a library that is not part of this model, plus React timers. One detail is worth knowing: the timeout reads an `isAnimating` value captured when the effect ran (line 249), so it may never clear the flag. The model stops at the camera request (`Composer.MoveCameraTo`).
- Bounding-box centres and `Math.random` colours are inputs of the model, not computed.
- The hover swap and React re-rendering. `setOpacity` re-renders the floor every frame, and each render passes a new `material` to every `<mesh>`, which may replace the hover material. The model treats the hover handlers' writes as the mesh's material and does not model reconciliation.
- GLTF loading and preload (lines 31, 207), lights and shadows (155-167), `SomeObject`'s clock-driven rotation (192-205) and `console.log` (146). These are static scene setup or I/O. The cube is modelled only as shown or not shown.
- `pages/index.tsx`: client-only dynamic import, with no logic.
- Numbers are unbounded integers and exact reals. `levels` and `activeIndex` are modelled as integers, so non-integer JavaScript numbers are not modelled.
- React keys of the rendered meshes and markers are not modelled.
