# 3D web viewer: model-keeping state, in Dafny

This project models the state that the browser viewer in `main.js` keeps about
its models and proves what its event handlers do to that state. There are four
parts:

- **The sample-model registry.** `loadedModels` holds entries
  `{name, object, transformControls}`, keyed by name. `guiFolders` holds one
  colour folder per loaded name. `modelFolders` holds the controllers of each
  sample model's folder. The success callback of `uploadModel` and
  `deleteModel` change them.
- **The part colouriser and wireframe toggle.** `updateModelPartColor`,
  `updateMaterialColor` and `updateWireframeVisibility` walk the imported
  tree with `traverse`. Part names match by substring, so reapplying the
  whole `partColors` palette after an import has an ordering consequence: a
  mesh ends with the colour of the last key that occurs in its name.
- **The single-import slot.** `currentModel`, `currentTransformControls` and
  `currentModelFileName`, changed by the file input, the import completion,
  the remove button, and read by the export button.
- **The orbit-enable flag** (`controls.enabled`), written by the camera-lock
  checkbox and by the imported gizmo's `dragging-changed` listener.

Three.js objects become plain identities (`Id = nat`) handed out in order. The
scene is a set of identities. Each TransformControls object is a `Gizmo`
recording what it is attached to, whether it is disposed, and which listeners
it carries. An imported model is a tree of `Node`s, each with a name, an
`isMesh` flag and no material, one material or an array of materials. A
material has an optional colour and a wireframe flag.

Each asynchronous load completion is one method call. An import completion
receives the loaded tree; a sample-model completion receives only the name.
A load error changes nothing, so it has no method.

Modules:

- `Wrappers`: `Option`.
- `Text`: JavaScript `includes`, `split('.')[0]` and the export file name.
- `SceneGraph`: trees, `traverse` with the two callbacks, and the methods that
  perform the walk.
- `PartColors`: the palette and its reapplication.
- `Registry`: the registry operations on sequences.
- `Facets`: the consistency invariant between the registry, the scene, the
  gizmos, the colour folders and the import slot, with one preservation lemma
  per handler.
- `Viewer`: a class holding the module-level variables, one method per
  handler.
- `Scenarios`: handler sequences on a freshly loaded page.

The class invariant `Viewer.Valid` says:

- every registry entry's object and gizmo are in the scene, and the gizmo is a
  sample-model gizmo;
- no two entries share a name, an object or a gizmo;
- a colour folder exists exactly for the registered names;
- the slot holds a model exactly when it holds a gizmo, and both are in the
  scene;
- the stored base name has no '.';
- the palette keys are `Cube`, `Cube_1` … `Cube_6`, in that order.

Every handler keeps it.

## Model

| member | source | states |
|---|---|---|
| Viewer.Viewer.OnSampleLoaded | main.js:237-273 | The loaded model and a new gizmo attached to it join the scene. The entry of that name is overwritten in place, or a new entry is appended. The colour folder is created only when the name has none. Nothing else changes, and the invariant is kept. |
| Registry.UpsertedLookup | main.js:247-258 | After a load, names are still unique, the new entry is the one found for its name, and every other name finds what it found before. |
| Registry.UpsertedNames | main.js:247-258 | A reload keeps the list of names in the same order. A first load appends its name at the end. |
| Facets.LoadKeeps | main.js:237-266 | A load with fresh identities keeps the registry, folders, scene and slot consistent. |
| Facets.LoadKeepsEntries | main.js:241-258 | After a load, every entry is live and no two entries share a name, object or gizmo. The replaced object stays in the scene. |
| Viewer.Viewer.DeleteModel | main.js:321-352 | With no entry of that name, nothing changes. Otherwise the entry's gizmo is detached and disposed, its object and gizmo leave the scene, the entry is spliced out, its colour folder is dropped, and the sample folder keeps its controllers: the lookup of the "Delete <name>" button never matches, so nothing is removed from the folder. Afterwards no entry has that name. |
| Registry.FindIndex | main.js:322 | `findIndex`: -1 exactly when no entry has the name, otherwise the first index that has it. |
| Registry.RemovedAt | main.js:322-330 | `splice(index, 1)`: earlier entries stay in place and later ones move down by one. An absent name leaves the registry as it was. |
| Registry.RemovedLookup | main.js:321-337 | A delete keeps names unique and leaves no entry with that name. Every other name finds what it found before. Deleting an absent name changes nothing. The length drops by one exactly when the name was present. |
| Registry.RemovedUnique | main.js:322-330 | The remaining entries have unique names, and none has the deleted name. |
| Registry.RemovedOther | main.js:322-330 | Every other name's entry is unchanged by the splice. |
| Registry.RemovedKeepsOrder | main.js:330 | The remaining names keep their order. |
| Registry.RemovedIdempotent | main.js:321-352 | Deleting twice is the same as deleting once. |
| Registry.RemoveUndoesFirstLoad | main.js:247-255 | Deleting a name right after its first load restores the registry. |
| Registry.FindByName | main.js:342-344 | The lookup as written: the first controller whose `name` property is strictly equal to the label string, or -1 when there is none. |
| Registry.RemoveByNameKeepsAll | main.js:340-348 | `name` is dat.GUI's label-setting method, so the lookup finds nothing and the removal leaves every folder as it was. |
| Registry.DeleteButtonSurvives | main.js:340-348 | On the folder `["Deer", "Delete Deer"]`, the handler's removal keeps the delete button. Removing the controller labelled "Delete Deer" would leave `["Deer"]`. |
| Registry.IndexOf | main.js:342-344 | The intended lookup, comparing controller labels: -1 exactly when the label is absent, otherwise the first position holding it. |
| Registry.RemoveFirstSpec | main.js:340-348 | The intended removal of the delete button takes away exactly one controller with that label when there is one, and otherwise nothing. It is the first such controller that goes, and the rest keep their order. |
| Facets.DeleteKeeps | main.js:321-337 | A delete of a registered name keeps everything consistent, and the name no longer finds an entry. |
| Facets.DeleteKeepsEntries | main.js:324-330 | After the splice and the removal from the scene, every remaining entry is live and entries stay pairwise apart. |
| Facets.DeleteKeepsSlot | main.js:324-330 | A delete leaves the import slot consistent. |
| Viewer.Viewer.OnGizmoMouseUp | main.js:310-316 | A sample gizmo's mouse-up detaches and disposes that gizmo and changes nothing else. |
| Facets.GizmoChangeKeeps | main.js:310-316 | Changing a gizmo's attachment or disposal, without changing its listeners, keeps everything consistent. |
| Viewer.Viewer.ToggleTransformControlsVisibility | main.js:188-195 | Showing re-attaches the slot's gizmo to the imported model. Hiding, or showing with no model, detaches it. Sample gizmos are not touched. |
| Viewer.Viewer.UpdateModelPartColor | main.js:370-394 | With no model, the outcome is NoModel and nothing changes. Otherwise the tree is recoloured by one traversal, and the outcome is PartUpdated exactly when some node was hit. |
| SceneGraph.TraverseNode | main.js:376-387 | The walk returns the traversed tree and the `partFound` flag, defined by `Traverse` and `AnyHit`. |
| SceneGraph.TraverseChildren | main.js:376-387 | The walk over a node's children, defined by `TraverseAll` and `AnyHitAll`. |
| SceneGraph.RewriteMaterials | main.js:380-384 | The `forEach` over a material array, or the single call, rewrites every material with the callback. |
| SceneGraph.SetMaterial | main.js:396-402 | `updateMaterialColor` sets the colour only of a material that has one and keeps the wireframe flag. The wireframe callback sets the flag only. |
| SceneGraph.AnyHitIff | main.js:376-393 | "Part found" holds exactly when some node of the tree is a mesh whose name contains the part name (for the wireframe callback: a mesh with a material). |
| SceneGraph.TraverseFlatten | main.js:376-387 | A traversal visits every node once, in order. Node i of the result is the callback applied to node i of the input. |
| SceneGraph.TraverseKeepsShape | main.js:376-387 | A traversal keeps names, kinds and the tree's structure. |
| SceneGraph.RecolorEffect | main.js:376-402 | For node i and material j: the colour becomes the new one exactly when the node is a mesh whose name contains the part name and the material has a colour. The wireframe flag and the other nodes are unchanged. |
| SceneGraph.TraverseIdempotent | main.js:370-402 | Applying the same colour, or the same wireframe flag, twice gives the same tree as applying it once. |
| Viewer.Viewer.UpdateWireframeVisibility | main.js:104-119 | With no model, nothing changes. Otherwise every material of every mesh is given the flag. |
| SceneGraph.WireframeEffect | main.js:110-118 | For node i and material j: a mesh's materials get the flag, and nothing else changes. |
| Text.ContainsIff | main.js:378 | `includes` holds exactly when some window of the name equals the part name. |
| Viewer.Viewer.PickPartColor | main.js:405-409 | A palette picker stores the colour under its key, keeps the key order, and recolours the imported model with that key. With a model, the outcome is PartUpdated exactly when some mesh's name contains the key; with none, it is NoModel and nothing is recoloured. |
| PartColors.PaletteKeys | main.js:359-367 | The palette lists its keys in order, one per entry. |
| PartColors.LastMatchIsLast | main.js:359-367 | `LastMatch` finds a colour exactly when some key occurs in the name. That colour belongs to a key occurring in the name, and no later key occurs in it. |
| PartColors.LastKeyWins | main.js:515-518 | After the palette is reapplied, each mesh's coloured materials carry the colour of the last key, in palette order, that occurs in the mesh's name, or keep their colour when no key occurs. Names, kinds and wireframe flags are unchanged. |
| PartColors.DefaultPaletteMatches | main.js:359-367 | With the startup palette, a mesh is recoloured exactly when its name contains "Cube", and the colour is white. |
| PartColors.KeyOrderDecides | main.js:359-367 | With the source's key order, mesh "Cube" takes the colour of key "Cube", and mesh "Cube_5" takes the colour of "Cube_5" rather than "Cube". |
| Viewer.Viewer.OnImportLoaded | main.js:493-519 | The previous model and gizmo leave the scene, not detached and not disposed. The new model and a new import gizmo attached to it take the slot. The palette is reapplied in key order. |
| Viewer.Viewer.ReapplyPartColors | main.js:515-518 | One recolour per palette entry, in key order, gives `ApplyPartColors` of the tree. |
| Facets.ImportKeeps | main.js:493-509 | An import with fresh identities keeps the registry consistent and fills the slot. |
| Viewer.Viewer.OnFileSelected | main.js:483-489 | With no file, nothing changes. Otherwise the base name is stored before the load starts. |
| Text.BaseName | main.js:489 | `split('.')[0]` has no '.', is a prefix of the file name, and stops at a '.' or at the end. |
| Text.BaseNameUnique | main.js:489 | Those three properties determine the base name. |
| Viewer.Viewer.RemoveCurrentModel | main.js:468-481 | Both slot variables become empty, their objects leave the scene, and the gizmo is detached but not disposed. With the slot already empty, nothing changes. |
| Facets.RemoveSlotKeeps | main.js:468-481 | Emptying the slot keeps the registry consistent. |
| Viewer.Viewer.Export | main.js:417-433 | A file name is produced exactly when a model is imported and the base name is non-empty. It is the base name plus ".gltf", and importing that file gives the same base name back. |
| Text.ExportRoundTrip | main.js:431 | The base name of `base + ".gltf"` is `base` when `base` has no '.'. |
| Viewer.Viewer.SetLockCamera | main.js:152-154 | The lock checkbox sets the lock, and orbiting is enabled exactly when the camera is unlocked. |
| Viewer.Viewer.OnDraggingChanged | main.js:511-513 | For an import gizmo, orbiting is disabled while dragging and enabled after, whatever the lock says. Other gizmos carry no such listener. |
| Viewer.Viewer.constructor | main.js:141-142 | At page load there is no model, no registry entry and no colour folder. Each sample folder holds a load button and a "Delete <name>" button (main.js:222-234). The palette is white and the camera unlocked. |
| Scenarios.DeleteThenReload | main.js:340-348 | After a delete and a reload, the model is registered again, and its folder still holds both the load button and the "Delete Deer" button. |
| Scenarios.ReloadKeepsOldObject | main.js:241-258 | After a reload, the first object and its attached, undisposed gizmo stay in the scene, and the registry has one entry. A delete then removes only the second pair. |
| Scenarios.DragIgnoresLock | main.js:511-513 | With the camera locked, the end of a drag turns orbiting back on. |
| Scenarios.ReimportLeavesOldGizmo | main.js:500-513 | After a second import, the first gizmo is out of the scene but still attached to the first model, and its listener still drives the orbit flag. |
| Scenarios.ImportThenExport | main.js:417-431 | Export does nothing at page load. After importing "deer.v2.glb", it produces "deer.gltf". |

## Left out

- Rendering, camera, lights, ground, grid, shadows, window resize and the `animate` loop with auto-rotate: engine configuration and floating-point frame updates.
- GLTFLoader parsing and GLTFExporter serialisation: a load completion receives the loaded tree as a parameter. The export is modelled as the file name it would be saved under. `JSON.stringify` and the Blob/anchor download in `saveString` and `saveArrayBuffer` are browser I/O.
- The load-error callbacks: they only log, so they change no state.
- Sample-model trees: `uploadModel` never reads them, so a sample entry stores only its object's identity.
- The `addColorControls` closures (`getObjectByName(...).material.color.setHex`): dat.GUI callbacks into three.js lookups. Only the presence of each colour folder is modelled.
- dat.GUI widgets beyond this: folder opening and closing, the drawing of controllers, and the other GUI options (background colour, ground, grid, auto-rotate). Only the controller labels of each sample folder and the presence of colour folders are modelled.
- `THREE.Color` parsing: a colour is an opaque integer, and the palette's '#ffffff' strings are modelled as `0xffffff`.
- Console output, the progress bar and the `objectChange` self-copy.
- Asynchronous interleaving of loads: each completion is one atomic step, in whatever order the completions arrive. The extra remove listener that each import registers is not modelled separately. Running `RemoveCurrentModel` again changes nothing, so any number of copies act as one.
- A mesh whose `material` is null: in `updateModelPartColor` the source would throw when it reads `.color` of null. The model treats the mesh as having no materials. The wireframe callback skips such meshes, as the source does.
- `addDragControls(model, transformControls)` (main.js:269) is not defined in `main.js`. The model assumes it returns, so the gizmo is put in translate mode and gets its 'objectChange' and 'mouseUp' listeners (main.js:272-273).
- Viewer.Viewer.DeleteModel: the lookup of the delete button compares `controller.name` with the label. dat.GUI's `name` is the controller's label-setting method (called as `.name(...)` on every controller, main.js:152-233), so the comparison never matches and the button is never removed. The model follows that. dat.GUI's source is not part of this model; the model only assumes that `name` is that method.
- Aliasing between materials shared by several meshes: each mesh's materials are values of their own.

## Behaviour of the code worth noting

- A reload by name overwrites the entry but neither removes nor disposes the old object and gizmo. They stay in the scene, attached.
- An import removes the previous model and gizmo from the scene but neither detaches nor disposes the gizmo. Its 'dragging-changed' listener still writes the orbit flag.
- The end of a drag re-enables orbiting even while the camera is locked.
- Nothing detects a completion that arrives after a newer load has started.
- A delete leaves the "Delete <name>" button in the sample folder (see "## Findings").

## Findings

| source | as written | input that shows it | evidently intended | confidence | as-written member | corrected member |
|---|---|---|---|---|---|---|
| main.js:342-346 | The delete button is looked up by comparing `controller.name` strictly with the string "Delete <name>". `name` is dat.GUI's label-setting method, so a function is compared with a string and nothing is ever found. | Loading "Deer" and then calling `deleteModel("Deer")`: the folder's controllers stay `["Deer", "Delete Deer"]`. | Remove the controller labelled "Delete Deer", leaving `["Deer"]`. | not executed; depends on dat.GUI's controller API, which is not part of this model | Registry.RemoveByName, Registry.DeleteButtonSurvives | Registry.RemoveFirst, Registry.RemoveFirstSpec |

`Viewer.Viewer.DeleteModel` models the handler as it runs, with the as-written lookup. The corrected removal is proved on its own, in `Registry.RemoveFirstSpec`.
