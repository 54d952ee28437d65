/** The viewer's module-level state and the event handlers that change it:
    the sample-model registry (`loadedModels`, `guiFolders`, `modelFolders`),
    the single-import slot (`currentModel`, `currentTransformControls`,
    `currentModelFileName`) with its part palette, and the orbit-enable
    flag of the camera controls. Each asynchronous completion is one
    atomic method call. */
module Viewer {
  import opened Wrappers
  import opened Text
  import opened SceneGraph
  import opened PartColors
  import opened Registry
  import opened Facets

  /** What `updateModelPartColor` reports. */
  datatype ColourOutcome = NoModel | PartNotFound | PartUpdated

  /** The sample models offered by `modelConfig`, in order. */
  const SampleNames: seq<string> := ["Deer", "Cow", "Horse", "Alpaca"]

  /** The label of a sample folder's delete button. */
  function DeleteLabel(name: string): string
  {
    "Delete " + name
  }

  class Viewer {
    /** Objects in the scene (the engine's own lights, ground and grid are
        not modelled). */
    var scene: set<Id>
    /** The next identity a new object or folder gets. */
    var nextId: nat
    /** Every TransformControls object created so far. */
    var gizmos: map<Id, Gizmo>
    var loadedModels: seq<Entry>
    /** Colour folder of each loaded sample model. */
    var guiFolders: map<string, Id>
    /** Labels of the controllers in each sample model's folder. */
    var modelFolders: map<string, seq<string>>
    var currentModel: Option<Model>
    var currentTransformControls: Option<Id>
    var currentModelFileName: string
    var partColors: seq<PartColor>
    /** `controls.enabled` of the orbit controls. */
    var orbitEnabled: bool
    /** `cameraControls.lockCamera`. */
    var lockCamera: bool

    /** The registry, the colour folders, the scene, the gizmos and the
        import slot agree (see `ViewerOk`); the stored base name has no
        '.'; the palette keys are the source's seven keys, in order. */
    ghost predicate Valid()
      reads this
    {
      && ViewerOk(scene, nextId, gizmos, loadedModels, guiFolders.Keys, currentModel, currentTransformControls)
      && '.' !in currentModelFileName
      && PaletteKeys(partColors) == PartKeys
    }

    /** The state when the page has loaded: no model, the four sample
        folders each with a load and a delete button, the white palette,
        an unlocked camera. */
    constructor ()
      ensures Valid()
      ensures scene == {} && gizmos == map[] && loadedModels == [] && guiFolders == map[]
      ensures modelFolders == map name | name in SampleNames :: [name, DeleteLabel(name)]
      ensures currentModel == None && currentTransformControls == None && currentModelFileName == ""
      ensures partColors == DefaultPartColors
      ensures orbitEnabled && !lockCamera
    {
      scene := {};
      nextId := 0;
      gizmos := map[];
      loadedModels := [];
      guiFolders := map[];
      modelFolders := map name | name in SampleNames :: [name, DeleteLabel(name)];
      currentModel := None;
      currentTransformControls := None;
      currentModelFileName := "";
      partColors := DefaultPartColors;
      orbitEnabled := true;
      lockCamera := false;
    }

    /** The success callback of `uploadModel`: the loaded model and a new
        gizmo attached to it join the scene; the registry entry of that name
        is overwritten in place, or a new one is appended; a colour folder
        is created only if the name has none. The previous object and gizmo
        of a reloaded name stay in the scene, attached and not disposed. */
    method OnSampleLoaded(modelName: string) returns (model: Id, controls: Id)
      requires Valid()
      modifies this`scene, this`gizmos, this`loadedModels, this`guiFolders, this`nextId
      ensures Valid()
      ensures model == old(nextId) && controls == model + 1
      ensures scene == old(scene) + {model, controls}
      ensures gizmos == old(gizmos)[controls := Gizmo(Some(model), false, SampleGizmo)]
      ensures loadedModels == Upserted(old(loadedModels), Entry(modelName, model, controls))
      ensures modelName in old(guiFolders) ==> guiFolders == old(guiFolders) && nextId == controls + 1
      ensures modelName !in old(guiFolders) ==>
                guiFolders == old(guiFolders)[modelName := controls + 1] && nextId == controls + 2
    {
      model, controls := nextId, nextId + 1;
      var entry := Entry(modelName, model, controls);
      var index := FindIndex(loadedModels, modelName);
      var models' := if index < 0 then loadedModels + [entry] else loadedModels[index := entry];
      var folders', next' := guiFolders, controls + 1;
      if modelName !in guiFolders {
        folders', next' := guiFolders[modelName := next'], next' + 1;
      }
      var scene', gizmos' := scene + {model, controls}, gizmos[controls := Gizmo(Some(model), false, SampleGizmo)];
      assert folders'.Keys == guiFolders.Keys + {modelName};
      LoadKeeps(scene, nextId, gizmos, loadedModels, guiFolders.Keys,
                currentModel, currentTransformControls, entry, scene', next', gizmos', models', folders'.Keys);
      scene, gizmos, loadedModels, guiFolders, nextId := scene', gizmos', models', folders', next';
    }

    /** `deleteModel`: with no entry of that name nothing changes; otherwise
        its gizmo is detached and disposed, its object and gizmo leave the
        scene, the entry is spliced out and its colour folder is dropped.
        The lookup of the "Delete <name>" button compares each controller's
        `name` method with a string, finds nothing, and so the sample folder
        keeps its button. */
    method DeleteModel(modelName: string)
      requires Valid()
      modifies this`scene, this`gizmos, this`loadedModels, this`guiFolders, this`modelFolders
      ensures Valid()
      ensures Lookup(old(loadedModels), modelName).None? ==> unchanged(this)
      ensures Lookup(old(loadedModels), modelName).Some? ==>
                var e := Lookup(old(loadedModels), modelName).value;
                && scene == old(scene) - {e.sceneRoot, e.transformControls}
                && gizmos == old(gizmos)[e.transformControls := Gizmo(None, true, SampleGizmo)]
                && guiFolders == old(guiFolders) - {modelName}
      ensures modelFolders == old(modelFolders)
      ensures loadedModels == Removed(old(loadedModels), modelName)
      ensures Lookup(loadedModels, modelName).None?
    {
      var index := FindIndex(loadedModels, modelName);
      if index != -1 {
        var e := loadedModels[index];
        var gizmos' := gizmos[e.transformControls := Gizmo(None, true, SampleGizmo)];
        var scene' := scene - {e.sceneRoot, e.transformControls};
        var models' := loadedModels[..index] + loadedModels[index + 1..];
        var folders' := if modelName in guiFolders then guiFolders - {modelName} else guiFolders;
        var labels' := if modelName in modelFolders
                       then modelFolders[modelName := RemoveByName(modelFolders[modelName], DeleteLabel(modelName))]
                       else modelFolders;
        if modelName in modelFolders {
          RemoveByNameKeepsAll(modelFolders[modelName], DeleteLabel(modelName));
        }
        assert labels' == modelFolders;
        assert folders'.Keys == guiFolders.Keys - {modelName};
        DeleteKeeps(scene, nextId, gizmos, loadedModels, guiFolders.Keys,
                    currentModel, currentTransformControls, modelName, scene', gizmos', models', folders'.Keys);
        scene, gizmos, loadedModels, guiFolders, modelFolders := scene', gizmos', models', folders', labels';
      }
    }

    /** The mouse-up listener of a sample model's gizmo: detach and dispose. */
    method OnGizmoMouseUp(g: Id)
      requires Valid()
      modifies this`gizmos
      ensures Valid()
      ensures gizmos == if g in old(gizmos) && old(gizmos)[g].kind == SampleGizmo
                        then old(gizmos)[g := Gizmo(None, true, SampleGizmo)] else old(gizmos)
    {
      if g in gizmos && gizmos[g].kind == SampleGizmo {
        GizmoChangeKeeps(scene, nextId, gizmos, loadedModels, guiFolders.Keys, currentModel, currentTransformControls,
                         g, Gizmo(None, true, SampleGizmo), gizmos[g := Gizmo(None, true, SampleGizmo)]);
        gizmos := gizmos[g := Gizmo(None, true, SampleGizmo)];
      }
    }

    /** `toggleTransformControlsVisibility`: showing re-attaches the slot's
        gizmo to the imported model; hiding, or showing with no model,
        detaches it. Sample-model gizmos are not touched. */
    method ToggleTransformControlsVisibility(value: bool)
      requires Valid()
      modifies this`gizmos
      ensures Valid()
      ensures currentTransformControls.Some? ==> currentTransformControls.value in old(gizmos)
      ensures currentTransformControls.None? ==> gizmos == old(gizmos)
      ensures currentTransformControls.Some? ==>
                var c := currentTransformControls.value;
                gizmos == old(gizmos)[c := old(gizmos)[c].(attached :=
                  if value && currentModel.Some? then Some(currentModel.value.id) else None)]
    {
      if currentTransformControls.Some? {
        var c := currentTransformControls.value;
        var target := if value && currentModel.Some? then Some(currentModel.value.id) else None;
        GizmoChangeKeeps(scene, nextId, gizmos, loadedModels, guiFolders.Keys, currentModel, currentTransformControls,
                         c, gizmos[c].(attached := target), gizmos[c := gizmos[c].(attached := target)]);
        gizmos := gizmos[c := gizmos[c].(attached := target)];
      }
    }

    /** `updateModelPartColor`: with no imported model nothing changes;
        otherwise the imported tree is recoloured by one traversal, and the
        outcome says whether some mesh's name contained the part name. */
    method UpdateModelPartColor(partName: string, colour: Colour) returns (outcome: ColourOutcome)
      requires Valid()
      modifies this`currentModel
      ensures Valid()
      ensures old(currentModel).None? ==> outcome == NoModel && unchanged(this)
      ensures old(currentModel).Some? ==>
                var m := old(currentModel).value;
                && currentModel == Some(m.(root := Traverse(m.root, Recolor(partName, colour))))
                && (outcome == PartUpdated <==> AnyHit(m.root, Recolor(partName, colour)))
                && outcome != NoModel
    {
      if currentModel.None? {
        return NoModel;
      }
      var root, partFound := TraverseNode(currentModel.value.root, Recolor(partName, colour));
      currentModel := Some(currentModel.value.(root := root));
      outcome := if partFound then PartUpdated else PartNotFound;
    }

    /** A palette colour picker's change handler: the picked colour is
        stored under its key (keys keep their order) and applied to the
        imported model. */
    method PickPartColor(k: nat, colour: Colour) returns (outcome: ColourOutcome)
      requires Valid()
      requires k < |partColors|
      modifies this`partColors, this`currentModel
      ensures Valid()
      ensures partColors == old(partColors)[k := PartColor(old(partColors)[k].partName, colour)]
      ensures old(currentModel).None? ==> outcome == NoModel && currentModel == None
      ensures old(currentModel).Some? ==>
                var m := old(currentModel).value;
                && currentModel == Some(m.(root := Traverse(m.root, Recolor(old(partColors)[k].partName, colour))))
                && (outcome == PartUpdated <==> AnyHit(m.root, Recolor(old(partColors)[k].partName, colour)))
                && outcome != NoModel
    {
      var partName := partColors[k].partName;
      partColors := partColors[k := PartColor(partName, colour)];
      assert PaletteKeys(partColors) == PaletteKeys(old(partColors));
      outcome := UpdateModelPartColor(partName, colour);
    }

    /** `updateWireframeVisibility`: with no imported model nothing changes;
        otherwise every material of every mesh of the imported tree gets the
        flag. */
    method UpdateWireframeVisibility(visible: bool)
      requires Valid()
      modifies this`currentModel
      ensures Valid()
      ensures old(currentModel).None? ==> unchanged(this)
      ensures old(currentModel).Some? ==>
                var m := old(currentModel).value;
                currentModel == Some(m.(root := Traverse(m.root, Wireframe(visible))))
    {
      if currentModel.None? {
        return;
      }
      var root, _ := TraverseNode(currentModel.value.root, Wireframe(visible));
      currentModel := Some(currentModel.value.(root := root));
    }

    /** The file input's change handler: with no file nothing happens;
        otherwise the base name is stored at once, before (and whether or
        not) the load succeeds. */
    method OnFileSelected(fileName: Option<string>)
      requires Valid()
      modifies this`currentModelFileName
      ensures Valid()
      ensures fileName.None? ==> unchanged(this)
      ensures fileName.Some? ==> currentModelFileName == BaseName(fileName.value)
    {
      if fileName.None? {
        return;
      }
      currentModelFileName := BaseName(fileName.value);
    }

    /** The import's success callback: the previous imported model and its
        gizmo leave the scene (the gizmo is neither detached nor disposed),
        the new model and a new gizmo attached to it take the slot, and the
        whole palette is reapplied to the new model in key order. */
    method OnImportLoaded(root: Node) returns (model: Id, controls: Id)
      requires Valid()
      modifies this`scene, this`gizmos, this`currentModel, this`currentTransformControls, this`nextId
      ensures Valid()
      ensures model == old(nextId) && controls == model + 1 && nextId == controls + 1
      ensures currentModel == Some(Model(model, ApplyPartColors(root, partColors)))
      ensures currentTransformControls == Some(controls)
      ensures scene == old(scene) - SlotIds(old(currentModel), old(currentTransformControls)) + {model, controls}
      ensures gizmos == old(gizmos)[controls := Gizmo(Some(model), false, ImportGizmo)]
    {
      model, controls := nextId, nextId + 1;
      scene, gizmos, currentModel, currentTransformControls, nextId :=
        scene - SlotIds(currentModel, currentTransformControls) + {model, controls},
        gizmos[controls := Gizmo(Some(model), false, ImportGizmo)],
        Some(Model(model, root)), Some(controls), controls + 1;
      ImportKeeps(old(scene), model, old(gizmos), loadedModels, guiFolders.Keys, old(currentModel), old(currentTransformControls),
                  Model(model, root), controls, scene, nextId, gizmos);
      ReapplyPartColors();
    }

    /** `Object.entries(partColors).forEach(...)` after an import: one
        `updateModelPartColor` per palette entry, in key order. */
    method ReapplyPartColors()
      requires Valid() && currentModel.Some?
      modifies this`currentModel
      ensures Valid()
      ensures currentModel == Some(old(currentModel).value.(root := ApplyPartColors(old(currentModel).value.root, partColors)))
    {
      var i := 0;
      while i < |partColors|
        invariant Valid()
        invariant 0 <= i <= |partColors|
        invariant currentModel == Some(old(currentModel).value.(root := ApplyPartColors(old(currentModel).value.root, partColors[..i])))
      {
        assert partColors[..i + 1][..i] == partColors[..i];
        var _ := UpdateModelPartColor(partColors[i].partName, partColors[i].colour);
        i := i + 1;
      }
      assert partColors[..i] == partColors;
    }

    /** The remove button: the imported model and its gizmo leave the scene
        and the slot, and the gizmo is detached (not disposed). With the
        slot already empty nothing changes, so pressing it again, or
        running the handler once per registered listener, is the same as
        running it once. */
    method RemoveCurrentModel()
      requires Valid()
      modifies this`scene, this`gizmos, this`currentModel, this`currentTransformControls
      ensures Valid()
      ensures currentModel == None && currentTransformControls == None
      ensures old(currentModel).None? && old(currentTransformControls).None? ==> unchanged(this)
      ensures scene == old(scene) - SlotIds(old(currentModel), old(currentTransformControls))
      ensures old(currentTransformControls).Some? ==> old(currentTransformControls).value in old(gizmos)
      ensures old(currentTransformControls).Some? ==>
                var c := old(currentTransformControls).value;
                gizmos == old(gizmos)[c := old(gizmos)[c].(attached := None)]
      ensures old(currentTransformControls).None? ==> gizmos == old(gizmos)
    {
      ghost var scene0, gizmos0, current0, controls0 := scene, gizmos, currentModel, currentTransformControls;
      if currentModel.Some? {
        scene := scene - {currentModel.value.id};
        currentModel := None;
      }
      if currentTransformControls.Some? {
        var c := currentTransformControls.value;
        scene := scene - {c};
        gizmos := gizmos[c := gizmos[c].(attached := None)];
        currentTransformControls := None;
      }
      RemoveSlotKeeps(scene0, nextId, gizmos0, loadedModels, guiFolders.Keys, current0, controls0, scene, gizmos);
    }

    /** The export button's guard and file name: nothing is exported unless
        a model is imported and the stored base name is non-empty; the
        export is named after the base name, and importing that file would
        give the same base name back. */
    method Export() returns (fileName: Option<string>)
      requires '.' !in currentModelFileName
      ensures fileName.Some? <==> currentModel.Some? && currentModelFileName != ""
      ensures fileName.Some? ==> fileName.value == ExportFileName(currentModelFileName)
      ensures fileName.Some? ==> BaseName(fileName.value) == currentModelFileName
    {
      if currentModel.None? || currentModelFileName == "" {
        return None;
      }
      fileName := Some(ExportFileName(currentModelFileName));
      ExportRoundTrip(currentModelFileName);
    }

    /** The 'Lock Camera Movement' checkbox: orbit is enabled exactly when
        the camera is not locked. */
    method SetLockCamera(value: bool)
      requires Valid()
      modifies this`lockCamera, this`orbitEnabled
      ensures Valid()
      ensures lockCamera == value && orbitEnabled == !value
    {
      lockCamera := value;
      orbitEnabled := !value;
    }

    /** The 'dragging-changed' listener of an imported model's gizmo: orbit
        is disabled while dragging and enabled when the drag ends, whatever
        the camera lock says. Sample-model gizmos carry no such listener. */
    method OnDraggingChanged(g: Id, dragging: bool)
      requires Valid()
      modifies this`orbitEnabled
      ensures Valid()
      ensures orbitEnabled == if g in gizmos && gizmos[g].kind == ImportGizmo then !dragging else old(orbitEnabled)
    {
      if g in gizmos && gizmos[g].kind == ImportGizmo {
        orbitEnabled := !dragging;
      }
    }
  }
}
