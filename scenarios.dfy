/** Short sequences of handler calls on a freshly loaded page, showing the
    consequences of the handlers' code that are easiest to miss. */
module Scenarios {
  import opened Wrappers
  import opened Text
  import opened SceneGraph
  import opened Registry
  import opened Facets
  import V = Viewer

  /** Deleting a sample model and loading it again registers it once more,
      and its sample folder still holds its load and delete buttons: the
      lookup of the delete button never matches. */
  method DeleteThenReload() returns (labels: seq<string>, registered: seq<string>)
    ensures labels == ["Deer", V.DeleteLabel("Deer")]
    ensures registered == ["Deer"]
  {
    var v := new V.Viewer();
    var m, c := v.OnSampleLoaded("Deer");
    assert v.loadedModels == [Entry("Deer", m, c)];
    v.DeleteModel("Deer");
    assert v.loadedModels == [] && v.modelFolders["Deer"] == ["Deer", V.DeleteLabel("Deer")];
    var m', c' := v.OnSampleLoaded("Deer");
    assert v.loadedModels == [Entry("Deer", m', c')];
    labels := v.modelFolders["Deer"];
    registered := NameList(v.loadedModels);
  }

  /** Loading a sample model twice overwrites its registry entry, but the
      first object and its gizmo stay in the scene, and the gizmo stays
      attached and not disposed: only the second pair can still be
      deleted. */
  method ReloadKeepsOldObject() returns (firstStays: bool, firstGizmo: Gizmo, entries: nat, deletedSecond: bool)
    ensures firstStays
    ensures firstGizmo.attached.Some? && !firstGizmo.disposed
    ensures entries == 1
    ensures deletedSecond
  {
    var v := new V.Viewer();
    var m1, c1 := v.OnSampleLoaded("Deer");
    assert v.loadedModels == [Entry("Deer", m1, c1)];
    var m2, c2 := v.OnSampleLoaded("Deer");
    assert v.loadedModels == [Entry("Deer", m2, c2)];
    assert v.gizmos[c1] == Gizmo(Some(m1), false, SampleGizmo);
    entries := |v.loadedModels|;
    v.DeleteModel("Deer");
    firstStays := m1 in v.scene && c1 in v.scene;
    firstGizmo := v.gizmos[c1];
    deletedSecond := m2 !in v.scene && c2 !in v.scene;
  }

  /** The camera lock sets the orbit flag, but the end of a drag on the
      imported model's gizmo turns orbiting back on while the camera is
      still locked. */
  method DragIgnoresLock(root: Node) returns (locked: bool, orbitAfterDrag: bool)
    ensures locked && orbitAfterDrag
  {
    var v := new V.Viewer();
    var _, c := v.OnImportLoaded(root);
    v.SetLockCamera(true);
    v.OnDraggingChanged(c, true);
    v.OnDraggingChanged(c, false);
    locked, orbitAfterDrag := v.lockCamera, v.orbitEnabled;
  }

  /** A second import replaces the slot: the first model and its gizmo
      leave the scene, but the first gizmo is still attached to the first
      model, and its 'dragging-changed' listener still drives the orbit
      flag. */
  method ReimportLeavesOldGizmo(first: Node, second: Node) returns (oldGone: bool, oldAttached: bool, orbit: bool)
    ensures oldGone && oldAttached && !orbit
  {
    var v := new V.Viewer();
    var m1, c1 := v.OnImportLoaded(first);
    var _, _ := v.OnImportLoaded(second);
    oldGone := m1 !in v.scene && c1 !in v.scene;
    oldAttached := v.gizmos[c1].attached == Some(m1);
    v.OnDraggingChanged(c1, true);
    orbit := v.orbitEnabled;
  }

  /** Exporting right after page load does nothing; after selecting
      "deer.v2.glb" and importing it, the export is named "deer.gltf". */
  method ImportThenExport(root: Node) returns (before: Option<string>, after: Option<string>)
    ensures before == None
    ensures after == Some(ExportFileName("deer"))
  {
    var v := new V.Viewer();
    before := v.Export();
    v.OnFileSelected(Some("deer.v2.glb"));
    BaseNameUnique("deer.v2.glb", "deer");
    var _, _ := v.OnImportLoaded(root);
    assert v.currentModelFileName == "deer";
    after := v.Export();
  }
}
