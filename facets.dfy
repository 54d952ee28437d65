/** The consistency between the facets the viewer keeps for each model:
    the registry entry, the scene-graph object, the transform-control gizmo
    and the colour folder (for sample models), or the import slot's model and
    gizmo. Stated on plain values so that each handler's effect can be
    proved to keep it one lemma at a time. */
module Facets {
  import opened Wrappers
  import opened SceneGraph
  import opened Registry

  /** The imported model of the single-import slot: its identity as a
      scene object and its tree. */
  datatype Model = Model(id: Id, root: Node)

  /** Which listeners a gizmo is given when it is created: a sample model's
      gizmo gets 'objectChange' and 'mouseUp', the imported model's gizmo
      gets 'dragging-changed'. */
  datatype GizmoKind = SampleGizmo | ImportGizmo

  /** A TransformControls object: the object it is attached to, whether it
      has been disposed, and which listeners it carries. */
  datatype Gizmo = Gizmo(attached: Option<Id>, disposed: bool, kind: GizmoKind)

  /** An entry's object and gizmo are in the scene, the object is not a
      gizmo, and the gizmo is a sample-model gizmo. */
  ghost predicate EntryLive(scene: set<Id>, gizmos: map<Id, Gizmo>, e: Entry)
  {
    && e.sceneRoot in scene && e.sceneRoot !in gizmos
    && e.transformControls in scene && e.transformControls in gizmos
    && gizmos[e.transformControls].kind == SampleGizmo
  }

  /** Two entries share neither a name, nor an object, nor a gizmo. */
  ghost predicate Apart(a: Entry, b: Entry)
  {
    a.name != b.name && a.sceneRoot != b.sceneRoot && a.transformControls != b.transformControls
  }

  /** The sample-model registry agrees with the scene and the colour
      folders: every entry is live, no two entries share a name, an object
      or a gizmo, and a colour folder exists exactly for the registered
      names. */
  ghost predicate RegistryOk(scene: set<Id>, gizmos: map<Id, Gizmo>, models: seq<Entry>, folders: set<string>)
  {
    && (forall k :: 0 <= k < |models| ==> EntryLive(scene, gizmos, models[k]))
    && (forall i, j {:trigger Apart(models[i], models[j])} :: 0 <= i < j < |models| ==> Apart(models[i], models[j]))
    && (forall name {:trigger Lookup(models, name)} :: name in folders <==> Lookup(models, name).Some?)
  }

  /** A consistent registry has unique names. */
  lemma RegistryNamesUnique(scene: set<Id>, gizmos: map<Id, Gizmo>, models: seq<Entry>, folders: set<string>)
    requires RegistryOk(scene, gizmos, models, folders)
    ensures NamesUnique(models)
  {
    forall i, j | 0 <= i < j < |models|
      ensures models[i].name != models[j].name
    {
      assert Apart(models[i], models[j]);
    }
  }

  /** The import slot holds a model exactly when it holds a gizmo; its
      model is in the scene and is no sample model's object; its gizmo is
      an import gizmo in the scene. */
  ghost predicate SlotOk(scene: set<Id>, gizmos: map<Id, Gizmo>, models: seq<Entry>, current: Option<Model>, controls: Option<Id>)
  {
    && (current.Some? <==> controls.Some?)
    && (current.Some? ==>
          && current.value.id in scene && current.value.id !in gizmos
          && forall k :: 0 <= k < |models| ==> models[k].sceneRoot != current.value.id)
    && (controls.Some? ==>
          controls.value in scene && controls.value in gizmos && gizmos[controls.value].kind == ImportGizmo)
  }

  /** The objects the import slot holds. */
  function SlotIds(current: Option<Model>, controls: Option<Id>): set<Id>
  {
    (if current.Some? then {current.value.id} else {}) + (if controls.Some? then {controls.value} else {})
  }

  /** The whole consistency of the viewer's model-keeping state: every
      object in the scene and every gizmo has an identity handed out
      already (below `nextId`), and the registry and the import slot agree
      with the scene, the gizmos and the colour folders. */
  ghost predicate ViewerOk(scene: set<Id>, nextId: nat, gizmos: map<Id, Gizmo>, models: seq<Entry>, folders: set<string>,
                           current: Option<Model>, controls: Option<Id>)
  {
    && (forall id :: id in scene ==> id < nextId)
    && (forall id :: id in gizmos ==> id < nextId)
    && RegistryOk(scene, gizmos, models, folders)
    && SlotOk(scene, gizmos, models, current, controls)
  }

  /** After a load with a fresh object and a fresh gizmo, every entry is
      live in the grown scene and no two entries share a name, an object
      or a gizmo. */
  lemma LoadKeepsEntries(scene: set<Id>, nextId: nat, gizmos: map<Id, Gizmo>, models: seq<Entry>, folders: set<string>, e: Entry)
    requires RegistryOk(scene, gizmos, models, folders)
    requires forall id :: id in scene ==> id < nextId
    requires forall id :: id in gizmos ==> id < nextId
    requires e.sceneRoot == nextId && e.transformControls == nextId + 1
    ensures var models', scene', gizmos' := Upserted(models, e), scene + {e.sceneRoot, e.transformControls},
              gizmos[e.transformControls := Gizmo(Some(e.sceneRoot), false, SampleGizmo)];
            && (forall k :: 0 <= k < |models'| ==> EntryLive(scene', gizmos', models'[k]))
            && (forall a, b :: 0 <= a < b < |models'| ==> Apart(models'[a], models'[b]))
  {
    var models', scene', gizmos' := Upserted(models, e), scene + {e.sceneRoot, e.transformControls},
      gizmos[e.transformControls := Gizmo(Some(e.sceneRoot), false, SampleGizmo)];
    var i := FindIndex(models, e.name);
    UpsertedAt(models, e);
    RegistryNamesUnique(scene, gizmos, models, folders);
    UpsertedLookup(models, e, e.name + "'");
    forall k | 0 <= k < |models'|
      ensures EntryLive(scene', gizmos', models'[k])
    {
      if k != i && k != |models| {
        assert EntryLive(scene, gizmos, models[k]);
      }
    }
    forall a, b | 0 <= a < b < |models'|
      ensures Apart(models'[a], models'[b])
    {
      assert models'[a].name != models'[b].name;
      var oldA, oldB := a != i && a != |models|, b != i && b != |models|;
      if oldA {
        assert EntryLive(scene, gizmos, models[a]);
      }
      if oldB {
        assert EntryLive(scene, gizmos, models[b]);
      }
      if oldA && oldB {
        assert Apart(models[a], models[b]);
      }
    }
  }

  /** A sample-model load with a fresh object and a fresh gizmo keeps both
      the registry and the import slot consistent. */
  lemma LoadKeeps(scene: set<Id>, nextId: nat, gizmos: map<Id, Gizmo>, models: seq<Entry>, folders: set<string>,
                  current: Option<Model>, controls: Option<Id>, e: Entry,
                  scene': set<Id>, nextId': nat, gizmos': map<Id, Gizmo>, models': seq<Entry>, folders': set<string>)
    requires ViewerOk(scene, nextId, gizmos, models, folders, current, controls)
    requires e.sceneRoot == nextId && e.transformControls == nextId + 1 && nextId' >= nextId + 2
    requires scene' == scene + {e.sceneRoot, e.transformControls}
    requires gizmos' == gizmos[e.transformControls := Gizmo(Some(e.sceneRoot), false, SampleGizmo)]
    requires models' == Upserted(models, e) && folders' == folders + {e.name}
    ensures ViewerOk(scene', nextId', gizmos', models', folders', current, controls)
  {
    LoadKeepsEntries(scene, nextId, gizmos, models, folders, e);
    RegistryNamesUnique(scene, gizmos, models, folders);
    forall other
      ensures other in folders' <==> Lookup(models', other).Some?
    {
      if other != e.name {
        UpsertedLookup(models, e, other);
      } else {
        UpsertedLookup(models, e, e.name + "'");
      }
    }
    if current.Some? {
      var i := FindIndex(models, e.name);
      UpsertedAt(models, e);
      forall k | 0 <= k < |models'|
        ensures models'[k].sceneRoot != current.value.id
      {
        if k != i && k != |models| {
          assert models'[k] == models[k];
        }
      }
    }
  }

  /** The entries left by a delete are live in the scene without the
      deleted entry's object and gizmo, and still pairwise distinct. */
  lemma DeleteKeepsEntries(scene: set<Id>, gizmos: map<Id, Gizmo>, models: seq<Entry>, folders: set<string>, i: nat)
    requires RegistryOk(scene, gizmos, models, folders)
    requires i < |models|
    ensures var e, models' := models[i], SpliceOut(models, i);
            var scene', gizmos' := scene - {e.sceneRoot, e.transformControls},
              gizmos[e.transformControls := Gizmo(None, true, SampleGizmo)];
            && (forall k :: 0 <= k < |models'| ==> EntryLive(scene', gizmos', models'[k]))
            && (forall a, b :: 0 <= a < b < |models'| ==> Apart(models'[a], models'[b]))
  {
    var e, models' := models[i], SpliceOut(models, i);
    var scene', gizmos' := scene - {e.sceneRoot, e.transformControls},
      gizmos[e.transformControls := Gizmo(None, true, SampleGizmo)];
    SpliceAt(models, i);
    forall k | 0 <= k < |models'|
      ensures EntryLive(scene', gizmos', models'[k])
    {
      var k0 := if k < i then k else k + 1;
      assert models'[k] == models[k0] && k0 != i;
      assert EntryLive(scene, gizmos, models[k0]);
      assert EntryLive(scene, gizmos, models[i]);
      if k0 < i {
        assert Apart(models[k0], models[i]);
      } else {
        assert Apart(models[i], models[k0]);
      }
    }
    forall a, b | 0 <= a < b < |models'|
      ensures Apart(models'[a], models'[b])
    {
      var a0, b0 := if a < i then a else a + 1, if b < i then b else b + 1;
      assert models'[a] == models[a0] && models'[b] == models[b0] && a0 < b0;
      assert Apart(models[a0], models[b0]);
    }
  }

  /** The import slot stays consistent when a sample model is deleted. */
  lemma DeleteKeepsSlot(scene: set<Id>, gizmos: map<Id, Gizmo>, models: seq<Entry>, folders: set<string>,
                        current: Option<Model>, controls: Option<Id>, i: nat)
    requires RegistryOk(scene, gizmos, models, folders)
    requires SlotOk(scene, gizmos, models, current, controls)
    requires i < |models|
    ensures var e, models' := models[i], SpliceOut(models, i);
            SlotOk(scene - {e.sceneRoot, e.transformControls},
                   gizmos[e.transformControls := Gizmo(None, true, SampleGizmo)], models', current, controls)
  {
    var e, models' := models[i], SpliceOut(models, i);
    assert EntryLive(scene, gizmos, e);
    SpliceAt(models, i);
  }

  /** A delete of a registered name, which disposes the entry's gizmo and
      takes its object and gizmo out of the scene, keeps both the registry
      (without that name's folder) and the import slot consistent. */
  lemma DeleteKeeps(scene: set<Id>, nextId: nat, gizmos: map<Id, Gizmo>, models: seq<Entry>, folders: set<string>,
                    current: Option<Model>, controls: Option<Id>, name: string,
                    scene': set<Id>, gizmos': map<Id, Gizmo>, models': seq<Entry>, folders': set<string>)
    requires ViewerOk(scene, nextId, gizmos, models, folders, current, controls)
    requires Lookup(models, name).Some?
    requires var e := Lookup(models, name).value;
             && scene' == scene - {e.sceneRoot, e.transformControls}
             && gizmos' == gizmos[e.transformControls := Gizmo(None, true, SampleGizmo)]
    requires models' == Removed(models, name) && folders' == folders - {name}
    ensures ViewerOk(scene', nextId, gizmos', models', folders', current, controls)
    ensures Lookup(models', name).None?
  {
    var i := FindIndex(models, name);
    var e := models[i];
    assert models' == SpliceOut(models, i);
    DeleteKeepsEntries(scene, gizmos, models, folders, i);
    RegistryNamesUnique(scene, gizmos, models, folders);
    RemovedAt(models, name, i);
    RemovedLookup(models, name, name + "'");
    forall other
      ensures other in folders' <==> Lookup(models', other).Some?
    {
      if other != name {
        RemovedLookup(models, name, other);
      }
    }
    DeleteKeepsSlot(scene, gizmos, models, folders, current, controls, i);
  }

  /** Changing where a gizmo is attached or whether it is disposed, without
      changing its kind, keeps everything consistent. */
  lemma GizmoChangeKeeps(scene: set<Id>, nextId: nat, gizmos: map<Id, Gizmo>, models: seq<Entry>, folders: set<string>,
                         current: Option<Model>, controls: Option<Id>, c: Id, g: Gizmo, gizmos': map<Id, Gizmo>)
    requires ViewerOk(scene, nextId, gizmos, models, folders, current, controls)
    requires c in gizmos && g.kind == gizmos[c].kind
    requires gizmos' == gizmos[c := g]
    ensures ViewerOk(scene, nextId, gizmos', models, folders, current, controls)
  {
    forall k | 0 <= k < |models|
      ensures EntryLive(scene, gizmos', models[k])
    {
      assert EntryLive(scene, gizmos, models[k]);
    }
  }

  /** An import with a fresh object and a fresh gizmo, which first takes the
      slot's previous model and gizmo out of the scene, leaves the registry
      consistent and the slot holding the new pair. */
  lemma ImportKeeps(scene: set<Id>, nextId: nat, gizmos: map<Id, Gizmo>, models: seq<Entry>, folders: set<string>,
                    current: Option<Model>, controls: Option<Id>, m: Model, c: Id,
                    scene': set<Id>, nextId': nat, gizmos': map<Id, Gizmo>)
    requires ViewerOk(scene, nextId, gizmos, models, folders, current, controls)
    requires m.id == nextId && c == nextId + 1 && nextId' == nextId + 2
    requires scene' == scene - SlotIds(current, controls) + {m.id, c}
    requires gizmos' == gizmos[c := Gizmo(Some(m.id), false, ImportGizmo)]
    ensures ViewerOk(scene', nextId', gizmos', models, folders, Some(m), Some(c))
  {
    forall k | 0 <= k < |models|
      ensures EntryLive(scene', gizmos', models[k])
    {
      assert EntryLive(scene, gizmos, models[k]);
    }
    forall k | 0 <= k < |models|
      ensures models[k].sceneRoot != m.id
    {
      assert EntryLive(scene, gizmos, models[k]);
    }
  }

  /** Emptying the slot, which takes its model and gizmo out of the scene
      and detaches the gizmo, leaves the registry consistent. */
  lemma RemoveSlotKeeps(scene: set<Id>, nextId: nat, gizmos: map<Id, Gizmo>, models: seq<Entry>, folders: set<string>,
                        current: Option<Model>, controls: Option<Id>, scene': set<Id>, gizmos': map<Id, Gizmo>)
    requires ViewerOk(scene, nextId, gizmos, models, folders, current, controls)
    requires scene' == scene - SlotIds(current, controls)
    requires gizmos' == if controls.Some? then gizmos[controls.value := gizmos[controls.value].(attached := None)] else gizmos
    ensures ViewerOk(scene', nextId, gizmos', models, folders, None, None)
  {
    forall k | 0 <= k < |models|
      ensures EntryLive(scene', gizmos', models[k])
    {
      assert EntryLive(scene, gizmos, models[k]);
    }
  }
}
